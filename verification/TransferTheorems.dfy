/** What the two transfer programs guarantee, over every run. */
module TransferTheorems {
  import opened SystemVSem
  import opened Transfer

  // ---------------------------------------------------------------- binary semaphores: safety

  lemma {:induction false} RunKeepsInv(ss: seq<State>, ls: seq<Label>, input: seq<Byte>, k: nat)
    requires IsRun(BinarySems, ss, ls, input) && k < |ss|
    ensures Inv(ss[k], input)
    decreases k
  {
    if k == 0 {
      InitInv(ss[0], input);
    } else {
      RunKeepsInv(ss, ls, input, k - 1);
      assert Next(BinarySems, ss[k - 1], ls[k - 1], ss[k - 1 + 1]);
      match ls[k - 1]
      case Writer(n) => WriterKeepsInv(ss[k - 1], input, n);
      case Reader => ReaderKeepsInv(ss[k - 1], input);
    }
  }

  /** End to end: the output is always a prefix of the input, and all of it when the writer has finished,
      with equal byte and transfer counts on both sides. */
  lemma EndToEnd(ss: seq<State>, ls: seq<Label>, input: seq<Byte>, k: nat)
    requires IsRun(BinarySems, ss, ls, input) && k < |ss|
    ensures ss[k].output <= input
    ensures ss[k].wpc == WDone ==> ss[k].rpc == RDone
    ensures ss[k].rpc == RDone ==> ss[k].output == input && ss[k].rbytes == |input|
    ensures ss[k].wpc == WDone ==> ss[k].wbytes == ss[k].rbytes && ss[k].wxfrs == ss[k].rxfrs
  {
    RunKeepsInv(ss, ls, input, k);
  }

  /** The reader has the segment, or has been given it. */
  predicate ReadersTurn(s: State) {
    ReaderTurn(s) || (|s.sems| == 2 && s.sems[READ_SEM] > 0)
  }

  predicate WritersTurn(s: State) {
    WriterTurn(s) || (|s.sems| == 2 && s.sems[WRITE_SEM] > 0)
  }

  /** The semaphores and the turns held add up to one until the set is removed, so it is never both programs'
      turn; in the reader's turn the segment does not change, the writer at most reads the count there. */
  lemma Alternation(ss: seq<State>, ls: seq<Label>, input: seq<Byte>, k: nat)
    requires IsRun(BinarySems, ss, ls, input) && k < |ss|
    ensures ss[k].sems != [] ==> |ss[k].sems| == 2
    ensures ss[k].sems != [] ==> ss[k].sems[0] + ss[k].sems[1] + B(WriterTurn(ss[k])) + B(ReaderTurn(ss[k])) == 1
    ensures ss[k].sems != [] ==> WritersTurn(ss[k]) != ReadersTurn(ss[k])
    ensures k < |ls| && ReadersTurn(ss[k]) ==> ss[k + 1].cnt == ss[k].cnt && ss[k + 1].buf == ss[k].buf
  {
    RunKeepsInv(ss, ls, input, k);
    if k < |ls| {
      assert Next(BinarySems, ss[k], ls[k], ss[k + 1]);
    }
  }

  /** Once the writer has removed the set, the reader makes no further call: it has finished. */
  lemma SafeShutdown(ss: seq<State>, ls: seq<Label>, input: seq<Byte>, k: nat)
    requires IsRun(BinarySems, ss, ls, input) && k < |ss|
    ensures ss[k].wpc in {WRemove, WDone} ==> ss[k].rpc == RDone
    ensures ss[k].sems == [] <==> ss[k].wpc == WDone
  {
    RunKeepsInv(ss, ls, input, k);
  }

  /** Nothing but its semaphore holds a program up, and read() may return any number of bytes that fits. */
  lemma OnlySemaphoresBlock(s: State, input: seq<Byte>, n: nat)
    requires Inv(s, input)
    ensures WriterCan(BinarySems, s, n) <==>
              match s.wpc
              case WReserve => |s.sems| == 2 && s.sems[0] > 0
              case WLast => |s.sems| == 2 && s.sems[0] > 0
              case WRead => if s.input == [] then n == 0 else 1 <= n <= |s.input| && n <= |s.buf|
              case WDone => false
              case _ => true
    ensures ReaderCan(BinarySems, s) <==>
              match s.rpc
              case RReserve => |s.sems| == 2 && s.sems[1] > 0
              case RDone => false
              case _ => true
  {
    hide Semop;
    if |s.sems| == 2 {
      BinarySemaphores(s.sems, WRITE_SEM);
      BinarySemaphores(s.sems, READ_SEM);
    }
  }

  /** The steps of a run at which read() has returned bytes. */
  ghost function Reads(ss: seq<State>, ls: seq<Label>, k: nat): set<nat>
    requires k <= |ls| <= |ss|
  {
    set i: nat | i < k && ss[i].wpc == WRead && ls[i].Writer? && ls[i].n > 0
  }

  function Counted(s: State): nat {
    s.wxfrs + B(s.wpc in {WRelease, WTest} && s.cnt > 0)
  }

  lemma ReadCounted(s: State, l: Label, s': State, input: seq<Byte>)
    requires Inv(s, input) && Next(BinarySems, s, l, s')
    ensures Counted(s') == Counted(s) + B(s.wpc == WRead && l.Writer? && l.n > 0)
  {
    hide Semop, Turns, Data, Counts;
  }

  lemma {:induction false} ReadsCounted(ss: seq<State>, ls: seq<Label>, input: seq<Byte>, k: nat)
    requires IsRun(BinarySems, ss, ls, input) && k <= |ls|
    ensures Counted(ss[k]) == |Reads(ss, ls, k)|
    decreases k
  {
    hide Inv, Next, Counted, Reads, Init;
    if k == 0 {
      NoReads(ss, ls);
      NoneCounted(ss[0], input);
    } else {
      ReadsCounted(ss, ls, input, k - 1);
      RunKeepsInv(ss, ls, input, k - 1);
      assert Next(BinarySems, ss[k - 1], ls[k - 1], ss[k - 1 + 1]);
      ReadCounted(ss[k - 1], ls[k - 1], ss[k], input);
      ReadsStep(ss, ls, k);
    }
  }

  lemma ReadsStep(ss: seq<State>, ls: seq<Label>, k: nat)
    requires 0 < k <= |ls| <= |ss|
    ensures |Reads(ss, ls, k)|
            == |Reads(ss, ls, k - 1)| + B(ss[k - 1].wpc == WRead && ls[k - 1].Writer? && ls[k - 1].n > 0)
  {
    var read := ss[k - 1].wpc == WRead && ls[k - 1].Writer? && ls[k - 1].n > 0;
    assert Reads(ss, ls, k) == Reads(ss, ls, k - 1) + if read then {k - 1} else {};
  }

  lemma NoReads(ss: seq<State>, ls: seq<Label>)
    requires |ls| <= |ss|
    ensures |Reads(ss, ls, 0)| == 0
  {
    assert Reads(ss, ls, 0) == {};
  }

  lemma NoneCounted(s: State, input: seq<Byte>)
    requires Init(BinarySems, s, input)
    ensures Counted(s) == 0
  {
  }

  /** The transfers that both programs report are the calls of read() that returned bytes. */
  lemma TransfersAreReads(ss: seq<State>, ls: seq<Label>, input: seq<Byte>)
    requires IsRun(BinarySems, ss, ls, input) && ss[|ls|].wpc == WDone
    ensures ss[|ls|].rxfrs == ss[|ls|].wxfrs
            == |set i: nat | i < |ls| && ss[i].wpc == WRead && ls[i].Writer? && ls[i].n > 0|
    ensures ss[|ls|].rbytes == ss[|ls|].wbytes == |input|
  {
    ReadsCounted(ss, ls, input, |ls|);
    RunKeepsInv(ss, ls, input, |ls|);
    assert Reads(ss, ls, |ls|) == set i: nat | i < |ls| && ss[i].wpc == WRead && ls[i].Writer? && ls[i].n > 0;
  }

  // ---------------------------------------------------------------- binary semaphores: progress

  /** No unfinished state is stuck. */
  lemma CanStep(s: State, input: seq<Byte>) returns (l: Label, s': State)
    requires Inv(s, input) && !(s.wpc == WDone && s.rpc == RDone)
    ensures Next(BinarySems, s, l, s')
  {
    BinarySemaphores(s.sems, WRITE_SEM);
    BinarySemaphores(s.sems, READ_SEM);
    var n := if s.input == [] then 0 else 1;
    assert WriterCan(BinarySems, s, n) || ReaderCan(BinarySems, s);
    if WriterCan(BinarySems, s, n) {
      l, s' := Writer(n), WriterStep(BinarySems, s, n);
    } else {
      l, s' := Reader, ReaderStep(BinarySems, s);
    }
  }

  function WriterRank(pc: WriterPC): nat {
    match pc
    case WReserve => 1
    case WRead => 0
    case WRelease => 11
    case WTest => 4
    case WLast => 3
    case WRemove => 2
    case WDone => 0
  }

  function ReaderRank(pc: ReaderPC): nat {
    match pc
    case RReserve => 0
    case RTest => 5
    case RWrite => 4
    case RRelease => 3
    case RLast => 3
    case RDone => 0
  }

  function Measure(s: State): nat {
    12 * |s.input| + 12 * B(!EofWritten(s)) + WriterRank(s.wpc) + ReaderRank(s.rpc)
    + (if |s.sems| == 2 then 6 * s.sems[READ_SEM] else 0)
  }

  lemma WriterDecreases(s: State, n: nat)
    requires |s.sems| == 2 && WriterCan(BinarySems, s, n)
    ensures Measure(WriterStep(BinarySems, s, n)) < Measure(s)
  {
    hide Semop;
    BinarySemaphores(s.sems, WRITE_SEM);
    BinarySemaphores(s.sems, READ_SEM);
  }

  lemma ReaderDecreases(s: State)
    requires |s.sems| == 2 && ReaderCan(BinarySems, s)
    ensures Measure(ReaderStep(BinarySems, s)) < Measure(s)
  {
    hide Semop;
    BinarySemaphores(s.sems, WRITE_SEM);
    BinarySemaphores(s.sems, READ_SEM);
  }

  lemma StepsDecrease(s: State, l: Label, s': State)
    requires |s.sems| == 2 && Next(BinarySems, s, l, s')
    ensures Measure(s') < Measure(s)
  {
    match l
    case Writer(n) => WriterDecreases(s, n);
    case Reader => ReaderDecreases(s);
  }

  lemma {:induction false} LengthBound(ss: seq<State>, ls: seq<Label>, input: seq<Byte>, k: nat)
    requires IsRun(BinarySems, ss, ls, input) && k < |ss|
    ensures k + Measure(ss[k]) <= Measure(ss[0])
    decreases k
  {
    if k > 0 {
      LengthBound(ss, ls, input, k - 1);
      RunKeepsInv(ss, ls, input, k - 1);
      assert Next(BinarySems, ss[k - 1], ls[k - 1], ss[k - 1 + 1]);
      StepsDecrease(ss[k - 1], ls[k - 1], ss[k]);
    }
  }

  /** Every run is finite, and one that cannot be continued has transferred everything: both programs have
      finished and the output is the input. */
  lemma Terminates(ss: seq<State>, ls: seq<Label>, input: seq<Byte>)
    requires IsRun(BinarySems, ss, ls, input)
    ensures |ls| <= 12 * |input| + 13
    ensures (forall l, s' :: !Next(BinarySems, ss[|ls|], l, s')) ==>
              ss[|ls|].wpc == WDone && ss[|ls|].rpc == RDone && ss[|ls|].output == input
  {
    LengthBound(ss, ls, input, |ls|);
    BinarySemaphores([0, 0], WRITE_SEM);
    assert Measure(ss[0]) == 12 * |input| + 13;
    var s := ss[|ls|];
    RunKeepsInv(ss, ls, input, |ls|);
    if !(s.wpc == WDone && s.rpc == RDone) {
      var l, s' := CanStep(s, input);
    }
  }

  // ---------------------------------------------------------------- event flags

  /** Flag set (0) for semaphore value 1, and the other way round. */
  function Mirror(s: State): State {
    s.(sems := seq(|s.sems|, i requires 0 <= i < |s.sems| => if s.sems[i] == 0 then 1 else 0))
  }

  function MirrorAll(ss: seq<State>): seq<State> {
    seq(|ss|, i requires 0 <= i < |ss| => Mirror(ss[i]))
  }

  predicate Binary(s: State) {
    forall i | 0 <= i < |s.sems| :: s.sems[i] <= 1
  }

  lemma MirrorTwice(s: State)
    requires Binary(s)
    ensures Mirror(Mirror(s)) == s
  {
    assert Mirror(Mirror(s)).sems == s.sems;
  }

  lemma MirrorInit(s: State, input: seq<Byte>)
    ensures Init(EventFlagPrims, s, input) ==> Init(BinarySems, Mirror(s), input) && Binary(s)
    ensures Init(BinarySems, s, input) ==> Init(EventFlagPrims, Mirror(s), input) && Binary(s)
  {
    EventFlags([0, 0], WRITE_SEM);
    EventFlags([0, 0], READ_SEM);
    assert InitialSems(EventFlagPrims) == [0, 1];
    assert InitialSems(BinarySems) == [1, 0];
    assert s.sems == [0, 1] ==> Mirror(s).sems == [1, 0];
    assert s.sems == [1, 0] ==> Mirror(s).sems == [0, 1];
  }

  /** setEventFlag is only ever called on a clear flag, value 1. */
  predicate SetsOnlyClearFlags(f: State) {
    && (f.wpc == WRelease ==> |f.sems| == 2 && f.sems[READ_SEM] == 1)
    && (f.rpc in {RRelease, RLast} ==> |f.sems| == 2 && f.sems[WRITE_SEM] == 1)
  }

  lemma TakeAgrees(fs: seq<nat>, ss: seq<nat>, n: nat)
    requires |fs| == |ss| && n < |fs| && fs[n] <= 1 && ss[n] == 1 - fs[n]
    ensures Take(EventFlagPrims, fs, n).Done? <==> Take(BinarySems, ss, n).Done?
    ensures Take(BinarySems, ss, n).Done? ==>
              Take(EventFlagPrims, fs, n).vals == fs[n := 1] && Take(BinarySems, ss, n).vals == ss[n := 0]
    ensures fs[n] == 1 ==>
              Give(EventFlagPrims, fs, n) == Done(fs[n := 0]) && Give(BinarySems, ss, n) == Done(ss[n := 1])
  {
    FlagsAreSemaphores(fs, ss, n);
  }

  lemma SetMirrors(f: State, i: nat, v: nat)
    requires |f.sems| == 2 && i < 2 && v <= 1
    ensures Mirror(f.(sems := f.sems[i := v])).sems == Mirror(f).sems[i := 1 - v]
  {
  }

  lemma WriterMirrors(f: State, input: seq<Byte>, n: nat)
    requires Binary(f) && Inv(Mirror(f), input)
    ensures WriterCan(EventFlagPrims, f, n) <==> WriterCan(BinarySems, Mirror(f), n)
    ensures WriterCan(EventFlagPrims, f, n) ==> Binary(WriterStep(EventFlagPrims, f, n))
    ensures WriterCan(EventFlagPrims, f, n) ==>
              Mirror(WriterStep(EventFlagPrims, f, n)) == WriterStep(BinarySems, Mirror(f), n)
  {
    if |f.sems| == 2 {
      TakeAgrees(f.sems, Mirror(f).sems, WRITE_SEM);
      TakeAgrees(f.sems, Mirror(f).sems, READ_SEM);
      SetMirrors(f, WRITE_SEM, 1);
      SetMirrors(f, READ_SEM, 0);
    }
  }

  lemma ReaderMirrors(f: State, input: seq<Byte>)
    requires Binary(f) && Inv(Mirror(f), input)
    ensures ReaderCan(EventFlagPrims, f) <==> ReaderCan(BinarySems, Mirror(f))
    ensures ReaderCan(EventFlagPrims, f) ==> Binary(ReaderStep(EventFlagPrims, f))
    ensures ReaderCan(EventFlagPrims, f) ==>
              Mirror(ReaderStep(EventFlagPrims, f)) == ReaderStep(BinarySems, Mirror(f))
  {
    if |f.sems| == 2 {
      TakeAgrees(f.sems, Mirror(f).sems, WRITE_SEM);
      TakeAgrees(f.sems, Mirror(f).sems, READ_SEM);
      SetMirrors(f, WRITE_SEM, 0);
      SetMirrors(f, READ_SEM, 1);
    }
  }

  /** One step: the flag protocol can do exactly what the semaphore protocol can, with the mirrored result. */
  lemma StepMirrors(f: State, input: seq<Byte>, l: Label, f': State)
    requires Binary(f) && Inv(Mirror(f), input)
    ensures Next(EventFlagPrims, f, l, f') <==> Binary(f') && Next(BinarySems, Mirror(f), l, Mirror(f'))
  {
    hide Mirror, Binary, WriterStep, ReaderStep, WriterCan, ReaderCan, Inv;
    if Binary(f') { MirrorTwice(f'); }
    match l
    case Writer(n) =>
      WriterMirrors(f, input, n);
      if WriterCan(EventFlagPrims, f, n) { MirrorTwice(WriterStep(EventFlagPrims, f, n)); }
    case Reader =>
      ReaderMirrors(f, input);
      if ReaderCan(EventFlagPrims, f) { MirrorTwice(ReaderStep(EventFlagPrims, f)); }
  }

  lemma ClearWhenSet(f: State, input: seq<Byte>)
    requires Binary(f) && Inv(Mirror(f), input)
    ensures SetsOnlyClearFlags(f)
  {
  }

  /** Every run of the flag protocol is, state by state, a run of the semaphore protocol; the flags stay in
      {0, 1} and setEventFlag only meets clear flags. */
  lemma {:induction false} FlagRunState(fs: seq<State>, ls: seq<Label>, input: seq<Byte>, k: nat)
    requires IsRun(EventFlagPrims, fs, ls, input) && k < |fs|
    ensures Binary(fs[k]) && Inv(Mirror(fs[k]), input) && SetsOnlyClearFlags(fs[k])
    ensures k > 0 ==> Next(BinarySems, Mirror(fs[k - 1]), ls[k - 1], Mirror(fs[k]))
    decreases k
  {
    hide Mirror, Binary, Inv, SetsOnlyClearFlags, WriterStep, ReaderStep, WriterCan, ReaderCan;
    if k == 0 {
      MirrorInit(fs[0], input);
      InitInv(Mirror(fs[0]), input);
    } else {
      FlagRunState(fs, ls, input, k - 1);
      assert Next(EventFlagPrims, fs[k - 1], ls[k - 1], fs[k - 1 + 1]);
      StepMirrors(fs[k - 1], input, ls[k - 1], fs[k]);
      match ls[k - 1]
      case Writer(n) => WriterKeepsInv(Mirror(fs[k - 1]), input, n);
      case Reader => ReaderKeepsInv(Mirror(fs[k - 1]), input);
    }
    ClearWhenSet(fs[k], input);
  }

  /** The runs of the two protocols are the mirror images of each other. */
  lemma FlagRunsAreSemRuns(fs: seq<State>, ls: seq<Label>, input: seq<Byte>)
    requires forall k | 0 <= k < |fs| :: Binary(fs[k])
    ensures IsRun(EventFlagPrims, fs, ls, input) <==> IsRun(BinarySems, MirrorAll(fs), ls, input)
  {
    hide Mirror, Binary, Inv, WriterStep, ReaderStep, WriterCan, ReaderCan, Next, Init;
    var ss := MirrorAll(fs);
    if IsRun(EventFlagPrims, fs, ls, input) {
      MirrorInit(fs[0], input);
      forall i {:trigger ls[i]} | 0 <= i < |ls| ensures Next(BinarySems, ss[i], ls[i], ss[i + 1]) {
        FlagRunState(fs, ls, input, i + 1);
      }
    }
    if IsRun(BinarySems, ss, ls, input) {
      assert ss[0] == Mirror(fs[0]);
      MirrorInit(ss[0], input);
      MirrorTwice(fs[0]);
      forall i {:trigger ls[i]} | 0 <= i < |ls| ensures Next(EventFlagPrims, fs[i], ls[i], fs[i + 1]) {
        RunKeepsInv(ss, ls, input, i);
        assert ss[i] == Mirror(fs[i]) && ss[i + 1] == Mirror(fs[i + 1]);
        StepMirrors(fs[i], input, ls[i], fs[i + 1]);
      }
    }
  }

  /** So the flag protocol transfers everything too. */
  lemma FlagsEndToEnd(fs: seq<State>, ls: seq<Label>, input: seq<Byte>, k: nat)
    requires IsRun(EventFlagPrims, fs, ls, input) && k < |fs|
    ensures forall i | 0 <= i < |fs[k].sems| :: fs[k].sems[i] <= 1
    ensures SetsOnlyClearFlags(fs[k])
    ensures fs[k].output <= input && |ls| <= 12 * |input| + 13
    ensures fs[k].wpc == WDone ==> fs[k].rpc == RDone && fs[k].output == input
    ensures fs[k].wpc == WDone ==> fs[k].wbytes == fs[k].rbytes == |input| && fs[k].wxfrs == fs[k].rxfrs
  {
    forall i | 0 <= i < |fs| ensures Binary(fs[i]) { FlagRunState(fs, ls, input, i); }
    FlagRunState(fs, ls, input, k);
    FlagRunsAreSemRuns(fs, ls, input);
    EndToEnd(MirrorAll(fs), ls, input, k);
    Terminates(MirrorAll(fs), ls, input);
  }

  /** No unfinished state of the flag protocol is stuck either. */
  lemma FlagsCanStep(f: State, input: seq<Byte>) returns (l: Label, f': State)
    requires Binary(f) && Inv(Mirror(f), input) && !(f.wpc == WDone && f.rpc == RDone)
    ensures Next(EventFlagPrims, f, l, f')
  {
    hide WriterCan, ReaderCan, WriterStep, ReaderStep, Inv;
    var s';
    l, s' := CanStep(Mirror(f), input);
    match l
    case Writer(n) =>
      WriterMirrors(f, input, n);
      f' := WriterStep(EventFlagPrims, f, n);
    case Reader =>
      ReaderMirrors(f, input);
      f' := ReaderStep(EventFlagPrims, f);
  }

  /** A run of the flag protocol that cannot be continued has transferred everything. */
  lemma FlagsTerminate(fs: seq<State>, ls: seq<Label>, input: seq<Byte>)
    requires IsRun(EventFlagPrims, fs, ls, input)
    ensures |ls| <= 12 * |input| + 13
    ensures (forall l, f' :: !Next(EventFlagPrims, fs[|ls|], l, f')) ==>
              fs[|ls|].wpc == WDone && fs[|ls|].rpc == RDone && fs[|ls|].output == input
  {
    var f := fs[|ls|];
    FlagsEndToEnd(fs, ls, input, |ls|);
    FlagRunState(fs, ls, input, |ls|);
    if !(f.wpc == WDone && f.rpc == RDone) {
      var l, f' := FlagsCanStep(f, input);
    }
  }
}
