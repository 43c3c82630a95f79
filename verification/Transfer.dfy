/** The lock-step transfer through shared memory of chapter_48: svshm_xfr_writer.c with
    svshm_xfr_reader.c, over binary semaphores, and the *_mod.c programs, the same over event flags.

    A state holds the semaphore set, the shared segment, the input not yet read, the output, and for each
    program its position and its counters. A step is one semaphore call, one read(), one write() or one
    test of shmp->cnt; the two programs interleave in any way.
  */
module Transfer {
  import opened SystemVSem

  type Byte = bv8

  const WRITE_SEM: nat := 0
  const READ_SEM: nat := 1

  datatype Primitives = BinarySems | EventFlagPrims

  datatype WriterPC =
    | WReserve     // reserveSem(WRITE_SEM), wait for our turn
    | WRead        // read() into the segment
    | WRelease     // releaseSem(READ_SEM)
    | WTest        // shmp->cnt == 0 ?
    | WLast        // reserveSem(WRITE_SEM) once more
    | WRemove      // remove the semaphores and the segment
    | WDone

  datatype ReaderPC =
    | RReserve     // reserveSem(READ_SEM), wait for our turn
    | RTest        // shmp->cnt == 0 ?
    | RWrite       // write() to the output
    | RRelease     // releaseSem(WRITE_SEM)
    | RLast        // releaseSem(WRITE_SEM) after the end of input
    | RDone

  /** `sems` is empty once the set has been removed. */
  datatype State = State(
    sems: seq<nat>, cnt: nat, buf: seq<Byte>,
    input: seq<Byte>, output: seq<Byte>,
    wpc: WriterPC, wbytes: nat, wxfrs: nat,
    rpc: ReaderPC, rbytes: nat, rxfrs: nat)

  // ---------------------------------------------------------------- steps

  /** "Take" and "give" are reserveSem and releaseSem, or waitForEventFlag and setEventFlag. */
  function Take(p: Primitives, sems: seq<nat>, n: nat): Outcome
    requires n < |sems|
  {
    if p.BinarySems? then ReserveSem(sems, n) else WaitForEventFlag(sems, n)
  }

  function Give(p: Primitives, sems: seq<nat>, n: nat): Outcome
    requires n < |sems|
  {
    if p.BinarySems? then ReleaseSem(sems, n) else SetEventFlag(sems, n)
  }

  /** The set after the initialisation by the writer; semget() creates it with all values zero. */
  function InitialSems(p: Primitives): (sems: seq<nat>) {
    match p
    case BinarySems => InitSemInUse(InitSemAvailable([0, 0], WRITE_SEM), READ_SEM)
    case EventFlagPrims =>
      match SetEventFlag([0, 0], WRITE_SEM)
      case Done(v) => (match ClearEventFlag(v, READ_SEM) case Done(v') => v' case _ => v)
      case _ => [0, 0]
  }

  predicate Init(p: Primitives, s: State, input: seq<Byte>) {
    && s.sems == InitialSems(p) && |s.buf| >= 1 && s.cnt <= |s.buf|
    && s.input == input && s.output == []
    && s.wpc == WReserve && s.wbytes == 0 && s.wxfrs == 0
    && s.rpc == RReserve && s.rbytes == 0 && s.rxfrs == 0
  }

  /** What read() may return: 0 at the end of input, otherwise any number of bytes that fits. */
  predicate ReadCount(s: State, n: nat) {
    if s.input == [] then n == 0 else 1 <= n <= |s.input| && n <= |s.buf|
  }

  /** The writer can step; `n` is what read() returns should it be called. */
  predicate WriterCan(p: Primitives, s: State, n: nat) {
    match s.wpc
    case WReserve => WRITE_SEM < |s.sems| && Take(p, s.sems, WRITE_SEM).Done?
    case WRead => ReadCount(s, n)
    case WRelease => READ_SEM < |s.sems| && Give(p, s.sems, READ_SEM).Done?
    case WTest => true
    case WLast => WRITE_SEM < |s.sems| && Take(p, s.sems, WRITE_SEM).Done?
    case WRemove => true
    case WDone => false
  }

  function WriterStep(p: Primitives, s: State, n: nat): State
    requires WriterCan(p, s, n)
  {
    match s.wpc
    case WReserve => s.(sems := Take(p, s.sems, WRITE_SEM).vals, wpc := WRead)
    case WRead => s.(cnt := n, buf := s.input[..n] + s.buf[n..], input := s.input[n..], wpc := WRelease)
    case WRelease => s.(sems := Give(p, s.sems, READ_SEM).vals, wpc := WTest)
    case WTest =>
      if s.cnt == 0 then s.(wpc := WLast)
      else s.(wpc := WReserve, wxfrs := s.wxfrs + 1, wbytes := s.wbytes + s.cnt)
    case WLast => s.(sems := Take(p, s.sems, WRITE_SEM).vals, wpc := WRemove)
    case WRemove => s.(sems := [], wpc := WDone)
  }

  predicate ReaderCan(p: Primitives, s: State) {
    match s.rpc
    case RReserve => READ_SEM < |s.sems| && Take(p, s.sems, READ_SEM).Done?
    case RTest => true
    case RWrite => s.cnt <= |s.buf|
    case RRelease => WRITE_SEM < |s.sems| && Give(p, s.sems, WRITE_SEM).Done?
    case RLast => WRITE_SEM < |s.sems| && Give(p, s.sems, WRITE_SEM).Done?
    case RDone => false
  }

  function ReaderStep(p: Primitives, s: State): State
    requires ReaderCan(p, s)
  {
    match s.rpc
    case RReserve => s.(sems := Take(p, s.sems, READ_SEM).vals, rpc := RTest)
    case RTest => if s.cnt == 0 then s.(rpc := RLast) else s.(rpc := RWrite, rbytes := s.rbytes + s.cnt)
    case RWrite => s.(output := s.output + s.buf[..s.cnt], rpc := RRelease)
    case RRelease => s.(sems := Give(p, s.sems, WRITE_SEM).vals, rpc := RReserve, rxfrs := s.rxfrs + 1)
    case RLast => s.(sems := Give(p, s.sems, WRITE_SEM).vals, rpc := RDone)
  }

  datatype Label = Writer(n: nat) | Reader

  predicate Next(p: Primitives, s: State, l: Label, s': State) {
    match l
    case Writer(n) => WriterCan(p, s, n) && s' == WriterStep(p, s, n)
    case Reader => ReaderCan(p, s) && s' == ReaderStep(p, s)
  }

  ghost predicate IsRun(p: Primitives, ss: seq<State>, ls: seq<Label>, input: seq<Byte>) {
    && |ss| == |ls| + 1 && Init(p, ss[0], input)
    && forall i {:trigger ls[i]} | 0 <= i < |ls| :: Next(p, ss[i], ls[i], ss[i + 1])
  }

  // ---------------------------------------------------------------- invariant of the semaphore version

  predicate WriterTurn(s: State) {
    s.wpc in {WRead, WRelease, WRemove}
  }

  predicate ReaderTurn(s: State) {
    s.rpc in {RTest, RWrite, RRelease, RLast}
  }

  function B(b: bool): nat {
    if b then 1 else 0
  }

  /** The end of input has been written into the segment. */
  predicate EofWritten(s: State) {
    s.cnt == 0 && s.wpc in {WRelease, WTest, WLast, WRemove, WDone}
  }

  /** A block is in the segment that the reader has not copied to the output. */
  predicate Unread(s: State) {
    s.wpc == WRelease || (|s.sems| == 2 && s.sems[READ_SEM] == 1) || s.rpc in {RTest, RWrite}
  }

  /** Exactly one of: the writer may go, the reader may go, one of them is at it. */
  predicate Turns(s: State) {
    if s.wpc == WDone then s.sems == [] && s.rpc == RDone
    else |s.sems| == 2 && s.sems[0] + s.sems[1] + B(WriterTurn(s)) + B(ReaderTurn(s)) == 1
  }

  /** What each program has got to agrees with the other. */
  predicate Phases(s: State) {
    && (s.wpc in {WLast, WRemove, WDone} ==> s.cnt == 0)
    && (s.wpc == WReserve && (Unread(s) || s.rpc == RRelease) ==> s.cnt > 0)
    && (s.rpc in {RLast, RDone} ==> EofWritten(s))
    && (s.rpc in {RWrite, RRelease} ==> s.cnt > 0)
    && (EofWritten(s) ==> s.input == [])
    && (s.wpc == WRemove || s.wpc == WDone ==> s.rpc == RDone)
    && (s.rpc == RDone ==> !Unread(s) && s.wpc != WRelease)
    && (EofWritten(s) && s.rpc != RDone ==> Unread(s) || s.rpc == RLast)
    && (s.wpc == WTest && s.cnt > 0 ==> s.rpc != RDone)
  }

  /** Where the bytes of the input are. */
  predicate Data(s: State, input: seq<Byte>) {
    && s.cnt <= |s.buf| && 1 <= |s.buf|
    && input == s.output + (if Unread(s) then s.buf[..s.cnt] else []) + s.input
  }

  /** What the counters have counted. */
  predicate Counts(s: State, input: seq<Byte>) {
    && s.rbytes == |s.output| + (if s.rpc == RWrite then s.cnt else 0)
    && s.wbytes + (if s.wpc in {WRelease, WTest} then s.cnt else 0) == |input| - |s.input|
    && s.wxfrs + B(s.wpc in {WRelease, WTest} && s.cnt > 0)
       == s.rxfrs + B(s.cnt > 0 && (Unread(s) || s.rpc == RRelease))
  }

  predicate Inv(s: State, input: seq<Byte>) {
    Turns(s) && Phases(s) && Data(s, input) && Counts(s, input)
  }

  lemma InitInv(s: State, input: seq<Byte>)
    requires Init(BinarySems, s, input)
    ensures Inv(s, input)
  {
  }

  lemma WriterKeepsInv(s: State, input: seq<Byte>, n: nat)
    requires Inv(s, input) && WriterCan(BinarySems, s, n)
    ensures Inv(WriterStep(BinarySems, s, n), input)
  {
    hide Semop;
    if |s.sems| == 2 {
      BinarySemaphores(s.sems, WRITE_SEM);
      BinarySemaphores(s.sems, READ_SEM);
    }
    var s' := WriterStep(BinarySems, s, n);
    if s.wpc == WRead {
      assert s'.buf[..s'.cnt] == s.input[..n];
      assert s.input == s.input[..n] + s.input[n..];
    }
  }

  lemma ReaderKeepsInv(s: State, input: seq<Byte>)
    requires Inv(s, input) && ReaderCan(BinarySems, s)
    ensures Inv(ReaderStep(BinarySems, s), input)
  {
    hide Semop;
    if |s.sems| == 2 {
      BinarySemaphores(s.sems, WRITE_SEM);
      BinarySemaphores(s.sems, READ_SEM);
    }
  }
}
