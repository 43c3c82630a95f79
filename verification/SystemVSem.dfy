/** Semaphore sets, and the two sets of primitives that chapter_48 builds on semop(): the binary semaphores
    of binary_sems.c and the event flags of vms_flags.c. */
module SystemVSem {

  /** struct sembuf; `nowait` is IPC_NOWAIT. */
  datatype SemBuf = SemBuf(num: nat, op: int, nowait: bool)

  /** Outcome of an attempt to perform an array of operations. */
  datatype Outcome = Done(vals: seq<nat>) | Blocks | Again

  predicate Proceeds(v: nat, op: int) {
    if op == 0 then v == 0 else v + op >= 0
  }

  /** semop(): all the operations in array order, or none of them (POSIX.1-2017, semop()). */
  function Semop(vals: seq<nat>, ops: seq<SemBuf>): (r: Outcome)
    requires forall i | 0 <= i < |ops| :: ops[i].num < |vals|
    ensures r.Done? ==> |r.vals| == |vals|
    decreases |ops|
  {
    if ops == [] then Done(vals)
    else
      var o := ops[0];
      if !Proceeds(vals[o.num], o.op) then (if o.nowait then Again else Blocks)
      else Semop(vals[o.num := vals[o.num] + o.op], ops[1..])
  }

  /** What the operations add to semaphore `n`. */
  function Total(ops: seq<SemBuf>, n: nat): int
    decreases |ops|
  {
    if ops == [] then 0 else (if ops[0].num == n then ops[0].op else 0) + Total(ops[1..], n)
  }

  /** The operation at position `i` can be performed after those before it. */
  predicate Possible(vals: seq<nat>, ops: seq<SemBuf>, i: nat)
    requires i < |ops| && ops[i].num < |vals|
  {
    var v := vals[ops[i].num] + Total(ops[..i], ops[i].num);
    if ops[i].op == 0 then v == 0 else v + ops[i].op >= 0
  }

  /** All or nothing: the operations are performed exactly if each is possible after those before it, and then
      every semaphore has changed by what they add up to; otherwise the first that is not possible decides
      between blocking and EAGAIN. */
  lemma {:induction false} SemopAllOrNothing(vals: seq<nat>, ops: seq<SemBuf>)
    requires forall i | 0 <= i < |ops| :: ops[i].num < |vals|
    ensures Semop(vals, ops).Done? <==> forall i | 0 <= i < |ops| :: Possible(vals, ops, i)
    ensures Semop(vals, ops).Done? ==> forall n | 0 <= n < |vals| :: Semop(vals, ops).vals[n] == vals[n] + Total(ops, n)
    ensures forall i | 0 <= i < |ops| && !Possible(vals, ops, i) && (forall j | 0 <= j < i :: Possible(vals, ops, j)) ::
              Semop(vals, ops) == if ops[i].nowait then Again else Blocks
    decreases |ops|
  {
    if ops != [] {
      var o := ops[0];
      assert ops[..0] == [];
      assert Possible(vals, ops, 0) <==> Proceeds(vals[o.num], o.op);
      if Proceeds(vals[o.num], o.op) {
        var vals', rest := vals[o.num := vals[o.num] + o.op], ops[1..];
        SemopAllOrNothing(vals', rest);
        forall i | 0 <= i < |rest| ensures Possible(vals', rest, i) == Possible(vals, ops, i + 1) {
          assert ops[..i + 1] == [o] + rest[..i];
          assert ([o] + rest[..i])[1..] == rest[..i];
        }
        forall i | 0 <= i < |ops| ensures Possible(vals, ops, i) == (i == 0 || Possible(vals', rest, i - 1)) { }
        forall i | 0 <= i < |ops| && !Possible(vals, ops, i) && (forall j | 0 <= j < i :: Possible(vals, ops, j))
          ensures Semop(vals, ops) == if ops[i].nowait then Again else Blocks
        {
          FirstImpossible(vals, ops, vals', rest, i);
        }
      }
    }
  }

  lemma FirstImpossible(vals: seq<nat>, ops: seq<SemBuf>, vals': seq<nat>, rest: seq<SemBuf>, i: nat)
    requires (forall k | 0 <= k < |ops| :: ops[k].num < |vals|) && ops != [] && rest == ops[1..] && |vals'| == |vals|
    requires forall k | 0 <= k < |rest| :: rest[k].num < |vals'|
    requires forall k | 0 <= k < |rest| :: Possible(vals', rest, k) == Possible(vals, ops, k + 1)
    requires i < |ops| && !Possible(vals, ops, i) && (forall j | 0 <= j < i :: Possible(vals, ops, j))
    requires Possible(vals, ops, 0)
    ensures i > 0 && !Possible(vals', rest, i - 1) && forall j | 0 <= j < i - 1 :: Possible(vals', rest, j)
  {
    forall j | 0 <= j < i - 1 ensures Possible(vals', rest, j) { assert Possible(vals, ops, j + 1); }
  }

  // ---------------------------------------------------------------- binary_sems.c

  function InitSemAvailable(vals: seq<nat>, n: nat): seq<nat>
    requires n < |vals|
  {
    vals[n := 1]
  }

  function InitSemInUse(vals: seq<nat>, n: nat): seq<nat>
    requires n < |vals|
  {
    vals[n := 0]
  }

  function ReserveSem(vals: seq<nat>, n: nat): Outcome
    requires n < |vals|
  {
    Semop(vals, [SemBuf(n, -1, false)])
  }

  function ReleaseSem(vals: seq<nat>, n: nat): Outcome
    requires n < |vals|
  {
    Semop(vals, [SemBuf(n, 1, false)])
  }

  // ---------------------------------------------------------------- vms_flags.c: 0 is set, 1 is clear

  /** EAGAIN means that the flag was set already, and is reported as success. */
  function SetEventFlag(vals: seq<nat>, n: nat): Outcome
    requires n < |vals|
  {
    match Semop(vals, [SemBuf(n, -1, true)])
    case Done(v) => Done(v)
    case Again => Done(vals)
    case Blocks => Blocks
  }

  function ClearEventFlag(vals: seq<nat>, n: nat): Outcome
    requires n < |vals|
  {
    Semop(vals, [SemBuf(n, 1, false)])
  }

  /** Waits for the flag and clears it, in one atomic array. */
  function WaitForEventFlag(vals: seq<nat>, n: nat): Outcome
    requires n < |vals|
  {
    Semop(vals, [SemBuf(n, 0, false), SemBuf(n, 1, false)])
  }

  /** getFlagState(): whether the flag is set. */
  function GetFlagState(vals: seq<nat>, n: nat): bool
    requires n < |vals|
  {
    Semop(vals, [SemBuf(n, 0, true)]).Done?
  }

  // ---------------------------------------------------------------- what they do

  lemma BinarySemaphores(vals: seq<nat>, n: nat)
    requires n < |vals|
    ensures ReserveSem(vals, n) == if vals[n] == 0 then Blocks else Done(vals[n := vals[n] - 1])
    ensures ReleaseSem(vals, n) == Done(vals[n := vals[n] + 1])
  {
    var r, l := SemBuf(n, -1, false), SemBuf(n, 1, false);
    if vals[n] > 0 { assert Semop(vals[n := vals[n] - 1], [r][1..]) == Done(vals[n := vals[n] - 1]); }
    assert Semop(vals[n := vals[n] + 1], [l][1..]) == Done(vals[n := vals[n] + 1]);
  }

  lemma EventFlags(vals: seq<nat>, n: nat)
    requires n < |vals|
    ensures WaitForEventFlag(vals, n) == if vals[n] == 0 then Done(vals[n := 1]) else Blocks
    ensures SetEventFlag(vals, n) == Done(if vals[n] == 0 then vals else vals[n := vals[n] - 1])
    ensures ClearEventFlag(vals, n) == Done(vals[n := vals[n] + 1])
    ensures GetFlagState(vals, n) <==> vals[n] == 0
  {
    var z, p, d, q := SemBuf(n, 0, false), SemBuf(n, 1, false), SemBuf(n, -1, true), SemBuf(n, 0, true);
    if vals[n] == 0 {
      assert vals[n := vals[n] + 0] == vals;
      assert [z, p][1..] == [p];
      assert Semop(vals[n := 1], [p][1..]) == Done(vals[n := 1]);
      assert Semop(vals, [p]) == Done(vals[n := 1]);
      assert Semop(vals, [q][1..]) == Done(vals);
    } else {
      assert Semop(vals[n := vals[n] - 1], [d][1..]) == Done(vals[n := vals[n] - 1]);
    }
    assert Semop(vals[n := vals[n] + 1], [p][1..]) == Done(vals[n := vals[n] + 1]);
  }

  /** With flags in {0, 1}, flag value 0 standing for semaphore value 1, the event flags are the binary
      semaphores. */
  lemma FlagsAreSemaphores(flags: seq<nat>, sems: seq<nat>, n: nat)
    requires |flags| == |sems| && n < |flags| && flags[n] <= 1 && sems[n] == 1 - flags[n]
    ensures WaitForEventFlag(flags, n).Done? <==> ReserveSem(sems, n).Done?
    ensures WaitForEventFlag(flags, n).Done? ==>
              WaitForEventFlag(flags, n).vals == flags[n := 1] && ReserveSem(sems, n).vals == sems[n := 0]
    ensures flags[n] == 1 ==>
              SetEventFlag(flags, n) == Done(flags[n := 0]) && ReleaseSem(sems, n) == Done(sems[n := 1])
  {
    BinarySemaphores(sems, n);
    EventFlags(flags, n);
  }
}
