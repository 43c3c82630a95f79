/** How long the calls on the concurrent tree take, counted in steps of their own thread: there is a bound that
    depends on the number of calls alone, however many threads there are and however they are interleaved. */
module ConcurrentTreeProgress {
  import opened Basics
  import opened TreeHeap
  import opened TreeEdits
  import opened ConcurrentTree
  import opened ConcurrentTreeTheorems

  // ---------------------------------------------------------------- how deep a search stands

  /** The nodes that a search for `k` visits. */
  ghost function Way(t: Tree, k: Key): set<Ref> {
    set x | x in Refs(t) && OnPath(t, k, x)
  }

  lemma WayStep(t: Tree, k: Key)
    requires t.Node? && Distinct(t) && k != t.key
    ensures var c := if k < t.key then t.left else t.right;
            Way(t, k) == Way(c, k) + {t.ref} && t.ref !in Way(c, k)
  {
    var c := if k < t.key then t.left else t.right;
    forall y | y in Way(t, k) && y != t.ref ensures y in Way(c, k) { OnPathInTree(c, k, y); }
  }

  lemma {:induction false} WayLength(t: Tree, x: Ref)
    requires Bst(t) && Distinct(t) && x in Refs(t)
    ensures |Way(t, Sub(t, x).key)| == Depth(t, x) + 1
  {
    hide Way;
    var s := Sub(t, x);
    if t.ref == x {
      WayHere(t);
    } else {
      assert s.key in Keys(s);
      if x in Refs(t.left) { WayLength(t.left, x); } else { WayLength(t.right, x); }
      WayStep(t, s.key);
    }
  }

  lemma WayHere(t: Tree)
    requires t.Node?
    ensures Way(t, t.key) == {t.ref}
  {
  }

  lemma SubsetSize<T>(a: set<T>, b: set<T>)
    requires a <= b
    ensures |a| <= |b|
  {
    assert b == a + (b - a);
  }

  lemma DepthInSize(t: Tree, x: Ref)
    requires Bst(t) && Distinct(t) && x in Refs(t)
    ensures Depth(t, x) < |Refs(t)|
  {
    WayLength(t, x);
    SubsetSize(Way(t, Sub(t, x).key), Refs(t));
  }

  /** An edit moves a node up by one level at most. */
  lemma DepthKept(t: Tree, t': Tree, x: Ref)
    requires Bst(t) && Distinct(t) && Bst(t') && Distinct(t') && Displaces(t, t')
    requires x in Refs(t) && x in Refs(t') && Sub(t, x).key == Sub(t', x).key
    ensures Depth(t', x) + 1 >= Depth(t, x)
  {
    var gone: set<Ref> :| |gone| <= 1 && KeepsPaths(t, t', gone);
    var k := Sub(t, x).key;
    WayLength(t, x);
    WayLength(t', x);
    forall y | y in Way(t, k) - gone ensures y in Way(t', k) {
      assert OnPath(t', k, y);
      OnPathInTree(t', k, y);
    }
    SubsetSize(Way(t, k) - gone, Way(t', k));
    SubsetSize(Way(t, k) * gone, gone);
  }

  lemma {:induction false} NodesAndKeys(t: Tree)
    requires Bst(t)
    ensures |Refs(t)| <= |Contents(t)|
  {
    ContentsKeys(t);
    CountNodes(t);
    assert |Contents(t)| == |Contents(t).Keys|;
  }

  lemma {:induction false} CountNodes(t: Tree)
    requires Bst(t)
    ensures |Refs(t)| <= |Keys(t)|
  {
    if t.Node? {
      CountNodes(t.left);
      CountNodes(t.right);
      JoinedSize(Refs(t.left), t.ref, Refs(t.right));
      KeysApart(t);
      JoinedSize(Keys(t.left), t.key, Keys(t.right));
    }
  }

  lemma KeysApart(t: Tree)
    requires Bst(t) && t.Node?
    ensures Keys(t.left) !! Keys(t.right) && t.key !in Keys(t.left) && t.key !in Keys(t.right)
  {
    forall k | k in Keys(t.left) ensures k !in Keys(t.right) { assert k < t.key; }
  }

  lemma JoinedSize<T>(a: set<T>, x: T, b: set<T>)
    ensures |a + {x} + b| <= |a| + 1 + |b|
    ensures a !! b && x !in a && x !in b ==> |a + {x} + b| == |a| + 1 + |b|
  {
  }

  /** A history leaves at most as many entries as it has effects. */
  lemma {:induction false} ReplaySize(es: seq<Effect>)
    ensures Replay(es).Some? ==> |Replay(es).value| <= |es|
    decreases |es|
  {
    if es != [] {
      var front := es[..|es| - 1];
      ReplaySize(front);
      if Replay(es).Some? {
        var m := Replay(front).value;
        match es[|es| - 1].op
        case Add(k, v) => assert m[k := v].Keys == m.Keys + {k};
        case Lookup(_) =>
        case Delete(k) => SubsetSize((m - {k}).Keys, m.Keys);
      }
    }
  }

  // ---------------------------------------------------------------- what a call has still to do

  ghost function Level(t: Tree, x: Ref): nat {
    if x in Refs(t) then Depth(t, x) else 0
  }

  /** A bound on the steps that are left of a call, when `e` of at most `c` calls have taken effect: a tree of
      all keys ever added is at most that deep, and each later effect can put the search back by one level. */
  ghost function Left(c: nat, e: nat, t: Tree, pc: PC): int {
    match pc
    case Idle => 0
    case Start(_) => 3 * (2 * c - e) + 8
    case AtRoot(_) => 3 * (2 * c - e) + 7
    case At(_, _, x) => 3 * (2 * c - e - Level(t, x)) + 6
    case LockNext(_, _, x, _) => 3 * (2 * c - e - Level(t, x)) + 5
    case Shift(_, _, x, _) => 3 * (2 * c - e - Level(t, x)) + 4
    case RootLock(_, _) => 5
    case RootCopy(_, _) => 4
    case Free(_, _, _, rest) => |rest| + 2
    case Release(_, _, held) => |held| + 1
  }

  ghost function LeftOf(c: nat, e: nat, s: State, t: Tree, tid: Tid): int {
    if tid in s.pcs then Left(c, e, t, s.pcs[tid]) else 0
  }

  lemma LeftNonNegative(c: nat, e: nat, s: State, t: Tree, tid: Tid)
    requires Inv(s, t) && |Refs(t)| <= e <= c
    ensures LeftOf(c, e, s, t, tid) >= 0
  {
    hide Inv, Represents, Bst, Distinct, Level, Refs;
    TreeInOrder(s, t);
    if tid in s.pcs {
      match s.pcs[tid]
      case At(_, _, x) => LevelInSize(t, x);
      case LockNext(_, _, x, _) => LevelInSize(t, x);
      case Shift(_, _, x, _) => LevelInSize(t, x);
      case _ =>
    }
  }

  lemma TreeInOrder(s: State, t: Tree)
    requires Inv(s, t)
    ensures Bst(t) && Distinct(t) && Represents(s.heap, s.root, t)
  {
  }

  lemma LevelInSize(t: Tree, x: Ref)
    requires Bst(t) && Distinct(t)
    ensures Level(t, x) <= |Refs(t)|
  {
    hide Bst, Distinct;
    if x in Refs(t) { DepthInSize(t, x); }
  }

  /** Without an effect the tree stays the same. */
  lemma SameTree(s: State, t: Tree, tid: Tid, newRef: Ref, t': Tree)
    requires Inv(s, t) && Enabled(s, tid) && Fresh(s, newRef) && Inv(Do(s, tid, newRef), t')
    requires EffectOf(s, Step(tid, newRef), Do(s, tid, newRef)) == []
    ensures t' == t
  {
    hide Locks, PcInv, Represents;
    InvParts(s, t, tid);
    SameHeap(s, tid, newRef);
    if s.pcs[tid].Free? {
      FreedOutside(s, t, tid);
      FreeUnreachable(s.heap, s.root, t, s.pcs[tid].node);
    }
    RepresentsUnique(Do(s, tid, newRef).heap, s.root, t, t');
  }

  lemma FreedOutside(s: State, t: Tree, tid: Tid)
    requires tid in s.pcs && PcInv(s, t, s.pcs[tid]) && s.pcs[tid].Free?
    ensures s.pcs[tid].node !in Refs(t) && s.pcs[tid].node != s.root
  {
  }

  lemma SameHeap(s: State, tid: Tid, newRef: Ref)
    requires Enabled(s, tid) && EffectOf(s, Step(tid, newRef), Do(s, tid, newRef)) == []
    ensures var s' := Do(s, tid, newRef);
            && s'.root == s.root
            && s'.heap == if s.pcs[tid].Free? then s.heap - {s.pcs[tid].node} else s.heap
  {
  }

  // ---------------------------------------------------------------- one transition

  /** The cells that a step changes are held by its thread. */
  lemma DoQuiet(s: State, t: Tree, tid: Tid, newRef: Ref)
    requires Inv(s, t) && Enabled(s, tid) && Fresh(s, newRef)
    ensures tid in s.pcs && Quiet(s, Do(s, tid, newRef), tid)
  {
    hide Locks, Represents, PcInv;
    InvParts(s, t, tid);
    match s.pcs[tid]
    case At(op, p, c) =>
      DoAt(s, tid, newRef);
      assert c in Opt(p) + [c] && (p != NULL ==> p in Opt(p) + [c]);
    case Free(_, _, x, rest) => assert x in [x] + rest;
    case _ =>
  }

  predicate Searching(pc: PC) {
    pc.At? || pc.LockNext? || pc.Shift?
  }

  lemma StandsInTree(s: State, t: Tree, tid: Tid)
    requires Inv(s, t) && tid in s.pcs && Searching(s.pcs[tid])
    ensures s.pcs[tid].curr in Refs(t) && s.pcs[tid].curr in Held(s.root, s.pcs[tid])
  {
    hide Represents, Locks;
    InvParts(s, t, tid);
    OnPathInTree(t, s.pcs[tid].op.key, s.pcs[tid].curr);
  }

  lemma KeyAt(s: State, t: Tree, x: Ref)
    requires Inv(s, t) && x in Refs(t)
    ensures x in s.heap && s.heap[x].key == Some(Sub(t, x).key)
  {
    hide Locks, PcInv;
    var sub := SubFacts(s.heap, s.root, t, x);
  }

  /** A step of one thread takes another one back by one level at most, and only by an effect. */
  lemma OthersLevel(s: State, t: Tree, t': Tree, tid: Tid, newRef: Ref, other: Tid)
    requires Inv(s, t) && Enabled(s, tid) && Fresh(s, newRef) && Inv(Do(s, tid, newRef), t') && Displaces(t, t')
    requires other in s.pcs && other != tid && Searching(s.pcs[other]) && other in Do(s, tid, newRef).pcs
    requires Do(s, tid, newRef).pcs[other] == s.pcs[other]
    ensures Level(t', s.pcs[other].curr) + |EffectOf(s, Step(tid, newRef), Do(s, tid, newRef))|
            >= Level(t, s.pcs[other].curr)
  {
    hide Inv, Do, Enabled, Displaces, EffectOf, Bst, Distinct, Represents;
    var s', x := Do(s, tid, newRef), s.pcs[other].curr;
    if EffectOf(s, Step(tid, newRef), s') == [] {
      SameTree(s, t, tid, newRef, t');
    } else {
      DoQuiet(s, t, tid, newRef);
      StandsInTree(s, t, other);
      StandsInTree(s', t', other);
      InvParts(s, t, other);
      NotShared(s, tid, other, x);
      KeyAt(s, t, x);
      KeyAt(s', t', x);
      TreeInOrder(s, t);
      TreeInOrder(s', t');
      DepthKept(t, t', x);
    }
  }

  lemma OthersLeft(s: State, t: Tree, t': Tree, tid: Tid, newRef: Ref, other: Tid, c: nat, e: nat)
    requires Inv(s, t) && Enabled(s, tid) && Fresh(s, newRef) && StepOk(s, t, Do(s, tid, newRef), t', tid)
    requires other != tid
    ensures var s' := Do(s, tid, newRef);
            LeftOf(c, e + |EffectOf(s, Step(tid, newRef), s')|, s', t', other) <= LeftOf(c, e, s, t, other)
  {
    hide Inv, Do, Displaces, EffectOf, Level;
    OthersCounter(s, tid, newRef, other);
    if other in s.pcs && Searching(s.pcs[other]) { OthersLevel(s, t, t', tid, newRef, other); }
  }

  lemma OthersCounter(s: State, tid: Tid, newRef: Ref, other: Tid)
    requires Enabled(s, tid) && other != tid
    ensures var s' := Do(s, tid, newRef);
            (other in s'.pcs <==> other in s.pcs) && (other in s.pcs ==> s'.pcs[other] == s.pcs[other])
  {
  }

  /** What can come next in a call. */
  predicate Follows(root: Ref, pc: PC, pc': PC) {
    match pc
    case Idle => false
    case Start(op) => pc' == AtRoot(op)
    case AtRoot(op) => pc' == At(op, NULL, root) || (pc'.Release? && |pc'.held| == 1)
    case At(op, p, x) =>
      || (pc'.LockNext? && pc'.curr == x) || pc'.RootLock?
      || (pc'.Free? && |pc'.rest| == 1) || (pc'.Release? && |pc'.held| <= 3)
    case LockNext(op, p, x, n) => pc' == Shift(op, p, x, n)
    case Shift(op, p, x, n) => pc' == At(op, x, n)
    case RootLock(op, x) => pc' == RootCopy(op, x)
    case RootCopy(op, x) => pc'.Free? && |pc'.rest| == 1
    case Free(op, result, _, rest) => pc' == Release(op, result, rest)
    case Release(op, result, held) => if held == [] then pc' == Idle else pc' == Release(op, result, held[1..])
  }

  lemma DoCounter(s: State, tid: Tid, newRef: Ref)
    requires Enabled(s, tid)
    ensures var s' := Do(s, tid, newRef);
            && tid in s.pcs && tid in s'.pcs && Follows(s.root, s.pcs[tid], s'.pcs[tid])
            && (EffectOf(s, Step(tid, newRef), s') == []
                || s'.pcs[tid].Free? || s'.pcs[tid].Release? || s'.pcs[tid].Idle?)
  {
  }

  lemma OwnLeft(s: State, t: Tree, t': Tree, tid: Tid, newRef: Ref, c: nat, e: nat)
    requires Inv(s, t) && Enabled(s, tid) && Fresh(s, newRef) && Inv(Do(s, tid, newRef), t')
    requires |Refs(t)| <= e <= c
    ensures var s' := Do(s, tid, newRef);
            LeftOf(c, e + |EffectOf(s, Step(tid, newRef), s')|, s', t', tid) < LeftOf(c, e, s, t, tid)
  {
    hide Inv, Do, Enabled, EffectOf, Level, Represents, Bst, Distinct, Refs, Fresh;
    TreeInOrder(s, t);
    DoCounter(s, tid, newRef);
    if EffectOf(s, Step(tid, newRef), Do(s, tid, newRef)) == [] { SameTree(s, t, tid, newRef, t'); }
    match s.pcs[tid]
    case At(_, _, x) => LevelInSize(t, x);
    case Shift(op, p, x, n) => Deeper(s, t, op, p, x, n, tid);
    case _ =>
  }

  lemma Deeper(s: State, t: Tree, op: Op, p: Ref, x: Ref, n: Ref, tid: Tid)
    requires Inv(s, t) && tid in s.pcs && s.pcs[tid] == Shift(op, p, x, n)
    ensures Level(t, n) == Level(t, x) + 1
  {
    hide Represents, Locks;
    InvParts(s, t, tid);
    DescendsOnPath(s, t, op.key, x, n);
  }

  lemma StepLeft(s: State, t: Tree, tid: Tid, newRef: Ref, other: Tid, c: nat, e: nat) returns (t': Tree)
    requires Inv(s, t) && Enabled(s, tid) && Fresh(s, newRef) && |Refs(t)| <= e <= c
    ensures var s' := Do(s, tid, newRef);
            && Inv(s', t')
            && LeftOf(c, e + |EffectOf(s, Step(tid, newRef), s')|, s', t', other)
               <= LeftOf(c, e, s, t, other) - (if tid == other then 1 else 0)
  {
    hide Inv, Do, Enabled, EffectOf, LeftOf, Refines;
    t' := StepKeepsInv(s, t, tid, newRef);
    if other == tid { OwnLeft(s, t, t', tid, newRef, c, e); } else { OthersLeft(s, t, t', tid, newRef, other, c, e); }
  }

  /** The most steps that a call can take, when there are `c` calls. */
  function PerCall(c: nat): nat {
    6 * c + 8
  }

  lemma TransitionLeft(s: State, t: Tree, l: Label, s': State, tid: Tid, c: nat, e: nat) returns (t': Tree)
    requires Inv(s, t) && Next(s, l, s') && |Refs(t)| <= e <= c
    ensures Inv(s', t')
    ensures LeftOf(c, e + |EffectOf(s, l, s')|, s', t', tid)
            <= LeftOf(c, e, s, t, tid)
               + if l.tid != tid then 0 else if l.Call? then PerCall(c) else -1
  {
    hide Inv, Do, Enabled, Level;
    match l
    case Call(caller, op) =>
      CallKeepsInv(s, t, caller, op);
      t' := t;
    case Step(stepper, newRef) => t' := StepLeft(s, t, stepper, newRef, tid, c, e);
  }

  // ---------------------------------------------------------------- accounts

  /** An amount booked for a thread. */
  datatype Entry = Entry(tid: Tid, amount: int)

  function Sum(es: seq<Entry>): int {
    if es == [] then 0 else es[0].amount + Sum(es[1..])
  }

  function SumOf(es: seq<Entry>, tid: Tid): int {
    if es == [] then 0 else (if es[0].tid == tid then es[0].amount else 0) + SumOf(es[1..], tid)
  }

  function Others(es: seq<Entry>, tid: Tid): (rest: seq<Entry>)
    ensures |rest| <= |es| && (es != [] && es[0].tid == tid ==> |rest| < |es|)
  {
    if es == [] then [] else if es[0].tid == tid then Others(es[1..], tid) else [es[0]] + Others(es[1..], tid)
  }

  lemma {:induction false} OthersSum(es: seq<Entry>, tid: Tid, other: Tid)
    ensures Sum(es) == SumOf(es, tid) + Sum(Others(es, tid))
    ensures SumOf(Others(es, tid), other) == if other == tid then 0 else SumOf(es, other)
  {
    if es != [] {
      OthersSum(es[1..], tid, other);
      if es[0].tid != tid { assert Others(es, tid)[1..] == Others(es[1..], tid); }
    }
  }

  /** If no thread's account is positive, neither is the total. */
  lemma {:induction false} SumByThread(es: seq<Entry>)
    requires forall tid: Tid :: SumOf(es, tid) <= 0
    ensures Sum(es) <= 0
    decreases |es|
  {
    if es != [] {
      var first := es[0].tid;
      OthersSum(es, first, first);
      forall tid: Tid ensures SumOf(Others(es, first), tid) <= 0 { OthersSum(es, first, tid); }
      SumByThread(Others(es, first));
    }
  }

  lemma {:induction false} SumEnd(es: seq<Entry>, e: Entry, tid: Tid)
    ensures Sum(es + [e]) == Sum(es) + e.amount
    ensures SumOf(es + [e], tid) == SumOf(es, tid) + if e.tid == tid then e.amount else 0
  {
    if es == [] {
      assert [] + [e] == [e];
    } else {
      SumEnd(es[1..], e, tid);
      assert (es + [e])[1..] == es[1..] + [e];
    }
  }

  // ---------------------------------------------------------------- whole runs

  function Calls(ls: seq<Label>): nat {
    if ls == [] then 0 else Calls(ls[..|ls| - 1]) + if ls[|ls| - 1].Call? then 1 else 0
  }

  function CallsBy(ls: seq<Label>, tid: Tid): nat {
    if ls == [] then 0
    else CallsBy(ls[..|ls| - 1], tid) + if ls[|ls| - 1].Call? && ls[|ls| - 1].tid == tid then 1 else 0
  }

  function StepsBy(ls: seq<Label>, tid: Tid): nat {
    if ls == [] then 0
    else StepsBy(ls[..|ls| - 1], tid) + if ls[|ls| - 1].Step? && ls[|ls| - 1].tid == tid then 1 else 0
  }

  /** An effect counts for its thread, a call against it. */
  function EffectEntries(ss: seq<State>, ls: seq<Label>): seq<Entry>
    requires |ss| == |ls| + 1
  {
    if ls == [] then []
    else
      var n := |ls| - 1;
      EffectEntries(ss[..n + 1], ls[..n])
      + [Entry(ls[n].tid, |EffectOf(ss[n], ls[n], ss[n + 1])| - if ls[n].Call? then 1 else 0)]
  }

  lemma {:induction false} EffectAccount(ss: seq<State>, ls: seq<Label>, tid: Tid)
    requires IsRun(ss, ls)
    ensures SumOf(EffectEntries(ss, ls), tid) == if StatusAt(ss[|ls|], tid).Pending? then -1 else 0
    ensures Sum(EffectEntries(ss, ls)) == |Effects(ss, ls)| - Calls(ls)
  {
    hide Next, Init, StatusAt, EffectOf, EventOf, Inv;
    if ls == [] {
      assert StatusAt(ss[0], tid) == Quiescent by { InitQuiescent(ss[0], tid); }
    } else {
      var n := |ls| - 1;
      RunPrefix(ss, ls);
      EffectAccount(ss[..n + 1], ls[..n], tid);
      var t := Linearizable(ss[..n + 1], ls[..n]);
      Evolution(ss[n], t, ls[n], ss[n + 1], tid);
      EffectBooked(ss[n], ls[n], ss[n + 1], tid);
      SumEnd(EffectEntries(ss[..n + 1], ls[..n]),
             Entry(ls[n].tid, |EffectOf(ss[n], ls[n], ss[n + 1])| - if ls[n].Call? then 1 else 0), tid);
    }
  }

  lemma InitQuiescent(s: State, tid: Tid)
    requires Init(s)
    ensures StatusAt(s, tid) == Quiescent
  {
  }

  lemma EffectBooked(s: State, l: Label, s': State, tid: Tid)
    requires Next(s, l, s') && Evolves(StatusAt(s, tid), EventOf(s, l, s', tid), StatusAt(s', tid))
    ensures (if StatusAt(s', tid).Pending? then -1 else 0) - (if StatusAt(s, tid).Pending? then -1 else 0)
            == if l.tid == tid then |EffectOf(s, l, s')| - (if l.Call? then 1 else 0) else 0
  {
  }

  /** At most as many effects as calls. */
  lemma EffectsWithinCalls(ss: seq<State>, ls: seq<Label>)
    requires IsRun(ss, ls)
    ensures |Effects(ss, ls)| <= Calls(ls)
  {
    EffectAccount(ss, ls, 0);
    forall tid: Tid ensures SumOf(EffectEntries(ss, ls), tid) <= 0 { EffectAccount(ss, ls, tid); }
    SumByThread(EffectEntries(ss, ls));
  }

  lemma {:induction false} Bounded(ss: seq<State>, ls: seq<Label>, tid: Tid, c: nat) returns (t: Tree)
    requires IsRun(ss, ls) && Calls(ls) <= c
    ensures Inv(ss[|ls|], t)
    ensures StepsBy(ls, tid) + LeftOf(c, |Effects(ss, ls)|, ss[|ls|], t, tid) <= PerCall(c) * CallsBy(ls, tid)
  {
    hide Next, Init, EffectOf, LeftOf, Inv, PerCall, IsRun, Effects;
    RunStarts(ss, ls);
    if ls == [] {
      InitInv(ss[0]);
      t := Leaf;
      InitLeft(ss[0], tid, c);
    } else {
      var n := |ls| - 1;
      var ss0, ls0 := ss[..n + 1], ls[..n];
      RunPrefix(ss, ls);
      var u := Bounded(ss0, ls0, tid, c);
      TreeWithinCalls(ss0, ls0, u);
      t := TransitionLeft(ss[n], u, ls[n], ss[n + 1], tid, c, |Effects(ss0, ls0)|);
      CallPays(PerCall(c), CallsBy(ls0, tid));
    }
  }

  lemma RunStarts(ss: seq<State>, ls: seq<Label>)
    requires IsRun(ss, ls)
    ensures |ss| == |ls| + 1 && Init(ss[0])
    ensures if ls == [] then Effects(ss, ls) == []
            else var n := |ls| - 1;
                 Effects(ss, ls) == Effects(ss[..n + 1], ls[..n]) + EffectOf(ss[n], ls[n], ss[n + 1])
  {
  }

  lemma CallPays(b: nat, k: nat)
    ensures b * (k + 1) == b * k + b
  {
  }

  lemma InitLeft(s: State, tid: Tid, c: nat)
    requires Init(s)
    ensures LeftOf(c, 0, s, Leaf, tid) == 0
  {
  }

  lemma TreeWithinCalls(ss: seq<State>, ls: seq<Label>, t: Tree)
    requires IsRun(ss, ls) && Inv(ss[|ls|], t)
    ensures |Refs(t)| <= |Effects(ss, ls)| <= Calls(ls)
  {
    hide Init, Next, Inv;
    EffectsWithinCalls(ss, ls);
    var u := Linearizable(ss, ls);
    ContentsUnique(ss[|ls|], t, u);
    ReplaySize(Effects(ss, ls));
    TreeInOrder(ss[|ls|], t);
    NodesAndKeys(t);
  }

  /** However the threads are interleaved, in a run with `c` calls a thread takes at most 6 c + 8 steps for each of
      its calls. */
  lemma CallsAreShort(ss: seq<State>, ls: seq<Label>, tid: Tid)
    requires IsRun(ss, ls)
    ensures StepsBy(ls, tid) <= PerCall(Calls(ls)) * CallsBy(ls, tid)
  {
    var t := Bounded(ss, ls, tid, Calls(ls));
    TreeWithinCalls(ss, ls, t);
    LeftNonNegative(Calls(ls), |Effects(ss, ls)|, ss[|ls|], t, tid);
  }

  /** A step counts for its thread, a call pays for `b` steps. */
  function StepEntries(ls: seq<Label>, b: nat): seq<Entry> {
    if ls == [] then []
    else StepEntries(ls[..|ls| - 1], b) + [Entry(ls[|ls| - 1].tid, if ls[|ls| - 1].Call? then 0 - b else 1)]
  }

  lemma {:induction false} StepAccount(ls: seq<Label>, b: nat, tid: Tid)
    ensures SumOf(StepEntries(ls, b), tid) == StepsBy(ls, tid) - b * CallsBy(ls, tid)
    ensures Sum(StepEntries(ls, b)) == |ls| - (b + 1) * Calls(ls)
  {
    if ls != [] {
      var n := |ls| - 1;
      StepAccount(ls[..n], b, tid);
      CallPays(b, CallsBy(ls[..n], tid));
      CallPays(b + 1, Calls(ls[..n]));
      SumEnd(StepEntries(ls[..n], b), Entry(ls[n].tid, if ls[n].Call? then 0 - b else 1), tid);
    }
  }

  /** A run with finitely many calls is finite: of calls and steps together there are at most 6 c + 9 for each of
      its `c` calls. */
  lemma RunsAreShort(ss: seq<State>, ls: seq<Label>)
    requires IsRun(ss, ls)
    ensures |ls| <= (PerCall(Calls(ls)) + 1) * Calls(ls)
  {
    var b := PerCall(Calls(ls));
    forall tid: Tid ensures SumOf(StepEntries(ls, b), tid) <= 0 {
      CallsAreShort(ss, ls, tid);
      StepAccount(ls, b, tid);
    }
    SumByThread(StepEntries(ls, b));
    StepAccount(ls, b, 0);
  }

  /** And when it cannot go on without a further call, all calls have returned, unless a thread stands at a node
      with two children that it is to delete. */
  lemma AllReturn(ss: seq<State>, ls: seq<Label>)
    requires IsRun(ss, ls)
    requires forall tid | tid in ss[|ls|].pcs :: !Enabled(ss[|ls|], tid)
    requires forall tid | tid in ss[|ls|].pcs && ss[|ls|].pcs[tid].At? && ss[|ls|].pcs[tid].op.Delete? ::
               var c, h := ss[|ls|].pcs[tid].curr, ss[|ls|].heap;
               c in h ==> h[c].left == NULL || h[c].right == NULL
    ensures forall tid | tid in ss[|ls|].pcs :: ss[|ls|].pcs[tid] == Idle
  {
    hide Inv, Enabled;
    var t := Linearizable(ss, ls);
    forall tid | tid in ss[|ls|].pcs ensures ss[|ls|].pcs[tid] == Idle {
      if !ss[|ls|].pcs[tid].Idle? { RunnerIsThere(ss[|ls|], t, tid); }
    }
  }

  lemma RunnerIsThere(s: State, t: Tree, tid: Tid)
    requires Inv(s, t) && tid in s.pcs && !s.pcs[tid].Idle?
    requires forall other | other in s.pcs :: !TwoChildren(s, s.pcs[other])
    ensures exists runner | runner in s.pcs :: Enabled(s, runner)
  {
    var runner := SomeThreadCanStep(s, t, tid);
  }
}
