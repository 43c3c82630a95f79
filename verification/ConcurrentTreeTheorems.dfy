/** What holds in every run of the concurrent tree: linearizability, lock discipline, no deadlock. */
module ConcurrentTreeTheorems {
  import opened Basics
  import opened TreeHeap
  import opened TreeEdits
  import opened ConcurrentTree

  datatype Label =
    | Call(tid: Tid, op: Op)
    | Step(tid: Tid, newRef: Ref)

  /** new_tree() has run and no thread is inside a call. */
  ghost predicate Init(s: State) {
    && s.root != NULL && s.heap == map[s.root := Cell(None, 0, NULL, NULL)]
    && s.owner == map[]
    && forall tid | tid in s.pcs :: s.pcs[tid] == Idle
  }

  ghost predicate Next(s: State, l: Label, s': State) {
    match l
    case Call(tid, op) => Invokable(s, tid) && s' == Invoke(s, tid, op)
    case Step(tid, newRef) => Enabled(s, tid) && Fresh(s, newRef) && s' == Do(s, tid, newRef)
  }

  /** Any interleaving of any calls by any number of threads. */
  ghost predicate IsRun(ss: seq<State>, ls: seq<Label>) {
    && |ss| == |ls| + 1 && Init(ss[0])
    && forall i {:trigger ls[i]} | 0 <= i < |ls| :: Next(ss[i], ls[i], ss[i + 1])
  }

  // ---------------------------------------------------------------- one step

  lemma StepKeepsInv(s: State, t: Tree, tid: Tid, newRef: Ref) returns (t': Tree)
    requires Inv(s, t) && Enabled(s, tid) && Fresh(s, newRef)
    ensures StepOk(s, t, Do(s, tid, newRef), t', tid)
  {
    t' := t;
    match s.pcs[tid]
    case Start(_) => StepStart(s, t, tid, newRef);
    case AtRoot(_) => t' := StepAtRoot(s, t, tid, newRef);
    case At(op, _, c) =>
      if op.key == s.heap[c].key.value {
        t' := StepFound(s, t, tid, newRef);
      } else {
        t' := StepSearch(s, t, tid, newRef);
      }
    case LockNext(_, _, _, _) => StepLockNext(s, t, tid, newRef);
    case Shift(_, _, _, _) => StepShift(s, t, tid, newRef);
    case RootLock(_, _) => StepRootLock(s, t, tid, newRef);
    case RootCopy(_, _) => t' := StepRootCopy(s, t, tid, newRef);
    case Free(_, _, _, _) => StepFree(s, t, tid, newRef);
    case Release(_, _, _) => StepRelease(s, t, tid, newRef);
  }

  lemma CallKeepsInv(s: State, t: Tree, tid: Tid, op: Op)
    requires Inv(s, t) && Invokable(s, tid)
    ensures Inv(Invoke(s, tid, op), t)
  {
    var s' := Invoke(s, tid, op);
    Keeps(s, s', tid);
    AdvanceLocal(s, t, s', tid);
  }

  lemma InitInv(s: State)
    requires Init(s)
    ensures Inv(s, Leaf)
  {
    assert forall tid | tid in s.pcs :: Held(s.root, s.pcs[tid]) == [];
  }

  // ---------------------------------------------------------------- linearizability

  /** A call taking effect: who, what, and with which result. */
  datatype Effect = Effect(tid: Tid, op: Op, result: Result)

  function StatusAt(s: State, tid: Tid): Status {
    if tid in s.pcs then StatusOf(s.pcs[tid]) else Quiescent
  }

  /** The effect of a step, if it is the one at which the thread's call stops being pending. */
  function EffectOf(s: State, l: Label, s': State): seq<Effect> {
    if l.Step? && StatusAt(s, l.tid).Pending? && StatusAt(s', l.tid).Complete?
    then [Effect(l.tid, StatusAt(s', l.tid).op, StatusAt(s', l.tid).result)]
    else []
  }

  /** The calls of a run in the order in which they take effect. */
  function Effects(ss: seq<State>, ls: seq<Label>): seq<Effect>
    requires |ss| == |ls| + 1
  {
    if ls == [] then []
    else
      var n := |ls| - 1;
      Effects(ss[..n + 1], ls[..n]) + EffectOf(ss[n], ls[n], ss[n + 1])
  }

  /** Performs the effects one after the other on a map; None when some result is not what the map gives. */
  function Replay(es: seq<Effect>): Option<map<Key, Value>> {
    if es == [] then Some(map[])
    else
      var e := es[|es| - 1];
      match Replay(es[..|es| - 1])
      case None => None
      case Some(m) => if Apply(m, e.op).1 == e.result then Some(Apply(m, e.op).0) else None
  }

  /** A transition keeps the invariant; the contents change only by the effect it has, if any. */
  lemma Transition(s: State, t: Tree, l: Label, s': State) returns (t': Tree)
    requires Inv(s, t) && Next(s, l, s')
    ensures Inv(s', t')
    ensures var e := EffectOf(s, l, s');
            if e == [] then Contents(t') == Contents(t)
            else e == [e[0]] && Apply(Contents(t), e[0].op) == (Contents(t'), e[0].result)
  {
    match l
    case Call(tid, op) =>
      CallKeepsInv(s, t, tid, op);
      t' := t;
    case Step(tid, newRef) => t' := StepKeepsInv(s, t, tid, newRef);
  }

  lemma RunPrefix(ss: seq<State>, ls: seq<Label>)
    requires IsRun(ss, ls) && ls != []
    ensures var n := |ls| - 1;
            IsRun(ss[..n + 1], ls[..n]) && ss[..n + 1][n] == ss[n] && Next(ss[n], ls[n], ss[n + 1])
  {
    var n := |ls| - 1;
    var ss0, ls0 := ss[..n + 1], ls[..n];
    forall i {:trigger ls0[i]} | 0 <= i < |ls0| ensures Next(ss0[i], ls0[i], ss0[i + 1]) { assert ls0[i] == ls[i]; }
    assert ls[n] == ls[n];
  }

  /** In every run, the calls in the order of their effects are a legal sequential history of a map, and
      the tree holds exactly what that history leaves in the map. */
  lemma {:induction false} Linearizable(ss: seq<State>, ls: seq<Label>) returns (t: Tree)
    requires IsRun(ss, ls)
    ensures Inv(ss[|ls|], t)
    ensures Replay(Effects(ss, ls)) == Some(Contents(t))
  {
    if ls == [] {
      InitInv(ss[0]);
      t := Leaf;
    } else {
      var n := |ls| - 1;
      RunPrefix(ss, ls);
      var t0 := Linearizable(ss[..n + 1], ls[..n]);
      t := Transition(ss[n], t0, ls[n], ss[n + 1]);
      ReplayStep(Effects(ss[..n + 1], ls[..n]), EffectOf(ss[n], ls[n], ss[n + 1]));
    }
  }

  lemma ReplayStep(es: seq<Effect>, last: seq<Effect>)
    requires |last| <= 1
    ensures Replay(es + last) ==
            if last == [] then Replay(es)
            else match Replay(es)
                 case None => None
                 case Some(m) => if Apply(m, last[0].op).1 == last[0].result then Some(Apply(m, last[0].op).0) else None
  {
    if last == [] { assert es + last == es; } else { assert (es + last)[..|es|] == es; }
  }

  /** The contents do not depend on the tree chosen to describe the heap. */
  lemma ContentsUnique(s: State, t: Tree, u: Tree)
    requires Inv(s, t) && Inv(s, u)
    ensures Contents(t) == Contents(u)
  {
    RepresentsUnique(s.heap, s.root, t, u);
  }

  // ---------------------------------------------------------------- what the results are, by the effects alone

  /** Effect `j` adds `v` under `k`, and none after it adds or deletes `k`. */
  ghost predicate LastAdd(es: seq<Effect>, k: Key, v: Value, j: int) {
    && 0 <= j < |es| && es[j].op == Add(k, v)
    && forall h | j < h < |es| :: es[h].op.Lookup? || es[h].op.key != k
  }

  /** The history that leads to an effect, and what the map then answers to it. */
  lemma {:induction false} ReplayPrefix(es: seq<Effect>, i: nat)
    requires Replay(es).Some? && i < |es|
    ensures Replay(es[..i]).Some? && es[i].result == Apply(Replay(es[..i]).value, es[i].op).1
    decreases |es|
  {
    var front := es[..|es| - 1];
    if i < |front| {
      ReplayPrefix(front, i);
      assert front[..i] == es[..i];
    }
  }

  lemma {:induction false} StoredIffAdded(es: seq<Effect>, k: Key, v: Value)
    requires Replay(es).Some?
    ensures k in Replay(es).value && Replay(es).value[k] == v <==> exists j :: LastAdd(es, k, v, j)
    decreases |es|
  {
    if es != [] {
      var front, n := es[..|es| - 1], |es| - 1;
      StoredIffAdded(front, k, v);
      if es[n].op.Lookup? || es[n].op.key != k {
        forall j ensures LastAdd(es, k, v, j) <==> LastAdd(front, k, v, j) { LastAddFront(es, k, v, j); }
      } else if es[n].op == Add(k, v) {
        assert LastAdd(es, k, v, n);
      } else {
        forall j ensures !LastAdd(es, k, v, j) { assert 0 <= j < n ==> j < n < |es|; }
      }
    }
  }

  lemma LastAddFront(es: seq<Effect>, k: Key, v: Value, j: int)
    requires es != [] && (es[|es| - 1].op.Lookup? || es[|es| - 1].op.key != k)
    ensures LastAdd(es, k, v, j) <==> LastAdd(es[..|es| - 1], k, v, j)
  {
    var front := es[..|es| - 1];
    if LastAdd(front, k, v, j) {
      forall h | j < h < |es| ensures es[h].op.Lookup? || es[h].op.key != k {
        if h < |front| { assert front[h] == es[h]; }
      }
    }
  }

  /** In every run, a lookup finds a value if and only if that is what the last call before it to add or delete
      the key has added; otherwise it finds nothing. */
  lemma LookupsFindLastAdd(ss: seq<State>, ls: seq<Label>, i: nat, k: Key)
    requires IsRun(ss, ls) && i < |Effects(ss, ls)| && Effects(ss, ls)[i].op == Lookup(k)
    ensures var es := Effects(ss, ls);
            && (forall v :: es[i].result == Found(v) <==>
                  exists j :: 0 <= j < i && es[j].op == Add(k, v)
                              && forall h | j < h < i :: es[h].op.Lookup? || es[h].op.key != k)
            && (es[i].result == NotFound <==>
                  forall j | 0 <= j < i && es[j].op.Add? && es[j].op.key == k ::
                    exists h :: j < h < i && !es[h].op.Lookup? && es[h].op.key == k)
  {
    hide Effects, Inv, Next, Init;
    var es := Effects(ss, ls);
    var t := Linearizable(ss, ls);
    ReplayPrefix(es, i);
    var m := Replay(es[..i]).value;
    forall v ensures es[i].result == Found(v) <==> exists j :: LastAdd(es[..i], k, v, j) {
      StoredIffAdded(es[..i], k, v);
    }
    forall v, j
      ensures LastAdd(es[..i], k, v, j) <==>
              0 <= j < i && es[j].op == Add(k, v) && forall h | j < h < i :: es[h].op.Lookup? || es[h].op.key != k
    {
      Within(es, i, k, v, j);
    }
    forall j | 0 <= j < i && es[j].op.Add? && es[j].op.key == k
      ensures es[i].result == NotFound ==> exists h :: j < h < i && !es[h].op.Lookup? && es[h].op.key == k
    {
      var v := es[j].op.value;
      assert es[j].op == Add(k, v);
      assert es[i].result == Found(v) <==> exists j' :: LastAdd(es[..i], k, v, j');
      assert es[i].result == NotFound ==> !LastAdd(es[..i], k, v, j);
    }
    if es[i].result != NotFound {
      var j :| LastAdd(es[..i], k, m[k], j);
      assert es[j].op == Add(k, m[k]) && forall h | j < h < i :: es[h].op.Lookup? || es[h].op.key != k;
    }
  }

  lemma Within(es: seq<Effect>, i: nat, k: Key, v: Value, j: int)
    requires i <= |es|
    ensures LastAdd(es[..i], k, v, j) <==>
            0 <= j < i && es[j].op == Add(k, v) && forall h | j < h < i :: es[h].op.Lookup? || es[h].op.key != k
  {
    var front := es[..i];
    if LastAdd(front, k, v, j) {
      forall h | j < h < i ensures es[h].op.Lookup? || es[h].op.key != k { assert front[h] == es[h]; }
    }
  }

  // ---------------------------------------------------------------- every call takes effect once

  datatype Event = Called(op: Op) | Effected(op: Op, result: Result) | Returned(op: Op, result: Result)

  /** What happens to the calls of thread `tid` in one transition. */
  function EventOf(s: State, l: Label, s': State, tid: Tid): seq<Event> {
    var a, a' := StatusAt(s, tid), StatusAt(s', tid);
    if l.tid != tid then []
    else if l.Call? then [Called(l.op)]
    else if a.Pending? && a'.Complete? then [Effected(a'.op, a'.result)]
    else if a.Complete? && a' == Quiescent then [Returned(a.op, a.result)]
    else []
  }

  function Events(ss: seq<State>, ls: seq<Label>, tid: Tid): seq<Event>
    requires |ss| == |ls| + 1
  {
    if ls == [] then []
    else
      var n := |ls| - 1;
      Events(ss[..n + 1], ls[..n], tid) + EventOf(ss[n], ls[n], ss[n + 1], tid)
  }

  /** Calls one after the other, each: called, then effected once, then returned with the result of the
      effect; `a` says how far the last one has got. */
  ghost predicate Proper(es: seq<Event>, a: Status)
    decreases |es|
  {
    match a
    case Quiescent =>
      es == [] || (es[|es| - 1].Returned?
                   && Proper(es[..|es| - 1], Complete(es[|es| - 1].op, es[|es| - 1].result)))
    case Pending(op) =>
      es != [] && es[|es| - 1] == Called(op) && Proper(es[..|es| - 1], Quiescent)
    case Complete(op, result) =>
      es != [] && es[|es| - 1] == Effected(op, result) && Proper(es[..|es| - 1], Pending(op))
  }

  /** What a transition can do to the call of a thread, and the event that this is. */
  ghost predicate Evolves(a: Status, ev: seq<Event>, a': Status) {
    || (ev == [] && a' == a)
    || (a == Quiescent && a'.Pending? && ev == [Called(a'.op)])
    || (a'.Complete? && a == Pending(a'.op) && ev == [Effected(a'.op, a'.result)])
    || (a.Complete? && a' == Quiescent && ev == [Returned(a.op, a.result)])
  }

  lemma CallEvolves(s: State, tid: Tid, op: Op)
    requires Invokable(s, tid)
    ensures StatusAt(s, tid) == Quiescent && StatusAt(Invoke(s, tid, op), tid) == Pending(op)
  {
  }

  lemma StepEvolves(s: State, t: Tree, tid: Tid, newRef: Ref)
    requires Inv(s, t) && Enabled(s, tid) && Fresh(s, newRef)
    ensures var a, a' := StatusAt(s, tid), StatusAt(Do(s, tid, newRef), tid);
            || a' == a
            || (a'.Complete? && a == Pending(a'.op))
            || (a.Complete? && a' == Quiescent)
  {
    hide Inv, Do, Represents, Contents;
    var t' := StepKeepsInv(s, t, tid, newRef);
  }

  lemma OthersStay(s: State, l: Label, s': State, tid: Tid)
    requires Next(s, l, s') && l.tid != tid
    ensures StatusAt(s', tid) == StatusAt(s, tid)
  {
  }

  lemma Evolution(s: State, t: Tree, l: Label, s': State, tid: Tid)
    requires Inv(s, t) && Next(s, l, s')
    ensures Evolves(StatusAt(s, tid), EventOf(s, l, s', tid), StatusAt(s', tid))
  {
    hide Inv, Do, Invoke, StatusAt;
    if l.tid != tid {
      OthersStay(s, l, s', tid);
    } else {
      match l
      case Call(_, op) => CallEvolves(s, tid, op);
      case Step(_, newRef) => StepEvolves(s, t, tid, newRef);
    }
  }

  /** One transition extends a proper sequence of events to a proper one. */
  lemma EventIsProper(s: State, t: Tree, l: Label, s': State, tid: Tid, before: seq<Event>)
    requires Inv(s, t) && Next(s, l, s') && Proper(before, StatusAt(s, tid))
    ensures Proper(before + EventOf(s, l, s', tid), StatusAt(s', tid))
  {
    hide Inv, Next, StatusAt, EventOf;
    var ev := EventOf(s, l, s', tid);
    Evolution(s, t, l, s', tid);
    if ev == [] {
      assert before + ev == before;
    } else {
      assert (before + ev)[..|before|] == before;
    }
  }

  /** In every run every call takes effect at exactly one step, between its call and its return, and
      returns the result it had there. */
  lemma {:induction false} EachCallTakesEffectOnce(ss: seq<State>, ls: seq<Label>, tid: Tid)
    requires IsRun(ss, ls)
    ensures Proper(Events(ss, ls, tid), StatusAt(ss[|ls|], tid))
  {
    if ls == [] {
      assert StatusAt(ss[0], tid) == Quiescent;
    } else {
      var n := |ls| - 1;
      RunPrefix(ss, ls);
      EachCallTakesEffectOnce(ss[..n + 1], ls[..n], tid);
      var t := Linearizable(ss[..n + 1], ls[..n]);
      EventIsProper(ss[n], t, ls[n], ss[n + 1], tid, Events(ss[..n + 1], ls[..n], tid));
    }
  }

  /** The effects of one thread, in order. */
  function EffectsBy(es: seq<Effect>, tid: Tid): seq<Event> {
    if es == [] then []
    else
      var e := es[|es| - 1];
      EffectsBy(es[..|es| - 1], tid) + if e.tid == tid then [Effected(e.op, e.result)] else []
  }

  function OnlyEffects(es: seq<Event>): seq<Event> {
    if es == [] then []
    else OnlyEffects(es[..|es| - 1]) + if es[|es| - 1].Effected? then [es[|es| - 1]] else []
  }

  lemma EffectsEnd(es: seq<Effect>, last: seq<Effect>, tid: Tid)
    requires |last| <= 1
    ensures EffectsBy(es + last, tid)
            == EffectsBy(es, tid)
               + if last != [] && last[0].tid == tid then [Effected(last[0].op, last[0].result)] else []
  {
    if last == [] { assert es + last == es; } else { assert (es + last)[..|es|] == es; }
  }

  lemma EventsEnd(es: seq<Event>, last: seq<Event>)
    requires |last| <= 1
    ensures OnlyEffects(es + last) == OnlyEffects(es) + if last != [] && last[0].Effected? then last else []
  {
    if last == [] { assert es + last == es; } else { assert (es + last)[..|es|] == es; }
  }

  /** The order of effects is an order of the effects of all threads: of the calls of each thread it has those
      that have taken effect, with their results, and nothing else. */
  lemma {:induction false} EffectsOfThread(ss: seq<State>, ls: seq<Label>, tid: Tid)
    requires IsRun(ss, ls)
    ensures EffectsBy(Effects(ss, ls), tid) == OnlyEffects(Events(ss, ls, tid))
  {
    if ls != [] {
      var n := |ls| - 1;
      RunPrefix(ss, ls);
      EffectsOfThread(ss[..n + 1], ls[..n], tid);
      EffectsEnd(Effects(ss[..n + 1], ls[..n]), EffectOf(ss[n], ls[n], ss[n + 1]), tid);
      EventsEnd(Events(ss[..n + 1], ls[..n], tid), EventOf(ss[n], ls[n], ss[n + 1], tid));
      EffectIsEvent(ss[n], ls[n], ss[n + 1], tid);
    }
  }

  lemma EffectIsEvent(s: State, l: Label, s': State, tid: Tid)
    ensures var e, ev := EffectOf(s, l, s'), EventOf(s, l, s', tid);
            (if e != [] && e[0].tid == tid then [Effected(e[0].op, e[0].result)] else [])
            == if ev != [] && ev[0].Effected? then ev else []
  {
  }

  // ---------------------------------------------------------------- lock discipline

  /** Each thread holds at most three mutexes, on neighbouring nodes; while it waits for a child it holds
      the parent; outside calls it holds nothing. The one exception to neighbourhood is a node that
      delete() has unlinked and is about to destroy: no other thread can get to that one any more. */
  lemma LockDiscipline(s: State, t: Tree, tid: Tid)
    requires Inv(s, t) && tid in s.pcs
    ensures var pc := s.pcs[tid];
            var held := Held(s.root, pc);
            && |held| <= 3 && Unique(held)
            && (forall r | r in held :: r in s.owner && s.owner[r] == tid)
            && (forall r | r in s.owner && s.owner[r] == tid :: r in held)
            && (!pc.Free? ==> forall i | 0 <= i < |held| - 1 :: Adjacent(s.heap, held[i], held[i + 1]))
            && (pc.Free? ==> held[0] == pc.node && pc.node !in Refs(t))
            && (pc.Idle? || pc.Start? ==> held == [])
            && (pc.LockNext? ==>
                  && pc.curr in held && pc.next !in held
                  && (s.heap[pc.curr].left == pc.next || s.heap[pc.curr].right == pc.next))
            && (pc.RootLock? ==>
                  && s.root in held && pc.child !in held
                  && (s.heap[s.root].left == pc.child || s.heap[s.root].right == pc.child))
  {
    hide PcInv, Inv, Represents;
    InvParts(s, t, tid);
    HeldIsOwned(s, tid);
    HeldPath(s, t, tid);
  }

  lemma HeldIsOwned(s: State, tid: Tid)
    requires Locks(s) && tid in s.pcs
    ensures forall r | r in Held(s.root, s.pcs[tid]) :: r in s.owner && s.owner[r] == tid
    ensures forall r | r in s.owner && s.owner[r] == tid :: r in Held(s.root, s.pcs[tid])
  {
  }

  /** The mutexes that go with a program counter lie on a path of the tree. */
  ghost predicate OnSegment(s: State, t: Tree, pc: PC) {
    var held := Held(s.root, pc);
    && |held| <= 3 && Unique(held)
    && (!pc.Free? ==> forall i | 0 <= i < |held| - 1 :: Adjacent(s.heap, held[i], held[i + 1]))
    && (pc.Free? ==> held[0] == pc.node && pc.node !in Refs(t))
    && (pc.LockNext? ==>
          && pc.curr in held && pc.next !in held
          && pc.curr in s.heap && (s.heap[pc.curr].left == pc.next || s.heap[pc.curr].right == pc.next))
    && (pc.RootLock? ==>
          && s.root in held && pc.child !in held
          && s.root in s.heap && (s.heap[s.root].left == pc.child || s.heap[s.root].right == pc.child))
  }

  lemma HeldPath(s: State, t: Tree, tid: Tid)
    requires Inv(s, t) && tid in s.pcs
    ensures OnSegment(s, t, s.pcs[tid])
  {
    hide Locks, Inv, Represents, Refs, OnPath;
    InvParts(s, t, tid);
    match s.pcs[tid]
    case At(op, p, c) => PairIsPath(s, t, op.key, p, c);
    case LockNext(op, p, c, n) => PairIsPath(s, t, op.key, p, c);
    case Shift(op, p, c, n) => ShiftIsPath(s, t, op, p, c, n);
    case RootLock(op, c) => var u := CopyUp(s.heap, s.root, t, c);
    case RootCopy(op, c) => var u := CopyUp(s.heap, s.root, t, c);
    case Free(op, res, x, rest) => assert [x] + rest == [x, rest[0]];
    case _ =>
  }

  lemma ShiftIsPath(s: State, t: Tree, op: Op, p: Ref, c: Ref, n: Ref)
    requires Represents(s.heap, s.root, t) && Standing(s, t, op.key, p, c) && Descending(s, op.key, c, n)
    ensures OnSegment(s, t, Shift(op, p, c, n))
  {
    hide Represents, Refs, OnPath;
    DescendsOnPath(s, t, op.key, c, n);
    PairIsPath(s, t, op.key, p, c);
    assert Opt(p) + [c, n] == Opt(p) + [c] + [n];
  }

  lemma PairIsPath(s: State, t: Tree, k: Key, p: Ref, c: Ref)
    requires Represents(s.heap, s.root, t) && Standing(s, t, k, p, c)
    ensures var held := Opt(p) + [c];
            && 1 <= |held| <= 2 && held[|held| - 1] == c && Unique(held)
            && (forall i | 0 <= i < |held| - 1 :: Adjacent(s.heap, held[i], held[i + 1]))
            && (forall n | Descending(s, k, c, n) :: n !in held)
  {
    if p != NULL {
      DescendsOnPath(s, t, k, p, c);
      assert Opt(p) + [c] == [p, c];
    }
    forall n | Descending(s, k, c, n) ensures n !in Opt(p) + [c] { DescendsOnPath(s, t, k, c, n); }
  }

  /** A step takes a mutex that nobody holds, or gives back one that the thread holds, or neither; so what
      has been locked and not yet unlocked is what the thread holds, and no mutex is unlocked twice. */
  lemma LocksPairUp(s: State, t: Tree, tid: Tid, newRef: Ref)
    requires Inv(s, t) && Enabled(s, tid) && Fresh(s, newRef)
    ensures var s' := Do(s, tid, newRef);
            || s'.owner == s.owner
            || (exists x: Ref :: x !in s.owner && s'.owner == s.owner[x := tid])
            || (exists x: Ref :: x in s.owner && s.owner[x] == tid && s'.owner == s.owner - {x})
  {
    hide Inv, Do, Enabled;
    OwnerOf(s, tid, newRef);
    LockDiscipline(s, t, tid);
    NothingAtNull(s, t);
    match s.pcs[tid]
    case Start(_) => WantedIsFree(s, tid);
    case LockNext(_, _, _, n) => WantedIsFree(s, tid);
    case RootLock(_, c) => WantedIsFree(s, tid);
    case Shift(_, p, c, n) => assert p != NULL ==> (Opt(p) + [c, n])[0] == p;
    case Free(_, _, x, rest) => assert ([x] + rest)[0] == x;
    case Release(_, _, held) => assert held != [] ==> held[0] in held;
    case At(_, _, c) => assert newRef !in s.owner by { FreshFree(s, t, newRef); }
    case _ =>
  }

  /** The owners after a step. */
  function OwnerAfter(s: State, tid: Tid, newRef: Ref): map<Ref, Tid>
    requires tid in s.pcs
  {
    match s.pcs[tid]
    case Start(_) => s.owner[s.root := tid]
    case At(op, _, c) =>
      if && op.Add? && c in s.heap && s.heap[c].key.Some?
         && s.heap[c].key != Some(op.key) && s.heap[c].Next(op.key) == NULL
      then s.owner[newRef := tid]
      else s.owner
    case LockNext(_, _, _, n) => s.owner[n := tid]
    case Shift(_, p, _, _) => s.owner - {p}
    case RootLock(_, c) => s.owner[c := tid]
    case Free(_, _, x, _) => s.owner - {x}
    case Release(_, _, held) => if held == [] then s.owner else s.owner - {held[0]}
    case _ => s.owner
  }

  lemma OwnerOf(s: State, tid: Tid, newRef: Ref)
    requires Enabled(s, tid)
    ensures tid in s.pcs && Do(s, tid, newRef).owner == OwnerAfter(s, tid, newRef)
  {
  }

  lemma WantedIsFree(s: State, tid: Tid)
    requires Enabled(s, tid)
    ensures Wants(s, s.pcs[tid]) !in s.owner
  {
  }

  lemma NothingAtNull(s: State, t: Tree)
    requires Inv(s, t)
    ensures NULL !in s.owner && s.owner - {NULL} == s.owner
  {
    NullUnlocked(s);
  }

  lemma FreshFree(s: State, t: Tree, newRef: Ref)
    requires Inv(s, t) && Fresh(s, newRef)
    ensures newRef !in s.owner
  {
  }

  // ---------------------------------------------------------------- no deadlock

  /** How deep in the tree the mutex is that the thread waits for. */
  ghost function WaitDepth(s: State, t: Tree, pc: PC): nat {
    var w := Wants(s, pc);
    if pc.Start? || w !in Refs(t) then 0 else Depth(t, w) + 1
  }

  /** Every node that the thread is about to read or to lock is allocated. */
  lemma InvSane(s: State, t: Tree, tid: Tid)
    requires Inv(s, t) && tid in s.pcs
    ensures Sane(s, s.pcs[tid])
    ensures Wants(s, s.pcs[tid]) != NULL ==> Wants(s, s.pcs[tid]) in s.heap
  {
    match s.pcs[tid]
    case At(op, p, c) =>
      OnPathInTree(t, op.key, c);
      var sub := SubFacts(s.heap, s.root, t, c);
    case LockNext(op, p, c, n) => DescendsOnPath(s, t, op.key, c, n);
    case RootLock(op, c) => var u := CopyUp(s.heap, s.root, t, c);
    case RootCopy(op, c) => var u := CopyUp(s.heap, s.root, t, c);
    case _ =>
  }

  /** An idle thread can call anything at any time; and inside a call nothing holds a thread up but a mutex: it can
      step unless the next thing it does is to lock one that is locked, or it stands at a node with two children
      that it is to delete. */
  lemma OnlyMutexesBlock(s: State, t: Tree, tid: Tid, op: Op)
    requires Inv(s, t) && tid in s.pcs
    ensures s.pcs[tid] == Idle ==> Next(s, Call(tid, op), s.(pcs := s.pcs[tid := Start(op)]))
    ensures Enabled(s, tid) <==>
              match s.pcs[tid]
              case Idle => false
              case Start(_) => s.root !in s.owner
              case LockNext(_, _, _, n) => n !in s.owner
              case RootLock(_, c) => c !in s.owner
              case At(o, _, c) =>
                c in s.heap && !(o.Delete? && s.heap[c].key == Some(o.key)
                                 && s.heap[c].left != NULL && s.heap[c].right != NULL)
              case _ => true
  {
    InvSane(s, t, tid);
    NullUnlocked(s);
  }

  /** Following the chain of waiting from any unfinished call leads downwards to a thread that can step. */
  lemma {:induction false} SomeThreadCanStep(s: State, t: Tree, tid: Tid) returns (runner: Tid)
    requires Inv(s, t) && tid in s.pcs && !s.pcs[tid].Idle?
    requires forall other | other in s.pcs :: !TwoChildren(s, s.pcs[other])
    ensures Enabled(s, runner)
    decreases Height(t) + 2 - WaitDepth(s, t, s.pcs[tid])
  {
    InvSane(s, t, tid);
    NullUnlocked(s);
    var w := Wants(s, s.pcs[tid]);
    if w !in s.owner {
      runner := tid;
    } else {
      var next := s.owner[w];
      WaitsBelow(s, t, tid, next);
      if Wants(s, s.pcs[next]) !in s.owner {
        InvSane(s, t, next);
        runner := next;
      } else {
        runner := SomeThreadCanStep(s, t, next);
      }
    }
  }

  /** If a thread waits for a mutex whose owner also waits, the owner waits for a deeper one. */
  lemma WaitsBelow(s: State, t: Tree, tid: Tid, next: Tid)
    requires Inv(s, t) && tid in s.pcs && Wants(s, s.pcs[tid]) in s.owner && s.owner[Wants(s, s.pcs[tid])] == next
    ensures next in s.pcs && !s.pcs[next].Idle?
    ensures WaitDepth(s, t, s.pcs[next]) <= Height(t) + 1
    ensures Wants(s, s.pcs[next]) in s.owner ==> WaitDepth(s, t, s.pcs[tid]) < WaitDepth(s, t, s.pcs[next])
  {
    var w := Wants(s, s.pcs[tid]);
    assert w in Held(s.root, s.pcs[next]);
    NullUnlocked(s);
    var w' := Wants(s, s.pcs[next]);
    if w' in Refs(t) { DepthBound(t, w'); }
    if w' in s.owner {
      match s.pcs[next]
      case LockNext(op, p, c, n) =>
        DescendsOnPath(s, t, op.key, c, n);
        if p != NULL { DescendsOnPath(s, t, op.key, p, c); }
      case RootLock(op, c) =>
        var u := CopyUp(s.heap, s.root, t, c);
        assert Depth(t, s.root) == 0;
      case _ =>
    }
  }
}
