/** add(), lookup() and delete() of chapter_30/threadsafe_tree.c, run by any number of threads.

    A thread is a program counter with the local variables it needs; a state is the shared heap, the
    owner of every locked mutex, and the program counters. A step is what one thread does up to and
    including its next lock, unlock or shared write. delete() of a node with two children has no step
    here: a run stops modelling a thread that gets there.
  */
module ConcurrentTree {
  import opened Basics
  import opened TreeHeap
  import opened TreeEdits

  type Tid = nat

  datatype Op =
    | Add(key: Key, value: Value)
    | Lookup(key: Key)
    | Delete(key: Key)

  /** What a call hands back; add() and delete() return nothing. */
  datatype Result = Done | Found(value: Value) | NotFound

  datatype PC =
    | Idle
    | Start(op: Op)                                              // about to lock the root
    | AtRoot(op: Op)                                             // root locked, its key not yet examined
    | At(op: Op, parent: Ref, curr: Ref)                         // about to compare with curr->key
    | LockNext(op: Op, parent: Ref, curr: Ref, next: Ref)        // about to lock the child
    | Shift(op: Op, parent: Ref, curr: Ref, next: Ref)           // child locked, about to unlock the parent
    | RootLock(op: Op, child: Ref)                               // delete(root): about to lock the only child
    | RootCopy(op: Op, child: Ref)                               // delete(root): about to copy the child up
    | Free(op: Op, result: Result, node: Ref, rest: seq<Ref>)    // node is unlinked, about to destroy it
    | Release(op: Op, result: Result, held: seq<Ref>)            // about to unlock held[0], or to return

  datatype State = State(root: Ref, heap: Heap, owner: map<Ref, Tid>, pcs: map<Tid, PC>)

  function Opt(r: Ref): seq<Ref> {
    if r == NULL then [] else [r]
  }

  /** The mutexes a thread holds, in the order in which they would be met on the way down. */
  function Held(root: Ref, pc: PC): seq<Ref> {
    match pc
    case Idle => []
    case Start(_) => []
    case AtRoot(_) => [root]
    case At(_, p, c) => Opt(p) + [c]
    case LockNext(_, p, c, _) => Opt(p) + [c]
    case Shift(_, p, c, n) => Opt(p) + [c, n]
    case RootLock(_, _) => [root]
    case RootCopy(_, c) => [root, c]
    case Free(_, _, x, rest) => [x] + rest
    case Release(_, _, held) => held
  }

  // ---------------------------------------------------------------- steps

  predicate Invokable(s: State, tid: Tid) {
    tid in s.pcs && s.pcs[tid].Idle?
  }

  function Invoke(s: State, tid: Tid, op: Op): State
    requires Invokable(s, tid)
  {
    s.(pcs := s.pcs[tid := Start(op)])
  }

  /** Every pointer the thread is about to follow is allocated, and the root key is there when assumed. */
  predicate Sane(s: State, pc: PC) {
    && s.root in s.heap
    && match pc
       case At(_, p, c) => c in s.heap && s.heap[c].key.Some? && (p != NULL ==> p in s.heap)
       case RootCopy(_, c) => c in s.heap
       case _ => true
  }

  /** delete() has found its key at a node with two children. */
  predicate TwoChildren(s: State, pc: PC) {
    && pc.At? && pc.op.Delete? && pc.curr in s.heap
    && s.heap[pc.curr].key == Some(pc.op.key)
    && s.heap[pc.curr].left != NULL && s.heap[pc.curr].right != NULL
  }

  /** The mutex the thread waits for, if its next action is a lock. */
  function Wants(s: State, pc: PC): Ref {
    match pc
    case Start(_) => s.root
    case LockNext(_, _, _, n) => n
    case RootLock(_, c) => c
    case _ => NULL
  }

  predicate Enabled(s: State, tid: Tid) {
    && tid in s.pcs && !s.pcs[tid].Idle?
    && Sane(s, s.pcs[tid])
    && Wants(s, s.pcs[tid]) !in s.owner
    && !TwoChildren(s, s.pcs[tid])
  }

  /** One step of thread `tid`; `newRef` is the address malloc() returns should the step create a node. */
  function Do(s: State, tid: Tid, newRef: Ref): State
    requires Enabled(s, tid)
  {
    match s.pcs[tid]
    case Start(op) =>
      s.(owner := s.owner[s.root := tid], pcs := s.pcs[tid := AtRoot(op)])
    case AtRoot(op) =>
      if s.heap[s.root].key == None then
        var heap :=
          if op.Add? then s.heap[s.root := s.heap[s.root].(key := Some(op.key), value := op.value)] else s.heap;
        var result := if op.Lookup? then NotFound else Done;
        s.(heap := heap, pcs := s.pcs[tid := Release(op, result, [s.root])])
      else
        s.(pcs := s.pcs[tid := At(op, NULL, s.root)])
    case At(op, p, c) =>
      if op.key == s.heap[c].key.value then DoFound(s, tid, op, p, c) else DoSearch(s, tid, op, p, c, newRef)
    case LockNext(op, p, c, n) =>
      s.(owner := s.owner[n := tid], pcs := s.pcs[tid := Shift(op, p, c, n)])
    case Shift(op, p, c, n) =>
      s.(owner := s.owner - {p}, pcs := s.pcs[tid := At(op, c, n)])
    case RootLock(op, c) =>
      s.(owner := s.owner[c := tid], pcs := s.pcs[tid := RootCopy(op, c)])
    case RootCopy(op, c) =>
      s.(heap := s.heap[s.root := s.heap[c]], pcs := s.pcs[tid := Free(op, Done, c, [s.root])])
    case Free(op, result, x, rest) =>
      s.(heap := s.heap - {x}, owner := s.owner - {x}, pcs := s.pcs[tid := Release(op, result, rest)])
    case Release(op, result, held) =>
      if held == [] then s.(pcs := s.pcs[tid := Idle])
      else s.(owner := s.owner - {held[0]}, pcs := s.pcs[tid := Release(op, result, held[1..])])
  }

  /** The key is at `c`. */
  function DoFound(s: State, tid: Tid, op: Op, p: Ref, c: Ref): State
    requires c in s.heap && (p != NULL ==> p in s.heap)
  {
    var cell := s.heap[c];
    match op
    case Add(_, v) =>
      s.(heap := s.heap[c := cell.(value := v)], pcs := s.pcs[tid := Release(op, Done, [c] + Opt(p))])
    case Lookup(_) =>
      s.(pcs := s.pcs[tid := Release(op, Found(cell.value), [c] + Opt(p))])
    case Delete(_) =>
      if p == NULL then
        if cell.left == NULL && cell.right == NULL then
          s.(heap := s.heap[c := Cell(None, 0, NULL, NULL)], pcs := s.pcs[tid := Release(op, Done, [c])])
        else
          s.(pcs := s.pcs[tid := RootLock(op, if cell.left != NULL then cell.left else cell.right)])
      else
        s.(heap := LinkPast(s.heap, p, c), pcs := s.pcs[tid := Free(op, Done, c, [p])])
  }

  /** The key is not at `c`: go on below, or finish there. */
  function DoSearch(s: State, tid: Tid, op: Op, p: Ref, c: Ref, newRef: Ref): State
    requires c in s.heap && s.heap[c].key.Some?
  {
    var next := s.heap[c].Next(op.key);
    if next != NULL then
      s.(pcs := s.pcs[tid := LockNext(op, p, c, next)])
    else
      match op
      case Add(k, v) =>
        State(s.root, LinkNew(s.heap, c, k, v, newRef), s.owner[newRef := tid],
              s.pcs[tid := Release(op, Done, [newRef, c] + Opt(p))])
      case Lookup(_) => s.(pcs := s.pcs[tid := Release(op, NotFound, Opt(p) + [c])])
      case Delete(_) => s.(pcs := s.pcs[tid := Release(op, Done, Opt(p) + [c])])
  }

  // ---------------------------------------------------------------- invariant

  /** What a thread relies on at its program counter. The core is that the node it stands at is on the
      search path of its key for as long as it holds that node. */
  ghost predicate PcInv(s: State, t: Tree, pc: PC) {
    match pc
    case Idle => true
    case Start(_) => true
    case AtRoot(_) => true
    case At(op, p, c) => Standing(s, t, op.key, p, c)
    case LockNext(op, p, c, n) => Standing(s, t, op.key, p, c) && Descending(s, op.key, c, n)
    case Shift(op, p, c, n) => Standing(s, t, op.key, p, c) && Descending(s, op.key, c, n)
    case RootLock(op, c) => OnlyChild(s, op, c)
    case RootCopy(op, c) => OnlyChild(s, op, c)
    case Free(op, res, x, rest) =>
      x !in Refs(t) && x in s.heap && x != s.root && |rest| == 1 && rest[0] != x && Linked(s, t, rest)
    case Release(op, res, held) => Unique(held) && Linked(s, t, held)
  }

  ghost predicate Standing(s: State, t: Tree, k: Key, p: Ref, c: Ref) {
    && c in s.heap && OnPath(t, k, c)
    && (p == NULL <==> c == s.root)
    && (p != NULL ==> p in s.heap && OnPath(t, k, p) && Descending(s, k, p, c))
  }

  ghost predicate Descending(s: State, k: Key, c: Ref, n: Ref) {
    c in s.heap && s.heap[c].key.Some? && s.heap[c].key != Some(k) && s.heap[c].Next(k) == n && n != NULL
  }

  ghost predicate OnlyChild(s: State, op: Op, c: Ref) {
    && op.Delete? && s.root in s.heap && s.heap[s.root].key == Some(op.key) && c != NULL
    && var top := s.heap[s.root];
    ((top.left == c && top.right == NULL) || (top.left == NULL && top.right == c))
  }

  ghost predicate Linked(s: State, t: Tree, held: seq<Ref>) {
    && |held| <= 3
    && (forall r | r in held :: r in s.heap && (r == s.root || r in Refs(t)))
    && (forall i | 0 <= i < |held| - 1 :: Adjacent(s.heap, held[i], held[i + 1]))
  }

  /** One of the two nodes is the parent of the other. */
  ghost predicate Adjacent(h: Heap, a: Ref, b: Ref) {
    && a in h && b in h
    && (h[a].left == b || h[a].right == b || h[b].left == a || h[b].right == a)
  }

  ghost predicate Unique(rs: seq<Ref>) {
    forall i, j | 0 <= i < j < |rs| :: rs[i] != rs[j]
  }

  /** A mutex is locked by a thread exactly when that thread's program counter says so. */
  ghost predicate Locks(s: State) {
    && (forall r | r in s.owner :: s.owner[r] in s.pcs && r in Held(s.root, s.pcs[s.owner[r]]))
    && (forall tid, r {:trigger r in Held(s.root, s.pcs[tid])} | tid in s.pcs && r in Held(s.root, s.pcs[tid]) ::
          r in s.owner && s.owner[r] == tid && r in s.heap)
  }

  ghost predicate Inv(s: State, t: Tree) {
    && Represents(s.heap, s.root, t) && NULL !in s.heap
    && Locks(s)
    && forall tid | tid in s.pcs :: PcInv(s, t, s.pcs[tid])
  }

  // ---------------------------------------------------------------- the atomic map

  /** What the call does to the map, and what it returns, when it takes effect at once. */
  function Apply(m: map<Key, Value>, op: Op): (map<Key, Value>, Result) {
    match op
    case Add(k, v) => (m[k := v], Done)
    case Lookup(k) => (m, if k in m then Found(m[k]) else NotFound)
    case Delete(k) => (m - {k}, Done)
  }

  datatype Status = Quiescent | Pending(op: Op) | Complete(op: Op, result: Result)

  /** Where the thread's call is, seen from outside. */
  function StatusOf(pc: PC): Status {
    match pc
    case Idle => Quiescent
    case Free(op, res, _, _) => Complete(op, res)
    case Release(op, res, _) => Complete(op, res)
    case _ => Pending(pc.op)
  }

  /** A step either changes nothing that is visible, or makes the pending call take effect, or returns. */
  ghost predicate Refines(m: map<Key, Value>, a: Status, m': map<Key, Value>, a': Status) {
    || (m' == m && a' == a)
    || (a.Pending? && a'.Complete? && a'.op == a.op && (m', a'.result) == Apply(m, a.op))
    || (m' == m && a.Complete? && a' == Quiescent)
  }

  // ---------------------------------------------------------------- interference

  /** Only cells held by `tid` differ. */
  ghost predicate Quiet(s: State, s': State, tid: Tid)
    requires tid in s.pcs
  {
    && s'.root == s.root
    && forall r | r in s.heap && r !in Held(s.root, s.pcs[tid]) :: r in s'.heap && s'.heap[r] == s.heap[r]
  }

  /** Mutual exclusion. */
  lemma NotShared(s: State, tid: Tid, other: Tid, r: Ref)
    requires Locks(s) && tid in s.pcs && other in s.pcs && other != tid && r in Held(s.root, s.pcs[other])
    ensures r !in Held(s.root, s.pcs[tid])
    ensures r in s.owner && s.owner[r] == other && r in s.heap
  {
  }

  /** A step of `tid` leaves every other thread where it was, still entitled to be there. */
  lemma OthersKeep(s: State, t: Tree, s': State, t': Tree, tid: Tid, gone: set<Ref>, other: Tid)
    requires Locks(s) && tid in s.pcs && other in s.pcs && other != tid && PcInv(s, t, s.pcs[other])
    requires Quiet(s, s', tid)
    requires KeepsPaths(t, t', gone) && forall r | r in gone :: r in Held(s.root, s.pcs[tid])
    requires Refs(t) - gone <= Refs(t') && forall r | r in Refs(t') :: r in Refs(t) || r == s.root || r !in s.heap
    ensures PcInv(s', t', s.pcs[other])
  {
    forall r | r in Held(s.root, s.pcs[other])
      ensures r in s.heap && r !in gone && r in s'.heap && s'.heap[r] == s.heap[r]
    {
      NotShared(s, tid, other, r);
    }
    CounterKeeps(s, t, s', t', gone, s.pcs[other]);
  }

  lemma CounterKeeps(s: State, t: Tree, s': State, t': Tree, gone: set<Ref>, pc: PC)
    requires PcInv(s, t, pc) && s'.root == s.root && KeepsPaths(t, t', gone)
    requires forall r | r in Held(s.root, pc) :: r in s.heap && r !in gone && r in s'.heap && s'.heap[r] == s.heap[r]
    requires Refs(t) - gone <= Refs(t') && forall r | r in Refs(t') :: r in Refs(t) || r == s.root || r !in s.heap
    ensures PcInv(s', t', pc)
  {
    match pc
    case Idle =>
    case Start(_) =>
    case AtRoot(_) =>
    case At(op, p, c) => StandingKeeps(s, t, s', t', gone, op.key, p, c);
    case LockNext(op, p, c, n) => StandingKeeps(s, t, s', t', gone, op.key, p, c);
    case Shift(op, p, c, n) => StandingKeeps(s, t, s', t', gone, op.key, p, c);
    case RootLock(op, c) => assert s.root in Held(s.root, pc);
    case RootCopy(op, c) => assert s.root in Held(s.root, pc);
    case Free(op, res, x, rest) => LinkedKeeps(s, t, s', t', gone, rest);
    case Release(op, res, held) => LinkedKeeps(s, t, s', t', gone, held);
  }

  lemma LinkedKeeps(s: State, t: Tree, s': State, t': Tree, gone: set<Ref>, held: seq<Ref>)
    requires Linked(s, t, held) && s'.root == s.root
    requires forall r | r in held :: r in s.heap && r !in gone && r in s'.heap && s'.heap[r] == s.heap[r]
    requires Refs(t) - gone <= Refs(t')
    ensures Linked(s', t', held)
  {
    forall i | 0 <= i < |held| - 1 ensures Adjacent(s'.heap, held[i], held[i + 1]) {
      assert Adjacent(s.heap, held[i], held[i + 1]);
      assert held[i] in held && held[i + 1] in held;
    }
  }

  lemma StandingKeeps(s: State, t: Tree, s': State, t': Tree, gone: set<Ref>, k: Key, p: Ref, c: Ref)
    requires Standing(s, t, k, p, c) && s'.root == s.root && KeepsPaths(t, t', gone)
    requires forall r | r in Opt(p) + [c] :: r in s.heap && r !in gone && r in s'.heap && s'.heap[r] == s.heap[r]
    ensures Standing(s', t', k, p, c)
    ensures c in s'.heap && s'.heap[c] == s.heap[c]
  {
    assert c in Opt(p) + [c];
    if p != NULL { assert p in Opt(p) + [c]; }
  }

  /** The owner map changes only where `tid` locks or unlocks, and then as its new counter says. */
  ghost predicate OwnerStep(s: State, s': State, tid: Tid)
    requires tid in s'.pcs
  {
    && (forall r | r in s'.owner && s'.owner[r] == tid :: r in Held(s'.root, s'.pcs[tid]))
    && (forall r | r in Held(s'.root, s'.pcs[tid]) :: r in s'.owner && s'.owner[r] == tid && r in s'.heap)
    && (forall r | r in s'.owner && s'.owner[r] != tid :: r in s.owner && s.owner[r] == s'.owner[r])
    && (forall r | r in s.owner && s.owner[r] != tid :: r in s'.owner && s.owner[r] == s'.owner[r])
  }

  ghost predicate SamePlace(s: State, s': State, tid: Tid) {
    && tid in s.pcs && tid in s'.pcs && s'.pcs == s.pcs[tid := s'.pcs[tid]] && s'.root == s.root
  }

  lemma Keeps(s: State, s': State, tid: Tid)
    requires Locks(s) && SamePlace(s, s', tid) && s'.owner == s.owner
    requires forall r :: r in Held(s.root, s.pcs[tid]) <==> r in Held(s.root, s'.pcs[tid])
    requires forall r | r in Held(s.root, s'.pcs[tid]) :: r in s'.heap
    ensures OwnerStep(s, s', tid)
  {
  }

  lemma Acquires(s: State, s': State, tid: Tid, x: Ref)
    requires Locks(s) && SamePlace(s, s', tid) && x !in s.owner && s'.owner == s.owner[x := tid]
    requires forall r :: r in Held(s.root, s'.pcs[tid]) <==> r in Held(s.root, s.pcs[tid]) || r == x
    requires forall r | r in Held(s.root, s'.pcs[tid]) :: r in s'.heap
    ensures OwnerStep(s, s', tid)
  {
  }

  lemma Drops(s: State, s': State, tid: Tid, x: Ref)
    requires Locks(s) && SamePlace(s, s', tid) && s'.owner == s.owner - {x}
    requires x in Held(s.root, s.pcs[tid]) || x !in s.owner
    requires forall r :: r in Held(s.root, s'.pcs[tid]) <==> r in Held(s.root, s.pcs[tid]) && r != x
    requires forall r | r in Held(s.root, s'.pcs[tid]) :: r in s'.heap
    ensures OwnerStep(s, s', tid)
  {
  }

  lemma Advance(s: State, t: Tree, s': State, t': Tree, tid: Tid, gone: set<Ref>)
    requires Inv(s, t) && SamePlace(s, s', tid)
    requires Quiet(s, s', tid)
    requires KeepsPaths(t, t', gone) && |gone| <= 1 && forall r | r in gone :: r in Held(s.root, s.pcs[tid])
    requires Refs(t) - gone <= Refs(t') && forall r | r in Refs(t') :: r in Refs(t) || r == s.root || r !in s.heap
    requires Represents(s'.heap, s'.root, t') && NULL !in s'.heap
    requires PcInv(s', t', s'.pcs[tid])
    requires OwnerStep(s, s', tid)
    ensures Inv(s', t') && Displaces(t, t')
  {
    hide Locks, OwnerStep, Quiet, KeepsPaths, PcInv, Represents, Held;
    forall other | other in s'.pcs ensures PcInv(s', t', s'.pcs[other]) {
      if other != tid { OthersKeep(s, t, s', t', tid, gone, other); }
    }
    AdvanceLocks(s, s', tid);
  }

  lemma AdvanceLocks(s: State, s': State, tid: Tid)
    requires Locks(s) && SamePlace(s, s', tid) && Quiet(s, s', tid) && OwnerStep(s, s', tid)
    ensures Locks(s')
  {
    forall other, r | other in s'.pcs && r in Held(s'.root, s'.pcs[other])
      ensures r in s'.owner && s'.owner[r] == other && r in s'.heap
    {
      if other != tid { NotShared(s, tid, other, r); }
    }
  }

  /** The same for a step that touches no cell. */
  lemma AdvanceLocal(s: State, t: Tree, s': State, tid: Tid)
    requires Inv(s, t) && SamePlace(s, s', tid) && s'.heap == s.heap
    requires PcInv(s', t, s'.pcs[tid])
    requires OwnerStep(s, s', tid)
    ensures Inv(s', t) && Displaces(t, t)
  {
    Advance(s, t, s', t, tid, {});
  }

  // ---------------------------------------------------------------- every step

  ghost predicate Fresh(s: State, newRef: Ref) {
    newRef != NULL && newRef !in s.heap
  }

  ghost predicate StepOk(s: State, t: Tree, s': State, t': Tree, tid: Tid)
    requires tid in s.pcs
  {
    && Inv(s', t') && tid in s'.pcs && Displaces(t, t')
    && Refines(Contents(t), StatusOf(s.pcs[tid]), Contents(t'), StatusOf(s'.pcs[tid]))
  }

  lemma StepStart(s: State, t: Tree, tid: Tid, newRef: Ref)
    requires Inv(s, t) && Enabled(s, tid) && s.pcs[tid].Start?
    ensures StepOk(s, t, Do(s, tid, newRef), t, tid)
  {
    hide Inv, Locks, OwnerStep, Displaces;
    InvParts(s, t, tid);
    var s' := Do(s, tid, newRef);
    Acquires(s, s', tid, s.root);
    AdvanceLocal(s, t, s', tid);
  }

  lemma StepAtRoot(s: State, t: Tree, tid: Tid, newRef: Ref) returns (t': Tree)
    requires Inv(s, t) && Enabled(s, tid) && s.pcs[tid].AtRoot?
    ensures StepOk(s, t, Do(s, tid, newRef), t', tid)
  {
    hide Inv, Locks, OwnerStep, Displaces;
    InvParts(s, t, tid);
    var s' := Do(s, tid, newRef);
    var op := s.pcs[tid].op;
    t' := t;
    assert s.root in Held(s.root, s.pcs[tid]);
    Keeps(s, s', tid);
    if s.heap[s.root].key == None {
      assert Contents(t) == map[];
      if op.Add? {
        t' := FirstNode(s.heap, s.root, t, op.key, op.value);
        Advance(s, t, s', t', tid, {});
      } else {
        AdvanceLocal(s, t, s', tid);
      }
    } else {
      AdvanceLocal(s, t, s', tid);
    }
  }

  lemma FirstNode(h: Heap, root: Ref, t: Tree, k: Key, v: Value) returns (t': Tree)
    requires Represents(h, root, t) && h[root].key == None
    ensures Represents(h[root := h[root].(key := Some(k), value := v)], root, t') && Refs(t') == {root}
    ensures Contents(t') == map[k := v] && t == Leaf
  {
    t' := Node(root, k, v, Leaf, Leaf);
    var h' := h[root := h[root].(key := Some(k), value := v)];
    assert Matches(h', NULL, Leaf);
    assert Refs(Leaf) == {} && Keys(Leaf) == {} && Contents(Leaf) == map[];
  }

  lemma StepFound(s: State, t: Tree, tid: Tid, newRef: Ref) returns (t': Tree)
    requires Inv(s, t) && Enabled(s, tid) && s.pcs[tid].At?
    requires s.heap[s.pcs[tid].curr].key.value == s.pcs[tid].op.key
    ensures StepOk(s, t, Do(s, tid, newRef), t', tid)
  {
    var At(op, p, c) := s.pcs[tid];
    match op
    case Add(k, v) => t' := StepFoundAdd(s, t, tid, newRef);
    case Lookup(k) => t' := t; StepFoundLookup(s, t, tid, newRef);
    case Delete(k) =>
      if p == NULL { t' := StepFoundRoot(s, t, tid, newRef); } else { t' := StepFoundDelete(s, t, tid, newRef); }
  }

  lemma InvParts(s: State, t: Tree, tid: Tid)
    requires Inv(s, t) && tid in s.pcs
    ensures Represents(s.heap, s.root, t) && NULL !in s.heap && Locks(s) && PcInv(s, t, s.pcs[tid])
  {
  }

  /** The step of a thread that compares keys. */
  lemma DoAt(s: State, tid: Tid, newRef: Ref)
    requires Enabled(s, tid) && s.pcs[tid].At?
    ensures var At(op, p, c) := s.pcs[tid];
            && c in s.heap && s.heap[c].key.Some? && (p != NULL ==> p in s.heap)
            && Do(s, tid, newRef) == if op.key == s.heap[c].key.value then DoFound(s, tid, op, p, c)
                                     else DoSearch(s, tid, op, p, c, newRef)
  {
  }

  /** The two nodes a thread stands on, in whichever order it will release them. */
  lemma HeldAt(s: State, t: Tree, tid: Tid)
    requires Inv(s, t) && tid in s.pcs && s.pcs[tid].At?
    ensures var At(op, p, c) := s.pcs[tid];
            && (forall r :: r in Held(s.root, s.pcs[tid]) <==> r == c || (r == p && p != NULL))
            && (forall r :: r in [c] + Opt(p) <==> r == c || (r == p && p != NULL))
            && (p != NULL ==> p in s.heap && p in Refs(t) && p != c && Adjacent(s.heap, p, c))
            && c in s.heap && c in Refs(t)
            && Unique([c] + Opt(p)) && Linked(s, t, [c] + Opt(p)) && Unique(Opt(p) + [c]) && Linked(s, t, Opt(p) + [c])
  {
    var At(op, p, c) := s.pcs[tid];
    OnPathInTree(t, op.key, c);
    if p == NULL {
      assert [c] + Opt(p) == [c] && Opt(p) + [c] == [c];
    } else {
      DescendsOnPath(s, t, op.key, p, c);
      assert [c] + Opt(p) == [c, p] && Opt(p) + [c] == [p, c];
    }
  }

  lemma ValueKeepsLinks(s: State, t: Tree, s': State, t': Tree, c: Ref, v: Value, held: seq<Ref>)
    requires Linked(s, t, held) && c in s.heap && s'.root == s.root && Refs(t') == Refs(t)
    requires s'.heap == s.heap[c := s.heap[c].(value := v)]
    ensures Linked(s', t', held)
  {
    forall i | 0 <= i < |held| - 1 ensures Adjacent(s'.heap, held[i], held[i + 1]) {
      assert Adjacent(s.heap, held[i], held[i + 1]);
    }
  }

  lemma StepFoundAdd(s: State, t: Tree, tid: Tid, newRef: Ref) returns (t': Tree)
    requires Inv(s, t) && Enabled(s, tid) && s.pcs[tid].At? && s.pcs[tid].op.Add?
    requires s.heap[s.pcs[tid].curr].key.value == s.pcs[tid].op.key
    ensures StepOk(s, t, Do(s, tid, newRef), t', tid)
  {
    hide Do, DoSearch, Linked, Unique, Adjacent, Inv, Locks, OwnerStep, Displaces, KeepsPaths;
    hide Represents, Contents, OnPath, Refs;
    InvParts(s, t, tid);
    DoAt(s, tid, newRef);
    var s' := Do(s, tid, newRef);
    var At(op, p, c) := s.pcs[tid];
    HeldAt(s, t, tid);
    Keeps(s, s', tid);
    t' := SetValue(s.heap, s.root, t, c, op.key, op.value);
    ValueKeepsLinks(s, t, s', t', c, op.value, [c] + Opt(p));
    Advance(s, t, s', t', tid, {});
  }

  lemma StepFoundLookup(s: State, t: Tree, tid: Tid, newRef: Ref)
    requires Inv(s, t) && Enabled(s, tid) && s.pcs[tid].At? && s.pcs[tid].op.Lookup?
    requires s.heap[s.pcs[tid].curr].key.value == s.pcs[tid].op.key
    ensures StepOk(s, t, Do(s, tid, newRef), t, tid)
  {
    hide Do, DoSearch, Inv, Locks, OwnerStep, Displaces, KeepsPaths, Represents, Contents, OnPath, Refs;
    InvParts(s, t, tid);
    DoAt(s, tid, newRef);
    var s' := Do(s, tid, newRef);
    var At(op, p, c) := s.pcs[tid];
    HeldAt(s, t, tid);
    Keeps(s, s', tid);
    FoundHere(s.heap, s.root, t, op.key, c);
    AdvanceLocal(s, t, s', tid);
  }

  lemma StepFoundDelete(s: State, t: Tree, tid: Tid, newRef: Ref) returns (t': Tree)
    requires Inv(s, t) && Enabled(s, tid) && s.pcs[tid].At? && s.pcs[tid].op.Delete? && s.pcs[tid].parent != NULL
    requires s.heap[s.pcs[tid].curr].key.value == s.pcs[tid].op.key
    ensures StepOk(s, t, Do(s, tid, newRef), t', tid)
  {
    hide Do, DoSearch, Inv, Locks, OwnerStep, Displaces, KeepsPaths, Represents, Contents, OnPath, Refs;
    InvParts(s, t, tid);
    DoAt(s, tid, newRef);
    var s' := Do(s, tid, newRef);
    var At(op, p, c) := s.pcs[tid];
    HeldAt(s, t, tid);
    Keeps(s, s', tid);
    t' := Unlink(s.heap, s.root, t, p, c, op.key);
    Advance(s, t, s', t', tid, {c});
  }

  lemma LastNode(h: Heap, root: Ref, t: Tree, k: Key)
    requires Represents(h, root, t) && h[root].key == Some(k) && h[root].left == NULL && h[root].right == NULL
    ensures Represents(h[root := Cell(None, 0, NULL, NULL)], root, Leaf)
    ensures Refs(t) == {root} && Refs(Leaf) == {} && KeepsPaths(t, Leaf, {root})
    ensures Contents(Leaf) == map[] == Contents(t) - {k}
  {
    assert Matches(h, NULL, t.left) && Matches(h, NULL, t.right);
    assert Refs(Leaf) == {} && Contents(t) - {k} == map[];
  }

  lemma StepFoundRoot(s: State, t: Tree, tid: Tid, newRef: Ref) returns (t': Tree)
    requires Inv(s, t) && Enabled(s, tid) && s.pcs[tid].At? && s.pcs[tid].op.Delete? && s.pcs[tid].parent == NULL
    requires s.heap[s.pcs[tid].curr].key.value == s.pcs[tid].op.key
    ensures StepOk(s, t, Do(s, tid, newRef), t', tid)
  {
    hide Do, DoSearch, Inv, Locks, OwnerStep, Displaces, KeepsPaths, Represents, Contents, OnPath, Refs;
    InvParts(s, t, tid);
    DoAt(s, tid, newRef);
    var s' := Do(s, tid, newRef);
    var At(op, p, c) := s.pcs[tid];
    HeldAt(s, t, tid);
    Keeps(s, s', tid);
    t' := t;
    if s.heap[c].left == NULL && s.heap[c].right == NULL {
      t' := Leaf;
      LastNode(s.heap, s.root, t, op.key);
      Advance(s, t, s', t', tid, {c});
    } else {
      AdvanceLocal(s, t, s', tid);
    }
  }

  lemma StepSearch(s: State, t: Tree, tid: Tid, newRef: Ref) returns (t': Tree)
    requires Inv(s, t) && Enabled(s, tid) && s.pcs[tid].At? && Fresh(s, newRef)
    requires s.heap[s.pcs[tid].curr].key.value != s.pcs[tid].op.key
    ensures StepOk(s, t, Do(s, tid, newRef), t', tid)
  {
    var At(op, p, c) := s.pcs[tid];
    t' := t;
    if s.heap[c].Next(op.key) != NULL {
      StepDescend(s, t, tid, newRef);
    } else if op.Add? {
      t' := StepInsert(s, t, tid, newRef);
    } else {
      StepMissing(s, t, tid, newRef);
    }
  }

  lemma StepDescend(s: State, t: Tree, tid: Tid, newRef: Ref)
    requires Inv(s, t) && Enabled(s, tid) && s.pcs[tid].At?
    requires s.heap[s.pcs[tid].curr].key.value != s.pcs[tid].op.key
    requires s.heap[s.pcs[tid].curr].Next(s.pcs[tid].op.key) != NULL
    ensures StepOk(s, t, Do(s, tid, newRef), t, tid)
  {
    hide Do, DoFound, Inv, Locks, OwnerStep, Displaces, KeepsPaths, Represents, Contents, OnPath, Refs;
    InvParts(s, t, tid);
    DoAt(s, tid, newRef);
    var s' := Do(s, tid, newRef);
    HeldAt(s, t, tid);
    Keeps(s, s', tid);
    AdvanceLocal(s, t, s', tid);
  }

  lemma StepMissing(s: State, t: Tree, tid: Tid, newRef: Ref)
    requires Inv(s, t) && Enabled(s, tid) && s.pcs[tid].At? && !s.pcs[tid].op.Add?
    requires s.heap[s.pcs[tid].curr].key.value != s.pcs[tid].op.key
    requires s.heap[s.pcs[tid].curr].Next(s.pcs[tid].op.key) == NULL
    ensures StepOk(s, t, Do(s, tid, newRef), t, tid)
  {
    hide Do, DoFound, Inv, Locks, OwnerStep, Displaces, KeepsPaths, Represents, Contents, OnPath, Refs;
    InvParts(s, t, tid);
    DoAt(s, tid, newRef);
    var s' := Do(s, tid, newRef);
    var At(op, p, c) := s.pcs[tid];
    HeldAt(s, t, tid);
    MissingHere(s.heap, s.root, t, op.key, c);
    assert Contents(t) - {op.key} == Contents(t);
    Keeps(s, s', tid);
    AdvanceLocal(s, t, s', tid);
  }

  lemma StepInsert(s: State, t: Tree, tid: Tid, newRef: Ref) returns (t': Tree)
    requires Inv(s, t) && Enabled(s, tid) && s.pcs[tid].At? && s.pcs[tid].op.Add? && Fresh(s, newRef)
    requires s.heap[s.pcs[tid].curr].key.value != s.pcs[tid].op.key
    requires s.heap[s.pcs[tid].curr].Next(s.pcs[tid].op.key) == NULL
    ensures StepOk(s, t, Do(s, tid, newRef), t', tid)
  {
    hide Do, DoFound, Linked, Unique, Adjacent, LinkNew, Inv;
    hide Locks, OwnerStep, Displaces, KeepsPaths, Represents, Contents, OnPath, Refs;
    InvParts(s, t, tid);
    DoAt(s, tid, newRef);
    var s' := Do(s, tid, newRef);
    var At(op, p, c) := s.pcs[tid];
    HeldAt(s, t, tid);
    InsertLinks(s.heap, c, op.key, op.value, newRef, p);
    assert forall r :: r in [newRef, c] + Opt(p) <==> r == newRef || r in [c] + Opt(p);
    Acquires(s, s', tid, newRef);
    t' := AddChild(s.heap, s.root, t, c, op.key, op.value, newRef);
    InsertReleases(s', t', newRef, c, p);
    Advance(s, t, s', t', tid, {});
  }

  lemma InsertLinks(h: Heap, c: Ref, k: Key, v: Value, n: Ref, p: Ref)
    requires c in h && h[c].key.Some? && h[c].Next(k) == NULL && n != NULL && n !in h && NULL !in h
    ensures var h' := LinkNew(h, c, k, v, n);
            && n in h' && c in h' && n != c && NULL !in h' && Adjacent(h', n, c)
            && (p in h && Adjacent(h, p, c) ==> Adjacent(h', c, p))
            && (forall r | r in h :: r in h' && r != n && (r != c ==> h'[r] == h[r]))
  {
  }

  /** add() ends by releasing the new node, its parent and its grandparent. */
  lemma InsertReleases(s: State, t: Tree, n: Ref, c: Ref, p: Ref)
    requires n in s.heap && c in s.heap && n in Refs(t) && c in Refs(t) && n != c && Adjacent(s.heap, n, c)
    requires p != NULL ==> p in s.heap && p in Refs(t) && p != c && p != n && Adjacent(s.heap, c, p)
    ensures Unique([n, c] + Opt(p)) && Linked(s, t, [n, c] + Opt(p))
  {
    assert p != NULL ==> [n, c] + Opt(p) == [n, c, p];
    assert p == NULL ==> [n, c] + Opt(p) == [n, c];
  }

  lemma DescendsOnPath(s: State, t: Tree, k: Key, c: Ref, n: Ref)
    requires Represents(s.heap, s.root, t) && OnPath(t, k, c) && Descending(s, k, c, n)
    ensures n in s.heap && OnPath(t, k, n) && n != c && n != s.root && s.heap[n].key.Some?
    ensures c in Refs(t) && n in Refs(t) && Depth(t, n) == Depth(t, c) + 1
  {
    StepDown(s.heap, s.root, t, k, c);
  }

  lemma StepLockNext(s: State, t: Tree, tid: Tid, newRef: Ref)
    requires Inv(s, t) && Enabled(s, tid) && s.pcs[tid].LockNext?
    ensures StepOk(s, t, Do(s, tid, newRef), t, tid)
  {
    hide Inv, Locks, OwnerStep, Displaces;
    InvParts(s, t, tid);
    var s' := Do(s, tid, newRef);
    var LockNext(op, p, c, n) := s.pcs[tid];
    DescendsOnPath(s, t, op.key, c, n);
    assert Opt(p) + [c, n] == Opt(p) + [c] + [n];
    Acquires(s, s', tid, n);
    AdvanceLocal(s, t, s', tid);
  }

  lemma NullUnlocked(s: State)
    requires Locks(s) && NULL !in s.heap
    ensures NULL !in s.owner
  {
  }

  lemma StepShift(s: State, t: Tree, tid: Tid, newRef: Ref)
    requires Inv(s, t) && Enabled(s, tid) && s.pcs[tid].Shift?
    ensures StepOk(s, t, Do(s, tid, newRef), t, tid)
  {
    hide Inv, Locks, OwnerStep, Displaces;
    InvParts(s, t, tid);
    var s' := Do(s, tid, newRef);
    var Shift(op, p, c, n) := s.pcs[tid];
    DescendsOnPath(s, t, op.key, c, n);
    if p != NULL { DescendsOnPath(s, t, op.key, p, c); }
    assert Held(s.root, s.pcs[tid]) == Opt(p) + [c, n];
    assert Held(s.root, s'.pcs[tid]) == [c, n];
    if p == NULL {
      NullUnlocked(s);
    } else {
      assert (Opt(p) + [c, n])[0] == p;
    }
    Drops(s, s', tid, p);
    AdvanceLocal(s, t, s', tid);
  }

  lemma StepRootLock(s: State, t: Tree, tid: Tid, newRef: Ref)
    requires Inv(s, t) && Enabled(s, tid) && s.pcs[tid].RootLock?
    ensures StepOk(s, t, Do(s, tid, newRef), t, tid)
  {
    hide Inv, Locks, OwnerStep, Displaces;
    InvParts(s, t, tid);
    var s' := Do(s, tid, newRef);
    var t' := CopyUp(s.heap, s.root, t, s.pcs[tid].child);
    assert s.root in Held(s.root, s.pcs[tid]);
    Acquires(s, s', tid, s.pcs[tid].child);
    AdvanceLocal(s, t, s', tid);
  }

  lemma StepRootCopy(s: State, t: Tree, tid: Tid, newRef: Ref) returns (t': Tree)
    requires Inv(s, t) && Enabled(s, tid) && s.pcs[tid].RootCopy?
    ensures StepOk(s, t, Do(s, tid, newRef), t', tid)
  {
    hide Inv, Locks, OwnerStep, Displaces, KeepsPaths, Represents, Contents, OnPath, Refs;
    InvParts(s, t, tid);
    var s' := Do(s, tid, newRef);
    var c := s.pcs[tid].child;
    t' := CopyUp(s.heap, s.root, t, c);
    assert Held(s.root, s.pcs[tid]) == [s.root, c] && Held(s.root, s'.pcs[tid]) == [c, s.root];
    Keeps(s, s', tid);
    Advance(s, t, s', t', tid, {c});
  }

  lemma StepFree(s: State, t: Tree, tid: Tid, newRef: Ref)
    requires Inv(s, t) && Enabled(s, tid) && s.pcs[tid].Free?
    ensures StepOk(s, t, Do(s, tid, newRef), t, tid)
  {
    hide Inv, Locks, OwnerStep, Displaces;
    InvParts(s, t, tid);
    var s' := Do(s, tid, newRef);
    var Free(op, result, x, rest) := s.pcs[tid];
    FreeUnreachable(s.heap, s.root, t, x);
    assert rest == [rest[0]];
    assert Held(s.root, s.pcs[tid]) == [x, rest[0]];
    Drops(s, s', tid, x);
    Advance(s, t, s', t, tid, {});
  }

  lemma StepRelease(s: State, t: Tree, tid: Tid, newRef: Ref)
    requires Inv(s, t) && Enabled(s, tid) && s.pcs[tid].Release?
    ensures StepOk(s, t, Do(s, tid, newRef), t, tid)
  {
    hide Inv, Locks, OwnerStep, Displaces;
    InvParts(s, t, tid);
    var s' := Do(s, tid, newRef);
    var Release(op, result, held) := s.pcs[tid];
    if held == [] {
      Keeps(s, s', tid);
    } else {
      var rest := held[1..];
      assert held == [held[0]] + rest;
      forall i | 0 <= i < |rest| - 1 ensures Adjacent(s.heap, rest[i], rest[i + 1]) {
        assert Adjacent(s.heap, held[i + 1], held[i + 1 + 1]);
      }
      Drops(s, s', tid, held[0]);
    }
    AdvanceLocal(s, t, s', tid);
  }
}
