/** Nodes of the binary search tree of chapter_30/threadsafe_tree.c, kept in an explicit heap.

    A heap maps references to cells. The inductive `Tree` below is never stored: it is the shape that
    a heap represents, and it serves to state what a pointer manipulation does to the whole structure.
    Every update made by the program replaces the subtree hanging at one node, so the lemmas here are
    about `Replace`: what it does to the heap, to the order, to the contents, and to the searches that
    other threads are in the middle of.
  */
module TreeHeap {
  import opened Basics

  type Key = real
  type Value = int
  type Ref = nat

  const NULL: Ref := 0

  /** struct TreeNode without its mutex; the key is None when the pointer is NULL. */
  datatype Cell = Cell(key: Option<Key>, value: Value, left: Ref, right: Ref) {
    /** The child a search for `k` continues with. */
    function Next(k: Key): Ref
      requires key.Some?
    {
      if k < key.value then left else right
    }
  }

  type Heap = map<Ref, Cell>

  datatype Tree = Leaf | Node(ref: Ref, key: Key, value: Value, left: Tree, right: Tree)

  ghost function Refs(t: Tree): set<Ref> {
    match t
    case Leaf => {}
    case Node(x, _, _, l, r) => Refs(l) + {x} + Refs(r)
  }

  ghost function Keys(t: Tree): set<Key> {
    match t
    case Leaf => {}
    case Node(_, k, _, l, r) => Keys(l) + {k} + Keys(r)
  }

  ghost function Contents(t: Tree): map<Key, Value> {
    match t
    case Leaf => map[]
    case Node(_, k, v, l, r) => (Contents(l) + Contents(r))[k := v]
  }

  /** Strict binary search tree order. */
  ghost predicate Bst(t: Tree) {
    t.Node? ==>
      && Bst(t.left) && Bst(t.right)
      && (forall k | k in Keys(t.left) :: k < t.key)
      && (forall k | k in Keys(t.right) :: t.key < k)
  }

  /** No node is reachable in two ways. */
  ghost predicate Distinct(t: Tree) {
    t.Node? ==>
      && Distinct(t.left) && Distinct(t.right)
      && t.ref !in Refs(t.left) && t.ref !in Refs(t.right)
      && Refs(t.left) !! Refs(t.right)
  }

  /** The heap represents tree `t` at reference `r`. */
  ghost predicate Matches(h: Heap, r: Ref, t: Tree)
    decreases t
  {
    match t
    case Leaf => r == NULL
    case Node(x, k, v, tl, tr) =>
      && r == x && r != NULL && r in h
      && h[r].key == Some(k) && h[r].value == v
      && Matches(h, h[r].left, tl) && Matches(h, h[r].right, tr)
  }

  /** The permanent root node is there even when the tree is empty; it then has no key. */
  ghost predicate Represents(h: Heap, root: Ref, t: Tree) {
    && root in h && root != NULL
    && Bst(t) && Distinct(t)
    && match t
       case Leaf => h[root].key == None && h[root].left == NULL && h[root].right == NULL
       case Node(_, _, _, _, _) => Matches(h, root, t)
  }

  /** What a search for `k` returns. */
  ghost function Find(t: Tree, k: Key): Option<Value> {
    match t
    case Leaf => None
    case Node(_, key, v, l, r) => if k == key then Some(v) else if k < key then Find(l, k) else Find(r, k)
  }

  /** The search for `k` visits node `x`. */
  ghost predicate OnPath(t: Tree, k: Key, x: Ref) {
    t.Node? && (t.ref == x || (k < t.key && OnPath(t.left, k, x)) || (t.key < k && OnPath(t.right, k, x)))
  }

  /** The subtree whose top node is `x`. */
  ghost function Sub(t: Tree, x: Ref): (s: Tree)
    requires x in Refs(t)
    ensures s.Node? && s.ref == x && Refs(s) <= Refs(t) && Keys(s) <= Keys(t)
  {
    if t.ref == x then t else if x in Refs(t.left) then Sub(t.left, x) else Sub(t.right, x)
  }

  /** `t` with the subtree at `x` replaced by `u`. */
  ghost function Replace(t: Tree, x: Ref, u: Tree): Tree
  {
    match t
    case Leaf => Leaf
    case Node(y, k, v, l, r) => if y == x then u else Node(y, k, v, Replace(l, x, u), Replace(r, x, u))
  }

  ghost function Depth(t: Tree, x: Ref): nat
    requires x in Refs(t)
  {
    if t.ref == x then 0 else if x in Refs(t.left) then 1 + Depth(t.left, x) else 1 + Depth(t.right, x)
  }

  ghost function Height(t: Tree): nat {
    match t
    case Leaf => 0
    case Node(_, _, _, l, r) => 1 + (if Height(l) > Height(r) then Height(l) else Height(r))
  }

  // ---------------------------------------------------------------- searches

  lemma {:induction false} ContentsKeys(t: Tree)
    ensures Contents(t).Keys == Keys(t)
  {
    if t.Node? { ContentsKeys(t.left); ContentsKeys(t.right); }
  }

  /** In an ordered tree the search finds exactly what the tree contains. */
  lemma {:induction false} FindIsContents(t: Tree, k: Key)
    requires Bst(t)
    ensures Find(t, k) == if k in Contents(t) then Some(Contents(t)[k]) else None
  {
    ContentsKeys(t);
    if t.Node? {
      ContentsKeys(t.left);
      ContentsKeys(t.right);
      FindIsContents(t.left, k);
      FindIsContents(t.right, k);
    }
  }

  lemma {:induction false} OnPathInTree(t: Tree, k: Key, x: Ref)
    requires OnPath(t, k, x)
    ensures x in Refs(t)
  {
    if t.ref != x {
      if k < t.key { OnPathInTree(t.left, k, x); } else { OnPathInTree(t.right, k, x); }
    }
  }

  /** Once a search has reached `x`, only the subtree at `x` matters to it. */
  lemma {:induction false} PathDecides(t: Tree, k: Key, x: Ref)
    requires Distinct(t) && OnPath(t, k, x)
    ensures x in Refs(t)
    ensures Find(t, k) == Find(Sub(t, x), k)
  {
    OnPathInTree(t, k, x);
    if t.ref != x {
      if k < t.key {
        OnPathInTree(t.left, k, x);
        PathDecides(t.left, k, x);
      } else {
        OnPathInTree(t.right, k, x);
        PathDecides(t.right, k, x);
      }
    }
  }

  /** Every key in the subtree at `x` is searched for by way of `x`. */
  lemma {:induction false} SubKeysOnPath(t: Tree, x: Ref, k: Key)
    requires Bst(t) && x in Refs(t) && k in Keys(Sub(t, x))
    ensures OnPath(t, k, x)
  {
    if t.ref != x {
      if x in Refs(t.left) { SubKeysOnPath(t.left, x, k); } else { SubKeysOnPath(t.right, x, k); }
    }
  }

  lemma {:induction false} SubRefs(t: Tree, x: Ref)
    requires Distinct(t) && x in Refs(t)
    ensures Distinct(Sub(t, x))
    ensures t.ref != x ==> t.ref !in Refs(Sub(t, x))
    ensures t.ref != x && x in Refs(t.left) ==> Refs(Sub(t, x)) <= Refs(t.left)
    ensures t.ref != x && x in Refs(t.right) ==> Refs(Sub(t, x)) <= Refs(t.right)
  {
    if t.ref != x {
      if x in Refs(t.left) { SubRefs(t.left, x); } else { SubRefs(t.right, x); }
    }
  }

  lemma {:induction false} SubBst(t: Tree, x: Ref)
    requires Bst(t) && x in Refs(t)
    ensures Bst(Sub(t, x))
  {
    if t.ref != x {
      if x in Refs(t.left) { SubBst(t.left, x); } else { SubBst(t.right, x); }
    }
  }

  /** Following the child pointer extends a search path. */
  lemma {:induction false} PathExtends(t: Tree, k: Key, x: Ref)
    requires Distinct(t) && OnPath(t, k, x)
    requires x in Refs(t) && k != Sub(t, x).key
    ensures var s := Sub(t, x);
            var n := if k < s.key then s.left else s.right;
            n.Node? ==>
              && OnPath(t, k, n.ref) && n.ref in Refs(t) && Sub(t, n.ref) == n
              && Depth(t, n.ref) == Depth(t, x) + 1
  {
    if t.ref != x {
      var c := if k < t.key then t.left else t.right;
      OnPathInTree(c, k, x);
      PathExtends(c, k, x);
    }
  }

  lemma {:induction false} DepthBound(t: Tree, x: Ref)
    requires x in Refs(t)
    ensures Depth(t, x) < Height(t)
  {
    if t.ref != x {
      if x in Refs(t.left) { DepthBound(t.left, x); } else { DepthBound(t.right, x); }
    }
  }

  // ---------------------------------------------------------------- heap and tree

  lemma {:induction false} MatchesInHeap(h: Heap, r: Ref, t: Tree)
    requires Matches(h, r, t)
    ensures forall x | x in Refs(t) :: x in h && x != NULL && h[x].key.Some?
    decreases t
  {
    if t.Node? { MatchesInHeap(h, h[r].left, t.left); MatchesInHeap(h, h[r].right, t.right); }
  }

  /** A heap represents at most one tree: the contents are a function of the heap. */
  lemma {:induction false} MatchesUnique(h: Heap, r: Ref, t: Tree, u: Tree)
    requires Matches(h, r, t) && Matches(h, r, u)
    ensures t == u
    decreases t
  {
    if t.Node? {
      MatchesUnique(h, h[r].left, t.left, u.left);
      MatchesUnique(h, h[r].right, t.right, u.right);
    }
  }

  lemma RepresentsUnique(h: Heap, root: Ref, t: Tree, u: Tree)
    requires Represents(h, root, t) && Represents(h, root, u)
    ensures t == u
  {
    if t.Node? && u.Node? { MatchesUnique(h, root, t, u); }
  }

  lemma {:induction false} MatchesSub(h: Heap, r: Ref, t: Tree, x: Ref)
    requires Matches(h, r, t) && x in Refs(t)
    ensures Matches(h, x, Sub(t, x))
    decreases t
  {
    if t.ref != x {
      if x in Refs(t.left) { MatchesSub(h, h[r].left, t.left, x); } else { MatchesSub(h, h[r].right, t.right, x); }
    }
  }

  lemma {:induction false} MatchesFrame(h: Heap, h': Heap, r: Ref, t: Tree)
    requires Matches(h, r, t)
    requires forall x | x in Refs(t) :: x in h && x in h' && h'[x] == h[x]
    ensures Matches(h', r, t)
    decreases t
  {
    if t.Node? { MatchesFrame(h, h', h[r].left, t.left); MatchesFrame(h, h', h[r].right, t.right); }
  }

  // ---------------------------------------------------------------- replacing a subtree

  lemma {:induction false} ReplaceAbsent(t: Tree, x: Ref, u: Tree)
    requires x !in Refs(t)
    ensures Replace(t, x, u) == t
  {
    if t.Node? { ReplaceAbsent(t.left, x, u); ReplaceAbsent(t.right, x, u); }
  }

  lemma {:induction false} ReplaceMatches(h: Heap, h': Heap, r: Ref, t: Tree, x: Ref, u: Tree)
    requires Matches(h, r, t) && Distinct(t) && x in Refs(t)
    requires u.Node? && u.ref == x && Matches(h', x, u)
    requires forall y | y in Refs(t) && y !in Refs(Sub(t, x)) :: y in h && y in h' && h'[y] == h[y]
    ensures Matches(h', r, Replace(t, x, u))
    decreases t
  {
    if t.ref != x {
      SubRefs(t, x);
      if x in Refs(t.left) {
        ReplaceMatches(h, h', h[r].left, t.left, x, u);
        ReplaceAbsent(t.right, x, u);
        MatchesInHeap(h, h[r].right, t.right);
        MatchesFrame(h, h', h[r].right, t.right);
      } else {
        ReplaceMatches(h, h', h[r].right, t.right, x, u);
        ReplaceAbsent(t.left, x, u);
        MatchesInHeap(h, h[r].left, t.left);
        MatchesFrame(h, h', h[r].left, t.left);
      }
    }
  }

  lemma {:induction false} ReplaceRefs(t: Tree, x: Ref, u: Tree)
    requires Distinct(t) && x in Refs(t)
    requires Distinct(u) && Refs(u) * Refs(t) <= Refs(Sub(t, x))
    ensures Refs(Replace(t, x, u)) == (Refs(t) - Refs(Sub(t, x))) + Refs(u)
    ensures Distinct(Replace(t, x, u))
  {
    if t.ref != x {
      SubRefs(t, x);
      if x in Refs(t.left) {
        ReplaceRefs(t.left, x, u);
        ReplaceAbsent(t.right, x, u);
      } else {
        ReplaceRefs(t.right, x, u);
        ReplaceAbsent(t.left, x, u);
      }
    }
  }

  lemma {:induction false} ReplaceBst(t: Tree, x: Ref, u: Tree)
    requires Bst(t) && Distinct(t) && x in Refs(t)
    requires Bst(u) && forall k | k in Keys(u) :: OnPath(t, k, x)
    ensures Bst(Replace(t, x, u))
    ensures Keys(Replace(t, x, u)) <= Keys(t) + Keys(u)
  {
    if t.ref != x {
      if x in Refs(t.left) {
        forall k | k in Keys(u) ensures k < t.key && OnPath(t.left, k, x) {
          if t.key < k && OnPath(t.right, k, x) { OnPathInTree(t.right, k, x); }
        }
        ReplaceBst(t.left, x, u);
        ReplaceAbsent(t.right, x, u);
      } else {
        forall k | k in Keys(u) ensures t.key < k && OnPath(t.right, k, x) {
          if k < t.key && OnPath(t.left, k, x) { OnPathInTree(t.left, k, x); }
        }
        ReplaceBst(t.right, x, u);
        ReplaceAbsent(t.left, x, u);
      }
    }
  }

  /** Searches that pass `x` see the new subtree; all others see what they saw before. */
  lemma {:induction false} ReplaceFind(t: Tree, x: Ref, u: Tree, k: Key)
    requires Distinct(t) && x in Refs(t)
    ensures Find(Replace(t, x, u), k) == if OnPath(t, k, x) then Find(u, k) else Find(t, k)
  {
    if t.ref != x {
      if x in Refs(t.left) {
        ReplaceFind(t.left, x, u, k);
        ReplaceAbsent(t.right, x, u);
        if OnPath(t.right, k, x) { OnPathInTree(t.right, k, x); }
      } else {
        ReplaceFind(t.right, x, u, k);
        ReplaceAbsent(t.left, x, u);
        if OnPath(t.left, k, x) { OnPathInTree(t.left, k, x); }
      }
    }
  }

  /** A search standing at `c` is still on its path after the replacement, provided it is on a path of
      the new subtree whenever it was on a path of the old one. */
  lemma {:induction false} ReplacePath(t: Tree, x: Ref, u: Tree, k: Key, c: Ref)
    requires Distinct(t) && x in Refs(t) && u.Node? && u.ref == x
    requires OnPath(t, k, c)
    requires OnPath(Sub(t, x), k, c) ==> OnPath(u, k, c)
    ensures OnPath(Replace(t, x, u), k, c)
  {
    if t.ref == x {
    } else if t.ref != c {
      var n := if k < t.key then t.left else t.right;
      if x in Refs(n) {
        SubRefs(t, x);
        ReplacePath(n, x, u, k, c);
      } else {
        ReplaceAbsent(n, x, u);
      }
    }
  }
}
