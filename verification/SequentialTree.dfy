/** add(), lookup() and delete() of chapter_30/threadsafe_tree.c called from one thread, with the mutexes it
    locks and unlocks on the way.

    delete() is complete here and includes its two-children cases. Those link the successor's parent to NULL
    instead of to the successor's right child: `LostKeys` names what disappears with it, and `DeleteIsRemove`
    says exactly when delete() removes its key and nothing else. A two-children delete below the root also
    unlocks the node of its key once too often; every other call unlocks what it has locked, once.
  */
module SequentialTree {
  import opened Basics
  import opened TreeHeap
  import opened TreeEdits

  // ---------------------------------------------------------------- what the two-children case does

  /** The node with the smallest key. */
  ghost function Leftmost(t: Tree): (m: Tree)
    requires t.Node?
    ensures m.Node? && m.left.Leaf? && m.ref in Refs(t)
  {
    if t.left.Leaf? then t else Leftmost(t.left)
  }

  /** `t` without its leftmost node and without whatever hangs to the right of that node. */
  ghost function CutLeftmost(t: Tree): Tree
    requires t.Node?
  {
    if t.left.Leaf? then Leaf else t.(left := CutLeftmost(t.left))
  }

  /** The node above the leftmost one, `above` being the node above `t`. */
  ghost function AboveLeftmost(t: Tree, above: Ref): Ref
    requires t.Node?
  {
    if t.left.Leaf? then above else AboveLeftmost(t.left, t.ref)
  }

  /** The keys that disappear from the tree together with `k` when `k` is deleted. */
  ghost function LostKeys(t: Tree, k: Key): set<Key> {
    match t
    case Leaf => {}
    case Node(_, key, _, l, r) =>
      if k < key then LostKeys(l, k)
      else if key < k then LostKeys(r, k)
      else if l.Node? && r.Node? then Keys(Leftmost(r).right)
      else {}
  }

  /** The node of `k` has two children, and its successor has a right child. */
  ghost predicate SuccessorHasRightChild(t: Tree, k: Key) {
    match t
    case Leaf => false
    case Node(_, key, _, l, r) =>
      if k < key then SuccessorHasRightChild(l, k)
      else if key < k then SuccessorHasRightChild(r, k)
      else l.Node? && r.Node? && Leftmost(r).right.Node?
  }

  lemma {:induction false} LeftmostInTree(t: Tree)
    requires t.Node?
    ensures Keys(Leftmost(t)) <= Keys(t) && Refs(Leftmost(t)) <= Refs(t)
    ensures Bst(t) ==> Bst(Leftmost(t)) && forall k | k in Keys(t) :: Leftmost(t).key <= k
  {
    if t.left.Node? {
      LeftmostInTree(t.left);
      assert Leftmost(t).key in Keys(Leftmost(t));
    }
  }

  lemma {:induction false} CutKeys(t: Tree)
    requires t.Node? && Bst(t)
    ensures Bst(CutLeftmost(t))
    ensures Keys(CutLeftmost(t)) == Keys(t) - Keys(Leftmost(t))
  {
    if t.left.Leaf? {
      assert Keys(Leaf) == {} && Leftmost(t) == t;
    } else {
      CutKeys(t.left);
      LeftmostInTree(t.left);
      var c := CutLeftmost(t);
      assert Keys(c) == Keys(c.left) + {t.key} + Keys(t.right);
      var m := Keys(Leftmost(t));
      assert m == Keys(Leftmost(t.left)) && m <= Keys(t.left);
      forall k | k in m ensures k < t.key && k !in Keys(t.right) { assert k in Keys(t.left); }
      assert Keys(t) == Keys(t.left) + {t.key} + Keys(t.right);
    }
  }

  lemma {:induction false} CutRefs(t: Tree)
    requires t.Node? && Distinct(t)
    ensures Distinct(CutLeftmost(t)) && Refs(Leftmost(t)) <= Refs(t)
    ensures Refs(CutLeftmost(t)) == Refs(t) - Refs(Leftmost(t))
  {
    if t.left.Leaf? {
      assert Refs(Leaf) == {} && Leftmost(t) == t;
    } else {
      CutRefs(t.left);
      var c := CutLeftmost(t);
      assert Refs(c) == Refs(c.left) + {t.ref} + Refs(t.right);
    }
  }

  lemma {:induction false} CutLeftmostFind(t: Tree, k: Key)
    requires t.Node? && Bst(t)
    ensures Find(CutLeftmost(t), k) == if k in Keys(Leftmost(t)) then None else Find(t, k)
  {
    LeftmostInTree(t);
    if t.left.Leaf? {
      FindIsContents(t, k);
      ContentsKeys(t);
    } else {
      LeftmostInTree(t.left);
      CutLeftmostFind(t.left, k);
    }
  }

  lemma {:induction false} CutLeftmostMatches(h: Heap, h': Heap, r: Ref, t: Tree, above: Ref)
    requires Matches(h, r, t) && t.Node? && Distinct(t)
    requires forall x | x in Refs(CutLeftmost(t)) ::
               && x in h && x in h'
               && h'[x] == if x == AboveLeftmost(t, above) then h[x].(left := NULL) else h[x]
    requires above !in Refs(t)
    ensures t.left.Node? ==> Matches(h', r, CutLeftmost(t))
    decreases t
  {
    if t.left.Node? {
      AboveInTree(t.left, t.ref);
      assert AboveLeftmost(t, above) == AboveLeftmost(t.left, t.ref);
      var c := CutLeftmost(t.left);
      CutRefs(t.left);
      assert forall x | x in Refs(c) + Refs(t.right) + {t.ref} :: x in Refs(CutLeftmost(t));
      MatchesFrame(h, h', h[r].right, t.right);
      if t.left.left.Leaf? {
        assert CutLeftmost(t.left) == Leaf;
      } else {
        CutLeftmostMatches(h, h', h[r].left, t.left, t.ref);
      }
    }
  }

  lemma {:induction false} AboveInTree(t: Tree, above: Ref)
    requires t.Node?
    ensures AboveLeftmost(t, above) in Refs(t) + {above}
    ensures t.left.Node? ==> AboveLeftmost(t, above) in Refs(t)
  {
    if t.left.Node? { AboveInTree(t.left, t.ref); }
  }

  /** Deleting `k` loses another key, `x` for one, exactly when its successor has a right child. */
  lemma {:induction false} LosesKeysIff(t: Tree, k: Key) returns (x: Key)
    requires Bst(t)
    ensures if SuccessorHasRightChild(t, k) then x in LostKeys(t, k) else LostKeys(t, k) == {}
    ensures LostKeys(t, k) <= Keys(t) && k !in LostKeys(t, k)
  {
    x := k;
    if t.Node? {
      if k < t.key { x := LosesKeysIff(t.left, k); }
      else if t.key < k { x := LosesKeysIff(t.right, k); }
      else if t.left.Node? && t.right.Node? {
        LeftmostInTree(t.right);
        var m := Leftmost(t.right).right;
        if m.Node? { x := m.key; }
      }
    }
  }

  // ---------------------------------------------------------------- the edit

  /** The node `x` of `k` takes over the key and value of its successor, which is cut. */
  ghost function TakeSuccessor(s: Tree): Tree
    requires s.Node? && s.right.Node?
  {
    var m := Leftmost(s.right);
    Node(s.ref, m.key, m.value, s.left, CutLeftmost(s.right))
  }

  lemma TakeSuccessorTree(s: Tree)
    requires s.Node? && s.left.Node? && s.right.Node? && Bst(s) && Distinct(s)
    ensures var u := TakeSuccessor(s);
            Bst(u) && Distinct(u) && Refs(u) <= Refs(s) && Keys(u) <= Keys(s)
  {
    CutKeys(s.right);
    CutRefs(s.right);
    SuccessorKey(s.right);
    Join(s, Leftmost(s.right).key, Leftmost(s.right).value, CutLeftmost(s.right));
  }

  lemma SuccessorKey(t: Tree)
    requires t.Node? && Bst(t)
    ensures Leftmost(t).key in Keys(t) && forall k | k in Keys(CutLeftmost(t)) :: Leftmost(t).key < k
  {
    CutKeys(t);
    LeftmostInTree(t);
    assert Leftmost(t).key in Keys(Leftmost(t));
  }

  lemma Join(s: Tree, k: Key, v: Value, r: Tree)
    requires s.Node? && Bst(s) && Distinct(s) && Bst(r) && Distinct(r) && Refs(r) <= Refs(s.right)
    requires Keys(r) <= Keys(s.right)
    requires k in Keys(s.right) && forall k' | k' in Keys(r) :: k < k'
    ensures var u := Node(s.ref, k, v, s.left, r);
            Bst(u) && Distinct(u) && Refs(u) <= Refs(s) && Keys(u) <= Keys(s)
  {
  }

  lemma TakeSuccessorFind(s: Tree, k: Key)
    requires s.Node? && s.left.Node? && s.right.Node? && Bst(s) && Distinct(s)
    ensures Find(TakeSuccessor(s), k) == if k in {s.key} + Keys(Leftmost(s.right).right) then None else Find(s, k)
  {
    var m := Leftmost(s.right);
    CutKeys(s.right);
    LeftmostInTree(s.right);
    assert Keys(m) == {m.key} + Keys(m.right);
    CutLeftmostFind(s.right, k);
    SuccessorFind(s.right);
    NotFound(s.left, k);
    NotFound(s.right, k);
  }

  lemma NotFound(t: Tree, k: Key)
    requires Bst(t)
    ensures k !in Keys(t) <==> Find(t, k) == None
  {
    FindIsContents(t, k);
    ContentsKeys(t);
  }

  lemma {:induction false} SuccessorFind(t: Tree)
    requires t.Node? && Bst(t)
    ensures Find(t, Leftmost(t).key) == Some(Leftmost(t).value)
  {
    if t.left.Node? {
      SuccessorFind(t.left);
      LeftmostInTree(t.left);
      assert Leftmost(t.left).key in Keys(Leftmost(t.left));
    }
  }

  /** What the assignments of the two-children case leave in the heap. */
  function ReplaceBySuccessor(h: Heap, x: Ref, succ: Ref, above: Ref): Heap
    requires x in h && succ in h && above in h && succ != above
  {
    var h1 := h[x := h[x].(key := h[succ].key, value := h[succ].value)] - {succ};
    h1[above := if h1[above].left == succ then h1[above].(left := NULL) else h1[above].(right := NULL)]
  }

  lemma TakeSuccessorHeap(h: Heap, root: Ref, t: Tree, x: Ref)
    requires Represents(h, root, t) && x in Refs(t) && Sub(t, x).left.Node? && Sub(t, x).right.Node?
    ensures var s := Sub(t, x);
            var succ := Leftmost(s.right).ref;
            var above := AboveLeftmost(s.right, x);
            && x in h && succ in h && above in h && succ != above && succ != x
            && Matches(ReplaceBySuccessor(h, x, succ, above), x, TakeSuccessor(s))
            && forall y | y in h && y !in Refs(s) :: y in ReplaceBySuccessor(h, x, succ, above)
                 && ReplaceBySuccessor(h, x, succ, above)[y] == h[y]
  {
    var s := SubFacts(h, root, t, x);
    var m := Leftmost(s.right);
    var above := AboveLeftmost(s.right, x);
    AboveInTree(s.right, x);
    SuccessorCell(h, h[x].right, s.right, x);
    var h' := ReplaceBySuccessor(h, x, m.ref, above);
    CutRefs(s.right);
    assert m.ref in Refs(m) && m.ref !in Refs(s.left) && m.ref != x;
    assert Matches(h', h[x].left, s.left) by { MatchesFrame(h, h', h[x].left, s.left); }
    if s.right.left.Node? {
      assert x !in Refs(s.right);
      assert forall y | y in Refs(CutLeftmost(s.right)) :: y != m.ref && y != x;
      CutLeftmostMatches(h, h', h[x].right, s.right, x);
    }
  }

  lemma {:induction false} SuccessorCell(h: Heap, r: Ref, t: Tree, above: Ref)
    requires Matches(h, r, t) && t.Node? && Distinct(t) && above !in Refs(t)
    ensures var m := Leftmost(t);
            && m.ref in h && h[m.ref].key == Some(m.key) && h[m.ref].value == m.value
            && AboveLeftmost(t, above) != m.ref
            && (t.left.Node? ==> AboveLeftmost(t, above) in h && h[AboveLeftmost(t, above)].left == m.ref)
    decreases t
  {
    if t.left.Node? {
      SuccessorCell(h, h[r].left, t.left, t.ref);
    }
  }

  lemma DeleteTwoChildren(h: Heap, root: Ref, t: Tree, x: Ref, k: Key) returns (t': Tree)
    requires Represents(h, root, t) && OnPath(t, k, x) && x in Refs(t) && x in h && h[x].key == Some(k)
    requires Sub(t, x).left.Node? && Sub(t, x).right.Node?
    ensures var s := Sub(t, x);
            var succ := Leftmost(s.right).ref;
            var above := AboveLeftmost(s.right, x);
            && succ in h && above in h && succ != above
            && Represents(ReplaceBySuccessor(h, x, succ, above), root, t')
            && LostKeys(t, k) == Keys(Leftmost(s.right).right)
    ensures t'.Node? && Contents(t') == Contents(t) - ({k} + LostKeys(t, k))
  {
    var s := SubFacts(h, root, t, x);
    TakeSuccessorHeap(h, root, t, x);
    TakeSuccessorTree(s);
    forall k' { TakeSuccessorFind(s, k'); }
    LeftmostInTree(s.right);
    LostBelow(t, k, x);
    var h' := ReplaceBySuccessor(h, x, Leftmost(s.right).ref, AboveLeftmost(s.right, x));
    t' := EditLosing(h, h', root, t, x, TakeSuccessor(s), {k} + LostKeys(t, k));
  }

  lemma {:induction false} LostBelow(t: Tree, k: Key, x: Ref)
    requires Distinct(t) && OnPath(t, k, x)
    ensures x in Refs(t) && LostKeys(t, k) == LostKeys(Sub(t, x), k)
  {
    OnPathInTree(t, k, x);
    if t.ref != x {
      if k < t.key {
        OnPathInTree(t.left, k, x);
        LostBelow(t.left, k, x);
      } else {
        OnPathInTree(t.right, k, x);
        LostBelow(t.right, k, x);
      }
    }
  }

  lemma {:induction false} NothingLost(t: Tree, k: Key)
    requires Find(t, k) == None
    ensures LostKeys(t, k) == {}
  {
    if t.Node? {
      if k < t.key { NothingLost(t.left, k); } else { NothingLost(t.right, k); }
    }
  }

  /** delete() removes its key and nothing else exactly when the successor of a node with two children has
      no right child. */
  lemma DeleteIsRemove(t: Tree, k: Key)
    requires Bst(t)
    ensures Contents(t) - ({k} + LostKeys(t, k)) == Contents(t) - {k} <==> !SuccessorHasRightChild(t, k)
  {
    var x := LosesKeysIff(t, k);
    ContentsKeys(t);
    if SuccessorHasRightChild(t, k) {
      DropsMore(Contents(t), k, LostKeys(t, k), x);
    } else {
      assert {k} + LostKeys(t, k) == {k};
    }
  }

  lemma DropsMore(m: map<Key, Value>, k: Key, lost: set<Key>, x: Key)
    requires x in lost && x in m && x != k
    ensures m - ({k} + lost) != m - {k}
  {
    assert x in m - {k} && x !in m - ({k} + lost);
  }

  /** Deleting 2 from a tree built by adding 2, 1, 3 and 4 also loses 4. */
  lemma DeleteLosesAKey()
    ensures var t := Node(1, 2.0, 0, Node(2, 1.0, 0, Leaf, Leaf), Node(3, 3.0, 0, Leaf, Node(4, 4.0, 0, Leaf, Leaf)));
            && Bst(t) && Distinct(t) && 4.0 in Contents(t)
            && 4.0 !in Contents(t) - ({2.0} + LostKeys(t, 2.0))
  {
    var l, rr := Node(2, 1.0, 0, Leaf, Leaf), Node(4, 4.0, 0, Leaf, Leaf);
    var r := Node(3, 3.0, 0, Leaf, rr);
    var t := Node(1, 2.0, 0, l, r);
    assert Keys(l) == {1.0} && Keys(rr) == {4.0} && Keys(r) == {3.0, 4.0};
    assert Refs(l) == {2} && Refs(rr) == {4} && Refs(r) == {3, 4};
    assert Bst(l) && Bst(rr) && Bst(r) && Bst(t);
    ContentsKeys(t);
    assert Leftmost(r) == r;
  }

  /** The subtree at `x` becomes `u`, which has lost the keys in `lost`. */
  lemma EditLosing(h: Heap, h': Heap, root: Ref, t: Tree, x: Ref, u: Tree, lost: set<Key>) returns (t': Tree)
    requires Represents(h, root, t) && x in Refs(t) && u.Node? && u.ref == x && Matches(h', x, u)
    requires Bst(u) && Distinct(u) && Refs(u) <= Refs(Sub(t, x))
    requires Keys(u) <= Keys(Sub(t, x)) && lost <= Keys(Sub(t, x))
    requires forall y | y in Refs(t) && y !in Refs(Sub(t, x)) :: y in h && y in h' && h'[y] == h[y]
    requires forall k :: Find(u, k) == if k in lost then None else Find(Sub(t, x), k)
    ensures Represents(h', root, t') && t'.Node? && Contents(t') == Contents(t) - lost
  {
    t' := Replace(t, x, u);
    var s := Sub(t, x);
    ReplaceMatches(h, h', root, t, x, u);
    ReplaceRefs(t, x, u);
    forall k | k in Keys(s) ensures OnPath(t, k, x) { SubKeysOnPath(t, x, k); }
    ReplaceBst(t, x, u);
    assert root == t.ref;
    var m := Contents(t) - lost;
    forall k ensures Find(t', k) == if k in m then Some(m[k]) else None {
      ReplaceFind(t, x, u, k);
      FindIsContents(t, k);
      if OnPath(t, k, x) { PathDecides(t, k, x); }
    }
    ContentsByFind(t', m);
  }

  /** The node of `k` is not the root and has two children. */
  ghost predicate InnerTwoChildren(t: Tree, k: Key) {
    t.Node? && t.key != k && TwoChildren(t, k)
  }

  ghost predicate TwoChildren(t: Tree, k: Key) {
    match t
    case Leaf => false
    case Node(_, key, _, l, r) =>
      if k < key then TwoChildren(l, k) else if key < k then TwoChildren(r, k) else l.Node? && r.Node?
  }

  lemma {:induction false} TwoChildrenAt(t: Tree, k: Key, x: Ref)
    requires Distinct(t) && OnPath(t, k, x)
    ensures x in Refs(t) && TwoChildren(t, k) == TwoChildren(Sub(t, x), k)
  {
    OnPathInTree(t, k, x);
    if t.ref != x {
      if k < t.key {
        OnPathInTree(t.left, k, x);
        TwoChildrenAt(t.left, k, x);
      } else {
        OnPathInTree(t.right, k, x);
        TwoChildrenAt(t.right, k, x);
      }
    }
  }

  lemma {:induction false} NoChildrenIfAbsent(t: Tree, k: Key)
    requires Find(t, k) == None
    ensures !TwoChildren(t, k)
  {
    if t.Node? {
      if k < t.key { NoChildrenIfAbsent(t.left, k); } else { NoChildrenIfAbsent(t.right, k); }
    }
  }

  /** The tree after add(): the shape, not only the contents. */
  ghost function Inserted(t: Tree, k: Key, v: Value, newRef: Ref): Tree {
    match t
    case Leaf => Node(newRef, k, v, Leaf, Leaf)
    case Node(_, key, _, l, r) =>
      if k == key then t.(value := v)
      else if k < key then t.(left := Inserted(l, k, v, newRef))
      else t.(right := Inserted(r, k, v, newRef))
  }

  lemma {:induction false} InsertedHere(t: Tree, k: Key, v: Value, newRef: Ref, x: Ref)
    requires Distinct(t) && OnPath(t, k, x)
    ensures x in Refs(t) && Inserted(t, k, v, newRef) == Replace(t, x, Inserted(Sub(t, x), k, v, newRef))
  {
    OnPathInTree(t, k, x);
    if t.ref != x {
      var u := Inserted(Sub(t, x), k, v, newRef);
      if k < t.key {
        OnPathInTree(t.left, k, x);
        InsertedHere(t.left, k, v, newRef, x);
        ReplaceAbsent(t.right, x, u);
      } else {
        OnPathInTree(t.right, k, x);
        InsertedHere(t.right, k, v, newRef, x);
        ReplaceAbsent(t.left, x, u);
      }
    }
  }

  // ---------------------------------------------------------------- what is lost, node by node

  lemma {:induction false} SubOfSub(t: Tree, x: Ref, z: Ref)
    requires Distinct(t) && x in Refs(t) && z in Refs(Sub(t, x))
    ensures z in Refs(t) && Sub(t, z) == Sub(Sub(t, x), z)
  {
    if t.ref != x {
      SubRefs(t, x);
      if x in Refs(t.left) { SubOfSub(t.left, x, z); } else { SubOfSub(t.right, x, z); }
    }
  }

  lemma {:induction false} LeftmostSub(t: Tree)
    requires t.Node? && Distinct(t)
    ensures Sub(t, Leftmost(t).ref) == Leftmost(t)
  {
    if t.left.Node? { LeftmostSub(t.left); }
  }

  /** The keys of a subtree are all the keys of the tree between any two of them. */
  lemma {:induction false} NothingBetween(t: Tree, x: Ref, a: Key, j: Key, b: Key)
    requires Bst(t) && x in Refs(t) && {a, b} <= Keys(Sub(t, x)) && j in Keys(t) && a <= j <= b
    ensures j in Keys(Sub(t, x))
  {
    if t.ref != x {
      if x in Refs(t.left) { NothingBetween(t.left, x, a, j, b); } else { NothingBetween(t.right, x, a, j, b); }
    }
  }

  lemma {:induction false} OneNodePerKey(t: Tree, x: Ref, y: Ref)
    requires Bst(t) && x in Refs(t) && y in Refs(t) && Sub(t, x).key == Sub(t, y).key
    ensures Sub(t, x) == Sub(t, y)
  {
    assert Sub(t, x).key in Keys(Sub(t, x)) && Sub(t, y).key in Keys(Sub(t, y));
    if t.ref != x && t.ref != y {
      if x in Refs(t.left) {
        assert y in Refs(t.left);
        OneNodePerKey(t.left, x, y);
      } else {
        assert y !in Refs(t.left);
        OneNodePerKey(t.right, x, y);
      }
    }
  }

  lemma SuccessorSub(t: Tree, x: Ref)
    requires Bst(t) && Distinct(t) && x in Refs(t) && Sub(t, x).right.Node?
    ensures var m := Leftmost(Sub(t, x).right);
            m.ref in Refs(t) && Sub(t, m.ref) == m && m.key in Keys(Sub(t, x)) && Sub(t, x).key < m.key
  {
    var s := Sub(t, x);
    SubRefs(t, x);
    SubBst(t, x);
    LeftmostInTree(s.right);
    LeftmostSub(s.right);
    SubOfSub(t, x, Leftmost(s.right).ref);
    assert Leftmost(s.right).key in Keys(Leftmost(s.right));
  }

  /** `y` holds the smallest key above that of `x`. */
  lemma SuccessorIs(t: Tree, x: Ref, y: Ref)
    requires Bst(t) && Distinct(t) && x in Refs(t) && y in Refs(t) && Sub(t, x).right.Node?
    requires Sub(t, x).key < Sub(t, y).key
    requires forall j | j in Keys(t) && Sub(t, x).key < j :: Sub(t, y).key <= j
    ensures Sub(t, y) == Leftmost(Sub(t, x).right)
  {
    var s, k, j := Sub(t, x), Sub(t, x).key, Sub(t, y).key;
    var m := Leftmost(s.right);
    SubBst(t, x);
    SuccessorSub(t, x);
    assert j in Keys(Sub(t, y)) && k in Keys(s) && m.key in Keys(t);
    NothingBetween(t, x, k, j, m.key);
    LeftmostInTree(s.right);
    assert j in Keys(s.right);
    OneNodePerKey(t, y, m.ref);
  }

  /** If `x` is the node of `k` and has two children, and `y` the node with the next larger key, then the keys that
      get lost are those to the right of `y`. */
  lemma LostKeysAre(t: Tree, k: Key, x: Ref, y: Ref)
    requires Bst(t) && Distinct(t) && x in Refs(t) && Sub(t, x).key == k
    requires Sub(t, x).left.Node? && Sub(t, x).right.Node?
    requires y in Refs(t) && k < Sub(t, y).key && forall j | j in Keys(t) && k < j :: Sub(t, y).key <= j
    ensures LostKeys(t, k) == Keys(Sub(t, y).right)
  {
    assert k in Keys(Sub(t, x));
    SubKeysOnPath(t, x, k);
    LostBelow(t, k, x);
    SuccessorIs(t, x, y);
  }

  /** In all other cases none get lost. */
  lemma NoneLost(t: Tree, k: Key)
    requires Bst(t) && Distinct(t)
    requires forall x | x in Refs(t) && Sub(t, x).key == k :: Sub(t, x).left.Leaf? || Sub(t, x).right.Leaf?
    ensures LostKeys(t, k) == {}
  {
    if k in Keys(t) {
      var x := NodeOf(t, k);
      assert k in Keys(Sub(t, x));
      SubKeysOnPath(t, x, k);
      LostBelow(t, k, x);
    } else {
      NotFound(t, k);
      NothingLost(t, k);
    }
  }

  lemma {:induction false} NodeOf(t: Tree, k: Key) returns (x: Ref)
    requires Distinct(t) && k in Keys(t)
    ensures x in Refs(t) && Sub(t, x).key == k
  {
    x := t.ref;
    if t.key != k {
      if k in Keys(t.left) { x := NodeOf(t.left, k); } else { x := NodeOf(t.right, k); }
    }
  }

  /** Whether a mutex is unlocked too often, by the node of the key. */
  lemma InnerTwoChildrenIff(t: Tree, k: Key)
    requires Bst(t) && Distinct(t)
    ensures InnerTwoChildren(t, k) <==>
              exists x :: x in Refs(t) && x != t.ref && Sub(t, x).key == k
                          && Sub(t, x).left.Node? && Sub(t, x).right.Node?
  {
    forall x | x in Refs(t) && Sub(t, x).key == k
      ensures TwoChildren(t, k) <==> Sub(t, x).left.Node? && Sub(t, x).right.Node?
      ensures t.key == k <==> x == t.ref
    {
      assert k in Keys(Sub(t, x));
      SubKeysOnPath(t, x, k);
      TwoChildrenAt(t, k, x);
      if t.key == k { OneNodePerKey(t, x, t.ref); }
    }
    if k in Keys(t) {
      var x := NodeOf(t, k);
    } else {
      NotFound(t, k);
      NoChildrenIfAbsent(t, k);
      forall x | x in Refs(t) ensures Sub(t, x).key != k { assert Sub(t, x).key in Keys(Sub(t, x)); }
    }
  }

  // ---------------------------------------------------------------- the program

  /** `p` is the node above `c`, or NULL. */
  ghost predicate Above(t: Tree, p: Ref, c: Ref) {
    c in Refs(t) && (p == NULL || (p in Refs(t) && Depth(t, c) == Depth(t, p) + 1))
  }

  lemma ParentOutside(h: Heap, root: Ref, t: Tree, k: Key, p: Ref, x: Ref)
    requires Represents(h, root, t) && OnPath(t, k, p) && p in h && h[p].key.Some? && h[p].key != Some(k)
    requires h[p].Next(k) == x && x in Refs(t)
    ensures p !in Refs(Sub(t, x)) && p != x
  {
    OnPathInTree(t, k, p);
    var s := SubFacts(h, root, t, p);
    var y := SubFacts(h, root, t, x);
    PathExtends(t, k, p);
  }

  /** On the way down from the node `x` to the leftmost node of `start`, its right subtree: `rest` is the subtree
      reached, `above` the node above it. */
  ghost predicate Down(h: Heap, start: Tree, x: Ref, rest: Tree, above: Ref) {
    && start.Node? && rest.Node? && Matches(h, rest.ref, rest) && Distinct(rest) && x !in Refs(start)
    && Leftmost(rest) == Leftmost(start) && AboveLeftmost(rest, above) == AboveLeftmost(start, x)
    && above !in Refs(rest) && start.ref !in Refs(start.left)
    && ((rest == start && above == x) || (above in Refs(start) && Refs(rest) <= Refs(start.left)))
  }

  lemma DownStart(h: Heap, start: Tree, x: Ref)
    requires start.Node? && Matches(h, start.ref, start) && Distinct(start) && x !in Refs(start)
    ensures Down(h, start, x, start, x)
  {
  }

  lemma DownStep(h: Heap, start: Tree, x: Ref, rest: Tree, above: Ref)
    requires Down(h, start, x, rest, above) && rest.ref in h && h[rest.ref].left != NULL
    ensures rest.left.Node? && rest.left.ref == h[rest.ref].left && Down(h, start, x, rest.left, rest.ref)
  {
    assert Matches(h, h[rest.ref].left, rest.left);
    assert rest.ref in Refs(rest);
  }

  lemma DownEnd(h: Heap, start: Tree, x: Ref, rest: Tree, above: Ref)
    requires Down(h, start, x, rest, above) && rest.ref in h && h[rest.ref].left == NULL
    ensures start.Node? && rest.ref == Leftmost(start).ref && above == AboveLeftmost(start, x)
    ensures above == x <==> rest.ref == start.ref
  {
    assert rest.ref in Refs(rest);
    assert Matches(h, NULL, rest.left);
  }

  /** Neither `x`, nor the node above, nor one outside the whole subtree, is reached. */
  lemma DownFacts(h: Heap, start: Tree, x: Ref, rest: Tree, above: Ref, outside: Ref)
    requires Down(h, start, x, rest, above)
    ensures rest.ref in h && rest.ref != NULL && rest.ref != above && rest.ref != x
    ensures outside !in Refs(rest) ==> outside != rest.ref
    ensures outside !in Refs(start) ==> outside !in Refs(rest) && outside != rest.ref
    ensures outside !in Refs(start) && outside != x ==> outside != above
    ensures rest.left.Node? ==> rest.left.ref != above
  {
    assert rest.ref in Refs(rest) && Refs(rest) <= Refs(start);
    if rest.left.Node? { assert rest.left.ref in Refs(rest.left); }
  }

  lemma DistinctBelow(t: Tree)
    requires t.Node? && Distinct(t)
    ensures Distinct(t.left) && Distinct(t.right) && t.ref !in Refs(t.right) && Refs(t.right) <= Refs(t)
  {
  }

  lemma MatchesNode(h: Heap, r: Ref, t: Tree)
    requires Matches(h, r, t)
    ensures t.Node? <==> r != NULL
    ensures t.Node? ==> t.ref == r && r in h
  {
  }

  lemma LastNode(h: Heap, root: Ref, t: Tree, k: Key)
    requires Represents(h, root, t) && h[root].key == Some(k) && h[root].left == NULL && h[root].right == NULL
    ensures Contents(t) - {k} == map[] == Contents(Leaf) && LostKeys(t, k) == {} && Bst(Leaf) && Distinct(Leaf)
  {
    MatchesNode(h, h[root].left, t.left);
    MatchesNode(h, h[root].right, t.right);
  }

  /** Mutexes of a node that may be NULL. */
  function One(r: Ref): set<Ref> {
    if r == NULL then {} else {r}
  }

  /** struct TreeNode and everything reachable from it; `shape` is the tree the heap represents. `held` are the
      mutexes that the thread has locked. Unlocking one that it has not locked is undefined for a default
      mutex; the model counts these and goes on. */
  class TreeMap {
    const root: Ref
    var heap: Heap
    var held: set<Ref>
    var strayUnlocks: nat
    ghost var shape: Tree

    ghost predicate Valid()
      reads this
    {
      Represents(heap, root, shape) && NULL !in heap
    }

    ghost function Map(): map<Key, Value>
      reads this
    {
      Contents(shape)
    }

    constructor (newRef: Ref)
      requires newRef != NULL
      ensures Valid() && Map() == map[] && held == {} && strayUnlocks == 0
      ensures root == newRef && shape == Leaf && heap.Keys == {newRef}
    {
      root := newRef;
      heap := map[newRef := Cell(None, 0, NULL, NULL)];
      held, strayUnlocks := {}, 0;
      shape := Leaf;
    }

    /** pthread_mutex_lock(): a thread that locks a mutex twice would wait for itself. */
    method Lock(r: Ref)
      requires r !in held
      modifies this`held
      ensures held == old(held) + {r}
    {
      held := held + {r};
    }

    /** pthread_mutex_unlock() */
    method Unlock(r: Ref)
      modifies this`held, this`strayUnlocks
      ensures held == old(held) - {r}
      ensures strayUnlocks == old(strayUnlocks) + if r in old(held) then 0 else 1
    {
      if r !in held { strayUnlocks := strayUnlocks + 1; }
      held := held - {r};
    }

    method UnlockUnlessNull(r: Ref)
      requires r == NULL || r in held
      modifies this`held, this`strayUnlocks
      ensures held == old(held) - One(r) && strayUnlocks == old(strayUnlocks)
    {
      if r != NULL { Unlock(r); }
    }

    /** delete_node() */
    method DeleteNode(r: Ref)
      requires r in held
      modifies this`heap, this`held, this`strayUnlocks
      ensures heap == old(heap) - {r} && held == old(held) - {r} && strayUnlocks == old(strayUnlocks)
    {
      Unlock(r);
      heap := heap - {r};
    }

    /** `newRef` is the address that malloc() returns should a node be created. */
    method Add(key: Key, value: Value, newRef: Ref)
      requires Valid() && newRef != NULL && newRef !in heap && held == {}
      modifies this
      ensures Valid() && Map() == old(Map())[key := value]
      ensures shape == Inserted(old(shape), key, value, if old(shape).Leaf? then root else newRef)
      ensures heap.Keys <= old(heap).Keys + {newRef}
      ensures held == {} && strayUnlocks == old(strayUnlocks)
    {
      hide Represents, Inserted, Contents, Refs, OnPath, Depth, Height;
      Lock(root);
      RootCell();
      if heap[root].key == None {
        AddFirst(key, value);
        Unlock(root);
        return;
      }
      RootOnPath(key);
      var curr, parent := root, NULL;
      while true
        invariant heap == old(heap) && shape == old(shape) && strayUnlocks == old(strayUnlocks)
        invariant OnPath(shape, key, curr) && curr in Refs(shape)
        invariant Above(shape, parent, curr) && held == One(parent) + {curr}
        decreases Height(shape) - Depth(shape, curr)
      {
        ghost var here := SubFacts(heap, root, shape, curr);
        if heap[curr].key == Some(key) {
          AddFound(key, value, newRef, curr);
          Unlock(curr);
          UnlockUnlessNull(parent);
          return;
        }
        var next := heap[curr].Next(key);
        if next == NULL {
          Lock(newRef);
          AddBelow(key, value, newRef, curr);
          Unlock(newRef);
          Unlock(curr);
          UnlockUnlessNull(parent);
          return;
        }
        StepDown(heap, root, shape, key, curr);
        DepthBound(shape, next);
        Lock(next);
        UnlockUnlessNull(parent);
        parent := curr;
        curr := next;
      }
    }

    lemma RootCell()
      requires Valid()
      ensures root in heap && root != NULL && (shape == Leaf <==> heap[root].key == None)
    {
    }

    lemma RootOnPath(key: Key)
      requires Valid() && shape.Node?
      ensures OnPath(shape, key, root) && root in Refs(shape)
    {
    }

    /** The tree is empty. */
    method AddFirst(key: Key, value: Value)
      requires Valid() && heap[root].key == None
      modifies this`heap, this`shape
      ensures Valid() && Map() == old(Map())[key := value] && heap.Keys == old(heap).Keys
      ensures shape == Inserted(old(shape), key, value, root)
    {
      shape := Node(root, key, value, Leaf, Leaf);
      assert Matches(heap, NULL, Leaf) && Contents(Leaf) == map[] && Refs(Leaf) == {};
      heap := heap[root := heap[root].(key := Some(key), value := value)];
      assert Matches(heap, NULL, Leaf);
    }

    /** The key is at `curr`. */
    method AddFound(key: Key, value: Value, ghost newRef: Ref, curr: Ref)
      requires Valid() && OnPath(shape, key, curr) && curr in heap && heap[curr].key == Some(key)
      modifies this`heap, this`shape
      ensures Valid() && Map() == old(Map())[key := value] && heap.Keys == old(heap).Keys
      ensures shape == Inserted(old(shape), key, value, newRef)
    {
      InsertedHere(shape, key, value, newRef, curr);
      shape := SetValue(heap, root, shape, curr, key, value);
      heap := heap[curr := heap[curr].(value := value)];
    }

    /** The search ends at `curr`. */
    method AddBelow(key: Key, value: Value, newRef: Ref, curr: Ref)
      requires Valid() && OnPath(shape, key, curr) && curr in heap && heap[curr].key.Some?
      requires heap[curr].key != Some(key)
      requires heap[curr].Next(key) == NULL && newRef !in heap && newRef != NULL
      modifies this`heap, this`shape
      ensures Valid() && Map() == old(Map())[key := value] && heap.Keys == old(heap).Keys + {newRef}
      ensures shape == Inserted(old(shape), key, value, newRef)
    {
      InsertedHere(shape, key, value, newRef, curr);
      shape := AddChild(heap, root, shape, curr, key, value, newRef);
      heap := LinkNew(heap, curr, key, value, newRef);
    }

    /** None stands for FALSE, Some(v) for TRUE with *value = v. */
    method Lookup(key: Key) returns (r: Option<Value>)
      requires Valid() && held == {}
      modifies this`held, this`strayUnlocks
      ensures r == if key in Map() then Some(Map()[key]) else None
      ensures held == {} && strayUnlocks == old(strayUnlocks)
    {
      Lock(root);
      if heap[root].key == None {
        Unlock(root);
        return None;
      }
      var curr, parent := root, NULL;
      while curr != NULL && heap[curr].key != Some(key)
        invariant strayUnlocks == old(strayUnlocks) && held == One(parent) + One(curr)
        invariant curr != NULL ==>
                    OnPath(shape, key, curr) && curr in Refs(shape) && curr in heap && heap[curr].key.Some?
        invariant curr != NULL ==> Above(shape, parent, curr)
        invariant curr == NULL ==> key !in Map()
        decreases if curr == NULL then 0 else 1 + Height(shape) - Depth(shape, curr)
      {
        DepthBound(shape, curr);
        var next := heap[curr].Next(key);
        if next != NULL {
          StepDown(heap, root, shape, key, curr);
          Lock(next);
        } else {
          MissingHere(heap, root, shape, key, curr);
        }
        UnlockUnlessNull(parent);
        parent := curr;
        curr := next;
      }
      if curr != NULL {
        FoundHere(heap, root, shape, key, curr);
        r := Some(heap[curr].value);
        Unlock(curr);
        UnlockUnlessNull(parent);
        return;
      }
      UnlockUnlessNull(parent);
      return None;
    }

    /** The search of delete() below the root: the node of `key`, or NULL, the node above it, and the one above
        that. At a node of `key` only this and its parent are locked. */
    method FindBelow(key: Key) returns (grand: Ref, parent: Ref, curr: Ref)
      requires Valid() && heap[root].key.Some? && heap[root].key != Some(key) && held == {root}
      modifies this`held, this`strayUnlocks
      ensures strayUnlocks == old(strayUnlocks)
      ensures parent in Refs(shape) && OnPath(shape, key, parent) && parent in heap && heap[parent].key.Some?
      ensures heap[parent].key != Some(key) && heap[parent].Next(key) == curr
      ensures curr == NULL ==> grand != parent && held == One(grand) + {parent}
      ensures curr != NULL ==>
                curr in Refs(shape) && OnPath(shape, key, curr) && curr in heap && heap[curr].key == Some(key)
                && curr != parent && curr != root && held == {parent, curr}
    {
      grand, parent := NULL, root;
      curr := heap[root].Next(key);
      assert OnPath(shape, key, root) && root in Refs(shape);
      while curr != NULL
        invariant strayUnlocks == old(strayUnlocks) && held == One(grand) + {parent}
        invariant parent in Refs(shape) && OnPath(shape, key, parent) && parent in heap && heap[parent].key.Some?
        invariant heap[parent].key != Some(key) && heap[parent].Next(key) == curr && Above(shape, grand, parent)
        decreases Height(shape) - Depth(shape, parent)
      {
        StepDown(heap, root, shape, key, parent);
        DepthBound(shape, curr);
        Lock(curr);
        UnlockUnlessNull(grand);
        if heap[curr].key == Some(key) {
          break;
        }
        grand := parent;
        parent := curr;
        curr := heap[curr].Next(key);
      }
    }

    /** One mutex is unlocked too often exactly if a node with two children is deleted that is not the root. One
        node is freed, unless the key is not there or the root has no children; those of lost keys never are. */
    method Delete(key: Key)
      requires Valid() && held == {}
      modifies this
      ensures Valid() && Map() == old(Map()) - ({key} + LostKeys(old(shape), key))
      ensures held == {} && strayUnlocks == old(strayUnlocks) + if InnerTwoChildren(old(shape), key) then 1 else 0
      ensures if key !in old(Map())
                 || old(root in heap && heap[root] == Cell(Some(key), heap[root].value, NULL, NULL))
              then heap.Keys == old(heap).Keys
              else exists x :: x in old(heap) && heap.Keys == old(heap).Keys - {x}
    {
      Lock(root);
      if heap[root].key == None {
        Unlock(root);
        return;
      } else if heap[root].key == Some(key) {
        DeleteRoot(key);
        return;
      }
      var grand, parent, curr := FindBelow(key);
      if curr == NULL {
        MissingHere(heap, root, shape, key, parent);
        FindIsContents(shape, key);
        NothingLost(shape, key);
        NoChildrenIfAbsent(shape, key);
        assert Map() - {key} == Map();
        UnlockUnlessNull(grand);
        Unlock(parent);
        return;
      }
      ghost var here := SubFacts(heap, root, shape, curr);
      FoundHere(heap, root, shape, key, curr);
      LostBelow(shape, key, curr);
      TwoChildrenAt(shape, key, curr);
      if heap[curr].left != NULL && heap[curr].right != NULL {
        DeleteInner(key, parent, curr);
      } else {
        DeleteSimple(key, parent, curr);
      }
    }

    /** The node to delete is not the root and has at most one child. */
    method DeleteSimple(key: Key, parent: Ref, curr: Ref)
      requires Valid() && parent in heap && heap[parent].key.Some? && heap[parent].key != Some(key)
      requires OnPath(shape, key, parent) && heap[parent].Next(key) == curr && curr != parent && curr != root
      requires curr in heap && heap[curr].key == Some(key) && (heap[curr].left == NULL || heap[curr].right == NULL)
      requires held == {parent, curr}
      modifies this
      ensures Valid() && Map() == old(Map()) - {key} && held == {} && strayUnlocks == old(strayUnlocks)
      ensures heap.Keys == old(heap).Keys - {curr}
    {
      shape := Unlink(heap, root, shape, parent, curr, key);
      FreeUnreachable(LinkPast(heap, parent, curr), root, shape, curr);
      heap := LinkPast(heap, parent, curr);
      DeleteNode(curr);
      Unlock(parent);
    }

    /** The node to delete is not the root and has two children. On the way down `curr` is unlocked, or it is
        when the node above the successor is; in the end it is unlocked once more. */
    method DeleteInner(key: Key, parent: Ref, curr: Ref)
      requires Valid() && OnPath(shape, key, curr) && curr in heap && heap[curr].key == Some(key)
      requires heap[curr].left != NULL && heap[curr].right != NULL
      requires OnPath(shape, key, parent) && parent in heap && heap[parent].key.Some? && heap[parent].key != Some(key)
      requires heap[parent].Next(key) == curr && held == {parent, curr}
      modifies this
      ensures Valid() && Map() == old(Map()) - ({key} + LostKeys(old(shape), key))
      ensures held == {} && strayUnlocks == old(strayUnlocks) + 1
      ensures exists x :: x in old(heap) && heap.Keys == old(heap).Keys - {x}
    {
      hide Matches, Bst, Distinct, Refs, Contents;
      var successor, above := InnerSuccessor(key, parent, curr);
      ghost var t := DeleteTwoChildren(heap, root, shape, curr, key);
      RemovesSuccessor(curr, successor, above);
      shape := t;
      Unlock(above);
      Unlock(curr);
      Unlock(parent);
    }

    /** The way down from `curr` to its successor. */
    method InnerSuccessor(ghost key: Key, ghost parent: Ref, curr: Ref) returns (successor: Ref, above: Ref)
      requires Valid() && OnPath(shape, key, curr) && curr in heap && heap[curr].key == Some(key)
      requires heap[curr].left != NULL && heap[curr].right != NULL
      requires OnPath(shape, key, parent) && parent in heap && heap[parent].key.Some? && heap[parent].key != Some(key)
      requires heap[parent].Next(key) == curr && held == {parent, curr}
      modifies this`held, this`strayUnlocks
      ensures curr in Refs(shape) && Sub(shape, curr).left.Node? && Sub(shape, curr).right.Node?
      ensures successor == Leftmost(Sub(shape, curr).right).ref && above == AboveLeftmost(Sub(shape, curr).right, curr)
      ensures held == {parent, above, successor} && parent != above && successor != parent && successor != above
      ensures parent != curr && successor != curr && strayUnlocks == old(strayUnlocks)
    {
      hide Matches, Refs, OnPath, Leftmost, AboveLeftmost, Down;
      OnPathInTree(shape, key, curr);
      ParentOutside(heap, root, shape, key, parent, curr);
      ghost var here := SubFacts(heap, root, shape, curr);
      DistinctBelow(here);
      MatchesNode(heap, heap[curr].left, here.left);
      MatchesNode(heap, heap[curr].right, here.right);
      DownStart(heap, here.right, curr);
      ghost var rest := here.right;
      above := curr;
      successor := heap[curr].right;
      DownFacts(heap, here.right, curr, rest, above, parent);
      Lock(successor);
      while heap[successor].left != NULL
        invariant strayUnlocks == old(strayUnlocks) && Down(heap, here.right, curr, rest, above)
        invariant rest.Node? && rest.ref == successor && successor in heap
        invariant held == {parent, above, successor} && parent != above && successor != curr
        decreases rest
      {
        DownStep(heap, here.right, curr, rest, above);
        DownFacts(heap, here.right, curr, rest, above, parent);
        var next := heap[successor].left;
        DownFacts(heap, here.right, curr, rest.left, successor, parent);
        Lock(next);
        Unlock(above);
        above := successor;
        successor := next;
        rest := rest.left;
      }
      DownFacts(heap, here.right, curr, rest, above, parent);
      DownEnd(heap, here.right, curr, rest, above);
    }

    /** Copies the successor's key and value, destroys the successor and clears the link to it. */
    method RemovesSuccessor(x: Ref, successor: Ref, above: Ref)
      requires x in heap && successor in heap && above in heap && successor != above && successor != x
      requires successor in held
      modifies this`heap, this`held, this`strayUnlocks
      ensures heap == ReplaceBySuccessor(old(heap), x, successor, above)
      ensures held == old(held) - {successor} && strayUnlocks == old(strayUnlocks)
    {
      heap := heap[x := heap[x].(key := heap[successor].key, value := heap[successor].value)];
      DeleteNode(successor);
      if heap[above].left == successor {
        heap := heap[above := heap[above].(left := NULL)];
      } else {
        heap := heap[above := heap[above].(right := NULL)];
      }
    }

    /** The root is to be deleted. */
    method DeleteRoot(key: Key)
      requires Valid() && heap[root].key == Some(key) && held == {root}
      modifies this
      ensures Valid() && Map() == old(Map()) - ({key} + LostKeys(old(shape), key))
      ensures held == {} && strayUnlocks == old(strayUnlocks)
      ensures if old(heap)[root].left == NULL && old(heap)[root].right == NULL then heap.Keys == old(heap).Keys
              else exists x :: x in old(heap) && heap.Keys == old(heap).Keys - {x}
    {
      hide Contents;
      ghost var here := SubFacts(heap, root, shape, root);
      if heap[root].left == NULL && heap[root].right == NULL {
        LastNode(heap, root, shape, key);
        shape := Leaf;
        heap := heap[root := heap[root].(key := None, value := 0)];
        Unlock(root);
      } else if heap[root].left != NULL && heap[root].right != NULL {
        DeleteRootInner(key);
      } else {
        var child := if heap[root].left != NULL then heap[root].left else heap[root].right;
        Lock(child);
        shape := CopyUp(heap, root, shape, child);
        heap := heap[root := heap[child]];
        FreeUnreachable(heap, root, shape, child);
        DeleteNode(child);
        Unlock(root);
      }
    }

    /** The root is to be deleted and has two children. */
    method DeleteRootInner(key: Key)
      requires Valid() && heap[root].key == Some(key) && heap[root].left != NULL && heap[root].right != NULL
      requires held == {root}
      modifies this
      ensures Valid() && Map() == old(Map()) - ({key} + LostKeys(old(shape), key))
      ensures held == {} && strayUnlocks == old(strayUnlocks)
      ensures exists x :: x in old(heap) && heap.Keys == old(heap).Keys - {x}
    {
      hide Contents;
      ghost var here := SubFacts(heap, root, shape, root);
      var successor, parent := RootSuccessor();
      ghost var t := DeleteTwoChildren(heap, root, shape, root, key);
      heap := heap[root := heap[root].(key := heap[successor].key, value := heap[successor].value)];
      DeleteNode(successor);
      if successor == heap[root].right {
        heap := heap[root := heap[root].(right := NULL)];
      } else if heap[parent].left == successor {
        heap := heap[parent := heap[parent].(left := NULL)];
      } else {
        heap := heap[parent := heap[parent].(right := NULL)];
      }
      shape := t;
      UnlockUnlessNull(parent);
      Unlock(root);
    }

    /** The way down to the successor of the root; `parent` stays NULL if that is the right child. */
    method RootSuccessor() returns (successor: Ref, parent: Ref)
      requires Valid() && heap[root].key.Some? && heap[root].right != NULL && held == {root}
      modifies this`held, this`strayUnlocks
      ensures strayUnlocks == old(strayUnlocks)
      ensures shape.Node? && shape.right.Node? && successor == Leftmost(shape.right).ref
      ensures (if parent == NULL then root else parent) == AboveLeftmost(shape.right, root)
      ensures parent == NULL <==> successor == shape.right.ref
      ensures held == {root, successor} + One(parent) && successor != root && successor != parent && root != parent
    {
      hide Matches, Refs, Leftmost, AboveLeftmost, Down;
      ghost var here := RootFacts();
      DistinctBelow(here);
      MatchesNode(heap, heap[root].right, here.right);
      DownStart(heap, here.right, root);
      ghost var rest := here.right;
      var next := heap[root].right;
      successor, parent := NULL, NULL;
      while next != NULL
        invariant strayUnlocks == old(strayUnlocks)
        invariant Down(heap, here.right, root, rest, if parent == NULL then root else parent)
        invariant held == {root} + One(successor) + One(parent) && rest.Node?
        invariant if successor == NULL then parent == NULL && next == rest.ref && rest == here.right
                  else rest.ref == successor && successor in heap && next == heap[successor].left
        invariant successor == NULL || (successor != root && successor != parent && root != parent)
        decreases rest, successor == NULL
      {
        DownFacts(heap, here.right, root, rest, if parent == NULL then root else parent, root);
        if successor != NULL {
          DownStep(heap, here.right, root, rest, if parent == NULL then root else parent);
          DownFacts(heap, here.right, root, rest.left, successor, if parent == NULL then root else parent);
          rest := rest.left;
        }
        Lock(next);
        var grand := parent;
        parent := successor;
        successor := next;
        UnlockUnlessNull(grand);
        next := heap[next].left;
      }
      DownEnd(heap, here.right, root, rest, if parent == NULL then root else parent);
    }

    lemma RootFacts() returns (here: Tree)
      requires Valid() && heap[root].key.Some?
      ensures here == shape && here.Node? && here.ref == root && Distinct(here)
      ensures Matches(heap, heap[root].right, here.right)
    {
      here := SubFacts(heap, root, shape, root);
    }
  }

  /** A tree of four keys, built by add(), in which deleting 2 also loses 4. */
  method LoseFour() returns (before: Option<Value>, after: Option<Value>)
    ensures before == Some(0) && after == None
  {
    var m := FourKeys();
    DeleteLosesAKey();
    before := m.Lookup(4.0);
    m.Delete(2.0);
    after := m.Lookup(4.0);
  }

  /** A tree built by add(), in which deleting 2, below the root and with two children, unlocks a mutex that is
      not locked. */
  method UnlockTwice() returns (m: TreeMap)
    ensures m.Valid() && m.strayUnlocks == 1
  {
    hide Represents, Contents;
    m := new TreeMap(1);
    m.Add(5.0, 0, 5);
    assert m.shape == Node(1, 5.0, 0, Leaf, Leaf);
    m.Add(2.0, 0, 2);
    assert m.shape == Node(1, 5.0, 0, Node(2, 2.0, 0, Leaf, Leaf), Leaf);
    m.Add(1.0, 0, 3);
    assert m.shape == Node(1, 5.0, 0, Node(2, 2.0, 0, Node(3, 1.0, 0, Leaf, Leaf), Leaf), Leaf);
    m.Add(3.0, 0, 4);
    assert m.shape == Node(1, 5.0, 0, Node(2, 2.0, 0, Node(3, 1.0, 0, Leaf, Leaf), Node(4, 3.0, 0, Leaf, Leaf)), Leaf);
    m.Delete(2.0);
  }

  method FourKeys() returns (m: TreeMap)
    ensures fresh(m) && m.Valid() && m.held == {}
    ensures m.shape == Node(1, 2.0, 0, Node(2, 1.0, 0, Leaf, Leaf), Node(3, 3.0, 0, Leaf, Node(4, 4.0, 0, Leaf, Leaf)))
  {
    hide Represents, Contents;
    m := new TreeMap(1);
    m.Add(2.0, 0, 5);
    assert m.shape == Node(1, 2.0, 0, Leaf, Leaf);
    m.Add(1.0, 0, 2);
    assert m.shape == Node(1, 2.0, 0, Node(2, 1.0, 0, Leaf, Leaf), Leaf);
    m.Add(3.0, 0, 3);
    assert m.shape == Node(1, 2.0, 0, Node(2, 1.0, 0, Leaf, Leaf), Node(3, 3.0, 0, Leaf, Leaf));
    m.Add(4.0, 0, 4);
  }
}
