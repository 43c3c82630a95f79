/** The pointer manipulations that add() and delete() perform on the tree, one lemma each.

    Every lemma takes a heap that represents `t`, names the heap after the assignments of the program,
    and returns the tree represented then. It states what happened to the contents, and that any other
    search in progress is still on its path.
  */
module TreeEdits {
  import opened Basics
  import opened TreeHeap

  /** Searches other than the ones standing at a node of `gone` keep their place. */
  ghost predicate KeepsPaths(t: Tree, t': Tree, gone: set<Ref>) {
    forall k, c {:trigger OnPath(t', k, c)} :: OnPath(t, k, c) && c !in gone ==> OnPath(t', k, c)
  }

  /** An edit displaces the searches at one node at most. */
  ghost predicate Displaces(t: Tree, t': Tree) {
    exists gone: set<Ref> :: |gone| <= 1 && KeepsPaths(t, t', gone)
  }

  /** The contents are determined by what searches find. */
  lemma ContentsByFind(t: Tree, m: map<Key, Value>)
    requires Bst(t)
    requires forall k :: Find(t, k) == if k in m then Some(m[k]) else None
    ensures Contents(t) == m
  {
    forall k ensures k in Contents(t) <==> k in m
             ensures k in m ==> Contents(t)[k] == m[k]
    {
      FindIsContents(t, k);
    }
  }

  /** `m` with the entry of `k` set to `v`, or removed. */
  function Put(m: map<Key, Value>, k: Key, v: Option<Value>): map<Key, Value> {
    match v
    case None => m - {k}
    case Some(value) => m[k := value]
  }

  /** `u` differs from `s`, as far as searches can tell, only in what is stored under `k`. */
  ghost predicate DiffersAt(s: Tree, u: Tree, k: Key, v: Option<Value>) {
    forall k' {:trigger Find(u, k')} :: Find(u, k') == if k' == k then v else Find(s, k')
  }

  /** The part common to all edits: the subtree at `x` becomes `u`. */
  lemma Edit(h: Heap, h': Heap, root: Ref, t: Tree, x: Ref, u: Tree, gone: set<Ref>, k: Key, v: Option<Value>)
    returns (t': Tree)
    requires Represents(h, root, t) && x in Refs(t)
    requires u.Node? && u.ref == x && Matches(h', x, u)
    requires Bst(u) && Distinct(u) && Refs(u) * Refs(t) <= Refs(Sub(t, x))
    requires OnPath(t, k, x) && Keys(u) <= Keys(Sub(t, x)) + {k}
    requires forall y | y in Refs(t) && y !in Refs(Sub(t, x)) :: y in h && y in h' && h'[y] == h[y]
    requires KeepsPaths(Sub(t, x), u, gone)
    requires DiffersAt(Sub(t, x), u, k, v)
    ensures Represents(h', root, t') && t'.Node?
    ensures Refs(t') == (Refs(t) - Refs(Sub(t, x))) + Refs(u)
    ensures KeepsPaths(t, t', gone)
    ensures Contents(t') == Put(Contents(t), k, v) && t' == Replace(t, x, u)
  {
    t' := Replace(t, x, u);
    var s := Sub(t, x);
    MatchesInHeap(h, root, t);
    ReplaceMatches(h, h', root, t, x, u);
    ReplaceRefs(t, x, u);
    forall k' | k' in Keys(u) ensures OnPath(t, k', x) {
      if k' in Keys(s) { SubKeysOnPath(t, x, k'); }
    }
    ReplaceBst(t, x, u);
    forall k', c | OnPath(t, k', c) && c !in gone ensures OnPath(t', k', c) {
      ReplacePath(t, x, u, k', c);
    }
    assert root == t.ref;
    var m := Put(Contents(t), k, v);
    forall k' ensures Find(t', k') == if k' in m then Some(m[k']) else None {
      ReplaceFind(t, x, u, k');
      FindIsContents(t, k');
      if OnPath(t, k', x) { PathDecides(t, k', x); }
    }
    ContentsByFind(t', m);
  }

  /** What every edit needs to know about the subtree at `x`. */
  lemma SubFacts(h: Heap, root: Ref, t: Tree, x: Ref) returns (s: Tree)
    requires Represents(h, root, t) && x in Refs(t)
    ensures s == Sub(t, x) && s.Node? && s.ref == x && Bst(s) && Distinct(s) && Matches(h, x, s) && Refs(s) <= Refs(t)
    ensures x in h && h[x].key == Some(s.key) && h[x].value == s.value
    ensures Matches(h, h[x].left, s.left) && Matches(h, h[x].right, s.right)
    ensures forall y | y in Refs(t) :: y in h && y != NULL && h[y].key.Some?
  {
    s := Sub(t, x);
    SubRefs(t, x);
    SubBst(t, x);
    MatchesSub(h, root, t, x);
    MatchesInHeap(h, root, t);
  }

  /** curr->value = value, at the node that holds key `k`. */
  lemma SetValue(h: Heap, root: Ref, t: Tree, x: Ref, k: Key, v: Value) returns (t': Tree)
    requires Represents(h, root, t) && OnPath(t, k, x) && x in h && h[x].key == Some(k)
    ensures Represents(h[x := h[x].(value := v)], root, t') && t'.Node?
    ensures Refs(t') == Refs(t) && KeepsPaths(t, t', {})
    ensures Contents(t') == Contents(t)[k := v]
    ensures x in Refs(t) && Sub(t, x).Node? && Sub(t, x).key == k && t' == Replace(t, x, Sub(t, x).(value := v))
  {
    OnPathInTree(t, k, x);
    var h' := h[x := h[x].(value := v)];
    var s := SubFacts(h, root, t, x);
    MatchesFrame(h, h', h[x].left, s.left);
    MatchesFrame(h, h', h[x].right, s.right);
    t' := Edit(h, h', root, t, x, s.(value := v), {}, k, Some(v));
  }

  /** The new leaf that add() hangs below the last node of its search. */
  ghost function Grow(s: Tree, k: Key, v: Value, newRef: Ref): Tree
    requires s.Node?
  {
    var n := Node(newRef, k, v, Leaf, Leaf);
    if k < s.key then s.(left := n) else s.(right := n)
  }

  lemma GrowTree(s: Tree, k: Key, v: Value, newRef: Ref)
    requires s.Node? && Bst(s) && Distinct(s) && k != s.key && newRef !in Refs(s)
    requires (if k < s.key then s.left else s.right).Leaf?
    ensures var u := Grow(s, k, v, newRef);
            && Bst(u) && Distinct(u) && Refs(u) == Refs(s) + {newRef} && Keys(u) == Keys(s) + {k}
            && DiffersAt(s, u, k, Some(v))
            && KeepsPaths(s, u, {})
  {
    var n := Node(newRef, k, v, Leaf, Leaf);
    assert Refs(Leaf) == {} && Keys(Leaf) == {};
    assert Keys(n) == {k};
    assert Refs(n) == {newRef};
    var u := Grow(s, k, v, newRef);
    forall k' ensures Find(u, k') == if k' == k then Some(v) else Find(s, k') {
      assert Find(n, k') == if k' == k then Some(v) else None;
    }
  }

  function LinkNew(h: Heap, x: Ref, k: Key, v: Value, newRef: Ref): Heap
    requires x in h && h[x].key.Some?
  {
    var linked := if k < h[x].key.value then h[x].(left := newRef) else h[x].(right := newRef);
    h[newRef := Cell(Some(k), v, NULL, NULL)][x := linked]
  }

  lemma GrowHeap(h: Heap, root: Ref, t: Tree, x: Ref, k: Key, v: Value, newRef: Ref)
    requires Represents(h, root, t) && x in Refs(t) && x in h && h[x].key.Some? && h[x].key != Some(k)
    requires h[x].Next(k) == NULL && newRef !in h && newRef != NULL
    ensures h[x].key == Some(Sub(t, x).key)
    ensures Matches(LinkNew(h, x, k, v, newRef), x, Grow(Sub(t, x), k, v, newRef))
    ensures (if k < Sub(t, x).key then Sub(t, x).left else Sub(t, x).right).Leaf?
    ensures newRef !in Refs(t)
  {
    var h' := LinkNew(h, x, k, v, newRef);
    var s := SubFacts(h, root, t, x);
    MatchesFrame(h, h', h[x].left, s.left);
    MatchesFrame(h, h', h[x].right, s.right);
    assert Matches(h', newRef, Node(newRef, k, v, Leaf, Leaf));
  }

  /** *next = newNode, below the last node of the search for `k`. */
  lemma AddChild(h: Heap, root: Ref, t: Tree, x: Ref, k: Key, v: Value, newRef: Ref) returns (t': Tree)
    requires Represents(h, root, t) && OnPath(t, k, x) && x in h && h[x].key.Some? && h[x].key != Some(k)
    requires h[x].Next(k) == NULL && newRef !in h && newRef != NULL
    ensures Represents(LinkNew(h, x, k, v, newRef), root, t')
    ensures t'.Node? && Refs(t') == Refs(t) + {newRef} && KeepsPaths(t, t', {})
    ensures Contents(t') == Contents(t)[k := v]
    ensures x in Refs(t) && t' == Replace(t, x, Grow(Sub(t, x), k, v, newRef))
    ensures k != Sub(t, x).key && (if k < Sub(t, x).key then Sub(t, x).left else Sub(t, x).right) == Leaf
  {
    OnPathInTree(t, k, x);
    var s := SubFacts(h, root, t, x);
    GrowHeap(h, root, t, x, k, v, newRef);
    GrowTree(s, k, v, newRef);
    t' := Edit(h, LinkNew(h, x, k, v, newRef), root, t, x, Grow(s, k, v, newRef), {}, k, Some(v));
  }

  /** `s` without the top of the subtree that a search for `k` enters next; that node has at most one child. */
  ghost function Bypass(s: Tree, k: Key): Tree
    requires s.Node?
  {
    var x := if k < s.key then s.left else s.right;
    if x.Leaf? then s
    else
      var child := if x.left.Node? then x.left else x.right;
      if k < s.key then s.(left := child) else s.(right := child)
  }

  lemma BypassTree(s: Tree, k: Key)
    requires s.Node? && Bst(s) && Distinct(s) && k != s.key
    requires var x := if k < s.key then s.left else s.right;
             x.Node? && x.key == k && (x.left.Leaf? || x.right.Leaf?)
    ensures var x := if k < s.key then s.left else s.right;
            var u := Bypass(s, k);
            && Bst(u) && Distinct(u) && Refs(u) == Refs(s) - {x.ref} && Keys(u) <= Keys(s)
            && DiffersAt(s, u, k, None)
            && KeepsPaths(s, u, {x.ref})
  {
    var x := if k < s.key then s.left else s.right;
    var child := if x.left.Node? then x.left else x.right;
    assert Keys(child) <= Keys(x) && Refs(child) == Refs(x) - {x.ref} && Bst(child) && Distinct(child);
    var u := Bypass(s, k);
    forall k' ensures Find(u, k') == if k' == k then None else Find(s, k') {
      UnlinkFind(x, k');
    }
    forall k', c | OnPath(s, k', c) && c !in {x.ref} ensures OnPath(u, k', c) {
      if OnPath(x, k', c) { SkipPath(x, k', c); }
    }
  }

  /** The link to `x` in node `p` is redirected to the only child of `x`, or to NULL. */
  function LinkPast(h: Heap, p: Ref, x: Ref): Heap
    requires p in h && x in h
  {
    var child := if h[x].left != NULL then h[x].left else h[x].right;
    h[p := if h[p].left == x then h[p].(left := child) else h[p].(right := child)]
  }

  lemma BypassAt(h: Heap, root: Ref, t: Tree, p: Ref, x: Ref, k: Key) returns (u: Tree)
    requires Represents(h, root, t) && p in Refs(t) && p in h && h[p].key.Some? && h[p].key != Some(k)
    requires h[p].Next(k) == x && x != NULL && x in h && h[x].key == Some(k)
    requires h[x].left == NULL || h[x].right == NULL
    ensures u.Node? && u.ref == p && Bst(u) && Distinct(u) && Matches(LinkPast(h, p, x), p, u)
    ensures x in Refs(Sub(t, p)) && Refs(u) == Refs(Sub(t, p)) - {x} && Keys(u) <= Keys(Sub(t, p))
    ensures KeepsPaths(Sub(t, p), u, {x}) && DiffersAt(Sub(t, p), u, k, None)
  {
    var h' := LinkPast(h, p, x);
    var s := SubFacts(h, root, t, p);
    var sx := if k < s.key then s.left else s.right;
    assert Matches(h, x, sx);
    MatchesFrame(h, h', h[p].left, s.left);
    MatchesFrame(h, h', h[p].right, s.right);
    assert Matches(h', h[x].left, sx.left) && Matches(h', h[x].right, sx.right);
    u := Bypass(s, k);
    BypassTree(s, k);
  }

  /** The parent's link to `x`, which has at most one child, is redirected to that child (or to NULL). */
  lemma Unlink(h: Heap, root: Ref, t: Tree, p: Ref, x: Ref, k: Key) returns (t': Tree)
    requires Represents(h, root, t) && OnPath(t, k, p) && p in h && h[p].key.Some? && h[p].key != Some(k)
    requires h[p].Next(k) == x && x != NULL && x in h && h[x].key == Some(k)
    requires h[x].left == NULL || h[x].right == NULL
    ensures Represents(LinkPast(h, p, x), root, t')
    ensures t'.Node? && x in Refs(t) && Refs(t') == Refs(t) - {x} && KeepsPaths(t, t', {x})
    ensures Contents(t') == Contents(t) - {k}
  {
    OnPathInTree(t, k, p);
    var s := SubFacts(h, root, t, p);
    var u := BypassAt(h, root, t, p, x, k);
    t' := Edit(h, LinkPast(h, p, x), root, t, p, u, {x}, k, None);
  }

  /** A search path through a node, other than one ending there, goes on through one of its children. */
  lemma SkipPath(x: Tree, k: Key, c: Ref)
    requires OnPath(x, k, c) && x.ref != c
    ensures if k < x.key then OnPath(x.left, k, c) else x.key < k && OnPath(x.right, k, c)
  {
  }

  /** Skipping a node with at most one child removes its key and nothing else. */
  lemma UnlinkFind(x: Tree, k: Key)
    requires x.Node? && Bst(x) && (x.left.Leaf? || x.right.Leaf?)
    ensures var child := if x.left.Node? then x.left else x.right;
            Find(child, k) == if k == x.key then None else Find(x, k)
  {
    var child := if x.left.Node? then x.left else x.right;
    FindIsContents(child, k);
    ContentsKeys(child);
    assert k in Keys(x.left) ==> k < x.key;
    assert k in Keys(x.right) ==> x.key < k;
  }

  /** The only child takes the place of the root node, under the root's reference. */
  lemma CopyUpTree(t: Tree) returns (t': Tree)
    requires t.Node? && Bst(t) && Distinct(t) && (t.left.Leaf? != t.right.Leaf?)
    ensures var s := if t.left.Node? then t.left else t.right;
            && t' == s.(ref := t.ref) && s.ref != t.ref && s.ref in Refs(t)
            && Bst(t') && Distinct(t') && Refs(t') == Refs(t) - {s.ref}
            && KeepsPaths(t, t', {s.ref}) && DiffersAt(t, t', t.key, None)
  {
    var s := if t.left.Node? then t.left else t.right;
    assert Bst(s) && Distinct(s);
    assert Refs(t) == Refs(s) + {t.ref} && t.ref !in Refs(s);
    t' := s.(ref := t.ref);
    forall k, c | OnPath(t, k, c) && c !in {s.ref} ensures OnPath(t', k, c) {
      if c != t.ref {
        SkipPath(t, k, c);
        SkipPath(s, k, c);
      }
    }
    forall k ensures Find(t', k) == if k == t.key then None else Find(t, k) {
      UnlinkFind(t, k);
      assert Find(t', k) == Find(s, k);
    }
  }

  /** The only child of the root is copied into the root node. */
  lemma CopyUp(h: Heap, root: Ref, t: Tree, c: Ref) returns (t': Tree)
    requires Represents(h, root, t) && h[root].key.Some? && c != NULL
    requires (h[root].left == c && h[root].right == NULL) || (h[root].left == NULL && h[root].right == c)
    ensures c in h && c in Refs(t) && c != root
    ensures Represents(h[root := h[c]], root, t') && t'.Node?
    ensures Refs(t') == Refs(t) - {c} && KeepsPaths(t, t', {c})
    ensures Contents(t') == Contents(t) - {h[root].key.value}
  {
    assert Matches(h, h[root].left, t.left) && Matches(h, h[root].right, t.right);
    t' := CopyUpTree(t);
    var s := if t.left.Node? then t.left else t.right;
    MatchesInHeap(h, root, t);
    var h' := h[root := h[c]];
    assert s.ref == c && Matches(h, c, s);
    MatchesFrame(h, h', h[c].left, s.left);
    MatchesFrame(h, h', h[c].right, s.right);
    assert Matches(h', root, t');
    var m := Contents(t) - {t.key};
    forall k ensures Find(t', k) == if k in m then Some(m[k]) else None { FindIsContents(t, k); }
    ContentsByFind(t', m);
  }

  /** A search that stands at a node with its key has found the value of the map. */
  lemma FoundHere(h: Heap, root: Ref, t: Tree, k: Key, c: Ref)
    requires Represents(h, root, t) && OnPath(t, k, c) && c in h && h[c].key == Some(k)
    ensures k in Contents(t) && Contents(t)[k] == h[c].value
  {
    OnPathInTree(t, k, c);
    var s := SubFacts(h, root, t, c);
    PathDecides(t, k, c);
    FindIsContents(t, k);
  }

  /** A search that cannot go on below its node has shown that the key is not in the map. */
  lemma MissingHere(h: Heap, root: Ref, t: Tree, k: Key, c: Ref)
    requires Represents(h, root, t) && OnPath(t, k, c) && c in h && h[c].key.Some? && h[c].key != Some(k)
    requires h[c].Next(k) == NULL
    ensures k !in Contents(t)
  {
    OnPathInTree(t, k, c);
    var s := SubFacts(h, root, t, c);
    assert (if k < s.key then s.left else s.right).Leaf?;
    PathDecides(t, k, c);
    FindIsContents(t, k);
  }

  /** The child that a search continues with is the next node of its path. */
  lemma StepDown(h: Heap, root: Ref, t: Tree, k: Key, c: Ref)
    requires Represents(h, root, t) && OnPath(t, k, c) && c in h && h[c].key.Some? && h[c].key != Some(k)
    requires h[c].Next(k) != NULL
    ensures var n := h[c].Next(k);
            && n in h && OnPath(t, k, n) && n != c && n != root && h[n].key.Some?
            && c in Refs(t) && n in Refs(t) && Depth(t, n) == Depth(t, c) + 1
  {
    OnPathInTree(t, k, c);
    var s := SubFacts(h, root, t, c);
    var below := if k < s.key then s.left else s.right;
    assert Matches(h, h[c].Next(k), below);
    PathExtends(t, k, c);
  }

  /** Freeing a node that is not in the tree does not change the tree. */
  lemma FreeUnreachable(h: Heap, root: Ref, t: Tree, x: Ref)
    requires Represents(h, root, t) && x !in Refs(t) && x != root
    ensures Represents(h - {x}, root, t)
  {
    if t.Node? {
      MatchesInHeap(h, root, t);
      MatchesFrame(h, h - {x}, root, t);
    }
  }
}
