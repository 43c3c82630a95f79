/** The memory layout of chapter_07/mymalloc.c: chunks with a size word at both ends, back to back from
    heap_base to the program break, and a doubly linked free list threaded through their payloads.

    Memory is a sequence of 8-byte words; an address is the index of a word, and the program break is the
    length of the sequence. Sizes stay in bytes, as in the program, with the FREE bit in the low bit of the
    header; `prev` and `next` are the first two payload words. The map `w` gives, for the address of each
    chunk, the number of its payload words.
  */
module HeapLayout {

  type Addr = int

  const NULL: Addr := 0
  const FREE_FLAG: int := 1
  /** In bytes. */
  const CHUNK_OVERHEAD: int := 16
  const MIN_FREE_CHUNK_SIZE: int := 32

  type Chunks = map<Addr, int>

  /** CHUNK_SIZE of a size word. */
  function Size(word: int): int {
    word - word % 2
  }

  predicate IsFree(word: int) {
    word % 2 == FREE_FLAG
  }

  function End(w: Chunks, c: Addr): Addr
    requires c in w
  {
    c + w[c] + 2
  }

  /** Another chunk, or the break, is where this chunk ends. */
  predicate Abuts(w: Chunks, brk: Addr, c: Addr)
    requires c in w
  {
    End(w, c) in w || End(w, c) == brk
  }

  /** The chunks tile [base, brk), and each has room for prev and next. */
  ghost predicate Tiles(w: Chunks, base: Addr, brk: Addr) {
    && 0 < base <= brk
    && (forall c {:trigger c in w} | c in w :: base <= c && w[c] >= 2 && End(w, c) <= brk)
    && (forall c {:trigger Abuts(w, brk, c)} | c in w :: Abuts(w, brk, c))
    && (forall a, b {:trigger a in w, b in w} | a in w && b in w && a < b :: End(w, a) <= b)
    && (base in w || base == brk)
  }

  /** Header and footer of every chunk hold its size; only the header may carry the FREE bit. */
  ghost predicate Stored(mem: seq<int>, w: Chunks) {
    forall c {:trigger c in w} | c in w :: StoredAt(mem, c, w[c])
  }

  predicate StoredAt(mem: seq<int>, c: Addr, k: int) {
    && 0 < c && k >= 0 && c + k + 2 <= |mem|
    && (mem[c] == 8 * k || mem[c] == 8 * k + FREE_FLAG)
    && mem[c + k + 1] == 8 * k
  }

  function At(order: seq<Addr>, i: int): Addr {
    if 0 <= i < |order| then order[i] else NULL
  }

  function Without(order: seq<Addr>, i: nat): seq<Addr>
    requires i < |order|
  {
    order[..i] + order[i + 1..]
  }

  /** The free list runs through `order`, forwards by next and backwards by prev. */
  ghost predicate FreeList(mem: seq<int>, head: Addr, order: seq<Addr>) {
    && (forall i | 0 <= i < |order| :: 0 < order[i] && order[i] + 2 < |mem|)
    && (forall i, j | 0 <= i < j < |order| :: order[i] != order[j])
    && head == At(order, 0)
    && (forall i {:trigger Links(mem, order, i)} | 0 <= i < |order| :: Links(mem, order, i))
  }

  /** prev and next of the chunk at position `i` of the list. */
  predicate Links(mem: seq<int>, order: seq<Addr>, i: nat)
    requires i < |order| && 0 < order[i] && order[i] + 2 < |mem|
  {
    mem[order[i] + 1] == At(order, i - 1) && mem[order[i] + 2] == At(order, i + 1)
  }

  /** Bytes in the chunks of a list, overhead included. */
  function FreeTotal(w: Chunks, order: seq<Addr>): int
    requires forall i | 0 <= i < |order| :: order[i] in w
  {
    if order == [] then 0 else 8 * w[order[0]] + CHUNK_OVERHEAD + FreeTotal(w, order[1..])
  }

  // ---------------------------------------------------------------- memory operations

  /** set_chunk_size_headers() for `k` payload words: both size words; a FREE bit in the header is lost. */
  function SetSizes(mem: seq<int>, c: Addr, k: int): seq<int>
    requires 0 <= c && k >= 0 && c + k + 1 < |mem|
  {
    mem[c := 8 * k][c + k + 1 := 8 * k]
  }

  /** The stores of remove_from_free_list(). */
  function Unlinked(mem: seq<int>, c: Addr): seq<int>
    requires 0 <= c && c + 2 < |mem|
    requires 0 <= mem[c + 1] && mem[c + 1] + 2 < |mem| && 0 <= mem[c + 2] && mem[c + 2] + 1 < |mem|
  {
    var prev, next := mem[c + 1], mem[c + 2];
    var m := if prev != NULL then mem[prev + 2 := next] else mem;
    if next != NULL then m[next + 1 := m[c + 1]] else m
  }

  /** The stores of add_to_free_list(). */
  function Linked(mem: seq<int>, head: Addr, c: Addr): seq<int>
    requires 0 <= c && c + 2 < |mem| && 0 <= head && head + 1 < |mem|
  {
    var m := mem[c + 2 := head];
    var m' := if head != NULL then m[head + 1 := c] else m;
    m'[c + 1 := NULL]
  }

  // ---------------------------------------------------------------- frames

  /** The words from `lo` up to `hi` are the same in both memories. */
  ghost predicate Same(mem: seq<int>, mem': seq<int>, lo: Addr, hi: Addr) {
    && 0 <= lo <= hi <= |mem| && hi <= |mem'|
    && forall a | lo <= a < hi :: mem'[a] == mem[a]
  }

  /** The payloads of the chunks in `cs` are the same in both memories. */
  ghost predicate SamePayloads(mem: seq<int>, mem': seq<int>, w: Chunks, cs: set<Addr>) {
    forall c {:trigger c in cs} | c in cs && c in w :: Same(mem, mem', c + 1, End(w, c) - 1)
  }

  ghost predicate LinkWord(order: seq<Addr>, a: Addr) {
    exists i :: 0 <= i < |order| && (a == order[i] + 1 || a == order[i] + 2)
  }

  /** The memories differ at most at the addresses in `at`, which are link words of chunks in `order`. */
  ghost predicate OnlyLinks(mem: seq<int>, mem': seq<int>, order: seq<Addr>, at: set<Addr>) {
    && |mem'| == |mem|
    && (forall a | a in at :: LinkWord(order, a))
    && (forall a | 0 <= a < |mem| && a !in at :: mem'[a] == mem[a])
  }

  ghost predicate InChunks(order: seq<Addr>, w: Chunks) {
    forall i {:trigger order[i]} | 0 <= i < |order| :: order[i] in w
  }

  /** Size words, and payload words of chunks off the list, are not link words. */
  lemma NotLink(w: Chunks, base: Addr, brk: Addr, order: seq<Addr>, c: Addr, a: Addr)
    requires Tiles(w, base, brk) && InChunks(order, w) && c in w
    requires a == c || a == End(w, c) - 1 || (c < a < End(w, c) - 1 && c !in order)
    ensures !LinkWord(order, a)
  {
    if LinkWord(order, a) { assert false; }
  }

  /** Writing links changes no size word and no payload of a chunk that is not on the list. */
  lemma LinksFrame(mem: seq<int>, mem': seq<int>, w: Chunks, base: Addr, order: seq<Addr>, at: set<Addr>)
    requires Tiles(w, base, |mem|) && Stored(mem, w) && InChunks(order, w)
    requires OnlyLinks(mem, mem', order, at)
    ensures Stored(mem', w)
    ensures forall c | c in w :: mem'[c] == mem[c]
    ensures SamePayloads(mem, mem', w, w.Keys - set c | c in order)
  {
    forall c | c in w ensures mem'[c] == mem[c] && mem'[End(w, c) - 1] == mem[End(w, c) - 1] {
      NotLink(w, base, |mem|, order, c, c);
      NotLink(w, base, |mem|, order, c, End(w, c) - 1);
    }
    forall c, a | c in w && c !in order && c < a < End(w, c) - 1 ensures mem'[a] == mem[a] {
      NotLink(w, base, |mem|, order, c, a);
    }
  }

  // ---------------------------------------------------------------- the free list

  /** What removing order[i] stores, and where. */
  lemma UnlinkStores(mem: seq<int>, w: Chunks, base: Addr, order: seq<Addr>, head: Addr, i: nat)
    requires Tiles(w, base, |mem|) && FreeList(mem, head, order) && i < |order| && InChunks(order, w)
    ensures var prev, next := At(order, i - 1), At(order, i + 1);
            var c := order[i];
            && mem[c + 1] == prev && mem[c + 2] == next
            && 0 <= prev && prev + 2 < |mem| && 0 <= next && next + 2 < |mem|
            && |Unlinked(mem, c)| == |mem|
            && (forall a | 0 <= a < |mem| :: Unlinked(mem, c)[a] == Relinked(mem, prev, next, a))
            && OnlyLinks(mem, Unlinked(mem, c), order, UnlinkAt(order, i))
  {
    hide Tiles;
    var prev, next := At(order, i - 1), At(order, i + 1);
    assert Links(mem, order, i);
    LinksApart(w, base, |mem|, order[i], prev);
    if prev != NULL { assert LinkWord(order, prev + 2); }
    if next != NULL { assert LinkWord(order, next + 1); }
  }

  function UnlinkAt(order: seq<Addr>, i: nat): set<Addr>
    requires i < |order|
  {
    (if i > 0 then {order[i - 1] + 2} else {}) + (if i + 1 < |order| then {order[i + 1] + 1} else {})
  }

  lemma UnlinkList(mem: seq<int>, mem': seq<int>, head: Addr, w: Chunks, base: Addr, order: seq<Addr>, i: nat)
    requires Tiles(w, base, |mem|) && FreeList(mem, head, order) && i < |order| && InChunks(order, w)
    requires |mem'| == |mem|
    requires forall a | 0 <= a < |mem| :: mem'[a] == Relinked(mem, At(order, i - 1), At(order, i + 1), a)
    ensures FreeList(mem', if i == 0 then At(order, 1) else head, Without(order, i))
  {
    var rest := Without(order, i);
    WithoutEntries(order, i);
    forall j | 0 <= j < |rest| ensures Links(mem', rest, j) {
      UnlinkAtPosition(mem, mem', head, w, base, order, i, j);
    }
    assert head == At(order, 0);
  }

  lemma UnlinkAtPosition(mem: seq<int>, mem': seq<int>, head: Addr, w: Chunks, base: Addr, order: seq<Addr>, i: nat,
                         j: nat)
    requires Tiles(w, base, |mem|) && FreeList(mem, head, order) && i < |order| && InChunks(order, w) && j < |order| - 1
    requires |mem'| == |mem|
    requires forall a | 0 <= a < |mem| :: mem'[a] == Relinked(mem, At(order, i - 1), At(order, i + 1), a)
    ensures var rest := Without(order, i);
            && |rest| == |order| - 1 && 0 < rest[j] && rest[j] + 2 < |mem'| && Links(mem', rest, j)
  {
    hide Tiles, InChunks, Relinked, Without;
    var o := if j < i then j else j + 1;
    WithoutEntries(order, i);
    assert Links(mem, order, i) && Links(mem, order, o);
    UnlinkOne(mem, mem', w, base, order, i, o);
    WithoutAt(order, i, j);
  }

  /** The word at `a` after `prev` and `next` have been linked to each other. */
  function Relinked(mem: seq<int>, prev: Addr, next: Addr, a: Addr): int
    requires 0 <= a < |mem|
  {
    if next != NULL && a == next + 1 then prev
    else if prev != NULL && a == prev + 2 then next
    else mem[a]
  }

  lemma WithoutEntries(order: seq<Addr>, i: nat)
    requires i < |order|
    ensures |Without(order, i)| == |order| - 1
    ensures forall j | 0 <= j < |order| - 1 :: Without(order, i)[j] == order[if j < i then j else j + 1]
  {
  }

  lemma WithoutAt(order: seq<Addr>, i: nat, j: nat)
    requires i < |order| && j < |order| - 1
    ensures var rest := Without(order, i);
            var o := if j < i then j else j + 1;
            && rest[j] == order[o]
            && At(rest, j - 1) == (if o == i + 1 then At(order, i - 1) else At(order, o - 1))
            && At(rest, j + 1) == (if o == i - 1 then At(order, i + 1) else At(order, o + 1))
  {
  }

  /** What the stores of remove_from_free_list() leave in the links of another member. */
  lemma UnlinkOne(mem: seq<int>, mem': seq<int>, w: Chunks, base: Addr, order: seq<Addr>, i: nat, o: nat)
    requires Tiles(w, base, |mem|) && InChunks(order, w) && i < |order| && o < |order| && o != i
    requires forall k | 0 <= k < |order| :: 0 < order[k] && order[k] + 2 < |mem|
    requires forall k, l | 0 <= k < l < |order| :: order[k] != order[l]
    requires Links(mem, order, i) && Links(mem, order, o)
    requires |mem'| == |mem|
    requires forall a | 0 <= a < |mem| :: mem'[a] == Relinked(mem, At(order, i - 1), At(order, i + 1), a)
    ensures mem'[order[o] + 1] == (if o == i + 1 then At(order, i - 1) else At(order, o - 1))
    ensures mem'[order[o] + 2] == (if o == i - 1 then At(order, i + 1) else At(order, o + 1))
  {
    hide Tiles;
    LinksApart(w, base, |mem|, order[o], At(order, i - 1));
    LinksApart(w, base, |mem|, order[o], At(order, i + 1));
  }

  lemma ChunkInside(w: Chunks, base: Addr, brk: Addr, c: Addr)
    requires Tiles(w, base, brk) && c in w
    ensures 0 < base <= c && w[c] >= 2 && End(w, c) <= brk
  {
  }

  /** The links of different chunks are different words. */
  lemma LinksApart(w: Chunks, base: Addr, brk: Addr, a: Addr, b: Addr)
    requires Tiles(w, base, brk) && a in w
    ensures b in w && a != b ==> a + 2 < b || b + 2 < a
  {
  }

  /** What putting `c` at the front stores, and where. */
  lemma LinkStores(mem: seq<int>, head: Addr, w: Chunks, base: Addr, order: seq<Addr>, c: Addr)
    requires Tiles(w, base, |mem|) && FreeList(mem, head, order) && InChunks(order, w) && c in w && c !in order
    ensures 0 <= head && head + 2 < |mem| && c + 2 < |mem|
    ensures OnlyLinks(mem, Linked(mem, head, c), [c] + order, {c + 1, c + 2} + if order == [] then {} else {head + 1})
    ensures var mem' := Linked(mem, head, c);
            && mem'[c + 1] == NULL && mem'[c + 2] == head
            && (head != NULL ==> mem'[head + 1] == c)
  {
    var rest := [c] + order;
    assert rest[0] == c;
    assert LinkWord(rest, c + 1) && LinkWord(rest, c + 2);
    if order != [] {
      assert head == order[0];
      LinksApart(w, base, |mem|, c, head);
      assert rest[1] == head && LinkWord(rest, head + 1);
    }
  }

  lemma LinkList(mem: seq<int>, mem': seq<int>, head: Addr, w: Chunks, base: Addr, order: seq<Addr>, c: Addr)
    requires Tiles(w, base, |mem|) && FreeList(mem, head, order) && InChunks(order, w) && c in w && c !in order
    requires |mem'| == |mem| && 0 <= head && head + 2 < |mem| && c + 2 < |mem|
    requires mem'[c + 1] == NULL && mem'[c + 2] == head && (head != NULL ==> mem'[head + 1] == c)
    requires forall a | 0 <= a < |mem| && a != c + 1 && a != c + 2 && (head == NULL || a != head + 1) ::
               mem'[a] == mem[a]
    ensures FreeList(mem', c, [c] + order)
  {
    hide Tiles;
    ChunkInside(w, base, |mem|, c);
    var rest := [c] + order;
    assert Links(mem', rest, 0);
    forall j | 0 < j < |rest| ensures Links(mem', rest, j) {
      LinkAtPosition(mem, mem', head, w, base, order, c, j - 1);
    }
  }

  lemma LinkAtPosition(mem: seq<int>, mem': seq<int>, head: Addr, w: Chunks, base: Addr, order: seq<Addr>, c: Addr,
                       i: nat)
    requires Tiles(w, base, |mem|) && FreeList(mem, head, order) && InChunks(order, w) && c in w && c !in order
    requires i < |order| && |mem'| == |mem| && c + 2 < |mem|
    requires head != NULL ==> mem'[head + 1] == c
    requires forall a | 0 <= a < |mem| && a != c + 1 && a != c + 2 && (head == NULL || a != head + 1) ::
               mem'[a] == mem[a]
    ensures 0 < order[i] && order[i] + 2 < |mem| && Links(mem', [c] + order, i + 1)
  {
    hide Tiles;
    ChunkInside(w, base, |mem|, c);
    var rest := [c] + order;
    assert rest[i + 1] == order[i] && Links(mem, order, i);
    assert At(rest, i) == (if i == 0 then c else At(order, i - 1)) && At(rest, i + 2) == At(order, i + 1);
    LinksApart(w, base, |mem|, order[i], c);
    LinksApart(w, base, |mem|, order[i], head);
  }

  /** The links survive a change of size words. */
  lemma ListFrame(mem: seq<int>, mem': seq<int>, head: Addr, order: seq<Addr>)
    requires FreeList(mem, head, order) && |mem'| >= |mem|
    requires forall i | 0 <= i < |order| ::
               mem'[order[i] + 1] == mem[order[i] + 1] && mem'[order[i] + 2] == mem[order[i] + 2]
    ensures FreeList(mem', head, order)
  {
    forall i | 0 <= i < |order| ensures Links(mem', order, i) { assert Links(mem, order, i); }
  }

  // ---------------------------------------------------------------- neighbours

  /** The chunk that ends where `a` starts, looking from chunk `from` upwards. */
  lemma {:induction false} FindPrev(w: Chunks, base: Addr, brk: Addr, from: Addr, a: Addr) returns (p: Addr)
    requires Tiles(w, base, brk) && from in w && from < a && (a in w || a == brk)
    ensures p in w && End(w, p) == a && p < a
    decreases a - from
  {
    assert Abuts(w, brk, from);
    if End(w, from) == a { p := from; } else { p := FindPrev(w, base, brk, End(w, from), a); }
  }

  /** Two neighbours as one chunk: `n` starts where `c` ends. */
  function Merged(w: Chunks, c: Addr, n: Addr): Chunks
    requires c in w && n in w
  {
    w[c := w[c] + 2 + w[n]] - {n}
  }

  lemma MergedEntries(w: Chunks, c: Addr, n: Addr)
    requires c in w && n in w && c != n
    ensures forall x :: x in Merged(w, c, n) <==> x in w && x != n
    ensures forall x | x in Merged(w, c, n) :: Merged(w, c, n)[x] == if x == c then w[c] + 2 + w[n] else w[x]
  {
  }

  lemma MergeTiles(w: Chunks, base: Addr, brk: Addr, c: Addr, n: Addr)
    requires Tiles(w, base, brk) && c in w && n in w && End(w, c) == n
    ensures Tiles(Merged(w, c, n), base, brk) && End(Merged(w, c, n), c) == End(w, n)
  {
    var w' := Merged(w, c, n);
    MergedEntries(w, c, n);
    assert Abuts(w, brk, n);
    forall x | x in w' ensures Abuts(w', brk, x) {
      assert Abuts(w, brk, x);
      if x != c { assert End(w, x) != n; }
    }
  }

  lemma MergeStored(mem: seq<int>, w: Chunks, base: Addr, c: Addr, n: Addr)
    requires Tiles(w, base, |mem|) && Stored(mem, w) && c in w && n in w && End(w, c) == n
    ensures var k := w[c] + 2 + w[n];
            && c + k + 1 == End(w, n) - 1
            && Stored(SetSizes(mem, c, k), Merged(w, c, n))
  {
    var k := w[c] + 2 + w[n];
    var mem' := SetSizes(mem, c, k);
    var w' := Merged(w, c, n);
    MergedEntries(w, c, n);
    forall x | x in w' ensures StoredAt(mem', x, w'[x]) {
      SizeWordsApart(w, base, |mem|, c, n, x);
      assert StoredAt(mem, x, w[x]);
    }
  }

  lemma MergeFrame(mem: seq<int>, w: Chunks, base: Addr, c: Addr, n: Addr)
    requires Tiles(w, base, |mem|) && c in w && n in w && End(w, c) == n
    ensures var k := w[c] + 2 + w[n];
            && c + k + 1 == End(w, n) - 1
            && (forall x | x in w && x != c :: SetSizes(mem, c, k)[x] == mem[x])
            && SetSizes(mem, c, k)[c] == 8 * k
            && SamePayloads(mem, SetSizes(mem, c, k), w, w.Keys)
  {
    forall x | x in w { SizeWordsApart(w, base, |mem|, c, n, x); }
  }

  /** Where the size words of the merged chunk are, seen from a chunk `x`. */
  lemma SizeWordsApart(w: Chunks, base: Addr, brk: Addr, c: Addr, n: Addr, x: Addr)
    requires Tiles(w, base, brk) && c in w && n in w && End(w, c) == n && x in w
    ensures x == c || x == n || End(w, x) <= c || End(w, n) <= x
  {
  }

  // ---------------------------------------------------------------- splitting and growing

  /** The chunk at `c` cut down to `k` payload words, the rest being a chunk of its own. */
  function Split(w: Chunks, c: Addr, k: int): Chunks
    requires c in w
  {
    w[c := k][c + k + 2 := w[c] - k - 2]
  }

  lemma SplitAbuts(w: Chunks, base: Addr, brk: Addr, c: Addr, k: int, x: Addr)
    requires Tiles(w, base, brk) && c in w && c + k + 2 !in w && x in Split(w, c, k)
    ensures Abuts(Split(w, c, k), brk, x)
  {
    if x == c + k + 2 { assert Abuts(w, brk, c); } else if x != c { assert Abuts(w, brk, x); }
  }

  lemma SplitTiles(w: Chunks, base: Addr, brk: Addr, c: Addr, k: int)
    requires Tiles(w, base, brk) && c in w && k >= 2 && w[c] - k - 2 >= 2
    ensures c + k + 2 !in w
    ensures Tiles(Split(w, c, k), base, brk)
  {
    var n := c + k + 2;
    var w' := Split(w, c, k);
    if n in w { assert false; }
    SplitEntries(w, c, k);
    forall x | x in w' ensures Abuts(w', brk, x) { SplitAbuts(w, base, brk, c, k, x); }
    forall a, b | a in w' && b in w' && a < b ensures End(w', a) <= b {
      SplitApart(w, base, brk, c, k, a, b);
    }
  }

  lemma SplitEntries(w: Chunks, c: Addr, k: int)
    requires c in w && k >= 0
    ensures forall x :: x in Split(w, c, k) <==> x in w || x == c + k + 2
    ensures forall x | x in Split(w, c, k) ::
              Split(w, c, k)[x] == if x == c + k + 2 then w[c] - k - 2 else if x == c then k else w[x]
  {
  }

  lemma SplitApart(w: Chunks, base: Addr, brk: Addr, c: Addr, k: int, a: Addr, b: Addr)
    requires Tiles(w, base, brk) && c in w && k >= 2 && w[c] - k - 2 >= 2 && c + k + 2 !in w
    requires a in Split(w, c, k) && b in Split(w, c, k) && a < b
    ensures End(Split(w, c, k), a) <= b
  {
    SplitEntries(w, c, k);
    var n := c + k + 2;
    if a == n { assert End(w, c) <= b; } else if b == n && a != c { assert a < c && End(w, a) <= c; }
  }

  /** The size words of a split, and the FREE bit of the remainder. */
  function SplitSizes(mem: seq<int>, c: Addr, k: int, rest: int): seq<int>
    requires 0 <= c && k >= 0 && rest >= 0 && c + k + rest + 4 <= |mem|
  {
    var n := c + k + 2;
    SetSizes(SetSizes(mem, n, rest)[n := 8 * rest + FREE_FLAG], c, k)
  }

  lemma SplitStored(mem: seq<int>, w: Chunks, base: Addr, c: Addr, k: int)
    requires Tiles(w, base, |mem|) && Stored(mem, w) && c in w && k >= 2 && w[c] - k - 2 >= 2
    ensures var mem' := SplitSizes(mem, c, k, w[c] - k - 2);
            && Stored(mem', Split(w, c, k))
            && mem'[c] == 8 * k && mem'[c + k + 2] == 8 * (w[c] - k - 2) + FREE_FLAG
            && (forall x | x in w && x != c :: mem'[x] == mem[x] && Same(mem, mem', x + 1, End(w, x) - 1))
  {
    var mem' := SplitSizes(mem, c, k, w[c] - k - 2);
    var w' := Split(w, c, k);
    forall x | x in w && x != c ensures End(w, x) <= c || End(w, c) <= x { }
    forall x | x in w' ensures StoredAt(mem', x, w'[x]) {
      if x in w { assert StoredAt(mem, x, w[x]); }
    }
  }

  lemma GrowTiles(w: Chunks, base: Addr, brk: Addr, k: int)
    requires Tiles(w, base, brk) && k >= 2
    ensures brk !in w && Tiles(w[brk := k], base, brk + k + 2)
  {
    var w' := w[brk := k];
    forall x | x in w' ensures Abuts(w', brk + k + 2, x) {
      if x != brk { assert Abuts(w, brk, x); }
    }
  }

  lemma GrowStored(mem: seq<int>, w: Chunks, base: Addr, k: int, more: seq<int>)
    requires Tiles(w, base, |mem|) && Stored(mem, w) && k >= 2 && |more| == k + 2
    ensures var mem' := SetSizes(mem + more, |mem|, k);
            && Stored(mem', w[|mem| := k]) && mem'[|mem|] == 8 * k
            && Same(mem, mem', 0, |mem|)
  {
    var mem' := SetSizes(mem + more, |mem|, k);
    var w' := w[|mem| := k];
    forall x | x in w' ensures StoredAt(mem', x, w'[x]) {
      if x in w { assert StoredAt(mem, x, w[x]); }
    }
  }

  // ---------------------------------------------------------------- bytes on the free list

  lemma {:induction false} TotalFrame(w: Chunks, w': Chunks, order: seq<Addr>)
    requires InChunks(order, w) && InChunks(order, w')
    requires forall i | 0 <= i < |order| :: w'[order[i]] == w[order[i]]
    ensures FreeTotal(w', order) == FreeTotal(w, order)
  {
    if order != [] { TotalFrame(w, w', order[1..]); }
  }

  lemma {:induction false} TotalWithout(w: Chunks, order: seq<Addr>, i: nat)
    requires InChunks(order, w) && i < |order|
    ensures InChunks(Without(order, i), w)
    ensures FreeTotal(w, order) == FreeTotal(w, Without(order, i)) + 8 * w[order[i]] + CHUNK_OVERHEAD
  {
    if i == 0 {
      assert Without(order, 0) == order[1..];
    } else {
      TotalWithout(w, order[1..], i - 1);
      assert Without(order, i) == [order[0]] + Without(order[1..], i - 1);
      assert Without(order, i)[1..] == Without(order[1..], i - 1);
    }
  }

  /** The total follows the size of a list member that changes. */
  lemma {:induction false} TotalChange(w: Chunks, w': Chunks, order: seq<Addr>, i: nat)
    requires InChunks(order, w) && InChunks(order, w') && i < |order|
    requires forall a, b | 0 <= a < b < |order| :: order[a] != order[b]
    requires forall j | 0 <= j < |order| && j != i :: w'[order[j]] == w[order[j]]
    ensures FreeTotal(w', order) == FreeTotal(w, order) + 8 * (w'[order[i]] - w[order[i]])
  {
    if i == 0 {
      TotalFrame(w, w', order[1..]);
    } else {
      TotalChange(w, w', order[1..], i - 1);
    }
  }

  // ---------------------------------------------------------------- the tiling as a whole

  /** The chunk that a word belongs to; there is exactly one. */
  lemma {:induction false} ChunkOf(w: Chunks, base: Addr, brk: Addr, from: Addr, a: Addr) returns (c: Addr)
    requires Tiles(w, base, brk) && from in w && from <= a < brk
    ensures c in w && c <= a < End(w, c)
    ensures forall d | d in w && d <= a < End(w, d) :: d == c
    decreases brk - from
  {
    assert Abuts(w, brk, from);
    if a < End(w, from) { c := from; } else { c := ChunkOf(w, base, brk, End(w, from), a); }
  }

  /** The chunks met when stepping from one to the next. */
  ghost function Walk(w: Chunks, base: Addr, brk: Addr, from: Addr): (cs: seq<Addr>)
    requires Tiles(w, base, brk) && (from in w || from == brk)
    ensures forall i | 0 <= i < |cs| :: cs[i] in w && from <= cs[i]
    decreases brk - from
  {
    if from == brk then [] else
      assert Abuts(w, brk, from);
      [from] + Walk(w, base, brk, End(w, from))
  }

  /** Each chunk of the walk ends where the next one starts, and the last one at the break. */
  lemma {:induction false} WalkSteps(w: Chunks, base: Addr, brk: Addr, from: Addr, i: nat)
    requires Tiles(w, base, brk) && (from in w || from == brk) && i < |Walk(w, base, brk, from)|
    ensures var cs := Walk(w, base, brk, from);
            cs[i] in w && cs[i] + w[cs[i]] + 2 == if i + 1 < |cs| then cs[i + 1] else brk
    decreases brk - from
  {
    assert Abuts(w, brk, from);
    if i > 0 { WalkSteps(w, base, brk, End(w, from), i - 1); }
  }

  /** Stepping from heap_base meets every chunk once, and the sizes add up to the whole heap. */
  lemma WalkIsWhole(w: Chunks, base: Addr, brk: Addr, from: Addr)
    requires Tiles(w, base, brk) && (from in w || from == brk)
    ensures var cs := Walk(w, base, brk, from);
            && (forall c | c in w && from <= c :: c in cs)
            && Ascending(cs)
            && FreeTotal(w, cs) == 8 * (brk - from)
  {
    forall c | c in w && from <= c ensures c in Walk(w, base, brk, from) { WalkMeets(w, base, brk, from, c); }
    WalkAscends(w, base, brk, from);
    WalkTotal(w, base, brk, from);
  }

  lemma {:induction false} WalkMeets(w: Chunks, base: Addr, brk: Addr, from: Addr, c: Addr)
    requires Tiles(w, base, brk) && (from in w || from == brk) && c in w && from <= c
    ensures c in Walk(w, base, brk, from)
    decreases brk - from
  {
    assert End(w, c) <= brk && w[c] >= 2;
    assert Abuts(w, brk, from);
    if c != from {
      assert End(w, from) <= c;
      WalkMeets(w, base, brk, End(w, from), c);
    }
  }

  predicate Ascending(cs: seq<Addr>) {
    forall i, j | 0 <= i < j < |cs| :: cs[i] < cs[j]
  }

  lemma {:induction false} WalkAscends(w: Chunks, base: Addr, brk: Addr, from: Addr)
    requires Tiles(w, base, brk) && (from in w || from == brk)
    ensures Ascending(Walk(w, base, brk, from))
    decreases brk - from
  {
    if from != brk {
      assert Abuts(w, brk, from) && w[from] >= 2;
      WalkAscends(w, base, brk, End(w, from));
      AscendsFrom(from, Walk(w, base, brk, End(w, from)));
    }
  }

  lemma AscendsFrom(c: Addr, cs: seq<Addr>)
    requires Ascending(cs) && forall i | 0 <= i < |cs| :: c < cs[i]
    ensures Ascending([c] + cs)
  {
  }

  lemma {:induction false} WalkTotal(w: Chunks, base: Addr, brk: Addr, from: Addr)
    requires Tiles(w, base, brk) && (from in w || from == brk)
    ensures FreeTotal(w, Walk(w, base, brk, from)) == 8 * (brk - from)
    decreases brk - from
  {
    if from != brk {
      assert Abuts(w, brk, from);
      WalkTotal(w, base, brk, End(w, from));
      assert Walk(w, base, brk, from)[1..] == Walk(w, base, brk, End(w, from));
    }
  }

  /** The walk over the whole heap. */
  lemma WholeWalk(w: Chunks, base: Addr, brk: Addr) returns (cs: seq<Addr>)
    requires Tiles(w, base, brk)
    ensures forall c :: c in w <==> c in cs
    ensures if cs == [] then base == brk else cs[0] == base
    ensures forall i | 0 <= i < |cs| ::
              cs[i] in w && cs[i] + w[cs[i]] + 2 == if i + 1 < |cs| then cs[i + 1] else brk
    ensures InChunks(cs, w) && FreeTotal(w, cs) == 8 * (brk - base)
  {
    hide FreeTotal, Ascending;
    cs := Walk(w, base, brk, base);
    WalkIsWhole(w, base, brk, base);
    forall i | 0 <= i < |cs|
      ensures cs[i] in w && cs[i] + w[cs[i]] + 2 == if i + 1 < |cs| then cs[i + 1] else brk
    {
      WalkSteps(w, base, brk, base, i);
    }
  }
}
