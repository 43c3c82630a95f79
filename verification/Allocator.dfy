/** mymalloc() and myfree() of chapter_07/mymalloc.c. */
module Allocator {
  import opened HeapLayout

  /** ALIGN_8 for a positive size. */
  function Align8(size: int): int
    requires size > 0
  {
    (size - 1) / 8 * 8 + 8
  }

  /** Requests are at least 9 bytes, because a free chunk must hold two pointers; and the aligned size plus
      the overhead must be a size_t. */
  predicate Request(size: int) {
    9 <= size && Align8(size) + CHUNK_OVERHEAD < 0x1_0000_0000_0000_0000
  }

  lemma Aligned(size: int)
    requires Request(size)
    ensures Align8(size) >= 16 && Align8(size) % 8 == 0 && Align8(size) >= size && Align8(size) / 8 >= 2
  {
  }

  // ---------------------------------------------------------------- each operation on a consistent heap

  ghost predicate Ok(mem: seq<int>, head: Addr, base: Addr, w: Chunks, order: seq<Addr>) {
    && Tiles(w, base, |mem|) && Stored(mem, w) && FreeList(mem, head, order) && InChunks(order, w)
  }

  ghost predicate SameHeaders(mem: seq<int>, mem': seq<int>, w: Chunks, but: set<Addr>) {
    && |mem| <= |mem'|
    && forall c {:trigger c in w} | c in w && c !in but :: 0 <= c < |mem| && mem'[c] == mem[c]
  }

  function ToSet(order: seq<Addr>): set<Addr> {
    set c | c in order
  }

  lemma RemoveOk(mem: seq<int>, head: Addr, base: Addr, w: Chunks, order: seq<Addr>, i: nat)
    requires Ok(mem, head, base, w, order) && i < |order|
    ensures var c := order[i];
            && 0 <= mem[c + 1] && mem[c + 1] + 2 < |mem| && 0 <= mem[c + 2] && mem[c + 2] + 1 < |mem|
            && var mem' := Unlinked(mem, c);
            && Ok(mem', if mem[c + 1] == NULL then mem[c + 2] else head, base, w, Without(order, i))
            && |mem'| == |mem| && SameHeaders(mem, mem', w, {})
            && SamePayloads(mem, mem', w, w.Keys - ToSet(order))
  {
    UnlinkStores(mem, w, base, order, head, i);
    var mem' := Unlinked(mem, order[i]);
    UnlinkList(mem, mem', head, w, base, order, i);
    LinksFrame(mem, mem', w, base, order, UnlinkAt(order, i));
    WithoutEntries(order, i);
    assert forall c | c in w :: StoredAt(mem, c, w[c]);
  }

  lemma AddOk(mem: seq<int>, head: Addr, base: Addr, w: Chunks, order: seq<Addr>, c: Addr)
    requires Ok(mem, head, base, w, order) && c in w && c !in order
    ensures 0 <= head && head + 1 < |mem| && 0 <= c && c + 2 < |mem|
    ensures var mem' := Linked(mem, head, c);
            && Ok(mem', c, base, w, [c] + order)
            && |mem'| == |mem| && SameHeaders(mem, mem', w, {})
            && SamePayloads(mem, mem', w, w.Keys - ToSet([c] + order))
  {
    LinkStores(mem, head, w, base, order, c);
    var mem' := Linked(mem, head, c);
    LinkList(mem, mem', head, w, base, order, c);
    LinksFrame(mem, mem', w, base, [c] + order, {c + 1, c + 2} + if order == [] then {} else {head + 1});
    assert forall x | x in w :: StoredAt(mem, x, w[x]);
  }

  /** SET_FREE and SET_ALLOCATED write only the header. */
  lemma FlagOk(mem: seq<int>, head: Addr, base: Addr, w: Chunks, order: seq<Addr>, c: Addr, word: int)
    requires Ok(mem, head, base, w, order) && c in w && (word == 8 * w[c] || word == 8 * w[c] + FREE_FLAG)
    ensures 0 <= c < |mem|
    ensures var mem' := mem[c := word];
            && Ok(mem', head, base, w, order)
            && SameHeaders(mem, mem', w, {c}) && SamePayloads(mem, mem', w, w.Keys)
  {
    assert forall x | x in w :: StoredAt(mem, x, w[x]);
    var mem' := mem[c := word];
    forall x | x in w ensures StoredAt(mem', x, w[x]) { }
    forall i | 0 <= i < |order| ensures order[i] + 1 != c && order[i] + 2 != c { }
    ListFrame(mem, mem', head, order);
  }

  lemma MergeOk(mem: seq<int>, head: Addr, base: Addr, w: Chunks, order: seq<Addr>, c: Addr, n: Addr)
    requires Ok(mem, head, base, w, order) && c in w && n in w && End(w, c) == n && n !in order
    ensures var k := w[c] + 2 + w[n];
            && 0 <= c && k >= 0 && c + k + 1 < |mem|
            && var mem' := SetSizes(mem, c, k);
            && Ok(mem', head, base, Merged(w, c, n), order)
            && |mem'| == |mem|
            && mem'[c] == 8 * k && SameHeaders(mem, mem', w, {c}) && SamePayloads(mem, mem', w, w.Keys)
  {
    assert StoredAt(mem, n, w[n]);
    assert forall x | x in w :: StoredAt(mem, x, w[x]);
    var mem' := SetSizes(mem, c, w[c] + 2 + w[n]);
    MergeTiles(w, base, |mem|, c, n);
    MergeStored(mem, w, base, c, n);
    MergeFrame(mem, w, base, c, n);
    MergedEntries(w, c, n);
    PayloadLinks(mem, mem', w, base, order);
    ListFrame(mem, mem', head, order);
  }

  /** The links of list members are payload words. */
  lemma PayloadLinks(mem: seq<int>, mem': seq<int>, w: Chunks, base: Addr, order: seq<Addr>)
    requires Tiles(w, base, |mem|) && InChunks(order, w)
    requires SamePayloads(mem, mem', w, ToSet(order)) && |mem| <= |mem'|
    ensures forall i | 0 <= i < |order| ::
              0 < order[i] && order[i] + 2 < |mem|
              && mem'[order[i] + 1] == mem[order[i] + 1] && mem'[order[i] + 2] == mem[order[i] + 2]
  {
    forall i | 0 <= i < |order|
      ensures 0 < order[i] && order[i] + 2 < |mem| && mem'[order[i] + 1] == mem[order[i] + 1]
      ensures mem'[order[i] + 2] == mem[order[i] + 2]
    {
      var x := order[i];
      assert x in ToSet(order) && x in w;
      assert Same(mem, mem', x + 1, End(w, x) - 1);
    }
  }

  /** The size words of a split, written before the remainder is linked. */
  lemma SplitOk(mem: seq<int>, head: Addr, base: Addr, w: Chunks, order: seq<Addr>, c: Addr, k: int)
    requires Ok(mem, head, base, w, order) && c in w && c !in order && k >= 2 && w[c] - k - 2 >= 2
    ensures var n := c + k + 2;
            && 0 <= c && c + k + (w[c] - k - 2) + 4 <= |mem| && n !in w
            && var mem' := SplitSizes(mem, c, k, w[c] - k - 2);
            && Ok(mem', head, base, Split(w, c, k), order)
            && mem'[c] == 8 * k && mem'[n] == 8 * (w[c] - k - 2) + FREE_FLAG
            && |mem'| == |mem| && SameHeaders(mem, mem', w, {c}) && SamePayloads(mem, mem', w, w.Keys - {c})
  {
    assert forall x | x in w :: StoredAt(mem, x, w[x]);
    SplitTiles(w, base, |mem|, c, k);
    SplitStored(mem, w, base, c, k);
    var mem' := SplitSizes(mem, c, k, w[c] - k - 2);
    PayloadLinks(mem, mem', w, base, order);
    ListFrame(mem, mem', head, order);
  }

  /** The memory that split_chunk() leaves behind when it splits. */
  function SplitMem(mem: seq<int>, head: Addr, c: Addr, k: int, rest: int): seq<int>
    requires 0 <= c && k >= 0 && rest >= 1 && c + k + rest + 4 <= |mem| && 0 <= head && head + 1 < |mem|
  {
    var n := c + k + 2;
    SetSizes(Linked(SetSizes(mem, n, rest)[n := 8 * rest + FREE_FLAG], head, n), c, k)
  }

  /** The program links the remainder before it rewrites the size words of the chunk in front of it; the
      order does not matter. */
  lemma SplitOrder(mem: seq<int>, head: Addr, base: Addr, w: Chunks, order: seq<Addr>, c: Addr, k: int)
    requires Ok(mem, head, base, w, order) && c in w && c !in order && k >= 2 && w[c] - k - 2 >= 2
    ensures var n := c + k + 2;
            var rest := w[c] - k - 2;
            && 0 <= c && c + k + rest + 4 <= |mem| && 0 <= head && head + 1 < |mem| && n + 2 < |mem|
            && SplitMem(mem, head, c, k, rest) == Linked(SplitSizes(mem, c, k, rest), head, n)
            && |SplitMem(mem, head, c, k, rest)| == |mem| && |SplitSizes(mem, c, k, rest)| == |mem|
            && n !in w && n !in order
  {
    hide Tiles, Stored, FreeList, Split, Linked, SetSizes, SplitMem, SplitSizes;
    OkParts(mem, head, base, w, order);
    ChunkInside(w, base, |mem|, c);
    HeadApart(mem, head, base, w, order, c);
    SplitTiles(w, base, |mem|, c, k);
    SplitFresh(w, base, |mem|, order, c, k);
    SameStores(mem, head, c, k, w[c] - k - 2);
  }

  lemma OkParts(mem: seq<int>, head: Addr, base: Addr, w: Chunks, order: seq<Addr>)
    requires Ok(mem, head, base, w, order)
    ensures Tiles(w, base, |mem|) && Stored(mem, w) && FreeList(mem, head, order) && InChunks(order, w)
  {
  }

  /** The head of the list is a chunk other than `c`, or NULL. */
  lemma HeadApart(mem: seq<int>, head: Addr, base: Addr, w: Chunks, order: seq<Addr>, c: Addr)
    requires Ok(mem, head, base, w, order) && c in w && c !in order
    ensures 0 <= head && head + 1 < |mem| && (head != NULL ==> head + 1 < c || c + w[c] + 1 < head)
  {
    if head != NULL { assert head == order[0] && (End(w, head) <= c || End(w, c) <= head); }
  }

  lemma SplitFresh(w: Chunks, base: Addr, brk: Addr, order: seq<Addr>, c: Addr, k: int)
    requires Tiles(w, base, brk) && InChunks(order, w) && c in w && 0 <= k <= w[c] - 2
    ensures c + k + 2 !in w && c + k + 2 !in order
  {
    assert c < c + k + 2 < End(w, c);
  }

  lemma SameStores(mem: seq<int>, head: Addr, c: Addr, k: int, rest: int)
    requires 0 <= c && k >= 0 && rest >= 2 && c + k + rest + 4 <= |mem| && 0 <= head && head + 1 < |mem|
    requires head != NULL ==> head + 1 < c || c + k + rest + 3 < head
    ensures |SplitMem(mem, head, c, k, rest)| == |mem| && |SplitSizes(mem, c, k, rest)| == |mem|
    ensures SplitMem(mem, head, c, k, rest) == Linked(SplitSizes(mem, c, k, rest), head, c + k + 2)
  {
  }

  lemma SplitAll(mem: seq<int>, head: Addr, base: Addr, w: Chunks, order: seq<Addr>, c: Addr, k: int)
    requires Ok(mem, head, base, w, order) && c in w && c !in order && k >= 2 && w[c] - k - 2 >= 2
    ensures var n := c + k + 2;
            var rest := w[c] - k - 2;
            && 0 <= c && c + k + rest + 4 <= |mem| && 0 <= head && head + 1 < |mem| && n !in w
            && var mem' := SplitMem(mem, head, c, k, rest);
            && Ok(mem', n, base, Split(w, c, k), [n] + order) && |mem'| == |mem|
  {
    hide Ok, Linked, SplitSizes, SplitMem, SameHeaders, SamePayloads;
    var n, rest := c + k + 2, w[c] - k - 2;
    SplitOk(mem, head, base, w, order, c, k);
    SplitOrder(mem, head, base, w, order, c, k);
    AddOk(SplitSizes(mem, c, k, rest), head, base, Split(w, c, k), order, n);
  }

  lemma SplitFrame(mem: seq<int>, head: Addr, base: Addr, w: Chunks, order: seq<Addr>, c: Addr, k: int)
    requires Ok(mem, head, base, w, order) && c in w && c !in order && k >= 2 && w[c] - k - 2 >= 2
    ensures var n := c + k + 2;
            var rest := w[c] - k - 2;
            && 0 <= c && c + k + rest + 4 <= |mem| && 0 <= head && head + 1 < |mem| && n !in w
            && var mem' := SplitMem(mem, head, c, k, rest);
            && |mem'| == |mem| && mem'[c] == 8 * k && mem'[n] == 8 * rest + FREE_FLAG
            && SameHeaders(mem, mem', w, {c})
            && SamePayloads(mem, mem', w, w.Keys - ToSet(order) - {c})
  {
    hide Ok, Linked, SplitSizes, SplitMem, SameHeaders, SamePayloads;
    var n, rest := c + k + 2, w[c] - k - 2;
    SplitOk(mem, head, base, w, order, c, k);
    SplitOrder(mem, head, base, w, order, c, k);
    var sized := SplitSizes(mem, c, k, rest);
    var mem' := SplitMem(mem, head, c, k, rest);
    var w' := Split(w, c, k);
    AddOk(sized, head, base, w', order, n);
    ComposeHeaders(mem, sized, mem', w, w', {c});
    SameHeader(sized, mem', w', {}, c);
    SameHeader(sized, mem', w', {}, n);
    var cs := w.Keys - ToSet(order) - {c};
    FewerPayloads(sized, mem', w', w'.Keys - ToSet([n] + order), cs);
    FewerPayloads(mem, sized, w, w.Keys - {c}, cs);
    ComposePayloads(mem, sized, mem', w, w', cs);
  }

  lemma SameHeader(mem: seq<int>, mem': seq<int>, w: Chunks, but: set<Addr>, c: Addr)
    requires SameHeaders(mem, mem', w, but) && c in w && c !in but
    ensures 0 <= c < |mem| && mem'[c] == mem[c]
  {
  }

  lemma FewerPayloads(mem: seq<int>, mem': seq<int>, w: Chunks, cs: set<Addr>, fewer: set<Addr>)
    requires SamePayloads(mem, mem', w, cs) && forall x | x in fewer && x in w :: x in cs
    ensures SamePayloads(mem, mem', w, fewer)
  {
  }

  lemma SplitTotal(w: Chunks, order: seq<Addr>, c: Addr, k: int)
    requires InChunks(order, w) && c in w && c !in order && c + k + 2 !in w && k >= 0
    ensures InChunks([c + k + 2] + order, Split(w, c, k))
    ensures FreeTotal(Split(w, c, k), [c + k + 2] + order) == FreeTotal(w, order) + 8 * (w[c] - k - 2) + CHUNK_OVERHEAD
  {
    TotalFrame(w, Split(w, c, k), order);
    assert ([c + k + 2] + order)[1..] == order;
  }

  lemma ComposeHeaders(m0: seq<int>, m1: seq<int>, m2: seq<int>, w: Chunks, w': Chunks, but: set<Addr>)
    requires SameHeaders(m0, m1, w, but) && SameHeaders(m1, m2, w', {})
    requires forall x | x in w && x !in but :: x in w'
    ensures SameHeaders(m0, m2, w, but)
  {
  }

  lemma ComposePayloads(m0: seq<int>, m1: seq<int>, m2: seq<int>, w: Chunks, w': Chunks, cs: set<Addr>)
    requires SamePayloads(m0, m1, w, cs) && SamePayloads(m1, m2, w', cs) && |m0| <= |m2|
    requires forall x | x in w && x in cs :: x in w' && w'[x] == w[x]
    ensures SamePayloads(m0, m2, w, cs)
  {
  }

  lemma GrowOk(mem: seq<int>, head: Addr, base: Addr, w: Chunks, order: seq<Addr>, k: int, more: seq<int>)
    requires Ok(mem, head, base, w, order) && k >= 2 && |more| == k + 2
    ensures var mem' := SetSizes(mem + more, |mem|, k);
            && |mem| !in w && Ok(mem', head, base, w[|mem| := k], order)
            && mem'[|mem|] == 8 * k && |mem'| == |mem| + k + 2
            && SameHeaders(mem, mem', w, {}) && SamePayloads(mem, mem', w, w.Keys)
  {
    assert forall x | x in w :: StoredAt(mem, x, w[x]);
    GrowTiles(w, base, |mem|, k);
    GrowStored(mem, w, base, k, more);
    var mem' := SetSizes(mem + more, |mem|, k);
    forall x | x in w ensures Same(mem, mem', x + 1, End(w, x) - 1) { }
    PayloadLinks(mem, mem', w, base, order);
    ListFrame(mem, mem', head, order);
  }

  lemma SizedHeader(mem: seq<int>, c: Addr, k: int)
    requires 0 <= c && k >= 0 && c + k + 1 < |mem|
    ensures |SetSizes(mem, c, k)| == |mem| && SetSizes(mem, c, k)[c] == 8 * k
  {
  }

  lemma LinkedSize(mem: seq<int>, head: Addr, c: Addr)
    requires 0 <= c && c + 2 < |mem| && 0 <= head && head + 1 < |mem|
    ensures |Linked(mem, head, c)| == |mem|
  {
  }

  lemma InWords(size: int, words: int, k: int)
    requires size == 8 * k
    ensures (size + CHUNK_OVERHEAD) / 8 == k + 2 && 8 * words - (size + CHUNK_OVERHEAD) == 8 * (words - k - 2)
  {
  }

  lemma SizeWord(mem: seq<int>, c: Addr, k: int)
    requires StoredAt(mem, c, k)
    ensures Size(mem[c]) == 8 * k && Size(mem[c]) / 8 == k && Size(mem[c + k + 1]) == 8 * k
    ensures IsFree(mem[c]) <==> mem[c] == 8 * k + FREE_FLAG
  {
    WordSize(mem[c], k);
    WordSize(mem[c + k + 1], k);
  }

  lemma WordSize(word: int, k: int)
    requires word == 8 * k || word == 8 * k + FREE_FLAG
    ensures Size(word) == 8 * k && Size(word) / 8 == k && (IsFree(word) <==> word == 8 * k + FREE_FLAG)
  {
    assert (8 * k) % 2 == 0 && (8 * k + 1) % 2 == 1;
  }

  lemma SplitBounds(mem: seq<int>, head: Addr, base: Addr, w: Chunks, order: seq<Addr>, c: Addr)
    requires Ok(mem, head, base, w, order) && c in w
    ensures 0 <= head && head + 1 < |mem| && 0 < c && w[c] >= 2 && c + w[c] + 2 <= |mem|
    ensures Size(mem[c]) == 8 * w[c]
  {
    assert StoredAt(mem, c, w[c]);
    SizeWord(mem, c, w[c]);
  }

  /** The position of the first list member that is large enough; the length of the list if there is none. */
  ghost function FirstFit(w: Chunks, order: seq<Addr>, size: int): (i: nat)
    requires InChunks(order, w)
    ensures i <= |order| && (forall j | 0 <= j < i :: 8 * w[order[j]] < size)
    ensures i < |order| ==> 8 * w[order[i]] >= size
  {
    if order == [] || 8 * w[order[0]] >= size then 0 else 1 + FirstFit(w, order[1..], size)
  }

  lemma FirstFitStep(w: Chunks, order: seq<Addr>, i: nat, size: int)
    requires InChunks(order, w) && i <= |order|
    ensures FirstFit(w, order[i..], size) ==
            if i == |order| || 8 * w[order[i]] >= size then 0 else 1 + FirstFit(w, order[i + 1..], size)
  {
    if i < |order| { assert order[i..][0] == order[i] && order[i..][1..] == order[i + 1..]; }
  }

  lemma ListStart(mem: seq<int>, head: Addr, base: Addr, w: Chunks, order: seq<Addr>)
    requires Ok(mem, head, base, w, order)
    ensures head == At(order, 0)
  {
  }

  lemma ListStep(mem: seq<int>, head: Addr, base: Addr, w: Chunks, order: seq<Addr>, i: nat)
    requires Ok(mem, head, base, w, order) && i < |order|
    ensures var c := order[i];
            && c in w && 0 <= c && c + 2 < |mem| && c != NULL
            && mem[c + 2] == At(order, i + 1) && Size(mem[c]) == 8 * w[c]
  {
    assert Links(mem, order, i) && order[i] in w;
    assert StoredAt(mem, order[i], w[order[i]]);
    SizeWord(mem, order[i], w[order[i]]);
  }

  lemma ListEnd(mem: seq<int>, head: Addr, base: Addr, w: Chunks, order: seq<Addr>, i: nat)
    requires Ok(mem, head, base, w, order) && i <= |order| && At(order, i) == NULL
    ensures i == |order|
  {
    if i < |order| { ListStep(mem, head, base, w, order, i); }
  }

  // ---------------------------------------------------------------- the program

  /** Whether split_chunk() splits: room for the request and for a minimal free chunk. */
  predicate Splits(w: Chunks, c: Addr, k: int)
    requires c in w
  {
    8 * w[c] >= 8 * k + CHUNK_OVERHEAD + MIN_FREE_CHUNK_SIZE
  }

  /** Chunks, free list and memory after split_chunk(). */
  function TakenChunks(w: Chunks, c: Addr, k: int): Chunks
    requires c in w
  {
    if Splits(w, c, k) then Split(w, c, k) else w
  }

  function TakenOrder(w: Chunks, order: seq<Addr>, c: Addr, k: int): seq<Addr>
    requires c in w
  {
    if Splits(w, c, k) then [c + k + 2] + order else order
  }

  function TakenMem(mem: seq<int>, head: Addr, w: Chunks, c: Addr, k: int): seq<int>
    requires c in w && 0 <= c && k >= 0 && c + w[c] + 2 <= |mem| && 0 <= head && head + 1 < |mem|
  {
    if Splits(w, c, k) then SplitMem(mem, head, c, k, w[c] - k - 2) else mem
  }

  function TakenHead(head: Addr, w: Chunks, c: Addr, k: int): Addr
    requires c in w
  {
    if Splits(w, c, k) then c + k + 2 else head
  }

  lemma TakenOk(mem: seq<int>, head: Addr, base: Addr, w: Chunks, order: seq<Addr>, c: Addr, k: int)
    requires Ok(mem, head, base, w, order) && c in w && c !in order && k >= 2
    ensures 0 < c && w[c] >= 2 && c + w[c] + 2 <= |mem| && 0 <= head && head + 1 < |mem|
    ensures var mem' := TakenMem(mem, head, w, c, k);
            var order' := TakenOrder(w, order, c, k);
            && |mem'| == |mem| && Ok(mem', TakenHead(head, w, c, k), base, TakenChunks(w, c, k), order')
            && SameHeaders(mem, mem', w, {c}) && SamePayloads(mem, mem', w, w.Keys - ToSet(order) - {c})
            && (Splits(w, c, k) ==> c + k + 2 < |mem'| && mem'[c + k + 2] == 8 * (w[c] - k - 2) + FREE_FLAG)
  {
    hide Ok, SplitMem, FreeTotal;
    SplitBounds(mem, head, base, w, order, c);
    if Splits(w, c, k) {
      SplitAll(mem, head, base, w, order, c, k);
      SplitFrame(mem, head, base, w, order, c, k);
    } else {
      NoChange(mem, head, base, w, order, {c}, w.Keys - ToSet(order) - {c});
    }
  }

  lemma RemainderIsNew(w: Chunks, base: Addr, brk: Addr, c: Addr, k: int)
    requires Tiles(w, base, brk) && c in w && k >= 2 && Splits(w, c, k)
    ensures c + k + 2 !in w && c + k + 2 in TakenChunks(w, c, k)
  {
    assert c < c + k + 2 < End(w, c);
  }

  lemma GrownPrefix(mem: seq<int>, k: int)
    requires k >= 0
    ensures SetSizes(mem + seq(k + 2, _ => 0), |mem|, k)[..|mem|] == mem
  {
  }

  /** What a step leaves of the headers and of the client's payloads, word by word. */
  lemma HeadersAre(mem: seq<int>, mem': seq<int>, w: Chunks, c: Addr)
    requires SameHeaders(mem, mem', w, {c})
    ensures forall x | x in w && x != c :: 0 <= x < |mem| && x < |mem'| && mem'[x] == mem[x]
  {
  }

  lemma PayloadsAre(mem: seq<int>, mem': seq<int>, w: Chunks, live: map<Addr, int>)
    requires SamePayloads(mem, mem', w, live.Keys) && forall x | x in live :: x in w && w[x] >= 0
    ensures forall x | x in live ::
              && x in w && 0 <= x + 1 <= x + 1 + w[x] <= |mem| && x + 1 + w[x] <= |mem'|
              && mem'[x + 1..x + 1 + w[x]] == mem[x + 1..x + 1 + w[x]]
  {
    forall x | x in live
      ensures 0 <= x + 1 <= x + 1 + w[x] <= |mem| && x + 1 + w[x] <= |mem'|
      ensures mem'[x + 1..x + 1 + w[x]] == mem[x + 1..x + 1 + w[x]]
    {
      assert x in live.Keys;
      assert Same(mem, mem', x + 1, End(w, x) - 1);
    }
  }

  /** When memory has only been extended. */
  lemma PrefixKeeps(mem: seq<int>, mem': seq<int>, w: Chunks, c: Addr)
    requires |mem| <= |mem'| && mem'[..|mem|] == mem && forall x | x in w :: 0 <= x < |mem|
    ensures SameHeaders(mem, mem', w, {c})
  {
    forall x | x in w ensures mem'[x] == mem[x] { assert mem'[..|mem|][x] == mem'[x]; }
  }

  lemma ChunksInMemory(mem: seq<int>, head: Addr, base: Addr, w: Chunks, order: seq<Addr>)
    requires Ok(mem, head, base, w, order)
    ensures forall x | x in w :: 0 <= x < |mem|
  {
  }

  lemma HeldSizes(mem: seq<int>, head: Addr, base: Addr, w: Chunks, order: seq<Addr>, live: map<Addr, int>)
    requires Ok(mem, head, base, w, order) && Owned(mem, w, order, live)
    ensures forall x | x in live :: x in w && w[x] >= 0
  {
  }

  lemma HeldUnflagged(mem: seq<int>, w: Chunks, order: seq<Addr>, live: map<Addr, int>, c: Addr)
    requires Owned(mem, w, order, live) && c in live
    ensures c in w && 0 <= c < |mem| && mem[c] == 8 * w[c]
  {
  }

  lemma EmptyOk(mem: seq<int>)
    requires |mem| > 0
    ensures Ok(mem, NULL, |mem|, map[], []) && Owned(mem, map[], [], map[]) && Covered(map[], [], map[])
  {
  }

  lemma NoChange(mem: seq<int>, head: Addr, base: Addr, w: Chunks, order: seq<Addr>, but: set<Addr>, cs: set<Addr>)
    requires Ok(mem, head, base, w, order)
    ensures SameHeaders(mem, mem, w, but) && SamePayloads(mem, mem, w, cs)
  {
    assert forall x | x in w :: StoredAt(mem, x, w[x]);
  }

  lemma TakenEntries(mem: seq<int>, head: Addr, base: Addr, w: Chunks, order: seq<Addr>, c: Addr, k: int)
    requires Ok(mem, head, base, w, order) && c in w && c !in order && k >= 2
    ensures var w' := TakenChunks(w, c, k);
            var order' := TakenOrder(w, order, c, k);
            && c in w' && c !in order' && InChunks(order, w) && InChunks(order', w')
            && (8 * w[c] >= 8 * k ==> 8 * w'[c] >= 8 * k)
            && (forall x | x in w && x != c :: x in w' && w'[x] == w[x] && (x in order' <==> x in order))
            && (forall x | x in w' && x !in w :: x in order')
            && FreeTotal(w', order') + 8 * w'[c] == FreeTotal(w, order) + 8 * w[c]
  {
    hide FreeList, Stored, FreeTotal;
    assert Tiles(w, base, |mem|) && InChunks(order, w);
    hide Tiles, Ok;
    if Splits(w, c, k) {
      SplitTiles(w, base, |mem|, c, k);
      SplitTotal(w, order, c, k);
    }
  }

  /** What a request for `size` bytes is answered with, and the break, the chunks and the list after it: first
      fit from the list, cut down if it is much too large; otherwise a new chunk at the break, or NULL. */
  ghost predicate Handed(brk: int, w: Chunks, order: seq<Addr>, size: int, sbrkOk: bool,
                         ptr: Addr, brk': int, w': Chunks, order': seq<Addr>)
    requires InChunks(order, w) && size > 0
  {
    var k, fit := Align8(size) / 8, FirstFit(w, order, Align8(size));
    if fit < |order| then
      var c := order[fit];
      && ptr == c + 1 && brk' == brk
      && w' == TakenChunks(w, c, k) && order' == TakenOrder(w, Without(order, fit), c, k)
    else if sbrkOk then
      ptr == brk + 1 && brk' == brk + k + 2 && w' == w[brk := k] && order' == order
    else
      ptr == NULL && brk' == brk && w' == w && order' == order
  }

  /** Where first fit finds a chunk for a request. */
  lemma FitFor(w: Chunks, order: seq<Addr>, size: int) returns (fit: nat)
    requires InChunks(order, w) && size > 0
    ensures fit == FirstFit(w, order, Align8(size)) <= |order|
    ensures forall j | 0 <= j < fit :: 8 * w[order[j]] < (size + 7) / 8 * 8
    ensures fit < |order| ==> 8 * w[order[fit]] >= (size + 7) / 8 * 8
  {
    fit := FirstFit(w, order, Align8(size));
    assert Align8(size) == (size + 7) / 8 * 8;
  }

  /** In numbers: the size is rounded up to the next multiple of 8, and a chunk is split if 48 bytes or more are
      left over. */
  lemma HandedIs(brk: int, w: Chunks, order: seq<Addr>, size: int, sbrkOk: bool,
                 ptr: Addr, brk': int, w': Chunks, order': seq<Addr>, fit: nat)
    requires InChunks(order, w) && size > 0 && Handed(brk, w, order, size, sbrkOk, ptr, brk', w', order')
    requires fit == FirstFit(w, order, Align8(size))
    ensures var a := (size + 7) / 8 * 8;
            && fit <= |order|
            && if fit < |order|
               then var c, n := order[fit], order[fit] + a / 8 + 2;
                    && ptr == c + 1 && brk' == brk
                    && if 8 * w[c] >= a + 48
                       then && w' == w[c := a / 8][n := w[c] - a / 8 - 2]
                            && order' == [n] + (order[..fit] + order[fit + 1..])
                       else w' == w && order' == order[..fit] + order[fit + 1..]
               else && order' == order
                    && if sbrkOk then ptr == brk + 1 && brk' == brk + a / 8 + 2 && w' == w[brk := a / 8]
                       else ptr == 0 && brk' == brk && w' == w
  {
    hide FirstFit;
    assert (size + 7) / 8 * 8 == Align8(size);
  }

  /** The same, with the header of the chunk that is cut off. */
  lemma ServedIs(w: Chunks, order: seq<Addr>, size: int, sbrkOk: bool, ptr: Addr, brk: int, mem': seq<int>, w': Chunks,
                 order': seq<Addr>, fit: nat)
    requires InChunks(order, w) && size > 0 && Handed(brk, w, order, size, sbrkOk, ptr, |mem'|, w', order')
    requires fit == FirstFit(w, order, Align8(size))
    requires forall n | n in w' && n !in w && n != ptr - 1 :: 0 <= n < |mem'| && mem'[n] == 8 * w'[n] + FREE_FLAG
    requires var a := (size + 7) / 8 * 8;
             fit < |order| && 8 * w[order[fit]] >= a + 48 ==>
               order[fit] + a / 8 + 2 !in w && order[fit] + a / 8 + 2 != order[fit]
    ensures fit < |order| ==>
              var a, c := (size + 7) / 8 * 8, order[fit];
              var n := c + a / 8 + 2;
              && ptr == c + 1 && |mem'| == brk
              && if 8 * w[c] >= a + 48
                 then && w' == w[c := a / 8][n := w[c] - a / 8 - 2] && order' == [n] + (order[..fit] + order[fit + 1..])
                      && 0 <= n < |mem'| && mem'[n] == 8 * w'[n] + 1
                 else w' == w && order' == order[..fit] + order[fit + 1..]
    ensures fit >= |order| ==>
              var a := (size + 7) / 8 * 8;
              && order' == order
              && if sbrkOk then ptr == brk + 1 && |mem'| == brk + a / 8 + 2 && w' == w[brk := a / 8]
                 else ptr == 0 && w' == w
  {
    hide FirstFit, Handed, Align8;
    HandedIs(brk, w, order, size, sbrkOk, ptr, |mem'|, w', order', fit);
  }

  /** A chunk cut off is marked free. */
  lemma RemainderFlagged(mem: seq<int>, w0: Chunks, w: Chunks, c: Addr, k: int)
    requires c in w0 && w == TakenChunks(w0, c, k)
    requires Splits(w0, c, k) ==> 0 <= c + k + 2 < |mem| && mem[c + k + 2] == 8 * (w0[c] - k - 2) + FREE_FLAG
    ensures forall n | n in w && n !in w0 :: 0 <= n < |mem| && mem[n] == 8 * w[n] + FREE_FLAG
  {
  }

  lemma CutIsNew(mem: seq<int>, head: Addr, base: Addr, w: Chunks, order: seq<Addr>, size: int, i: nat)
    requires Ok(mem, head, base, w, order) && size > 0
    ensures var a := (size + 7) / 8 * 8;
            i < |order| && 8 * w[order[i]] >= a + 48 ==>
              order[i] + a / 8 + 2 !in w && order[i] + a / 8 + 2 != order[i]
  {
    var a := (size + 7) / 8 * 8;
    if i < |order| && 8 * w[order[i]] >= a + 48 { assert order[i] < order[i] + a / 8 + 2 < End(w, order[i]); }
  }

  /** Chunks in the hands of the client are allocated, off the list, and as large as requested. */
  ghost predicate Owned(mem: seq<int>, w: Chunks, order: seq<Addr>, live: map<Addr, int>) {
    forall c {:trigger c in live} | c in live ::
      && c in w && c !in order && 0 <= c < |mem| && mem[c] == 8 * w[c] && 8 * w[c] >= live[c]
  }

  /** Every chunk is with the client or on the list. */
  ghost predicate Covered(w: Chunks, order: seq<Addr>, live: map<Addr, int>) {
    forall c {:trigger c in w} | c in w :: c in live || c in order
  }

  /** The data segment and the globals free_list_head and heap_base. `w` describes the chunks, `order` the
      free list, and `live` gives the requested size of every chunk that the client holds. */
  class Heap {
    var mem: seq<int>
    var freeListHead: Addr
    var heapBase: Addr
    ghost var w: Chunks
    ghost var order: seq<Addr>
    ghost var live: map<Addr, int>

    ghost predicate Valid()
      reads this
    {
      && |mem| > 0
      && if heapBase == NULL then freeListHead == NULL && w == map[] && order == [] && live == map[]
         else
           Ok(mem, freeListHead, heapBase, w, order) && Owned(mem, w, order, live) && Covered(w, order, live)
    }

    constructor (data: seq<int>)
      requires |data| > 0
      ensures Valid() && live == map[] && mem == data && heapBase == NULL
    {
      mem := data;
      freeListHead, heapBase := NULL, NULL;
      w, order, live := map[], [], map[];
    }

    /** `k` is the number of payload words. */
    method SetChunkSizeHeaders(chunk: Addr, size: int, ghost k: int)
      requires 0 <= chunk && 0 <= k && size == 8 * k && chunk + k + 1 < |mem|
      modifies this`mem
      ensures mem == SetSizes(old(mem), chunk, k)
    {
      mem := mem[chunk := size];
      var footer := chunk + size / 8 + 1;
      mem := mem[footer := size];
    }

    method FindFreeChunk(size: int) returns (chunk: Addr)
      requires heapBase == NULL ==> freeListHead == NULL && order == []
      requires heapBase != NULL ==> Ok(mem, freeListHead, heapBase, w, order)
      requires InChunks(order, w)
      ensures chunk == At(order, FirstFit(w, order, size))
      ensures chunk != NULL <==> FirstFit(w, order, size) < |order|
    {
      hide Ok, FirstFit, Size;
      var current := freeListHead;
      ghost var i: nat := 0;
      assert order[0..] == order;
      if heapBase != NULL { ListStart(mem, freeListHead, heapBase, w, order); }
      while current != NULL
        invariant i <= |order| && current == At(order, i)
        invariant FirstFit(w, order, size) == i + FirstFit(w, order[i..], size)
        decreases |order| - i
      {
        ListStep(mem, freeListHead, heapBase, w, order, i);
        FirstFitStep(w, order, i, size);
        if Size(mem[current]) >= size { return current; }
        current := mem[current + 2];
        i := i + 1;
      }
      if heapBase != NULL { ListEnd(mem, freeListHead, heapBase, w, order, i); }
      FirstFitStep(w, order, i, size);
      return NULL;
    }

    method RemoveFromFreeList(chunk: Addr)
      requires 0 <= chunk && chunk + 2 < |mem|
      requires 0 <= mem[chunk + 1] && mem[chunk + 1] + 2 < |mem| && 0 <= mem[chunk + 2] && mem[chunk + 2] + 1 < |mem|
      requires mem[chunk + 1] != NULL ==> mem[chunk + 1] + 2 != chunk + 1
      modifies this`mem, this`freeListHead
      ensures mem == Unlinked(old(mem), chunk)
      ensures freeListHead == if old(mem)[chunk + 1] == NULL then old(mem)[chunk + 2] else old(freeListHead)
    {
      if mem[chunk + 1] != NULL {
        mem := mem[mem[chunk + 1] + 2 := mem[chunk + 2]];
      } else {
        freeListHead := mem[chunk + 2];
      }
      if mem[chunk + 2] != NULL {
        mem := mem[mem[chunk + 2] + 1 := mem[chunk + 1]];
      }
    }

    method AddToFreeList(chunk: Addr)
      requires 0 <= chunk && chunk + 2 < |mem| && 0 <= freeListHead && freeListHead + 1 < |mem|
      modifies this`mem, this`freeListHead
      ensures mem == Linked(old(mem), old(freeListHead), chunk) && freeListHead == chunk
    {
      mem := mem[chunk + 2 := freeListHead];
      if freeListHead != NULL {
        mem := mem[freeListHead + 1 := chunk];
      }
      freeListHead := chunk;
      mem := mem[chunk + 1 := NULL];
    }

    /** remove_from_free_list() of a member: the list without it, nothing else that matters. */
    method Detach(chunk: Addr, ghost i: nat)
      requires heapBase != NULL && Ok(mem, freeListHead, heapBase, w, order) && i < |order| && order[i] == chunk
      modifies this`mem, this`freeListHead, this`order
      ensures Ok(mem, freeListHead, heapBase, w, order) && order == Without(old(order), i)
      ensures |mem| == |old(mem)| && SameHeaders(old(mem), mem, w, {})
      ensures SamePayloads(old(mem), mem, w, w.Keys - ToSet(old(order)))
      ensures FreeTotal(w, order) == FreeTotal(w, old(order)) - 8 * w[chunk] - CHUNK_OVERHEAD
    {
      hide Ok, SamePayloads, SameHeaders, FreeTotal, ToSet, Without, Unlinked;
      DetachOk(mem, freeListHead, heapBase, w, order, i);
      RemoveFromFreeList(chunk);
      order := Without(order, i);
    }

    method SplitChunk(chunk: Addr, size: int)
      requires heapBase != NULL && Ok(mem, freeListHead, heapBase, w, order)
      requires chunk in w && chunk !in order && size >= 16 && size % 8 == 0 && 8 * w[chunk] >= size
      modifies this`mem, this`freeListHead
      ensures old(0 <= freeListHead && freeListHead + 1 < |mem| && 0 <= chunk && chunk + w[chunk] + 2 <= |mem|)
      ensures mem == TakenMem(old(mem), old(freeListHead), w, chunk, size / 8)
      ensures freeListHead == TakenHead(old(freeListHead), w, chunk, size / 8)
    {
      hide Ok, SetSizes, Linked, Size;
      ghost var k := size / 8;
      SplitBounds(mem, freeListHead, heapBase, w, order, chunk);
      var sizeWithHeaders := size + CHUNK_OVERHEAD;
      if Size(mem[chunk]) >= sizeWithHeaders + MIN_FREE_CHUNK_SIZE {
        ghost var rest := w[chunk] - k - 2;
        var remaining := Size(mem[chunk]) - sizeWithHeaders;
        var newChunk := chunk + sizeWithHeaders / 8;
        InWords(size, w[chunk], k);
        SizedHeader(mem, newChunk, rest);
        SetChunkSizeHeaders(newChunk, remaining, rest);
        mem := mem[newChunk := mem[newChunk] + FREE_FLAG];
        LinkedSize(mem, freeListHead, newChunk);
        AddToFreeList(newChunk);
        SetChunkSizeHeaders(chunk, size, k);
      }
    }

    /** The last steps of mymalloc() on a list chunk: the chunk is handed out, cut down if it is much too large. */
    method TakeFromList(chunk: Addr, size: int, request: int, ghost i: nat)
      requires heapBase != NULL && Valid() && i < |order| && order[i] == chunk
      requires size >= 16 && size % 8 == 0 && 8 * w[chunk] >= size >= request
      modifies this`mem, this`freeListHead, this`order, this`w, this`live
      ensures Valid() && |mem| == |old(mem)| && live == old(live)[chunk := request] && chunk !in old(live)
      ensures old(chunk in w)
      ensures w == TakenChunks(old(w), chunk, size / 8)
      ensures order == TakenOrder(old(w), Without(old(order), i), chunk, size / 8)
      ensures SamePayloads(old(mem), mem, old(w), old(live).Keys) && SameHeaders(old(mem), mem, old(w), {chunk})
      ensures var n := chunk + size / 8 + 2;
              Splits(old(w), chunk, size / 8) ==>
                0 <= n < |mem| && mem[n] == 8 * (old(w)[chunk] - size / 8 - 2) + FREE_FLAG
      ensures chunk in w && FreeTotal(w, order) == FreeTotal(old(w), old(order)) - 8 * w[chunk] - CHUNK_OVERHEAD
    {
      hide Ok, SamePayloads, SameHeaders, FreeTotal, TakenMem, TakenChunks, TakenOrder, Owned, Covered, Tiles, Without;
      ghost var m0, w0, o0, k := mem, w, order, size / 8;
      ListMember(mem, freeListHead, heapBase, w, order, live, i);
      OkTiles(mem, freeListHead, heapBase, w, order);
      if Splits(w, chunk, k) { RemainderIsNew(w, heapBase, |mem|, chunk, k); }
      WithoutMembers(order, i);
      Detach(chunk, i);
      ghost var m1, h1, o1 := mem, freeListHead, order;
      TakenOk(m1, h1, heapBase, w, o1, chunk, k);
      TakenEntries(m1, h1, heapBase, w, o1, chunk, k);
      SplitChunk(chunk, size);
      ghost var m2 := mem;
      w, order := TakenChunks(w0, chunk, k), TakenOrder(w0, o1, chunk, k);
      SplitBounds(mem, freeListHead, heapBase, w, order, chunk);
      FlagOk(mem, freeListHead, heapBase, w, order, chunk, 8 * w[chunk]);
      mem := mem[chunk := Size(mem[chunk])];
      HandedOut(m0, m1, m2, mem, w0, w, o0, o1, order, live, chunk, request);
      live := live[chunk := request];
    }

    /** expand_heap(); `sbrkOk` says whether sbrk() succeeds. */
    method ExpandHeap(size: int, sbrkOk: bool) returns (chunk: Addr)
      requires Valid() && size >= 16 && size % 8 == 0
      modifies this`mem, this`heapBase
      ensures heapBase == if old(heapBase) == NULL then |old(mem)| else old(heapBase)
      ensures !sbrkOk ==> chunk == NULL && mem == old(mem)
      ensures sbrkOk ==>
                chunk == |old(mem)| && mem == SetSizes(old(mem) + seq(size / 8 + 2, _ => 0), chunk, size / 8)
    {
      if heapBase == NULL {
        heapBase := |mem|;
      }
      var totalSize := size + CHUNK_OVERHEAD;
      if !sbrkOk { return NULL; }
      chunk := |mem|;
      assert totalSize / 8 == size / 8 + 2;
      mem := mem + seq(totalSize / 8, _ => 0);
      SetChunkSizeHeaders(chunk, size, size / 8);
    }

    /** The part of mymalloc() that extends the heap. */
    method TakeFromBreak(size: int, request: int, sbrkOk: bool) returns (chunk: Addr)
      requires Valid() && size >= 16 && size % 8 == 0 && size >= request
      modifies this`mem, this`heapBase, this`w, this`live
      ensures Valid() && heapBase == if old(heapBase) == NULL then |old(mem)| else old(heapBase)
      ensures if sbrkOk
              then chunk == |old(mem)| && |mem| == |old(mem)| + size / 8 + 2
                   && w == old(w)[chunk := size / 8] && live == old(live)[chunk := request]
                   && chunk !in old(w) && chunk !in old(live)
              else chunk == NULL && mem == old(mem) && w == old(w) && live == old(live)
      ensures |old(mem)| <= |mem| && mem[..|old(mem)|] == old(mem)
      ensures SamePayloads(old(mem), mem, old(w), old(live).Keys)
      ensures InChunks(order, old(w)) && InChunks(order, w) && FreeTotal(w, order) == FreeTotal(old(w), order)
    {
      hide Ok, SamePayloads, SameHeaders, FreeTotal, Owned, Covered, Size, SetSizes;
      ghost var m0, w0, k := mem, w, size / 8;
      ghost var base := if heapBase == NULL then |mem| else heapBase;
      if heapBase == NULL { EmptyOk(mem); }
      OkTiles(mem, freeListHead, base, w, order);
      LiveIsChunk(mem, w, order, live);
      NoChange(m0, freeListHead, base, w, order, {}, w.Keys);
      FewerPayloads(m0, m0, w, w.Keys, live.Keys);
      chunk := ExpandHeap(size, sbrkOk);
      if chunk == NULL { return; }
      GrowOk(m0, freeListHead, base, w, order, k, seq(k + 2, _ => 0));
      GrownPrefix(m0, k);
      w := w[chunk := k];
      SplitBounds(mem, freeListHead, heapBase, w, order, chunk);
      assert mem[chunk := Size(mem[chunk])] == mem;
      mem := mem[chunk := Size(mem[chunk])];
      HandedNew(m0, mem, base, freeListHead, w0, order, live, chunk, k, request);
      live := live[chunk := request];
    }

    /** mymalloc() in terms of the functions above. */
    method Serve(size: int, sbrkOk: bool) returns (ptr: Addr)
      requires Valid() && Request(size)
      modifies this
      ensures Valid() && InChunks(old(order), old(w)) && InChunks(order, w)
      ensures heapBase == if old(heapBase) == NULL then |old(mem)| else old(heapBase)
      ensures ptr != NULL ==> ptr - 1 !in old(live) && live == old(live)[ptr - 1 := size] && ptr - 1 in w
      ensures Handed(|old(mem)|, old(w), old(order), size, sbrkOk, ptr, |mem|, w, order)
      ensures ptr == NULL ==> mem == old(mem) && live == old(live)
      ensures SamePayloads(old(mem), mem, old(w), old(live).Keys) && SameHeaders(old(mem), mem, old(w), {ptr - 1})
      ensures forall n | n in w && n !in old(w) && n != ptr - 1 :: 0 <= n < |mem| && mem[n] == 8 * w[n] + FREE_FLAG
      ensures var taken := FirstFit(old(w), old(order), Align8(size)) < |old(order)|;
              FreeTotal(w, order)
              == FreeTotal(old(w), old(order)) - if taken then 8 * w[ptr - 1] + CHUNK_OVERHEAD else 0
      ensures FullyCoalesced(old(w), old(order)) ==> FullyCoalesced(w, order)
    {
      hide FullyCoalesced, FirstFit, Align8, Without, Ok, SameHeaders;
      hide Tiles, Stored, FreeList, SamePayloads, Owned, Covered, FreeTotal, TakenChunks, TakenOrder;
      Aligned(size);
      if heapBase != NULL { OkTiles(mem, freeListHead, heapBase, w, order); }
      var alignedSize := Align8(size);
      ghost var m0, w0 := mem, w;
      if heapBase != NULL { ChunksInMemory(mem, freeListHead, heapBase, w, order); }
      var chunk := FindFreeChunk(alignedSize);
      ghost var fit := FirstFit(w, order, alignedSize);
      if chunk != NULL {
        DistinctMembers(mem, freeListHead, heapBase, w, order);
        if FullyCoalesced(w, order) { TakenCoalesced(heapBase, |mem|, w, order, fit, alignedSize / 8); }
        TakeFromList(chunk, alignedSize, size, fit);
        OkTiles(mem, freeListHead, heapBase, w, order);
        RemainderFlagged(mem, w0, w, chunk, alignedSize / 8);
        return chunk + 1;
      }
      chunk := TakeFromBreak(alignedSize, size, sbrkOk);
      PrefixKeeps(m0, mem, w0, if chunk == NULL then -1 else chunk);
      if chunk == NULL { return NULL; }
      if FullyCoalesced(w0, order) { GrownCoalesced(w0, order, chunk, alignedSize / 8); }
      return chunk + 1;
    }

    /** mymalloc(): the first chunk of the free list, at position `fit`, that is large enough for the size rounded
        up to a multiple of 8, cut down if 48 bytes or more are left over; otherwise a new chunk at the break, and
        NULL only if sbrk() fails. No other header changes, and no payload that the client holds (HeadersAre and
        PayloadsAre above). */
    method Malloc(size: int, sbrkOk: bool) returns (ptr: Addr, ghost fit: nat)
      requires Valid() && Request(size)
      modifies this
      ensures Valid() && InChunks(old(order), old(w)) && InChunks(order, w)
      ensures heapBase == if old(heapBase) == NULL then |old(mem)| else old(heapBase)
      ensures if ptr == 0 then mem == old(mem) && live == old(live)
              else ptr - 1 !in old(live) && live == old(live)[ptr - 1 := size] && ptr - 1 in w
      ensures fit <= |old(order)| && forall j | 0 <= j < fit :: 8 * old(w)[old(order)[j]] < (size + 7) / 8 * 8
      ensures fit < |old(order)| ==>
                var a, c := (size + 7) / 8 * 8, old(order)[fit];
                var n := c + a / 8 + 2;
                && 8 * old(w)[c] >= a && ptr == c + 1 && |mem| == |old(mem)|
                && if 8 * old(w)[c] >= a + 48
                   then && w == old(w)[c := a / 8][n := old(w)[c] - a / 8 - 2]
                        && order == [n] + (old(order)[..fit] + old(order)[fit + 1..])
                        && 0 <= n < |mem| && mem[n] == 8 * w[n] + 1
                   else w == old(w) && order == old(order)[..fit] + old(order)[fit + 1..]
      ensures fit == |old(order)| ==>
                var a := (size + 7) / 8 * 8;
                && order == old(order)
                && if sbrkOk
                   then ptr == |old(mem)| + 1 && |mem| == |old(mem)| + a / 8 + 2 && w == old(w)[|old(mem)| := a / 8]
                   else ptr == 0 && w == old(w)
      ensures ptr != 0 ==> 0 < ptr <= |mem| && mem[ptr - 1] == 8 * w[ptr - 1]
      ensures SameHeaders(old(mem), mem, old(w), {ptr - 1}) && SamePayloads(old(mem), mem, old(w), old(live).Keys)
      ensures FreeTotal(w, order)
              == FreeTotal(old(w), old(order)) - if fit < |old(order)| then 8 * w[ptr - 1] + 16 else 0
      ensures FullyCoalesced(old(w), old(order)) ==> FullyCoalesced(w, order)
    {
      hide FullyCoalesced, FirstFit, Align8, Without, Ok, SameHeaders, Handed;
      hide Tiles, Stored, FreeList, SamePayloads, Owned, Covered, FreeTotal, TakenChunks, TakenOrder;
      ghost var m0, w0, o0 := mem, w, order;
      if heapBase != NULL { OkTiles(mem, freeListHead, heapBase, w, order); }
      fit := FitFor(w, order, size);
      if heapBase != NULL { CutIsNew(mem, freeListHead, heapBase, w, order, size, fit); }
      ptr := Serve(size, sbrkOk);
      ServedIs(w0, o0, size, sbrkOk, ptr, |m0|, mem, w, order, fit);
      if ptr != NULL { HeldUnflagged(mem, w, order, live, ptr - 1); }
    }

    /** The word at `a`; beyond the program break there is no chunk, and the word reads as not free. */
    function ReadWord(a: Addr): int
      requires 0 <= a
      reads this
    {
      if a < |mem| then mem[a] else 0
    }

    /** The first half of coalesce(): a free chunk right behind `chunk` is absorbed. */
    method AbsorbNext(chunk: Addr)
      requires Valid() && chunk in order && InChunks(order, w) && chunk in w
      modifies this`mem, this`freeListHead, this`order, this`w
      ensures Valid() && |mem| == |old(mem)| && chunk in order && InChunks(order, w) && chunk in w
      ensures var n := End(old(w), chunk);
              if n in old(w) && n < |old(mem)| && IsFree(old(mem)[n])
              then w == Merged(old(w), chunk, n) && order == Minus(old(order), {n}) && mem[chunk] == 8 * w[chunk]
              else w == old(w) && order == old(order) && mem == old(mem)
      ensures SameHeaders(old(mem), mem, w, {chunk})
      ensures SamePayloads(old(mem), mem, old(w), live.Keys)
      ensures forall x | x in live :: x in old(w) && x in w && w[x] == old(w)[x]
      ensures FreeTotal(w, order) == FreeTotal(old(w), old(order))
    {
      hide Ok, SamePayloads, SameHeaders, FreeTotal, Owned, Covered, Merged;
      ghost var m0 := mem;
      SplitBounds(mem, freeListHead, heapBase, w, order, chunk);
      NextChunk(mem, freeListHead, heapBase, w, order, live, chunk);
      var next := chunk + Size(mem[chunk]) / 8 + 2;
      LiveIsChunk(mem, w, order, live);
      if IsFree(ReadWord(next)) {
        ghost var i :| 0 <= i < |order| && order[i] == next;
        MergeNext(chunk, next, i);
      } else {
        NoChange(m0, freeListHead, heapBase, w, order, {chunk}, live.Keys);
      }
    }

    method GetPrevChunk(chunk: Addr) returns (prev: Addr)
      requires heapBase != NULL && Valid() && chunk in w
      ensures prev == NULL ==> chunk == heapBase && forall x | x in w :: End(w, x) != chunk
      ensures prev != NULL ==> prev in w && End(w, prev) == chunk && prev != chunk
    {
      hide Ok, Owned, Covered;
      ghost var p := Preceding(mem, freeListHead, heapBase, w, order, chunk);
      var footer := chunk - 1;
      if footer < heapBase { return NULL; }
      return chunk - Size(mem[footer]) / 8 - 2;
    }

    /** The second half of coalesce(): a free chunk right in front absorbs `chunk`. `prev` is that chunk,
        whether free or not. */
    method AbsorbIntoPrev(chunk: Addr) returns (ghost prev: Addr)
      requires heapBase != NULL && Valid() && chunk in order && InChunks(order, w) && chunk in w
      modifies this`mem, this`freeListHead, this`order, this`w
      ensures Valid() && |mem| == |old(mem)| && InChunks(order, w)
      ensures prev == NULL ==> forall x | x in old(w) :: End(old(w), x) != chunk
      ensures prev != NULL ==> prev in old(w) && End(old(w), prev) == chunk && 0 <= prev < |old(mem)|
      ensures if prev != NULL && IsFree(old(mem)[prev])
              then w == Merged(old(w), prev, chunk) && order == Minus(old(order), {chunk}) && prev in order
                   && prev in w && mem[prev] == 8 * w[prev]
              else w == old(w) && order == old(order) && mem == old(mem)
      ensures SameHeaders(old(mem), mem, w, {prev})
      ensures SamePayloads(old(mem), mem, old(w), live.Keys)
      ensures FreeTotal(w, order) == FreeTotal(old(w), old(order))
    {
      hide Ok, SamePayloads, SameHeaders, FreeTotal, Owned, Covered, Merged;
      ghost var m0 := mem;
      var prevChunk := GetPrevChunk(chunk);
      prev := prevChunk;
      NoChange(m0, freeListHead, heapBase, w, order, {prev}, live.Keys);
      if prevChunk != NULL {
        SplitBounds(mem, freeListHead, heapBase, w, order, prevChunk);
        FlaggedInList(mem, freeListHead, heapBase, w, order, live, prevChunk);
        if IsFree(mem[prevChunk]) {
          ghost var i :| 0 <= i < |order| && order[i] == chunk;
          MergeNext(prevChunk, chunk, i);
        }
      }
    }

    /** coalesce() of a chunk that is on the list: it absorbs the chunk behind it if that one carries the FREE
        bit, and is absorbed by the chunk in front of it if that one does. */
    method Coalesce(chunk: Addr) returns (ghost prev: Addr)
      requires heapBase != NULL && Valid() && chunk in order && InChunks(order, w) && chunk in w
      modifies this`mem, this`freeListHead, this`order, this`w
      ensures Valid() && |mem| == |old(mem)| && InChunks(order, w)
      ensures PrecededBy(old(w), chunk, prev)
      ensures w == Coalesced(old(mem), old(w), chunk, prev)
      ensures order == Minus(old(order), Absorbed(old(mem), old(w), chunk, prev))
      ensures if Absorbed(old(mem), old(w), chunk, prev) == {} then mem == old(mem)
              else UnflaggedAt(mem, w, Keeper(old(mem), old(w), chunk, prev))
      ensures SameHeaders(old(mem), mem, w, {Keeper(old(mem), old(w), chunk, prev)})
      ensures SamePayloads(old(mem), mem, old(w), live.Keys)
      ensures FreeTotal(w, order) == FreeTotal(old(w), old(order))
    {
      hide Ok, SamePayloads, SameHeaders, FreeTotal, Owned, Covered, Merged, ToSet, Minus, Tiles;
      ghost var m0, w0, o0 := mem, w, order;
      OkTiles(mem, freeListHead, heapBase, w, order);
      AbsorbNext(chunk);
      ghost var m1, w1, o1 := mem, w, order;
      prev := AbsorbIntoPrev(chunk);
      NeighboursKept(m0, m1, heapBase, w0, w1, chunk, prev);
      HeadersKept(m0, m1, mem, heapBase, w0, w1, chunk, prev);
      ComposePayloads(m0, m1, mem, w0, w1, live.Keys);
      MinusAbsorbed(m0, w0, o0, chunk, prev);
    }

    /** myfree() of NULL or of a pointer that mymalloc() returned and that has not been freed since. `prev` is
        the chunk in front, whether free or not. A merged chunk is left without the FREE bit: it is on the
        list, but will not be absorbed by a neighbour that is freed later. FreedIs and FreedKeeps below have this
        in numbers. */
    method Free(ptr: Addr) returns (ghost prev: Addr)
      requires Valid() && (ptr == NULL || ptr - 1 in live)
      modifies this
      ensures Valid() && |mem| == |old(mem)| && heapBase == old(heapBase)
      ensures InChunks(order, w) && InChunks(old(order), old(w))
      ensures ptr == 0 ==> mem == old(mem) && w == old(w) && order == old(order) && live == old(live)
      ensures ptr != 0 ==>
                var c := ptr - 1;
                && c in old(w) && live == old(live) - {c} && heapBase != 0
                && PrecededBy(old(w), c, prev) && w == Coalesced(old(mem), old(w), c, prev)
                && order == Minus([c] + old(order), Absorbed(old(mem), old(w), c, prev))
                && FlaggedUnlessMerged(old(mem), old(w), c, prev, mem)
                && SameHeaders(old(mem), mem, w, {Keeper(old(mem), old(w), c, prev)})
                && FreeTotal(w, order) == FreeTotal(old(w), old(order)) + 8 * old(w)[c] + 16
                && SamePayloads(old(mem), mem, old(w), live.Keys)
      ensures ptr != 0 && FullyCoalesced(old(w), old(order)) ==>
                (FullyCoalesced(w, order) <==> NeighboursFlagged(old(mem), old(w), old(order), ptr - 1, prev))
    {
      hide FullyCoalesced, NeighboursFlagged, Tiles, CarriesFree;
      hide Ok, SamePayloads, SameHeaders, FreeTotal, Owned, Covered, Merged;
      hide ToSet, Linked, Keeper, Absorbed, Coalesced, UnflaggedAt, FlaggedUnlessMerged, Minus;
      prev := NULL;
      if heapBase != NULL { OkTiles(mem, freeListHead, heapBase, w, order); }
      if ptr == NULL { return; }
      var chunk := ptr - 1;
      ghost var m0, w0, o0 := mem, w, order;
      LiveIsChunk(mem, w, order, live);
      FlaggedListed(mem, freeListHead, heapBase, w, order, live, chunk);
      ReleasedOk(mem, freeListHead, heapBase, w, order, live, chunk);
      mem := mem[chunk := Size(mem[chunk]) + FREE_FLAG];
      AddToFreeList(chunk);
      order := [chunk] + order;
      live := live - {chunk};
      ghost var m1 := mem;
      prev := Coalesce(chunk);
      FlagsKept(m0, m1, heapBase, w0, chunk, prev);
      FlagHeaders(m0, m1, mem, heapBase, w0, w, chunk, prev);
      if FullyCoalesced(w0, o0) { CoalescesIff(m0, heapBase, |m0|, w0, o0, chunk, prev); }
      Flagging(m0, m1, w0, chunk, prev, mem, w);
      ComposePayloads(m0, m1, mem, w0, w0, live.Keys);
    }

    /** The client writes one word of a block it holds. */
    method ClientWrite(ptr: Addr, offset: nat, value: int)
      requires Valid() && ptr - 1 in live && 8 * offset + 8 <= live[ptr - 1]
      modifies this`mem
      ensures Valid() && 0 <= ptr + offset < |old(mem)| && mem == old(mem)[ptr + offset := value]
    {
      var c := ptr - 1;
      OkTiles(mem, freeListHead, heapBase, w, order);
      ghost var m0 := mem;
      assert c in w;
      mem := mem[ptr + offset := value];
      ClientWriteOk(m0, mem, freeListHead, heapBase, w, order, live, c, ptr + offset);
    }

    /** `next` leaves the list and becomes part of `chunk`. */
    method MergeNext(chunk: Addr, next: Addr, ghost i: nat)
      requires heapBase != NULL && Valid() && chunk in order && InChunks(order, w) && chunk in w
      requires next in w && End(w, chunk) == next && i < |order| && order[i] == next
      modifies this`mem, this`freeListHead, this`order, this`w
      ensures Valid() && |mem| == |old(mem)| && chunk in order && InChunks(order, w) && chunk in w
      ensures w == Merged(old(w), chunk, next) && order == Minus(old(order), {next})
      ensures chunk < |mem| && mem[chunk] == 8 * w[chunk]
      ensures SameHeaders(old(mem), mem, w, {chunk}) && SamePayloads(old(mem), mem, old(w), live.Keys)
      ensures forall x | x in live :: x in old(w) && x in w && w[x] == old(w)[x]
      ensures FreeTotal(w, order) == FreeTotal(old(w), old(order))
    {
      hide Ok, SamePayloads, SameHeaders, FreeTotal, Owned, Covered, Merged, ToSet, Without, Unlinked, SetSizes, Size;
      MergeNextOk(mem, freeListHead, heapBase, w, order, live, chunk, next, i);
      RemoveFromFreeList(next);
      SetChunkSizeHeaders(chunk, Size(mem[chunk]) + CHUNK_OVERHEAD + Size(mem[next]), w[chunk] + 2 + w[next]);
      w := Merged(w, chunk, next);
      order := Without(order, i);
    }
  }

  /** Everything MergeNext leaves behind: `next`, at position `i` of the list, has been unlinked and merged. */
  lemma MergeNextOk(mem: seq<int>, head: Addr, base: Addr, w: Chunks, order: seq<Addr>, live: map<Addr, int>,
                    c: Addr, n: Addr, i: nat)
    requires Ok(mem, head, base, w, order) && Owned(mem, w, order, live) && Covered(w, order, live)
    requires c in order && c in w && n in w && End(w, c) == n && i < |order| && order[i] == n
    ensures 0 <= n && n + 2 < |mem| && 0 <= mem[n + 1] && mem[n + 1] + 2 < |mem| && 0 <= mem[n + 2]
    ensures mem[n + 2] + 1 < |mem|
    ensures mem[n + 1] != NULL ==> mem[n + 1] + 2 != n + 1
    ensures var m1 := Unlinked(mem, n);
            var k := w[c] + 2 + w[n];
            && |m1| == |mem| && 0 < c < |mem| && Size(m1[c]) == 8 * w[c] && Size(m1[n]) == 8 * w[n]
            && w[c] >= 2 && w[n] >= 2 && c + k + 1 < |mem|
            && var m2 := SetSizes(m1, c, k);
            var w2 := Merged(w, c, n);
            var order2 := Without(order, i);
            && |m2| == |mem| && Ok(m2, if mem[n + 1] == NULL then mem[n + 2] else head, base, w2, order2)
            && Owned(m2, w2, order2, live) && Covered(w2, order2, live)
            && c in order2 && c in w2 && InChunks(order2, w2) && m2[c] == 8 * w2[c]
            && order2 == Minus(order, {n})
            && SameHeaders(mem, m2, w2, {c}) && SamePayloads(mem, m2, w, live.Keys)
            && (forall x | x in live :: x in w && x in w2 && w2[x] == w[x])
            && FreeTotal(w2, order2) == FreeTotal(w, order)
  {
    hide Ok, SamePayloads, SameHeaders, FreeTotal, Owned, Covered;
    hide Merged, ToSet, Without, Unlinked, Minus, SetSizes, Size;
    ListMember(mem, head, base, w, order, live, i);
    WithoutMembers(order, i);
    WithoutIsMinus(order, i);
    DetachOk(mem, head, base, w, order, i);
    DistinctMembers(mem, head, base, w, order);
    var m1 := Unlinked(mem, n);
    var head1 := if mem[n + 1] == NULL then mem[n + 2] else head;
    var order1 := Without(order, i);
    DistinctMembers(m1, head1, base, w, order1);
    SplitBounds(m1, head1, base, w, order1, c);
    SplitBounds(m1, head1, base, w, order1, n);
    MergeOk(m1, head1, base, w, order1, c, n);
    AbsorbFrames(mem, m1, SetSizes(m1, c, w[c] + 2 + w[n]), w, order, order1, live, c, n);
    AbsorbTotal(w, order1, c, n);
    MergedSize(w, c, n);
  }

  lemma MergedSize(w: Chunks, c: Addr, n: Addr)
    requires c in w && n in w && c != n
    ensures c in Merged(w, c, n) && Merged(w, c, n)[c] == w[c] + 2 + w[n]
  {
  }

  lemma MemberLinks(mem: seq<int>, head: Addr, base: Addr, w: Chunks, order: seq<Addr>, i: nat)
    requires Ok(mem, head, base, w, order) && i < |order|
    ensures var c := order[i];
            && c in w && 0 <= c && c + 2 < |mem|
            && 0 <= mem[c + 1] && mem[c + 1] + 2 < |mem| && 0 <= mem[c + 2] && mem[c + 2] + 1 < |mem|
            && (mem[c + 1] != NULL ==> mem[c + 1] + 2 != c + 1)
  {
    assert Links(mem, order, i);
    if i > 0 { LinksApart(w, base, |mem|, order[i], order[i - 1]); }
  }

  lemma DetachOk(mem: seq<int>, head: Addr, base: Addr, w: Chunks, order: seq<Addr>, i: nat)
    requires Ok(mem, head, base, w, order) && i < |order|
    ensures var c := order[i];
            && 0 <= c && c + 2 < |mem|
            && 0 <= mem[c + 1] && mem[c + 1] + 2 < |mem| && 0 <= mem[c + 2] && mem[c + 2] + 1 < |mem|
            && (mem[c + 1] != NULL ==> mem[c + 1] + 2 != c + 1)
            && var mem' := Unlinked(mem, c);
            && Ok(mem', if mem[c + 1] == NULL then mem[c + 2] else head, base, w, Without(order, i))
            && |mem'| == |mem| && SameHeaders(mem, mem', w, {})
            && SamePayloads(mem, mem', w, w.Keys - ToSet(order))
            && c in w && InChunks(Without(order, i), w)
            && FreeTotal(w, Without(order, i)) == FreeTotal(w, order) - 8 * w[c] - CHUNK_OVERHEAD
  {
    hide Tiles, Stored, SameHeaders, SamePayloads, FreeTotal, Without, ToSet;
    OkParts(mem, head, base, w, order);
    RemoveOk(mem, head, base, w, order, i);
    TotalWithout(w, order, i);
    MemberLinks(mem, head, base, w, order, i);
  }

  lemma FlaggedInList(mem: seq<int>, head: Addr, base: Addr, w: Chunks, order: seq<Addr>, live: map<Addr, int>, c: Addr)
    requires Ok(mem, head, base, w, order) && Owned(mem, w, order, live) && Covered(w, order, live) && c in w
    ensures 0 <= c < |mem| && (IsFree(mem[c]) ==> c in order)
  {
    assert StoredAt(mem, c, w[c]);
  }

  lemma FlaggedListed(mem: seq<int>, head: Addr, base: Addr, w: Chunks, order: seq<Addr>, live: map<Addr, int>, c: Addr)
    requires Ok(mem, head, base, w, order) && Owned(mem, w, order, live) && Covered(w, order, live) && c in live
    ensures c !in order && forall y | y in w && CarriesFree(mem, w, y) :: y in order
  {
    forall y | y in w && CarriesFree(mem, w, y) ensures y in order {
      FlaggedInList(mem, head, base, w, order, live, y);
    }
  }

  lemma DistinctMembers(mem: seq<int>, head: Addr, base: Addr, w: Chunks, order: seq<Addr>)
    requires Ok(mem, head, base, w, order)
    ensures InChunks(order, w) && forall a, b | 0 <= a < b < |order| :: order[a] != order[b]
  {
  }

  /** `prev` is the chunk that ends where `c` starts, NULL if there is none. */
  ghost predicate PrecededBy(w: Chunks, c: Addr, prev: Addr) {
    if prev == NULL then forall x | x in w :: End(w, x) != c else prev in w && End(w, prev) == c
  }

  predicate CarriesFree(mem: seq<int>, w: Chunks, c: Addr) {
    c in w && 0 <= c < |mem| && IsFree(mem[c])
  }

  /** The chunks that disappear when `c` is coalesced. */
  function Absorbed(mem: seq<int>, w: Chunks, c: Addr, prev: Addr): set<Addr>
    requires c in w
  {
    (if CarriesFree(mem, w, End(w, c)) then {End(w, c)} else {}) + (if CarriesFree(mem, w, prev) then {c} else {})
  }

  /** The chunk that `c` belongs to afterwards. */
  function Keeper(mem: seq<int>, w: Chunks, c: Addr, prev: Addr): Addr {
    if CarriesFree(mem, w, prev) then prev else c
  }

  lemma KeeperIs(mem: seq<int>, w: Chunks, c: Addr, prev: Addr)
    requires c in w
    ensures CarriesFree(mem, w, prev) <==> prev in w && 0 <= prev < |mem| && mem[prev] % 2 == 1
    ensures var n := c + w[c] + 2;
            End(w, c) == n && (CarriesFree(mem, w, n) <==> n in w && 0 <= n < |mem| && mem[n] % 2 == 1)
    ensures Keeper(mem, w, c, prev) == if CarriesFree(mem, w, prev) then prev else c
  {
  }

  lemma PrecededIs(w: Chunks, c: Addr, prev: Addr)
    requires PrecededBy(w, c, prev)
    ensures if prev == 0 then forall x | x in w :: x + w[x] + 2 != c else prev in w && prev + w[prev] + 2 == c
  {
  }

  /** Where a chunk with the FREE bit is on the list. */
  lemma Position(mem: seq<int>, w: Chunks, order: seq<Addr>, n: Addr) returns (i: nat)
    requires forall y | y in w && CarriesFree(mem, w, y) :: y in order
    ensures CarriesFree(mem, w, n) ==> i < |order| && order[i] == n
  {
    i := 0;
    if CarriesFree(mem, w, n) { i :| i < |order| && order[i] == n; }
  }

  predicate UnflaggedAt(mem: seq<int>, w: Chunks, c: Addr) {
    c in w && 0 <= c < |mem| && mem[c] == 8 * w[c]
  }

  /** After freeing `c`, the chunk it belongs to carries the FREE bit exactly if nothing was merged. */
  predicate FlaggedUnlessMerged(mem: seq<int>, w: Chunks, c: Addr, prev: Addr, mem': seq<int>)
    requires c in w
  {
    var keeper := Keeper(mem, w, c, prev);
    0 <= keeper < |mem'| && (IsFree(mem'[keeper]) <==> Absorbed(mem, w, c, prev) == {})
  }

  lemma Flagging(m0: seq<int>, m1: seq<int>, w0: Chunks, c: Addr, prev: Addr, m2: seq<int>, w2: Chunks)
    requires c in w0 && Absorbed(m1, w0, c, prev) == Absorbed(m0, w0, c, prev)
    requires Keeper(m1, w0, c, prev) == Keeper(m0, w0, c, prev)
    requires 0 <= c < |m1| && m1[c] == 8 * w0[c] + FREE_FLAG
    requires if Absorbed(m1, w0, c, prev) == {} then m2 == m1 else UnflaggedAt(m2, w2, Keeper(m1, w0, c, prev))
    ensures FlaggedUnlessMerged(m0, w0, c, prev, m2)
  {
    WordSize(m1[c], w0[c]);
    var keeper := Keeper(m0, w0, c, prev);
    if Absorbed(m0, w0, c, prev) == {} {
      assert c !in Absorbed(m0, w0, c, prev);
    } else {
      WordSize(m2[keeper], w2[keeper]);
    }
  }

  /** The chunks after coalescing `c` with the free ones of its neighbours. */
  function Coalesced(mem: seq<int>, w: Chunks, c: Addr, prev: Addr): Chunks
    requires c in w
  {
    var w1 := if CarriesFree(mem, w, End(w, c)) then Merged(w, c, End(w, c)) else w;
    if CarriesFree(mem, w, prev) && prev in w1 && c in w1 then Merged(w1, prev, c) else w1
  }

  lemma OkTiles(mem: seq<int>, head: Addr, base: Addr, w: Chunks, order: seq<Addr>)
    requires Ok(mem, head, base, w, order)
    ensures Tiles(w, base, |mem|) && InChunks(order, w)
  {
  }

  lemma LiveIsChunk(mem: seq<int>, w: Chunks, order: seq<Addr>, live: map<Addr, int>)
    requires Owned(mem, w, order, live)
    ensures forall x | x in live :: x in w
  {
  }

  /** Absorbing the chunk behind `c` does not change what is in front of `c`. */
  lemma NeighboursKept(m0: seq<int>, m1: seq<int>, base: Addr, w0: Chunks, w1: Chunks, c: Addr, prev: Addr)
    requires Tiles(w0, base, |m0|) && c in w0 && |m1| == |m0|
    requires w1 == if CarriesFree(m0, w0, End(w0, c)) then Merged(w0, c, End(w0, c)) else w0
    requires SameHeaders(m0, m1, w1, {c})
    requires PrecededBy(w1, c, prev)
    ensures c in w1 && NULL !in w0 && PrecededBy(w0, c, prev)
    ensures prev != NULL ==> prev in w1 && 0 <= prev < |m0| && m1[prev] == m0[prev]
  {
    if w1 != w0 { MergedEntries(w0, c, End(w0, c)); }
  }

  /** Of the headers that are left, coalescing changes only that of the chunk that `c` belongs to afterwards. */
  lemma HeadersKept(m0: seq<int>, m1: seq<int>, m2: seq<int>, base: Addr, w0: Chunks, w1: Chunks, c: Addr, prev: Addr)
    requires Tiles(w0, base, |m0|) && c in w0 && |m1| == |m0| == |m2| && PrecededBy(w0, c, prev)
    requires w1 == if CarriesFree(m0, w0, End(w0, c)) then Merged(w0, c, End(w0, c)) else w0
    requires SameHeaders(m0, m1, w1, {c}) && c in w1
    requires prev != NULL ==> prev in w1 && 0 <= prev < |m0| && m1[prev] == m0[prev]
    requires if prev != NULL && IsFree(m1[prev]) then SameHeaders(m1, m2, Merged(w1, prev, c), {prev}) else m2 == m1
    ensures SameHeaders(m0, m2, Coalesced(m0, w0, c, prev), {Keeper(m0, w0, c, prev)})
  {
    assert NULL !in w0;
  }

  /** myfree() up to coalesce(): the chunk carries the FREE bit and heads the list. */
  lemma ReleasedOk(mem: seq<int>, head: Addr, base: Addr, w: Chunks, order: seq<Addr>, live: map<Addr, int>, c: Addr)
    requires Ok(mem, head, base, w, order) && Owned(mem, w, order, live) && Covered(w, order, live) && c in live
    ensures c in w && 0 < c && c + 2 < |mem| && 0 <= head && head + 1 < |mem| && Size(mem[c]) == 8 * w[c]
    ensures InChunks(order, w) && InChunks([c] + order, w) && c in [c] + order
    ensures var m1 := Linked(mem[c := 8 * w[c] + FREE_FLAG], head, c);
            && |m1| == |mem| && Ok(m1, c, base, w, [c] + order) && Tiles(w, base, |mem|)
            && Owned(m1, w, [c] + order, live - {c}) && Covered(w, [c] + order, live - {c})
            && SameHeaders(mem, m1, w, {c}) && SamePayloads(mem, m1, w, (live - {c}).Keys)
            && ToSet([c] + order) == ToSet(order) + {c} && m1[c] == 8 * w[c] + FREE_FLAG
            && FreeTotal(w, [c] + order) == FreeTotal(w, order) + 8 * w[c] + CHUNK_OVERHEAD
  {
    SplitBounds(mem, head, base, w, order, c);
    FlagOk(mem, head, base, w, order, c, 8 * w[c] + FREE_FLAG);
    var flagged := mem[c := 8 * w[c] + FREE_FLAG];
    AddOk(flagged, head, base, w, order, c);
    var m1 := Linked(flagged, head, c);
    assert ([c] + order)[1..] == order;
    FewerPayloads(mem, flagged, w, w.Keys, (live - {c}).Keys);
    FewerPayloads(flagged, m1, w, w.Keys - ToSet([c] + order), (live - {c}).Keys);
    ComposePayloads(mem, flagged, m1, w, w, (live - {c}).Keys);
    ComposeHeaders(mem, flagged, m1, w, w, {c});
    assert forall x | x in live - {c} :: m1[x] == mem[x];
    assert m1[c] == flagged[c];
  }

  /** Freeing `c` does not touch the FREE bits of its neighbours. */
  lemma FlagsKept(m0: seq<int>, m1: seq<int>, base: Addr, w: Chunks, c: Addr, prev: Addr)
    requires Tiles(w, base, |m0|) && c in w && |m1| == |m0| && SameHeaders(m0, m1, w, {c}) && PrecededBy(w, c, prev)
    ensures Coalesced(m1, w, c, prev) == Coalesced(m0, w, c, prev)
    ensures Absorbed(m1, w, c, prev) == Absorbed(m0, w, c, prev) && Keeper(m1, w, c, prev) == Keeper(m0, w, c, prev)
  {
    assert NULL !in w;
    assert CarriesFree(m1, w, End(w, c)) == CarriesFree(m0, w, End(w, c));
    assert CarriesFree(m1, w, prev) == CarriesFree(m0, w, prev);
  }

  lemma FlagHeaders(m0: seq<int>, m1: seq<int>, m2: seq<int>, base: Addr, w0: Chunks, w: Chunks, c: Addr, prev: Addr)
    requires Tiles(w0, base, |m0|) && c in w0 && PrecededBy(w0, c, prev) && |m1| == |m0| == |m2|
    requires w == Coalesced(m0, w0, c, prev)
    requires SameHeaders(m0, m1, w0, {c}) && SameHeaders(m1, m2, w, {Keeper(m0, w0, c, prev)})
    ensures SameHeaders(m0, m2, w, {Keeper(m0, w0, c, prev)})
  {
    BehindChunk(w0, base, |m0|, c, prev);
  }

  /** What is known when myfree() is called for the chunk `c`. */
  lemma FreeParts(mem: seq<int>, head: Addr, base: Addr, w: Chunks, order: seq<Addr>, live: map<Addr, int>, c: Addr)
    requires Ok(mem, head, base, w, order) && Owned(mem, w, order, live) && Covered(w, order, live) && c in live
    ensures Tiles(w, base, |mem|) && InChunks(order, w) && c in w && c !in order
    ensures forall y | y in w && CarriesFree(mem, w, y) :: y in order
    ensures forall a, b | 0 <= a < b < |order| :: order[a] != order[b]
  {
    FlaggedListed(mem, head, base, w, order, live, c);
  }

  lemma FreedChunks(mem: seq<int>, base: Addr, brk: Addr, w: Chunks, c: Addr, prev: Addr)
    requires Tiles(w, base, brk) && c in w && PrecededBy(w, c, prev)
    ensures var n, w' := End(w, c), Coalesced(mem, w, c, prev);
            var behind, front := CarriesFree(mem, w, n), CarriesFree(mem, w, prev);
            && (behind ==> n in w) && (front ==> prev in w) && Keeper(mem, w, c, prev) in w'
            && w' == if behind && front then w[prev := w[prev] + 2 + (w[c] + 2 + w[n])] - {n, c}
                     else if behind then w[c := w[c] + 2 + w[n]] - {n}
                     else if front then w[prev := w[prev] + 2 + w[c]] - {c}
                     else w
  {
    hide Tiles;
    BehindChunk(w, base, brk, c, prev);
    var n := End(w, c);
    if CarriesFree(mem, w, n) { MergedEntries(w, c, n); }
    var w1 := if CarriesFree(mem, w, n) then Merged(w, c, n) else w;
    if CarriesFree(mem, w, prev) { MergedEntries(w1, prev, c); }
  }

  lemma ListWithout(order: seq<Addr>, c: Addr, i: nat)
    requires i < |order| && c !in order && forall a, b | 0 <= a < b < |order| :: order[a] != order[b]
    ensures Minus([c] + order, {order[i]}) == [c] + (order[..i] + order[i + 1..])
  {
    WithoutIsMinus([c] + order, i + 1);
    assert Without([c] + order, i + 1) == [c] + (order[..i] + order[i + 1..]);
  }

  lemma HeadOff(c: Addr, rest: seq<Addr>)
    requires c !in rest
    ensures Minus([c] + rest, {c}) == rest
  {
    MinusNothing(rest, {c});
    assert ([c] + rest)[1..] == rest;
  }

  lemma FreedOrder(mem: seq<int>, w: Chunks, order: seq<Addr>, c: Addr, prev: Addr, i: nat)
    requires c in w && c !in order && forall a, b | 0 <= a < b < |order| :: order[a] != order[b]
    requires CarriesFree(mem, w, End(w, c)) ==> i < |order| && order[i] == End(w, c)
    ensures var first := if CarriesFree(mem, w, prev) then [] else [c];
            Minus([c] + order, Absorbed(mem, w, c, prev))
            == first + if CarriesFree(mem, w, End(w, c)) then order[..i] + order[i + 1..] else order
  {
    hide Minus, Absorbed, CarriesFree;
    MinusAbsorbed(mem, w, [c] + order, c, prev);
    if CarriesFree(mem, w, End(w, c)) {
      ListWithout(order, c, i);
      HeadOff(c, order[..i] + order[i + 1..]);
    } else {
      HeadOff(c, order);
    }
  }

  lemma FreedHeader(m0: seq<int>, w0: Chunks, c: Addr, prev: Addr, base: Addr, m1: seq<int>, head: Addr, w1: Chunks,
                    order: seq<Addr>)
    requires c in w0 && w1 == Coalesced(m0, w0, c, prev) && FlaggedUnlessMerged(m0, w0, c, prev, m1)
    requires Ok(m1, head, base, w1, order) && Keeper(m0, w0, c, prev) in w1
    ensures var n, f := c + w0[c] + 2, Keeper(m0, w0, c, prev);
            var merged := (n in w0 && 0 <= n < |m0| && m0[n] % 2 == 1)
                          || (prev in w0 && 0 <= prev < |m0| && m0[prev] % 2 == 1);
            0 <= f < |m1| && m1[f] == 8 * w1[f] + if merged then 0 else 1
  {
    var f := Keeper(m0, w0, c, prev);
    assert StoredAt(m1, f, w1[f]);
    WordSize(m1[f], w1[f]);
    assert c in {c} && End(w0, c) in {End(w0, c)};
  }

  /** What myfree() of the chunk `c` makes of chunks and list, in numbers. The chunk becomes one with the chunk
      behind it (`behind`; it has `kn` words and is at position `at` of the list) and with the chunk `prev` in
      front of it (`front`; it has `kp` words), each if its header carries the FREE bit. */
  lemma FreedIs(m0: seq<int>, head0: Addr, base: Addr, w0: Chunks, o0: seq<Addr>, live: map<Addr, int>, c: Addr,
                prev: Addr, w1: Chunks, o1: seq<Addr>)
      returns (behind: bool, front: bool, at: nat, kn: int, kp: int)
    requires Ok(m0, head0, base, w0, o0) && Owned(m0, w0, o0, live) && Covered(w0, o0, live) && c in live
    requires c in w0 && PrecededBy(w0, c, prev)
    requires w1 == Coalesced(m0, w0, c, prev) && o1 == Minus([c] + o0, Absorbed(m0, w0, c, prev))
    ensures if prev == 0 then forall x | x in w0 :: x + w0[x] + 2 != c else prev in w0 && prev + w0[prev] + 2 == c
    ensures var n := c + w0[c] + 2;
            && (behind <==> n in w0 && 0 <= n < |m0| && m0[n] % 2 == 1)
            && (front <==> prev in w0 && 0 <= prev < |m0| && m0[prev] % 2 == 1)
            && (behind ==> w0[n] == kn && at < |o0| && o0[at] == n) && (front ==> w0[prev] == kp)
            && w1 == if behind && front then w0[prev := kp + 2 + (w0[c] + 2 + kn)] - {n, c}
                     else if behind then w0[c := w0[c] + 2 + kn] - {n}
                     else if front then w0[prev := kp + 2 + w0[c]] - {c}
                     else w0
    ensures o1 == (if front then [] else [c]) + (if behind && at < |o0| then o0[..at] + o0[at + 1..] else o0)
  {
    hide Ok, Owned, Covered, Tiles, PrecededBy, Coalesced, Minus, Absorbed, Keeper, CarriesFree, End;
    FreeParts(m0, head0, base, w0, o0, live, c);
    at := Position(m0, w0, o0, End(w0, c));
    behind, front := CarriesFree(m0, w0, End(w0, c)), CarriesFree(m0, w0, prev);
    KeeperIs(m0, w0, c, prev);
    PrecededIs(w0, c, prev);
    FreedChunks(m0, base, |m0|, w0, c, prev);
    kn := if behind then w0[End(w0, c)] else 0;
    kp := if front then w0[prev] else 0;
    FreedOrder(m0, w0, o0, c, prev, at);
  }

  /** The resulting chunk carries the FREE bit only if nothing was merged. No other header changes, and no payload
      that the client holds. */
  lemma FreedKeeps(m0: seq<int>, head0: Addr, base: Addr, w0: Chunks, o0: seq<Addr>, live: map<Addr, int>, c: Addr,
                   prev: Addr, m1: seq<int>, head1: Addr, w1: Chunks, o1: seq<Addr>)
    requires Ok(m0, head0, base, w0, o0) && Owned(m0, w0, o0, live) && Covered(w0, o0, live) && c in live
    requires c in w0 && PrecededBy(w0, c, prev) && |m1| == |m0| && Ok(m1, head1, base, w1, o1)
    requires w1 == Coalesced(m0, w0, c, prev) && FlaggedUnlessMerged(m0, w0, c, prev, m1)
    requires SameHeaders(m0, m1, w1, {Keeper(m0, w0, c, prev)}) && SamePayloads(m0, m1, w0, (live - {c}).Keys)
    ensures var n := c + w0[c] + 2;
            var behind := n in w0 && 0 <= n < |m0| && m0[n] % 2 == 1;
            var front := prev in w0 && 0 <= prev < |m0| && m0[prev] % 2 == 1;
            var f := if front then prev else c;
            && f in w1 && 0 <= f < |m1| && m1[f] == 8 * w1[f] + (if behind || front then 0 else 1)
            && forall x | x in w1 && x != f :: 0 <= x < |m1| && m1[x] == m0[x]
    ensures forall x | x in live && x != c ::
              && x in w0 && 0 <= x + 1 <= x + 1 + w0[x] <= |m1|
              && m1[x + 1..x + 1 + w0[x]] == m0[x + 1..x + 1 + w0[x]]
  {
    hide Ok, SameHeaders, Tiles, PrecededBy, FlaggedUnlessMerged, Coalesced, Minus, Absorbed, Keeper, CarriesFree, End;
    hide Owned, Covered, SamePayloads;
    FreeParts(m0, head0, base, w0, o0, live, c);
    HeldSizes(m0, head0, base, w0, o0, live);
    KeeperIs(m0, w0, c, prev);
    FreedChunks(m0, base, |m0|, w0, c, prev);
    FreedHeader(m0, w0, c, prev, base, m1, head1, w1, o1);
    HeadersAre(m0, m1, w1, Keeper(m0, w0, c, prev));
    PayloadsAre(m0, m1, w0, live - {c});
  }

  lemma ClientWriteOk(m0: seq<int>, m1: seq<int>, head: Addr, base: Addr, w: Chunks, order: seq<Addr>,
                      live: map<Addr, int>, c: Addr, a: Addr)
    requires Ok(m0, head, base, w, order) && Owned(m0, w, order, live) && c in live && c in w
    requires c < a < End(w, c) - 1 && 0 <= a < |m0| && |m1| == |m0|
    requires forall x | 0 <= x < |m0| && x != a :: m1[x] == m0[x]
    ensures Ok(m1, head, base, w, order) && Owned(m1, w, order, live)
  {
    forall x | x in w ensures StoredAt(m1, x, w[x]) && m1[x] == m0[x] {
      assert StoredAt(m0, x, w[x]);
    }
    forall i | 0 <= i < |order| ensures order[i] + 1 != a && order[i] + 2 != a { assert order[i] != c; }
    ListFrame(m0, m1, head, order);
  }

  // ---------------------------------------------------------------- what the client can rely on

  /** The blocks the client holds lie inside the heap, are as large as requested, and do not overlap each
      other, the size words, or anything on the free list. */
  lemma LiveBlocks(mem: seq<int>, head: Addr, base: Addr, w: Chunks, order: seq<Addr>, live: map<Addr, int>, a: Addr)
    requires Ok(mem, head, base, w, order) && Owned(mem, w, order, live) && a in live
    ensures a in w && base <= a && a + w[a] + 2 <= |mem| && 8 * w[a] >= live[a] && a !in order
    ensures forall b | b in w && b != a :: a + w[a] + 2 <= b || b + w[b] + 2 <= a
    ensures forall i | 0 <= i < |order| :: order[i] in w && order[i] != a
  {
  }

  /** In memory, the chunks lie one behind the other from heap_base to the break, header and footer of each hold
      its size, their sizes and overheads add up to the heap, and a set FREE bit means that the chunk is on the
      list. */
  lemma HeapIsTiled(h: Heap) returns (cs: seq<Addr>)
    requires h.Valid() && h.heapBase != NULL
    ensures forall c :: c in h.w <==> c in cs
    ensures if cs == [] then h.heapBase == |h.mem| else cs[0] == h.heapBase
    ensures forall i | 0 <= i < |cs| ::
              var c := cs[i];
              && c in h.w && h.w[c] >= 2 && 0 < c
              && c + h.w[c] + 2 == (if i + 1 < |cs| then cs[i + 1] else |h.mem|) <= |h.mem|
              && h.mem[c] == 8 * h.w[c] + h.mem[c] % 2 && h.mem[c + h.w[c] + 1] == 8 * h.w[c]
              && (h.mem[c] % 2 == 1 ==> c in h.order)
    ensures InChunks(cs, h.w) && FreeTotal(h.w, cs) == 8 * (|h.mem| - h.heapBase)
  {
    hide Ok, Owned, Covered, FreeTotal, Tiles;
    OkTiles(h.mem, h.freeListHead, h.heapBase, h.w, h.order);
    cs := WholeWalk(h.w, h.heapBase, |h.mem|);
    forall i | 0 <= i < |cs|
      ensures var c := cs[i];
              && c in h.w && h.w[c] >= 2 && 0 < c && c + h.w[c] + 2 <= |h.mem|
              && h.mem[c] == 8 * h.w[c] + h.mem[c] % 2 && h.mem[c + h.w[c] + 1] == 8 * h.w[c]
              && (h.mem[c] % 2 == 1 ==> c in h.order)
    {
      InMemory(h.mem, h.freeListHead, h.heapBase, h.w, h.order, h.live, cs[i]);
    }
  }

  /** In memory, the free list runs forwards by the second payload words and backwards by the first ones. */
  lemma ListIsLinked(h: Heap)
    requires h.Valid()
    ensures h.freeListHead == if h.order == [] then 0 else h.order[0]
    ensures forall i, j | 0 <= i < j < |h.order| :: h.order[i] != h.order[j]
    ensures forall i | 0 <= i < |h.order| ::
              && 0 < h.order[i] && h.order[i] + 2 < |h.mem| && h.order[i] in h.w && h.order[i] !in h.live
              && h.mem[h.order[i] + 2] == (if i + 1 < |h.order| then h.order[i + 1] else 0)
              && h.mem[h.order[i] + 1] == (if i > 0 then h.order[i - 1] else 0)
  {
    forall i | 0 <= i < |h.order|
      ensures h.order[i] in h.w && h.order[i] !in h.live
      ensures h.mem[h.order[i] + 2] == if i + 1 < |h.order| then h.order[i + 1] else 0
      ensures h.mem[h.order[i] + 1] == if i > 0 then h.order[i - 1] else 0
    {
      assert h.order[i] in h.order && Links(h.mem, h.order, i);
    }
  }

  lemma InMemory(mem: seq<int>, head: Addr, base: Addr, w: Chunks, order: seq<Addr>, live: map<Addr, int>, c: Addr)
    requires Ok(mem, head, base, w, order) && Owned(mem, w, order, live) && Covered(w, order, live) && c in w
    ensures 0 < c && w[c] >= 2 && c + w[c] + 2 <= |mem|
    ensures mem[c] == 8 * w[c] + mem[c] % 2 && mem[c + w[c] + 1] == 8 * w[c] && (mem[c] % 2 == 1 ==> c in order)
  {
    assert StoredAt(mem, c, w[c]);
    SizeWord(mem, c, w[c]);
    FlaggedInList(mem, head, base, w, order, live, c);
  }

  /** A chunk can be put in front of any free list without damage to its own size words exactly when its
      payload holds two words, which is what requests of 9 bytes or more ensure. (With one word it survives
      only if the link that overwrites the footer happens to be the size, 8.) */
  lemma LinksFitIff(mem: seq<int>, head: Addr, c: Addr, k: int)
    requires StoredAt(mem, c, k) && k >= 1 && c + 2 < |mem|
    requires head == NULL || (0 < head && head + 1 < |mem| && !(c <= head + 1 <= c + k + 1))
    ensures StoredAt(Linked(mem, head, c), c, k) <==> k >= 2 || head == 8
    ensures forall size | size > 0 && Align8(size) == 8 * k :: k >= 2 <==> size >= 9
  {
    forall size | size > 0 && Align8(size) == 8 * k ensures k >= 2 <==> size >= 9 { }
  }

  // ---------------------------------------------------------------- coalescing

  /** No two chunks on the list are neighbours. */
  ghost predicate FullyCoalesced(w: Chunks, order: seq<Addr>) {
    forall c | c in order && c in w :: End(w, c) !in order
  }

  lemma GrownCoalesced(w: Chunks, order: seq<Addr>, c: Addr, k: int)
    requires InChunks(order, w) && c !in w && FullyCoalesced(w, order)
    ensures FullyCoalesced(w[c := k], order)
  {
  }

  lemma SplitCoalesced(base: Addr, brk: Addr, w: Chunks, rest: seq<Addr>, c: Addr, k: int)
    requires Tiles(w, base, brk) && InChunks(rest, w) && c in w && c !in rest && 0 <= k <= w[c] - 2
    requires FullyCoalesced(w, rest) && End(w, c) !in rest
    ensures FullyCoalesced(Split(w, c, k), [c + k + 2] + rest)
  {
    var n, w' := c + k + 2, Split(w, c, k);
    SplitEntries(w, c, k);
    forall x | x in rest ensures x in w && x != n && End(w, x) != n {
      assert Abuts(w, brk, x);
      assert c < n < End(w, c) <= brk;
      assert x <= c ==> End(w, x) <= c || x == c;
    }
    assert End(w', n) == End(w, c) != n;
  }

  /** Taking a chunk from the list, split or not, makes no two list chunks neighbours. */
  lemma TakenCoalesced(base: Addr, brk: Addr, w: Chunks, order: seq<Addr>, i: nat, k: int)
    requires Tiles(w, base, brk) && InChunks(order, w) && i < |order| && order[i] in w
    requires FullyCoalesced(w, order) && k >= 0
    requires forall a, b | 0 <= a < b < |order| :: order[a] != order[b]
    ensures FullyCoalesced(TakenChunks(w, order[i], k), TakenOrder(w, Without(order, i), order[i], k))
  {
    hide Tiles, Split, ToSet, Without;
    var c, rest := order[i], Without(order, i);
    WithoutMembers(order, i);
    InBoth(order, rest, {c});
    FewerCoalesced(w, order, rest);
    assert End(w, c) !in order;
    if Splits(w, c, k) {
      SplitCoalesced(base, brk, w, rest, c, k);
    }
  }

  lemma FewerCoalesced(w: Chunks, order: seq<Addr>, rest: seq<Addr>)
    requires InChunks(order, w) && FullyCoalesced(w, order) && forall x | x in rest :: x in order
    ensures FullyCoalesced(w, rest) && InChunks(rest, w)
  {
    forall i | 0 <= i < |rest| ensures rest[i] in w {
      var x := rest[i];
      assert x in rest;
      var j :| 0 <= j < |order| && order[j] == x;
    }
  }

  lemma InBoth(order: seq<Addr>, rest: seq<Addr>, but: set<Addr>)
    requires ToSet(rest) == ToSet(order) - but
    ensures forall x | x in rest :: x in order
  {
    forall x | x in rest ensures x in order { assert x in ToSet(rest); }
  }

  /** The neighbours of `c` that are on the list carry the FREE bit. */
  predicate NeighboursFlagged(mem: seq<int>, w: Chunks, order: seq<Addr>, c: Addr, prev: Addr)
    requires c in w
  {
    && (End(w, c) in order ==> CarriesFree(mem, w, End(w, c)))
    && (prev in order ==> CarriesFree(mem, w, prev))
  }

  lemma {:induction false} MinusMembers(order: seq<Addr>, gone: set<Addr>, x: Addr)
    ensures x in Minus(order, gone) <==> x in order && x !in gone
  {
    if order != [] {
      MinusMembers(order[1..], gone, x);
      assert order == [order[0]] + order[1..];
    }
  }

  /** Where a chunk that is still there ends after `c` has been freed. */
  function EndFreed(mem: seq<int>, w: Chunks, c: Addr, prev: Addr, x: Addr): Addr
    requires c in w
  {
    if x == Keeper(mem, w, c, prev) then (if CarriesFree(mem, w, End(w, c)) then End(w, End(w, c)) else End(w, c))
    else if x in w then End(w, x)
    else NULL
  }

  /** What freeing `c` makes of a chunk: `x` is on the list afterwards, and what comes behind it then. */
  lemma FreedNeighbours(mem: seq<int>, base: Addr, brk: Addr, w: Chunks, order: seq<Addr>, c: Addr, prev: Addr, x: Addr)
    requires Tiles(w, base, brk) && InChunks(order, w) && c in w && c !in order && PrecededBy(w, c, prev)
    requires forall y | y in w && CarriesFree(mem, w, y) :: y in order
    ensures var w' := Coalesced(mem, w, c, prev);
            var order' := Minus([c] + order, Absorbed(mem, w, c, prev));
            && (x in order' <==> (x == c || x in order) && x !in Absorbed(mem, w, c, prev))
            && (x in order' ==> x in w' && End(w', x) == EndFreed(mem, w, c, prev, x))
  {
    hide Tiles;
    MinusMembers([c] + order, Absorbed(mem, w, c, prev), x);
    BehindChunk(w, base, brk, c, prev);
    if x == c || x in order {
      if x in order { var i :| 0 <= i < |order| && order[i] == x; }
      if x !in Absorbed(mem, w, c, prev) { EndsFreed(mem, w, c, prev, x); }
    }
  }

  lemma BehindChunk(w: Chunks, base: Addr, brk: Addr, c: Addr, prev: Addr)
    requires Tiles(w, base, brk) && c in w && PrecededBy(w, c, prev)
    ensures NULL !in w && End(w, c) != c && prev != c && prev != End(w, c)
  {
  }

  lemma EndsFreed(mem: seq<int>, w: Chunks, c: Addr, prev: Addr, x: Addr)
    requires c in w && x in w && x !in Absorbed(mem, w, c, prev) && PrecededBy(w, c, prev)
    requires NULL !in w && End(w, c) != c && prev != c && prev != End(w, c)
    ensures x in Coalesced(mem, w, c, prev) && End(Coalesced(mem, w, c, prev), x) == EndFreed(mem, w, c, prev, x)
  {
    var n := End(w, c);
    if CarriesFree(mem, w, n) { MergedEntries(w, c, n); }
    var w1 := if CarriesFree(mem, w, n) then Merged(w, c, n) else w;
    if CarriesFree(mem, w, prev) { MergedEntries(w1, prev, c); }
  }

  /** Freeing a chunk leaves no two neighbours on the list, if there were none before, exactly if its neighbours
      on the list carry the FREE bit; the ones that do not have been merged before. */
  lemma CoalescesIff(mem: seq<int>, base: Addr, brk: Addr, w: Chunks, order: seq<Addr>, c: Addr, prev: Addr)
    requires Tiles(w, base, brk) && InChunks(order, w) && c in w && c !in order && PrecededBy(w, c, prev)
    requires (forall y | y in w && CarriesFree(mem, w, y) :: y in order) && FullyCoalesced(w, order)
    ensures FullyCoalesced(Coalesced(mem, w, c, prev), Minus([c] + order, Absorbed(mem, w, c, prev)))
            <==> NeighboursFlagged(mem, w, order, c, prev)
  {
    hide Coalesced, Minus;
    var w', order' := Coalesced(mem, w, c, prev), Minus([c] + order, Absorbed(mem, w, c, prev));
    var n, keeper := End(w, c), Keeper(mem, w, c, prev);
    FreedNeighbours(mem, base, brk, w, order, c, prev, keeper);
    FreedNeighbours(mem, base, brk, w, order, c, prev, n);
    FreedNeighbours(mem, base, brk, w, order, c, prev, c);
    FreedNeighbours(mem, base, brk, w, order, c, prev, prev);
    if NeighboursFlagged(mem, w, order, c, prev) {
      forall x | x in order' && x in w' ensures End(w', x) !in order' {
        FreedNeighbours(mem, base, brk, w, order, c, prev, x);
        FreedNeighbours(mem, base, brk, w, order, c, prev, End(w', x));
      }
    }
  }

  lemma MinusAbsorbed(mem: seq<int>, w: Chunks, order: seq<Addr>, c: Addr, prev: Addr)
    requires c in w
    ensures var o1 := if CarriesFree(mem, w, End(w, c)) then Minus(order, {End(w, c)}) else order;
            Minus(order, Absorbed(mem, w, c, prev)) == if CarriesFree(mem, w, prev) then Minus(o1, {c}) else o1
  {
    MinusNothing(order, {});
    MinusTwice(order, {End(w, c)}, {c});
    assert {} + {c} == {c} && {End(w, c)} + {} == {End(w, c)};
  }

  lemma Preceding(mem: seq<int>, head: Addr, base: Addr, w: Chunks, order: seq<Addr>, c: Addr) returns (p: Addr)
    requires Ok(mem, head, base, w, order) && c in w
    ensures 0 < base <= c < |mem|
    ensures c == base ==> forall x | x in w :: End(w, x) != c
    ensures c != base ==> p in w && 0 < p < c && End(w, p) == c && Size(mem[c - 1]) / 8 == w[p]
  {
    p := NULL;
    assert StoredAt(mem, c, w[c]);
    if c != base {
      p := FindPrev(w, base, |mem|, base, c);
      assert StoredAt(mem, p, w[p]);
      SizeWord(mem, p, w[p]);
    }
  }

  /** What coalesce() finds behind a free chunk. */
  lemma NextChunk(mem: seq<int>, head: Addr, base: Addr, w: Chunks, order: seq<Addr>, live: map<Addr, int>, c: Addr)
    requires Ok(mem, head, base, w, order) && Owned(mem, w, order, live) && Covered(w, order, live) && c in w
    requires c in order
    ensures 0 < End(w, c) <= |mem| && c !in live && c != End(w, c)
    ensures if End(w, c) == |mem| then End(w, c) !in w
            else End(w, c) in w && (IsFree(mem[End(w, c)]) ==> End(w, c) in order)
  {
    assert Abuts(w, |mem|, c);
  }

  /** Frames of a merge of `c` with its successor `n`, after `n` has left the list. */
  lemma AbsorbFrames(m0: seq<int>, m1: seq<int>, m2: seq<int>, w0: Chunks, o0: seq<Addr>, o1: seq<Addr>,
                     live: map<Addr, int>, c: Addr, n: Addr)
    requires Owned(m0, w0, o0, live) && Covered(w0, o0, live) && InChunks(o0, w0)
    requires c in w0 && n in w0 && c in o0 && n in o0 && c != n
    requires ToSet(o1) == ToSet(o0) - {n}
    requires |m0| <= |m1| <= |m2|
    requires SameHeaders(m0, m1, w0, {}) && SamePayloads(m0, m1, w0, w0.Keys - ToSet(o0))
    requires SameHeaders(m1, m2, w0, {c}) && SamePayloads(m1, m2, w0, w0.Keys)
    ensures var w2 := Merged(w0, c, n);
            && Owned(m2, w2, o1, live) && SameHeaders(m0, m2, w2, {c})
            && SamePayloads(m0, m2, w0, live.Keys)
            && Covered(w2, o1, live) && c in o1
            && (forall x | x in live :: x in w0 && x in w2 && w2[x] == w0[x])
  {
    var w2 := Merged(w0, c, n);
    MergedEntries(w0, c, n);
    forall x | x in live ensures x in w0 && x != c && x != n && x !in o0 && x in w2 && m2[x] == m0[x] && x !in o1 {
      assert x !in ToSet(o0);
      assert x !in ToSet(o1);
    }
    forall x | x in live ensures Same(m0, m2, x + 1, End(w0, x) - 1) {
      assert x in w0.Keys - ToSet(o0);
      assert Same(m0, m1, x + 1, End(w0, x) - 1);
      assert Same(m1, m2, x + 1, End(w0, x) - 1);
    }
    assert c in ToSet(o1);
    forall x | x in w2 ensures x in live || x in o1 {
      if x !in live { assert x in ToSet(o0) && x in ToSet(o1); }
    }
  }

  lemma AbsorbTotal(w: Chunks, order: seq<Addr>, c: Addr, n: Addr)
    requires InChunks(order, w) && c in w && n in w && c != n && c in order && n !in order
    requires forall a, b | 0 <= a < b < |order| :: order[a] != order[b]
    ensures InChunks(order, Merged(w, c, n))
    ensures FreeTotal(Merged(w, c, n), order) == FreeTotal(w, order) + 8 * w[n] + CHUNK_OVERHEAD
  {
    MergedEntries(w, c, n);
    var i :| 0 <= i < |order| && order[i] == c;
    TotalChange(w, Merged(w, c, n), order, i);
  }

  lemma HandedNew(m0: seq<int>, m1: seq<int>, base: Addr, head: Addr, w0: Chunks, order: seq<Addr>,
                  live: map<Addr, int>, chunk: Addr, k: int, request: int)
    requires Owned(m0, w0, order, live) && Covered(w0, order, live) && InChunks(order, w0) && chunk !in w0
    requires SameHeaders(m0, m1, w0, {}) && SamePayloads(m0, m1, w0, w0.Keys)
    requires 0 <= chunk < |m1| && m1[chunk] == 8 * k && 8 * k >= request
    ensures Owned(m1, w0[chunk := k], order, live[chunk := request])
    ensures Covered(w0[chunk := k], order, live[chunk := request])
    ensures SamePayloads(m0, m1, w0, live.Keys)
    ensures InChunks(order, w0[chunk := k]) && FreeTotal(w0[chunk := k], order) == FreeTotal(w0, order)
  {
    TotalFrame(w0, w0[chunk := k], order);
    assert chunk !in order;
  }

  /** A list member is a chunk the client does not hold. */
  lemma ListMember(mem: seq<int>, head: Addr, base: Addr, w: Chunks, order: seq<Addr>, live: map<Addr, int>, i: nat)
    requires Ok(mem, head, base, w, order) && Owned(mem, w, order, live) && i < |order|
    ensures order[i] in w && order[i] !in live
    ensures forall a, b | 0 <= a < b < |order| :: order[a] != order[b]
  {
    assert order[i] in order;
  }

  /** The frames of the three parts of TakeFromList put together. */
  lemma HandedOut(m0: seq<int>, m1: seq<int>, m2: seq<int>, m3: seq<int>, w0: Chunks, w: Chunks,
                  o0: seq<Addr>, o1: seq<Addr>, o2: seq<Addr>, live: map<Addr, int>, chunk: Addr, request: int)
    requires Owned(m0, w0, o0, live) && Covered(w0, o0, live) && chunk !in live && chunk in w0 && chunk in w
    requires chunk !in o2
    requires ToSet(o1) == ToSet(o0) - {chunk}
    requires |m0| <= |m1| <= |m2| <= |m3|
    requires SameHeaders(m0, m1, w0, {}) && SamePayloads(m0, m1, w0, w0.Keys - ToSet(o0))
    requires SameHeaders(m1, m2, w0, {chunk}) && SamePayloads(m1, m2, w0, w0.Keys - ToSet(o1) - {chunk})
    requires SameHeaders(m2, m3, w, {chunk}) && SamePayloads(m2, m3, w, w.Keys)
    requires forall x | x in w0 && x != chunk :: x in w && w[x] == w0[x] && (x in o2 <==> x in o1)
    requires forall x | x in w && x !in w0 :: x in o2
    requires 0 <= chunk < |m3| && m3[chunk] == 8 * w[chunk] && 8 * w[chunk] >= request
    ensures Owned(m3, w, o2, live[chunk := request]) && Covered(w, o2, live[chunk := request])
    ensures SamePayloads(m0, m3, w0, live.Keys) && SameHeaders(m0, m3, w0, {chunk})
    ensures forall x | x in w && x !in w0 :: 0 <= x < |m2| && m3[x] == m2[x]
  {
    forall x | x in live ensures m3[x] == m0[x] && x in w && w[x] == w0[x] && x !in o2 {
      assert x in w0 && x != chunk && x !in ToSet(o0);
      assert x !in ToSet(o1);
      assert m1[x] == m0[x] && m2[x] == m1[x] && m3[x] == m2[x];
    }
    forall x | x in live ensures Same(m0, m3, x + 1, End(w0, x) - 1) {
      assert x in w0.Keys - ToSet(o0) && x in w0.Keys - ToSet(o1) - {chunk} && x in w.Keys;
      assert Same(m0, m1, x + 1, End(w0, x) - 1);
      assert Same(m1, m2, x + 1, End(w0, x) - 1);
      assert Same(m2, m3, x + 1, End(w, x) - 1);
    }
    forall x | x in w && x != chunk ensures x in live || x in o2 {
      if x in w0 && x !in live { assert x in ToSet(o0) && x in ToSet(o1); }
    }
  }

  /** The list without the members in `gone`, in the same order. */
  function Minus(order: seq<Addr>, gone: set<Addr>): seq<Addr> {
    if order == [] then [] else (if order[0] in gone then [] else [order[0]]) + Minus(order[1..], gone)
  }

  lemma {:induction false} MinusNothing(order: seq<Addr>, gone: set<Addr>)
    requires forall i | 0 <= i < |order| :: order[i] !in gone
    ensures Minus(order, gone) == order
  {
    if order != [] { MinusNothing(order[1..], gone); }
  }

  lemma {:induction false} MinusTwice(order: seq<Addr>, a: set<Addr>, b: set<Addr>)
    ensures Minus(Minus(order, a), b) == Minus(order, a + b)
  {
    if order != [] {
      MinusTwice(order[1..], a, b);
      var rest := Minus(order[1..], a);
      if order[0] in a {
        assert Minus(order, a) == rest && Minus(order, a + b) == Minus(order[1..], a + b);
      } else {
        assert Minus(order, a) == [order[0]] + rest;
        assert ([order[0]] + rest)[1..] == rest;
      }
    }
  }

  lemma {:induction false} WithoutIsMinus(order: seq<Addr>, i: nat)
    requires i < |order| && forall a, b | 0 <= a < b < |order| :: order[a] != order[b]
    ensures Without(order, i) == Minus(order, {order[i]})
  {
    if i == 0 {
      assert Without(order, 0) == order[1..];
      MinusNothing(order[1..], {order[0]});
    } else {
      WithoutIsMinus(order[1..], i - 1);
      assert Without(order, i) == [order[0]] + Without(order[1..], i - 1);
    }
  }

  lemma WithoutMembers(order: seq<Addr>, i: nat)
    requires i < |order| && forall a, b | 0 <= a < b < |order| :: order[a] != order[b]
    ensures order[i] !in Without(order, i)
    ensures ToSet(Without(order, i)) == ToSet(order) - {order[i]}
  {
    var rest := Without(order, i);
    WithoutEntries(order, i);
    forall x | x in order && x != order[i] ensures x in rest {
      var j :| 0 <= j < |order| && order[j] == x;
      assert rest[if j < i then j else j - 1] == x;
    }
  }

  // ---------------------------------------------------------------- a run that leaves neighbours on the list

  lemma LiveUnflagged(h: Heap, c: Addr)
    requires h.Valid() && c in h.live
    ensures c in h.w && !CarriesFree(h.mem, h.w, c)
  {
    WordSize(h.mem[c], h.w[c]);
  }

  /** Four blocks of 16 bytes behind each other, of which the first three are freed, in order. The second
      free merges two chunks and thereby loses the FREE bit; the third finds no bit in front of it. */
  method LeaveNeighbours() returns (h: Heap)
    ensures fresh(h) && h.Valid() && h.order == [9, 1] && 1 in h.w && 1 + h.w[1] + 2 == 9
    ensures !FullyCoalesced(h.w, h.order)
  {
    hide Ok, Owned, Covered, SamePayloads, FreeTotal, FullyCoalesced, NeighboursFlagged, Coalesced, Absorbed, Minus;
    h := new Heap([0]);
    var p1 := FourBlocks(h);
    LiveUnflagged(h, 5);
    FirstFree(h.mem, h.w);
    ghost var prev := h.Free(p1);
    LiveUnflagged(h, 9);
    SecondFree(h.mem, h.w);
    prev := h.Free(6);
    LiveUnflagged(h, 13);
    ThirdFree(h.mem, h.w);
    prev := h.Free(10);
    NotCoalesced(h.w, h.order, 1);
  }

  lemma FirstFree(mem: seq<int>, w: Chunks)
    requires w == map[1 := 2, 5 := 2, 9 := 2, 13 := 2] && !CarriesFree(mem, w, 5)
    ensures forall p | PrecededBy(w, 1, p) :: p == NULL
    ensures Coalesced(mem, w, 1, NULL) == w && Absorbed(mem, w, 1, NULL) == {} && Minus([1] + [], {}) == [1]
  {
    assert End(w, 1) == 5 && End(w, 5) == 9 && End(w, 9) == 13 && End(w, 13) == 17;
  }

  lemma SecondFree(mem: seq<int>, w: Chunks)
    requires w == map[1 := 2, 5 := 2, 9 := 2, 13 := 2] && CarriesFree(mem, w, 1) && !CarriesFree(mem, w, 9)
    ensures forall p | PrecededBy(w, 5, p) :: p == 1
    ensures Coalesced(mem, w, 5, 1) == map[1 := 6, 9 := 2, 13 := 2]
    ensures Absorbed(mem, w, 5, 1) == {5} && Minus([5] + [1], {5}) == [1]
  {
    assert End(w, 1) == 5 && End(w, 5) == 9 && End(w, 9) == 13 && End(w, 13) == 17;
    assert ([5] + [1])[1..] == [1] && [1][1..] == [];
  }

  lemma ThirdFree(mem: seq<int>, w: Chunks)
    requires w == map[1 := 6, 9 := 2, 13 := 2] && !CarriesFree(mem, w, 1) && !CarriesFree(mem, w, 13)
    ensures forall p | PrecededBy(w, 9, p) :: p == 1
    ensures Coalesced(mem, w, 9, 1) == w && Absorbed(mem, w, 9, 1) == {} && Minus([9] + [1], {}) == [9, 1]
  {
    assert End(w, 1) == 9 && End(w, 9) == 13 && End(w, 13) == 17;
    assert ([9] + [1])[1..] == [1] && [1][1..] == [];
  }

  lemma NotCoalesced(w: Chunks, order: seq<Addr>, c: Addr)
    requires c in w && c in order && End(w, c) in order
    ensures !FullyCoalesced(w, order)
  {
  }

  /** A block behind all others, as nothing is free. */
  method BlockAtBreak(h: Heap, size: int) returns (p: Addr)
    requires h.Valid() && h.order == [] && Request(size)
    modifies h
    ensures var k := (size + 7) / 8;
            && h.Valid() && h.order == [] && p == |old(h.mem)| + 1 && |h.mem| == |old(h.mem)| + k + 2
            && h.w == old(h.w)[p - 1 := k] && h.live == old(h.live)[p - 1 := size] && h.mem[p - 1] == 8 * k
    ensures h.heapBase == if old(h.heapBase) == NULL then |old(h.mem)| else old(h.heapBase)
  {
    hide Ok, Owned, Covered, FreeTotal, FullyCoalesced;
    ghost var fit;
    p, fit := h.Malloc(size, true);
  }

  method FourBlocks(h: Heap) returns (p: Addr)
    requires h.Valid() && h.heapBase == NULL && |h.mem| == 1 && h.live == map[]
    modifies h
    ensures h.Valid() && h.order == [] && p == 2 && h.heapBase == 1
    ensures h.w == map[1 := 2, 5 := 2, 9 := 2, 13 := 2] && h.live == map[1 := 16, 5 := 16, 9 := 16, 13 := 16]
  {
    hide Ok, Owned, Covered;
    p := BlockAtBreak(h, 16);
    var p2 := BlockAtBreak(h, 16);
    p2 := BlockAtBreak(h, 16);
    p2 := BlockAtBreak(h, 16);
  }

  // ---------------------------------------------------------------- the program's own main()

  /** get_chunk_size() */
  function ChunkSize(h: Heap, ptr: Addr): int
    requires 0 < ptr <= |h.mem|
    reads h
  {
    h.mem[ptr - 1] / 8 * 8
  }

  /** Blocks of 100, 200 and 50 bytes, one behind the other. */
  ghost predicate ThreeBlocks(h: Heap)
    reads h
  {
    && h.Valid() && h.heapBase == 1 && |h.mem| == 52 && h.w == map[1 := 13, 16 := 25, 43 := 7]
  }

  method ThreeMallocs() returns (h: Heap, ptr1: Addr, ptr2: Addr, ptr3: Addr)
    ensures fresh(h) && ThreeBlocks(h) && h.order == [] && ptr1 == 2 && ptr2 == 17 && ptr3 == 44
    ensures h.live == map[1 := 100, 16 := 200, 43 := 50] && h.mem[1] == 104
  {
    hide Ok, Owned, Covered;
    h := new Heap([0]);
    ptr1 := BlockAtBreak(h, 100);
    ptr2 := BlockAtBreak(h, 200);
    ptr3 := BlockAtBreak(h, 50);
    HeldUnflagged(h.mem, h.w, h.order, h.live, 1);
  }

  /** The first block is freed, with the second one still in use. */
  method FreeFirst(h: Heap)
    requires ThreeBlocks(h) && h.order == [] && 1 in h.live && 16 in h.live
    modifies h
    ensures ThreeBlocks(h) && h.order == [1] && h.mem[1] == 105 && h.mem[43] == old(h.mem)[43]
    ensures h.live == old(h.live) - {1}
  {
    hide Ok, Owned, Covered, SamePayloads, SameHeaders, FreeTotal, FullyCoalesced, NeighboursFlagged;
    hide Coalesced, Absorbed, Minus, PrecededBy, FlaggedUnlessMerged, Keeper;
    ghost var m0, f0, w0, o0, l0 := h.mem, h.freeListHead, h.w, h.order, h.live;
    HeldUnflagged(m0, w0, o0, l0, 16);
    ghost var prev := h.Free(2);
    ghost var behind, front, at, kn, kp := FreedIs(m0, f0, 1, w0, o0, l0, 1, prev, h.w, h.order);
    FreedKeeps(m0, f0, 1, w0, o0, l0, 1, prev, h.mem, h.freeListHead, h.w, h.order);
  }

  /** A block of 100 bytes again. */
  method MallocAgain(h: Heap) returns (ptr: Addr)
    requires ThreeBlocks(h) && h.order == [1]
    modifies h
    ensures ThreeBlocks(h) && h.order == [] && ptr == 2 && h.live == old(h.live)[1 := 100] && h.mem[1] == 104
  {
    hide Ok, Owned, Covered, FreeTotal, FullyCoalesced;
    ghost var w0, o0 := h.w, h.order;
    assert 8 * w0[o0[0]] >= 104;
    ghost var fit;
    ptr, fit := h.Malloc(100, true);
    assert o0[..0] + o0[1..] == [];
  }

  /** The third block is freed, with the second one still in use and the first one free. */
  method FreeThird(h: Heap)
    requires ThreeBlocks(h) && h.order == [1] && 16 in h.live && 43 in h.live && h.mem[1] == 105
    modifies h
    ensures ThreeBlocks(h) && h.order == [43, 1] && h.mem[1] == 105 && h.mem[43] == 57
    ensures h.live == old(h.live) - {43}
  {
    hide Ok, Owned, Covered, SamePayloads, SameHeaders, FreeTotal, FullyCoalesced, NeighboursFlagged;
    hide Coalesced, Absorbed, Minus, PrecededBy, FlaggedUnlessMerged, Keeper;
    ghost var m0, f0, w0, o0, l0 := h.mem, h.freeListHead, h.w, h.order, h.live;
    HeldUnflagged(m0, w0, o0, l0, 16);
    ghost var prev := h.Free(44);
    ghost var behind, front, at, kn, kp := FreedIs(m0, f0, 1, w0, o0, l0, 43, prev, h.w, h.order);
    FreedKeeps(m0, f0, 1, w0, o0, l0, 43, prev, h.mem, h.freeListHead, h.w, h.order);
    assert 16 in w0 && 16 + w0[16] + 2 == 43;
  }

  /** The second block is freed, with free ones on both sides. */
  method FreeSecond(h: Heap)
    requires ThreeBlocks(h) && h.order == [43, 1] && 16 in h.live && h.mem[1] == 105 && h.mem[43] == 57
    modifies h
    ensures h.Valid() && h.heapBase == 1 && |h.mem| == 52 && h.w == map[1 := 49] && h.order == [1]
    ensures h.mem[1] == 392
  {
    hide Ok, Owned, Covered, SamePayloads, SameHeaders, FreeTotal, FullyCoalesced, NeighboursFlagged;
    hide Coalesced, Absorbed, Minus, PrecededBy, FlaggedUnlessMerged, Keeper;
    ghost var m0, f0, w0, o0, l0 := h.mem, h.freeListHead, h.w, h.order, h.live;
    ghost var prev := h.Free(17);
    ghost var behind, front, at, kn, kp := FreedIs(m0, f0, 1, w0, o0, l0, 16, prev, h.w, h.order);
    FreedKeeps(m0, f0, 1, w0, o0, l0, 16, prev, h.mem, h.freeListHead, h.w, h.order);
    assert 1 in w0 && 1 + w0[1] + 2 == 16;
  }

  /** A block of 24 bytes out of it. */
  method MallocPart(h: Heap) returns (ptr: Addr)
    requires h.Valid() && h.heapBase == 1 && |h.mem| == 52 && h.w == map[1 := 49] && h.order == [1]
    modifies h
    ensures h.Valid() && |h.mem| == 52 && ptr == 2 && h.freeListHead == 6 && h.mem[6] == 353
  {
    hide Owned, Covered, FreeTotal, FullyCoalesced;
    ghost var fit;
    ptr, fit := h.Malloc(24, true);
  }

  /** What main() asserts: the size of the first block; a freed block is handed out again; three neighbours become
      one block; and what is left of it when a part is handed out. */
  method Asserts() returns (size1: int, same: bool, sizes: seq<int>, merged: int, left: int)
    ensures size1 == 104 && same
    ensures |sizes| == 3 && merged == sizes[0] + 16 + sizes[1] + sizes[2] + 16
    ensures left == merged - 24 - 16
  {
    hide Ok, Owned, Covered;
    var h, ptr1, ptr2, ptr3 := ThreeMallocs();
    size1 := ChunkSize(h, ptr1);
    FreeFirst(h);
    var ptr4 := MallocAgain(h);
    same := ptr4 == ptr1;
    HeldUnflagged(h.mem, h.w, h.order, h.live, 16);
    HeldUnflagged(h.mem, h.w, h.order, h.live, 43);
    sizes := [ChunkSize(h, ptr1), ChunkSize(h, ptr2), ChunkSize(h, ptr3)];
    FreeFirst(h);
    FreeThird(h);
    FreeSecond(h);
    merged := ChunkSize(h, ptr1);
    var ptr := MallocPart(h);
    left := ChunkSize(h, h.freeListHead + 1);
  }
}
