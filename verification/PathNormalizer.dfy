/** normalize_path() of chapter_18/myrealpath.c, which removes "." and ".." from an absolute path in place,
    against the stack of its components. A buffer is an array of characters; a pointer into it is an index,
    and NULL is -1. */
module PathNormalizer {

  const NUL := '\0'

  // ---------------------------------------------------------------- paths

  /** Length of the component at the front of `s`. */
  function Span(s: string): (n: nat)
    ensures n <= |s| && '/' !in s[..n] && (n < |s| ==> s[n] == '/')
  {
    if s == "" || s[0] == '/' then 0 else 1 + Span(s[1..])
  }

  /** The components of a path; empty ones do not count. */
  function Split(s: string): (parts: seq<string>)
    ensures forall p | p in parts :: IsPart(p)
    decreases |s|
  {
    if s == "" then []
    else if s[0] == '/' then Split(s[1..])
    else [s[..Span(s)]] + Split(s[Span(s)..])
  }

  predicate IsPart(p: string) {
    p != "" && '/' !in p
  }

  predicate IsName(p: string) {
    IsPart(p) && p != "." && p != ".."
  }

  function LeadingSlashes(s: string): (n: nat)
    ensures n <= |s| && (n < |s| ==> s[n] != '/') && (forall i | 0 <= i < n :: s[i] == '/')
  {
    if s == "" || s[0] != '/' then 0 else 1 + LeadingSlashes(s[1..])
  }

  // ---------------------------------------------------------------- what normalisation should be

  /** ".." drops the last component, and at the root does nothing; "." does nothing (POSIX.1-2017 Base
      Definitions, section 4.13, taken lexically). */
  function Resolve(stack: seq<string>, parts: seq<string>): (r: seq<string>)
    requires forall p | p in stack :: IsName(p)
    requires forall p | p in parts :: IsPart(p)
    ensures forall p | p in r :: IsName(p)
    decreases |parts|
  {
    if parts == [] then stack
    else if parts[0] == "." then Resolve(stack, parts[1..])
    else if parts[0] == ".." then Resolve(if stack == [] then [] else stack[..|stack| - 1], parts[1..])
    else Resolve(stack + [parts[0]], parts[1..])
  }

  function Render(stack: seq<string>): string {
    if stack == [] then "" else Render(stack[..|stack| - 1]) + "/" + stack[|stack| - 1]
  }

  function Canonical(s: string): string {
    var stack := Resolve([], Split(s));
    if stack == [] then "/" else Render(stack)
  }

  /** How many ".." are met with nothing left to drop. */
  function Climbs(stack: seq<string>, parts: seq<string>): nat
    decreases |parts|
  {
    if parts == [] then 0
    else if parts[0] == "." then Climbs(stack, parts[1..])
    else if parts[0] == ".." then
      if stack == [] then 1 + Climbs([], parts[1..]) else Climbs(stack[..|stack| - 1], parts[1..])
    else Climbs(stack + [parts[0]], parts[1..])
  }

  // ---------------------------------------------------------------- what the code does

  /** The text under construction: `base` slashes that belong to no component, then the components. `raw`
      while nothing has been written: the buffer still starts with the slashes of the input. */
  datatype Work = Work(raw: bool, base: nat, stack: seq<string>)

  function Take(w: Work, part: string): Work {
    if part == "." then w
    else if part == ".." then
      if w.stack == [] then Work(false, if w.base == 0 then 0 else w.base - 1, [])
      else w.(raw := false, stack := w.stack[..|w.stack| - 1])
    else Work(false, if w.raw then 0 else w.base, w.stack + [part])
  }

  function TakeAll(w: Work, parts: seq<string>): Work
    decreases |parts|
  {
    if parts == [] then w else TakeAll(Take(w, parts[0]), parts[1..])
  }

  function Slashes(n: nat): (s: string)
    ensures |s| == n && forall i | 0 <= i < n :: s[i] == '/'
  {
    seq(n, i => '/')
  }

  function Text(w: Work): string {
    Slashes(w.base) + Render(w.stack)
  }

  function Start(s: string): Work {
    Work(true, LeadingSlashes(s), [])
  }

  function Result(s: string): string {
    var w := TakeAll(Start(s), Split(s));
    if Split(s) == [] then "/"
    else if w.raw then Slashes(w.base) + "."
    else if Text(w) == "" then "/"
    else Text(w)
  }

  // ---------------------------------------------------------------- strings in a buffer

  /** `text` is the C string at index `at`. */
  ghost predicate Holds(b: seq<char>, at: nat, text: string) {
    at + |text| < |b| && b[at..at + |text|] == text && NUL !in text && b[at + |text|] == NUL
  }

  /** Where the run of slashes at `from` ends. */
  method SkipSlashes(b: array<char>, from: nat, ghost n: nat) returns (tok: nat)
    requires from <= n < b.Length && b[n] == NUL
    ensures from <= tok <= n && b[tok] != '/' && forall i | from <= i < tok :: b[i] == '/'
    ensures Split(b[from..n]) == Split(b[tok..n])
  {
    tok := from;
    while b[tok] == '/'
      invariant from <= tok <= n
      invariant forall i | from <= i < tok :: b[i] == '/'
      invariant Split(b[from..n]) == Split(b[tok..n])
      decreases n - tok
    {
      assert b[tok..n][1..] == b[tok + 1..n];
      tok := tok + 1;
    }
  }

  /** Where the component at `from` ends. */
  method SkipPart(b: array<char>, from: nat, ghost n: nat) returns (end: nat)
    requires from <= n < b.Length && b[n] == NUL
    ensures from <= end <= n && (b[end] == '/' || b[end] == NUL)
    ensures forall i | from <= i < end :: b[i] != '/' && b[i] != NUL
  {
    end := from;
    while b[end] != '/' && b[end] != NUL
      invariant from <= end <= n
      invariant forall i | from <= i < end :: b[i] != '/' && b[i] != NUL
      decreases n - end
    {
      end := end + 1;
    }
  }

  /** From `b` to `b'` the component b[tok..end] has been split off the text b[from..n], leaving b[save..n];
      or there was none. */
  ghost predicate Tokenized(b: seq<char>, b': seq<char>, from: nat, n: nat, tok: int, save: nat, end: nat) {
    && from <= save <= n < |b| == |b'| && (tok == -1 || from <= tok < end <= save)
    && (tok == -1 ==> Split(b[from..n]) == [] && b' == b && save == n)
    && (tok >= 0 ==>
          && b' == b[end := NUL] && save == (if end == n then n else end + 1)
          && Split(b[from..n]) == [b[tok..end]] + Split(b[save..n])
          && (forall i | from <= i < tok :: b[i] == '/')
          && (forall i | tok <= i < end :: b'[i] != '/' && b'[i] != NUL))
  }

  /** strtok_r(): the next component of b[from..n], which is cut off with a NUL at `end`. */
  method StrTokR(b: array<char>, from: nat, ghost n: nat) returns (tok: int, save: nat, ghost end: nat)
    requires from <= n < b.Length && b[n] == NUL && forall i | from <= i < n :: b[i] != NUL
    modifies b
    ensures Tokenized(old(b[..]), b[..], from, n, tok, save, end)
  {
    var start := SkipSlashes(b, from, n);
    if b[start] == NUL {
      return -1, start, start;
    }
    var stop := SkipPart(b, start, n);
    FirstPart(b[..], start, stop, n);
    end := stop;
    if b[stop] == NUL {
      return start, stop, stop;
    }
    b[stop] := NUL;
    return start, stop + 1, stop;
  }

  lemma FirstPart(b: seq<char>, tok: nat, end: nat, n: nat)
    requires tok < end <= n < |b| && forall i | tok <= i < end :: b[i] != '/'
    requires end < n ==> b[end] == '/'
    ensures Split(b[tok..n]) == [b[tok..end]] + Split(b[if end == n then n else end + 1..n])
  {
    assert b[tok..n][..end - tok] == b[tok..end] && b[tok..n][end - tok..] == b[end..n];
    SplitFirst(b[tok..n], end - tok);
    if end < n { assert b[end..n][1..] == b[end + 1..n]; }
  }

  lemma SplitFirst(s: string, k: nat)
    requires 0 < k <= |s| && '/' !in s[..k] && (k < |s| ==> s[k] == '/')
    ensures Split(s) == [s[..k]] + Split(s[k..])
  {
    SpanIs(s, k);
    assert s[0] == s[..k][0];
  }

  lemma {:induction false} SpanIs(s: string, k: nat)
    requires k <= |s| && '/' !in s[..k] && (k < |s| ==> s[k] == '/')
    ensures Span(s) == k
  {
    if k > 0 {
      assert s[0] == s[..k][0] && s[1..][..k - 1] == s[..k][1..];
      SpanIs(s[1..], k - 1);
    }
  }

  /** strrchr(b, '/'): the last slash of the string at 0, or NULL. */
  method StrRChr(b: array<char>, ghost text: string) returns (r: int)
    requires Holds(b[..], 0, text)
    ensures LastSlash(text, r)
  {
    r := -1;
    var i := 0;
    assert forall k | 0 <= k < |text| :: b[k] == text[k] by {
      forall k | 0 <= k < |text| ensures b[k] == text[k] { assert b[..][0..|text|][k] == text[k]; }
    }
    while b[i] != NUL
      invariant 0 <= i <= |text| && -1 <= r < i
      invariant r >= 0 ==> text[r] == '/'
      invariant forall k | r < k < i :: text[k] != '/'
      decreases |text| - i
    {
      if b[i] == '/' { r := i; }
      i := i + 1;
    }
  }

  /** strcpy(), byte by byte from the front, with source and destination in one buffer. */
  method StrCpy(b: array<char>, dst: nat, src: nat, ghost len: nat)
    requires dst <= src && src + len < b.Length && b[src + len] == NUL
    requires forall i | src <= i < src + len :: b[i] != NUL
    modifies b
    ensures b[dst..dst + len + 1] == old(b[src..src + len + 1])
    ensures forall i | 0 <= i < b.Length && !(dst <= i <= dst + len) :: b[i] == old(b[i])
  {
    var k := 0;
    while b[src + k] != NUL
      invariant 0 <= k <= len
      invariant b[dst..dst + k] == old(b[src..src + k])
      invariant forall i | 0 <= i < b.Length && !(dst <= i < dst + k) :: b[i] == old(b[i])
      decreases len - k
    {
      b[dst + k] := b[src + k];
      k := k + 1;
    }
    b[dst + k] := NUL;
  }

  /** Appends "/" and the component at `tok` to the text that ends at `pos`. */
  method Append(b: array<char>, pos: nat, tok: nat, partLen: nat, ghost text: string) returns (pos': nat)
    requires pos < tok && tok + partLen < b.Length && b[tok + partLen] == NUL
    requires forall i | tok <= i < tok + partLen :: b[i] != NUL
    requires b[..pos] == text && NUL !in text
    modifies b
    ensures pos' == pos + 1 + partLen <= tok + partLen
    ensures Holds(b[..], 0, text + "/" + old(b[tok..tok + partLen]))
    ensures b[tok + partLen..] == old(b[tok + partLen..])
  {
    hide Holds;
    ghost var part := b[tok..tok + partLen];
    b[pos] := '/';
    pos' := pos + 1;
    StrCpy(b, pos', tok, partLen);
    assert b[pos' + partLen] == b[pos'..pos' + partLen + 1][partLen] == NUL;
    assert b[pos'..pos' + partLen] == b[pos'..pos' + partLen + 1][..partLen] == part;
    pos' := pos' + partLen;
    ghost var b1 := b[..];
    b[pos'] := NUL;
    assert b[..] == b1;
    assert b1[..pos] == text && b1[pos + 1..pos'] == part;
    Joined(b1, text, part);
  }

  lemma Joined(b: seq<char>, text: string, part: string)
    requires |text| + 1 + |part| < |b| && b[..|text|] == text && b[|text|] == '/'
    requires b[|text| + 1..|text| + 1 + |part|] == part && b[|text| + 1 + |part|] == NUL
    requires NUL !in text && NUL !in part
    ensures Holds(b, 0, text + "/" + part)
  {
    assert b[0..0 + |text| + 1 + |part|] == b[..|text|] + [b[|text|]] + b[|text| + 1..|text| + 1 + |part|];
  }

  // ---------------------------------------------------------------- normalize_path()

  /** What the buffer holds while `w` is being worked on; `first` is the first component of the input. */
  ghost predicate Shows(b: seq<char>, w: Work, first: string, pos: nat) {
    && (w.raw ==> pos == 0 && w.stack == [] && w.base > 0 && IsPart(first) && Holds(b, 0, Slashes(w.base) + first))
    && (!w.raw ==> pos == |Text(w)| && Holds(b, 0, Text(w)))
    && forall p | p in w.stack :: IsPart(p)
  }

  lemma TextPush(w: Work, part: string)
    ensures Text(w.(stack := w.stack + [part])) == Text(w) + "/" + part
  {
    assert (w.stack + [part])[..|w.stack|] == w.stack;
  }

  /** `r` is the last slash of `text`, or -1. */
  predicate LastSlash(text: string, r: int) {
    -1 <= r < |text| && (r >= 0 ==> text[r] == '/') && forall i | r < i < |text| :: text[i] != '/'
  }

  /** Cutting the string at its last slash drops the last component. */
  lemma TextDrop(w: Work, first: string, r: int)
    requires w.raw ==> w.stack == [] && w.base > 0 && IsPart(first)
    requires forall p | p in w.stack :: IsPart(p)
    requires LastSlash(Buffered(w, first), r)
    ensures Text(Take(w, "..")) == if r >= 0 then Buffered(w, first)[..r] else ""
    ensures r == -1 ==> Buffered(w, first) == ""
  {
    hide Render, Slashes, Text, LastSlash;
    if w.stack != [] {
      assert w.stack[|w.stack| - 1] in w.stack;
      DropName(w, r);
    } else {
      var tail := if w.raw then first else "";
      BareText(w);
      assert Slashes(w.base) + "" == Slashes(w.base);
      assert Buffered(w, first) == Slashes(w.base) + tail;
      DropSlash(w.base, tail, r);
      BareText(Take(w, ".."));
    }
  }

  /** The string in the buffer. */
  function Buffered(w: Work, first: string): string {
    if w.raw then Slashes(w.base) + first else Text(w)
  }

  lemma DropName(w: Work, r: int)
    requires w.stack != [] && IsPart(w.stack[|w.stack| - 1]) && LastSlash(Text(w), r)
    ensures r >= 0 && Text(w.(raw := false, stack := w.stack[..|w.stack| - 1])) == Text(w)[..r]
  {
    hide Render, Slashes, Text, LastSlash;
    var k := |w.stack| - 1;
    var front := w.(stack := w.stack[..k]);
    LastPushed(w);
    CutAt(Text(front), w.stack[k], r);
    SameText(front);
  }

  lemma LastPushed(w: Work)
    requires w.stack != []
    ensures Text(w) == Text(w.(stack := w.stack[..|w.stack| - 1])) + "/" + w.stack[|w.stack| - 1]
  {
    hide Render, Slashes, Text;
    var k := |w.stack| - 1;
    var front := w.(stack := w.stack[..k]);
    assert front.stack + [w.stack[k]] == w.stack;
    TextPush(front, w.stack[k]);
  }

  lemma SameText(w: Work)
    ensures Text(w.(raw := false)) == Text(w)
  {
  }

  lemma DropSlash(base: nat, tail: string, r: int)
    requires '/' !in tail && LastSlash(Slashes(base) + tail, r)
    ensures if base > 0 then r >= 0 && Slashes(base - 1) == (Slashes(base) + tail)[..r] else r == -1
  {
    hide Slashes;
    if base > 0 {
      OneSlashLess(base, tail);
      CutAt(Slashes(base - 1), tail, r);
    } else {
      NoSlashes(tail);
    }
  }

  lemma NoSlashes(tail: string)
    ensures Slashes(0) + tail == tail
  {
  }

  lemma BareText(w: Work)
    requires w.stack == []
    ensures Text(w) == Slashes(w.base) && (w.base == 0 ==> Text(w) == "")
  {
    assert Slashes(w.base) + "" == Slashes(w.base);
  }

  lemma OneSlashLess(n: nat, tail: string)
    requires n > 0
    ensures Slashes(n) + tail == Slashes(n - 1) + "/" + tail
  {
  }

  lemma CutAt(x: string, y: string, r: int)
    requires '/' !in y
    requires LastSlash(x + "/" + y, r)
    ensures r == |x| && (x + "/" + y)[..r] == x
  {
    var t := x + "/" + y;
    assert t[|x|] == '/';
    assert forall i | |x| < i < |t| :: t[i] == y[i - |x| - 1];
  }

  /** Cuts the string at 0 at its last slash, if it has one. */
  method DropLast(b: array<char>, pos: nat, ghost w: Work, ghost first: string) returns (pos': nat)
    requires Shows(b[..], w, first, pos)
    modifies b
    ensures Shows(b[..], Take(w, ".."), first, pos')
    ensures pos' <= (if w.raw then w.base else pos)
    ensures forall i | pos' < i < b.Length :: b[i] == old(b[i])
  {
    hide Shows, Take, Buffered, LastSlash;
    ghost var b0 := b[..];
    pos' := pos;
    ShowsBuffered(b0, w, first, pos);
    var lastSlash := StrRChr(b, Buffered(w, first));
    DropShows(b0, w, first, pos, lastSlash);
    if lastSlash != -1 {
      b[lastSlash] := NUL;
      pos' := lastSlash;
    }
  }

  lemma ShowsBuffered(b: seq<char>, w: Work, first: string, pos: nat)
    requires Shows(b, w, first, pos)
    ensures Holds(b, 0, Buffered(w, first))
  {
  }

  lemma DropShows(b: seq<char>, w: Work, first: string, pos: nat, r: int)
    requires Shows(b, w, first, pos) && LastSlash(Buffered(w, first), r)
    ensures r < |b|
    ensures Shows(if r >= 0 then b[r := NUL] else b, Take(w, ".."), first, if r >= 0 then r else pos)
    ensures (if r >= 0 then r else pos) <= (if w.raw then w.base else pos)
  {
    hide Text, Slashes, Render, LastSlash;
    var text := Buffered(w, first);
    ShowsBuffered(b, w, first, pos);
    SlashBounds(text, r);
    TextDrop(w, first, r);
    if r >= 0 {
      CutHolds(b, text, r);
      if w.raw { RawCut(w.base, first, r); }
    }
    TakenParts(w);
  }

  lemma TakenParts(w: Work)
    requires forall p | p in w.stack :: IsPart(p)
    ensures !Take(w, "..").raw && forall p | p in Take(w, "..").stack :: IsPart(p)
  {
  }

  lemma SlashBounds(text: string, r: int)
    requires LastSlash(text, r)
    ensures -1 <= r < |text| && (r >= 0 ==> text[r] == '/')
  {
  }

  lemma CutHolds(b: seq<char>, text: string, r: nat)
    requires Holds(b, 0, text) && r < |text|
    ensures Holds(b[r := NUL], 0, text[..r])
  {
    assert b[r := NUL][0..0 + r] == b[0..0 + |text|][..r];
  }

  lemma RawCut(base: nat, first: string, r: nat)
    requires '/' !in first && r < |Slashes(base) + first| && (Slashes(base) + first)[r] == '/'
    ensures r < base
  {
    var text := Slashes(base) + first;
    assert forall i | base <= i < |text| :: text[i] == first[i - base];
  }

  method StrLen(b: array<char>, at: nat, ghost end: nat) returns (len: nat)
    requires at <= end < b.Length && b[end] == NUL && forall i | at <= i < end :: b[i] != NUL
    ensures len == end - at
  {
    len := 0;
    while b[at + len] != NUL
      invariant at + len <= end
      decreases end - len
    {
      len := len + 1;
    }
  }

  /** The component in hand, if there is one, lies past the write position, followed by unread input. */
  ghost predicate InHand(b: seq<char>, pos: nat, tok: int, save: nat, end: nat, n: nat) {
    && save <= n < |b|
    && (tok != -1 ==> pos < tok < end <= save && save == (if end == n then n else end + 1) && b[end] == NUL)
    && (tok != -1 ==> forall i | tok <= i < end :: b[i] != '/' && b[i] != NUL)
  }

  /** The components still to be taken. */
  ghost function Rest(b: seq<char>, tok: int, save: nat, end: nat, n: nat): seq<string>
    requires save <= n < |b| && (tok == -1 || 0 <= tok < end <= n)
  {
    if tok == -1 then [] else [b[tok..end]] + Split(b[save..n])
  }

  /** While nothing has been written, only "." components have gone by. */
  ghost predicate OnlyDots(b: seq<char>, w: Work, first: string, tok: int, end: nat) {
    && (tok == -1 || 0 <= tok < end <= |b|)
    && (w.raw ==> first == "." || (tok != -1 && first == b[tok..end]))
    && (w.raw && tok != -1 ==> w.base + |first| <= end)
  }

  /** Takes one component: the three branches of the loop body. */
  method TakePart(b: array<char>, pos: nat, tok: nat, partLen: nat, ghost w: Work, ghost first: string,
                  ghost save: nat, ghost n: nat)
      returns (pos': nat)
    requires InHand(b[..], pos, tok, save, tok + partLen, n) && Shows(b[..], w, first, pos)
    requires OnlyDots(b[..], w, first, tok, tok + partLen)
    modifies b
    ensures Shows(b[..], Take(w, old(b[tok..tok + partLen])), first, pos')
    ensures pos' <= tok + partLen && b[tok + partLen..] == old(b[tok + partLen..])
  {
    hide Shows, Take, InHand, OnlyDots;
    ghost var b0 := b[..];
    HandFacts(b0, pos, tok, save, tok + partLen, n);
    ghost var part := b[tok..tok + partLen];
    if b[tok..tok + partLen] == "." {
      DotTaken(w);
      pos' := pos;
    } else if b[tok..tok + partLen] == ".." {
      DropBelow(b0, w, first, pos, tok, tok + partLen);
      pos' := DropLast(b, pos, w, first);
      assert b[tok + partLen..] == b0[tok + partLen..];
    } else {
      ghost var text := Written(w);
      ShowsPrefix(b0, w, first, pos);
      pos' := Append(b, pos, tok, partLen, text);
      NameShown(b0, b[..], w, first, pos, part);
    }
  }

  /** The text written so far. */
  function Written(w: Work): string {
    if w.raw then "" else Text(w)
  }

  lemma HandFacts(b: seq<char>, pos: nat, tok: nat, save: nat, end: nat, n: nat)
    requires InHand(b, pos, tok, save, end, n)
    ensures pos < tok < end < |b| && b[end] == NUL && IsPart(b[tok..end]) && NUL !in b[tok..end]
    ensures forall i | tok <= i < end :: b[i] != NUL
  {
  }

  lemma DotTaken(w: Work)
    ensures Take(w, ".") == w
  {
  }

  /** Cutting the text stays in front of the component in hand. */
  lemma DropBelow(b: seq<char>, w: Work, first: string, pos: nat, tok: nat, end: nat)
    requires Shows(b, w, first, pos) && OnlyDots(b, w, first, tok, end) && pos < tok < end
    ensures w.raw ==> w.base < end
  {
  }

  lemma ShowsPrefix(b: seq<char>, w: Work, first: string, pos: nat)
    requires Shows(b, w, first, pos)
    ensures pos <= |b| && b[..pos] == Written(w) && NUL !in Written(w)
  {
    assert b[..pos] == b[0..pos];
  }

  lemma NameShown(b: seq<char>, b': seq<char>, w: Work, first: string, pos: nat, part: string)
    requires Shows(b, w, first, pos) && IsName(part) && Holds(b', 0, Written(w) + "/" + part)
    ensures Shows(b', Take(w, part), first, |Written(w)| + 1 + |part|)
  {
    hide Text, Holds, Render, Slashes;
    var w' := if w.raw then Work(false, 0, []) else w;
    BareText(Work(false, 0, []));
    TextPush(w', part);
  }

  /** The invariant of the loop; `b0` is the buffer as it was, holding `s`. */
  ghost predicate Progress(b: seq<char>, b0: seq<char>, s: string, w: Work, first: string, pos: nat, tok: int,
                           save: nat, end: nat) {
    && tok >= -1 && |b| == |b0| && Holds(b0, 0, s) && s != "" && s[0] == '/'
    && InHand(b, pos, tok, save, end, |s|)
    && Shows(b, w, first, pos) && OnlyDots(b, w, first, tok, end)
    && b[save..] == b0[save..]
    && TakeAll(Start(s), Split(s)) == TakeAll(w, Rest(b, tok, save, end, |s|)) && Split(s) != []
  }

  lemma InProgress(b: seq<char>, b0: seq<char>, s: string, w: Work, first: string, pos: nat, tok: int, save: nat,
                   end: nat)
    requires Progress(b, b0, s, w, first, pos, tok, save, end)
    ensures InHand(b, pos, tok, save, end, |s|) && Shows(b, w, first, pos) && OnlyDots(b, w, first, tok, end)
    ensures save <= |s| < |b|
    ensures tok != -1 ==> 0 <= tok < end <= save && b[end] == NUL && forall i | tok <= i < end :: b[i] != NUL
  {
  }

  /** What the next strtok_r() needs, after a component has been taken. */
  lemma Unread(b: seq<char>, b': seq<char>, b0: seq<char>, s: string, w: Work, first: string, pos: nat, tok: int,
               save: nat, end: nat)
    requires Progress(b, b0, s, w, first, pos, tok, save, end) && tok != -1
    requires |b'| == |b| && b'[end..] == b[end..]
    ensures save <= |s| < |b'| && b'[|s|] == NUL && b'[save..] == b0[save..]
    ensures forall i | save <= i < |s| :: b'[i] != NUL
  {
    assert b'[save..] == b'[end..][save - end..] == b[end..][save - end..] == b[save..];
    forall i | save <= i < |s| ensures b'[i] != NUL {
      assert b'[i] == b'[save..][i - save] == b0[i] == b0[0..0 + |s|][i];
    }
    assert b'[|s|] == b'[save..][|s| - save];
  }

  /** One round of the loop: from `b` to `b1` by TakePart, to `b2` by strtok_r(). */
  lemma Advance(b: seq<char>, b1: seq<char>, b2: seq<char>, b0: seq<char>, s: string, w: Work, first: string,
                pos: nat, tok: int, save: nat, end: nat, pos': nat, tok': int, save': nat, end': nat)
    requires Progress(b, b0, s, w, first, pos, tok, save, end) && tok != -1
    requires |b| == |b1| == |b2| && b1[end..] == b[end..] && pos' <= end && Shows(b1, Take(w, b[tok..end]), first, pos')
    requires Tokenized(b1, b2, save, |s|, tok', save', end')
    ensures Progress(b2, b0, s, Take(w, b[tok..end]), first, pos', tok', save', end')
  {
    hide Holds, Text, Render, Split, TakeAll, Take, LeadingSlashes, Shows;
    Unread(b, b1, b0, s, w, first, pos, tok, save, end);
    SlicesKept(b, b1, b2, b0, |s|, save, tok', save', end');
    RestAdvances(b, w, tok, save, end, |s|);
    StillDots(w, b[tok..end]);
    if tok' != -1 {
      ShowsFrame(b1, b2, Take(w, b[tok..end]), first, pos', end);
    }
  }

  lemma SlicesKept(b: seq<char>, b1: seq<char>, b2: seq<char>, b0: seq<char>, n: nat, save: nat, tok': int,
                   save': nat, end': nat)
    requires save <= n < |b| == |b1| == |b0| && b1[n] == NUL && b[save..] == b0[save..] == b1[save..]
    requires Tokenized(b1, b2, save, n, tok', save', end')
    ensures b[save..n] == b1[save..n] && b2[save'..] == b0[save'..]
    ensures tok' != -1 ==> b2[tok'..end'] == b1[tok'..end'] && b2[save'..n] == b1[save'..n] && b2[..end'] == b1[..end']
  {
    hide Split;
    assert b[save..n] == b[save..][..n - save] == b1[save..][..n - save];
    assert b2[save'..] == b1[save'..] == b1[save..][save' - save..] == b0[save..][save' - save..] == b0[save'..];
  }

  lemma RestAdvances(b: seq<char>, w: Work, tok: int, save: nat, end: nat, n: nat)
    requires 0 <= tok < end <= n && save <= n < |b|
    ensures TakeAll(w, Rest(b, tok, save, end, n)) == TakeAll(Take(w, b[tok..end]), Split(b[save..n]))
  {
    assert Rest(b, tok, save, end, n)[1..] == Split(b[save..n]);
  }

  lemma StillDots(w: Work, part: string)
    ensures Take(w, part).raw ==> w.raw && part == "." && Take(w, part) == w
  {
  }

  lemma ShowsFrame(b: seq<char>, b': seq<char>, w: Work, first: string, pos: nat, k: nat)
    requires Shows(b, w, first, pos) && |b'| == |b| && k < |b| && b'[..k + 1] == b[..k + 1]
    requires pos <= k && (w.raw ==> w.base + |first| <= k)
    ensures Shows(b', w, first, pos)
  {
    var text := if w.raw then Slashes(w.base) + first else Text(w);
    assert b'[0..0 + |text|] == b'[..k + 1][..|text|] == b[..k + 1][..|text|] == b[0..0 + |text|];
    assert b'[|text|] == b'[..k + 1][|text|] == b[..k + 1][|text|];
  }

  lemma Begin(b: seq<char>, b0: seq<char>, s: string, tok: nat, save: nat, end: nat)
    requires Holds(b0, 0, s) && s != "" && s[0] == '/' && Tokenized(b0, b, 0, |s|, tok, save, end)
    ensures Progress(b, b0, s, Start(s), b[tok..end], 0, tok, save, end)
  {
    assert forall i | 0 <= i < |s| :: s[i] == b0[0..0 + |s|][i];
    var m := LeadingSlashes(s);
    assert b[tok] == b0[tok] == s[tok];
    assert tok == m by {
      assert m < |s| ==> b0[m] == s[m] != '/';
    }
    assert b[0..0 + end] == Slashes(m) + b[tok..end];
    assert b[tok..end] == b0[tok..end] && b[save..|s|] == b0[save..|s|] && b[save..] == b0[save..];
    assert NUL !in b[tok..end] && '/' !in b[tok..end];
  }

  /** When the components are used up, the buffer holds the result, except that an empty one is still to become "/". */
  lemma Used(b: seq<char>, b0: seq<char>, s: string, w: Work, first: string, pos: nat, save: nat, end: nat)
    requires Progress(b, b0, s, w, first, pos, -1, save, end)
    ensures |b| > 1 && (forall i | |s| <= i < |b| :: b[i] == b0[i]) && b[|s|..] == b0[|s|..] && b0[|s|] == NUL
    ensures b[0] == NUL ==> Result(s) == "/"
    ensures b[0] != NUL ==> Holds(b, 0, Result(s))
  {
    assert b[|s|..] == b[save..][|s| - save..] == b0[save..][|s| - save..];
    assert forall i | |s| <= i < |b| :: b[i] == b[|s|..][i - |s|] == b0[|s|..][i - |s|] == b0[i];
    var text := if w.raw then Slashes(w.base) + first else Text(w);
    if text != "" { assert b[0] == b[0..0 + |text|][0] == text[0]; }
  }

  lemma HeldText(b: seq<char>, s: string)
    requires Holds(b, 0, s) && s != ""
    ensures |b| > 1 && |s| < |b| && b[|s|] == NUL && forall i | 0 <= i < |s| :: b[i] == s[i] && b[i] != NUL
  {
    assert forall i | 0 <= i < |s| :: b[i] == b[0..0 + |s|][i];
  }

  lemma HoldsRoot(b0: seq<char>, b: seq<char>, s: string)
    requires Holds(b0, 0, s) && s != "" && |b| == |b0| && b[0] == '/' && b[1] == NUL
    requires forall i | |s| <= i < |b| && i > 1 :: b[i] == b0[i]
    ensures Holds(b, 0, "/") && b[|s|..] == b0[|s|..]
  {
    assert b[0..1] == "/";
  }

  /** normalize_path(): the buffer holds the absolute path `s`, and then the result; nothing past the end of
      `s` is written. */
  method NormalizePath(path: array<char>, ghost s: string)
    requires Holds(path[..], 0, s) && s != "" && s[0] == '/'
    modifies path
    ensures Holds(path[..], 0, Result(s))
    ensures path[|s|..] == old(path[|s|..])
  {
    hide *;
    ghost var n, b0 := |s|, path[..];
    HeldText(b0, s);
    var currPos: nat := 0;
    var tok: int, save: nat, end: nat := StrTokR(path, 0, n);
    if tok == -1 {
      NoParts(b0, s, save, end);
      path[0], path[1] := '/', NUL;
      HoldsRoot(b0, path[..], s);
      return;
    }
    ghost var w, first := Start(s), path[tok..end];
    Begin(path[..], b0, s, tok, save, end);
    InProgress(path[..], b0, s, w, first, currPos, tok, save, end);
    var partLen := StrLen(path, tok, end);
    while tok != -1
      invariant path.Length == |b0| && Progress(path[..], b0, s, w, first, currPos, tok, save, end)
      invariant tok != -1 ==> 0 <= tok < end && partLen == end - tok
      decreases n - save, tok
    {
      ghost var b1, w1, pos1, tok1, save1, end1 := path[..], w, currPos, tok, save, end;
      InProgress(b1, b0, s, w, first, currPos, tok, save, end);
      currPos := TakePart(path, currPos, tok, partLen, w, first, save, n);
      ghost var b2 := path[..];
      Unread(b1, b2, b0, s, w1, first, pos1, tok1, save1, end1);
      tok, save, end := StrTokR(path, save, n);
      w := Take(w1, b1[tok1..end1]);
      Advance(b1, b2, path[..], b0, s, w1, first, pos1, tok1, save1, end1, currPos, tok, save, end);
      InProgress(path[..], b0, s, w, first, currPos, tok, save, end);
      if tok != -1 {
        partLen := StrLen(path, tok, end);
      } else {
        partLen := 0;
      }
    }
    Used(path[..], b0, s, w, first, currPos, save, end);
    if path[0] == NUL {
      path[0], path[1] := '/', NUL;
      HoldsRoot(b0, path[..], s);
    }
  }

  lemma NoParts(b: seq<char>, s: string, save: nat, end: nat)
    requires Holds(b, 0, s) && Tokenized(b, b, 0, |s|, -1, save, end)
    ensures Result(s) == "/"
  {
  }

  // ---------------------------------------------------------------- when the result is right

  function AfterDots(parts: seq<string>): (r: seq<string>)
    ensures (r != [] ==> r[0] != ".") && forall p | p in r :: p in parts
  {
    if parts != [] && parts[0] == "." then AfterDots(parts[1..]) else parts
  }

  /** The paths that are normalised: those with no components; otherwise there is a component other than ".",
      and if the first such is "..", every extra leading slash is used up by a ".." at the root. */
  predicate Handled(s: string) {
    var parts := Split(s);
    var proper := AfterDots(parts);
    || parts == []
    || (proper != [] && proper[0] != "..")
    || (proper != [] && LeadingSlashes(s) <= Climbs([], parts) + (if Resolve([], parts) == [] then 1 else 0))
  }

  function Less(a: nat, b: nat): nat {
    if a < b then 0 else a - b
  }

  lemma {:induction false} TakesResolve(w: Work, parts: seq<string>)
    requires !w.raw && (forall p | p in w.stack :: IsName(p)) && (forall p | p in parts :: IsPart(p))
    ensures TakeAll(w, parts) == Work(false, Less(w.base, Climbs(w.stack, parts)), Resolve(w.stack, parts))
    decreases |parts|
  {
    if parts != [] {
      TakesResolve(Take(w, parts[0]), parts[1..]);
    }
  }

  lemma {:induction false} DotsTaken(w: Work, parts: seq<string>)
    requires w.raw && w.stack == [] && forall p | p in parts :: IsPart(p)
    ensures TakeAll(w, parts) == TakeAll(w, AfterDots(parts)) && Resolve([], parts) == Resolve([], AfterDots(parts))
    ensures Climbs([], parts) == Climbs([], AfterDots(parts))
    decreases |parts|
  {
    if parts != [] && parts[0] == "." {
      DotsTaken(w, parts[1..]);
    }
  }

  /** The code leaves `base` extra slashes in front of the right text. */
  lemma WorkDone(s: string) returns (base: nat)
    requires s != "" && s[0] == '/' && AfterDots(Split(s)) != []
    ensures TakeAll(Start(s), Split(s)) == Work(false, base, Resolve([], Split(s)))
    ensures base == if AfterDots(Split(s))[0] == ".." then Less(LeadingSlashes(s), Climbs([], Split(s))) else 0
  {
    var parts := Split(s);
    var proper := AfterDots(parts);
    DotsTaken(Start(s), parts);
    var w := Take(Start(s), proper[0]);
    TakesResolve(w, proper[1..]);
    base := Less(w.base, Climbs(w.stack, proper[1..]));
    if proper[0] != ".." {
      assert [] + [proper[0]] == [proper[0]];
    }
  }

  lemma RenderEmpty(stack: seq<string>)
    ensures Render(stack) == "" <==> stack == []
  {
  }

  /** Exactly the handled paths are normalised. */
  lemma NormalizesIff(s: string)
    requires s != "" && s[0] == '/'
    ensures Result(s) == Canonical(s) <==> Handled(s)
  {
    var parts := Split(s);
    var stack := Resolve([], parts);
    RenderEmpty(stack);
    DotsTaken(Start(s), parts);
    if AfterDots(parts) != [] {
      var base := WorkDone(s);
      assert |Slashes(base) + Render(stack)| == base + |Render(stack)|;
      if base == 0 {
        assert Slashes(0) + Render(stack) == Render(stack);
      } else if stack == [] {
        assert Slashes(base) + "" == Slashes(base);
        assert base == 1 ==> Slashes(base) == "/";
      }
    }
  }

  /** Every path with one leading slash is handled, unless all its components are ".". */
  lemma OneSlashHandled(s: string)
    requires LeadingSlashes(s) == 1
    ensures Handled(s) <==> Split(s) == [] || exists p :: p in Split(s) && p != "."
  {
    SomeReal(Split(s));
    DotsTaken(Start(s), Split(s));
  }

  lemma {:induction false} SomeReal(parts: seq<string>)
    ensures AfterDots(parts) != [] <==> exists p :: p in parts && p != "."
  {
    if parts != [] && parts[0] == "." {
      SomeReal(parts[1..]);
      forall p | p in parts && p != "." ensures p in parts[1..] {
        var i :| 0 <= i < |parts| && parts[i] == p;
        assert parts[1..][i - 1] == p;
      }
      if AfterDots(parts) != [] { assert AfterDots(parts)[0] in parts; }
    } else if parts != [] {
      assert parts[0] in parts;
    }
  }

  /** Two inputs that come out wrong: "/." stays as it is, and "//../a" becomes "//a". */
  lemma NotNormalized()
    ensures Result("/.") == "/." && Canonical("/.") == "/"
    ensures Result("//../a") == "//a" && Canonical("//../a") == "/a"
  {
    OneDot();
    ClimbFromTwoSlashes();
  }

  lemma OneDot()
    ensures Result("/.") == "/." && Canonical("/.") == "/"
  {
    SplitLast("", ".");
    assert Split("") == [];
    assert "" + "/" + "." == "/.";
    assert Split("/.") == ["."];
    assert Slashes(1) + "." == "/.";
  }

  lemma ClimbFromTwoSlashes()
    ensures Result("//../a") == "//a" && Canonical("//../a") == "/a"
  {
    var s := "//../a";
    TwoParts();
    assert AfterDots(["..", "a"]) == ["..", "a"];
    var base := WorkDone(s);
    assert ["..", "a"][1..] == ["a"] && [] + ["a"] == ["a"];
    assert Resolve([], ["a"]) == ["a"];
    assert Climbs([], ["a"]) == Climbs(["a"], []) == 0;
    assert LeadingSlashes(s) == 2;
    assert Render(["a"]) == "/a" by { assert ["a"][..0] == []; }
    assert Slashes(1) + "/a" == "//a";
  }

  lemma TwoParts()
    ensures Split("//../a") == ["..", "a"]
  {
    hide Split, Span;
    SplitLast("/", "..");
    SplitLast("/" + "/" + "..", "a");
    OnlySlash();
    assert "/" + "/" + ".." + "/" + "a" == "//../a";
  }

  lemma OnlySlash()
    ensures Split("/") == []
  {
    assert Split("") == [];
  }

  // ---------------------------------------------------------------- normalising again

  lemma {:induction false} SplitLast(x: string, p: string)
    requires IsPart(p)
    ensures Split(x + "/" + p) == Split(x) + [p]
    decreases |x|
  {
    var t := x + "/" + p;
    if x == "" {
      assert t[1..] == p;
      SplitFirst(p, |p|);
      assert p[..|p|] == p && p[|p|..] == "";
    } else if x[0] == '/' {
      assert t[1..] == x[1..] + "/" + p;
      SplitLast(x[1..], p);
    } else {
      var k := Span(x);
      assert t[..k] == x[..k] && t[k..] == x[k..] + "/" + p;
      SplitFirst(t, k);
      SplitLast(x[k..], p);
    }
  }

  lemma {:induction false} SplitRender(stack: seq<string>)
    requires forall p | p in stack :: IsName(p)
    ensures Split(Render(stack)) == stack && Resolve([], stack) == stack
    ensures stack != [] ==> Render(stack)[0] == '/' && IsName(stack[0])
  {
    ResolveNames([], stack);
    if stack != [] {
      var front, p := stack[..|stack| - 1], stack[|stack| - 1];
      assert p in stack && stack[0] in stack;
      SplitRender(front);
      SplitLast(Render(front), p);
    }
  }

  lemma {:induction false} ResolveNames(stack: seq<string>, names: seq<string>)
    requires forall p | p in stack :: IsName(p)
    requires forall p | p in names :: IsName(p) && IsPart(p)
    ensures Resolve(stack, names) == stack + names
    decreases |names|
  {
    if names != [] {
      assert names[0] in names;
      assert stack + [names[0]] + names[1..] == stack + names;
      ResolveNames(stack + [names[0]], names[1..]);
    }
  }

  /** A normalised path is "/" or names each after a slash, and normalising it again changes nothing. */
  lemma Idempotent(s: string)
    requires s != "" && s[0] == '/' && Handled(s)
    ensures var r := Result(s);
            r != "" && r[0] == '/' && Split(r) == Resolve([], Split(s)) && Result(r) == r
  {
    NormalizesIff(s);
    var stack := Resolve([], Split(s));
    SplitRender(stack);
    var r := Result(s);
    if stack == [] {
      assert Split("/") == Split("") == [];
    } else {
      RenderEmpty(stack);
    }
    NormalizesIff(r);
  }

  // ---------------------------------------------------------------- what the functions above mean, from the end

  lemma {:induction false} SplitSlash(x: string)
    ensures Split(x + "/") == Split(x)
    decreases |x|
  {
    var t := x + "/";
    if x == "" {
      assert t[1..] == "";
    } else if x[0] == '/' {
      assert t[1..] == x[1..] + "/";
      SplitSlash(x[1..]);
    } else {
      var k := Span(x);
      assert t[..k] == x[..k] && t[k..] == x[k..] + "/";
      SplitFirst(t, k);
      SplitSlash(x[k..]);
    }
  }

  /** The components of a path: a further one, a further slash, and to begin with none. */
  lemma SplitIs(x: string, p: string)
    requires p != "" && '/' !in p
    ensures Split("") == [] && Split(p) == [p] && Split(x + "/") == Split(x) && Split(x + "/" + p) == Split(x) + [p]
  {
    SplitLast(x, p);
    SplitSlash(x);
    SplitFirst(p, |p|);
    assert p[..|p|] == p && p[|p|..] == "";
  }

  lemma {:induction false} ResolveEnd(stack: seq<string>, parts: seq<string>, p: string)
    requires (forall q | q in stack :: IsName(q)) && (forall q | q in parts :: IsPart(q)) && IsPart(p)
    ensures forall q | q in parts + [p] :: IsPart(q)
    ensures var r := Resolve(stack, parts);
            && Resolve(stack, parts + [p]) == (if p == "." then r
                                               else if p == ".." then (if r == [] then [] else r[..|r| - 1])
                                               else r + [p])
            && Climbs(stack, parts + [p]) == Climbs(stack, parts) + if p == ".." && r == [] then 1 else 0
    decreases |parts|
  {
    var all := parts + [p];
    if parts == [] {
      assert all == [p] && all[1..] == [];
    } else {
      var q, rest := parts[0], parts[1..];
      assert q in parts && all[0] == q && all[1..] == rest + [p];
      if q == "." {
        ResolveEnd(stack, rest, p);
      } else if q == ".." {
        ResolveEnd(if stack == [] then [] else stack[..|stack| - 1], rest, p);
      } else {
        ResolveEnd(stack + [q], rest, p);
      }
    }
  }

  /** A further "." does nothing, a further ".." drops the last component or, at the root, nothing, which is then
      one climb more; and a further name is a component more. */
  lemma ResolveIs(parts: seq<string>, p: string)
    requires (forall q | q in parts :: q != "" && '/' !in q) && p != "" && '/' !in p
    ensures Resolve([], []) == [] && Climbs([], []) == 0
    ensures forall q | q in parts + [p] :: IsPart(q)
    ensures var r := Resolve([], parts);
            && Resolve([], parts + [p]) == (if p == "." then r
                                            else if p == ".." then (if r == [] then [] else r[..|r| - 1])
                                            else r + [p])
            && Climbs([], parts + [p]) == Climbs([], parts) + if p == ".." && r == [] then 1 else 0
  {
    assert forall q | q in parts :: IsPart(q);
    ResolveEnd([], parts, p);
  }

  /** No two slashes in a row, and none at the end. */
  ghost predicate Tidy(r: string) {
    (forall i | 0 <= i < |r| - 1 :: !(r[i] == '/' && r[i + 1] == '/')) && (r != "" ==> r[|r| - 1] != '/')
  }

  lemma {:induction false} RenderTidy(stack: seq<string>)
    requires forall p | p in stack :: IsName(p)
    ensures Tidy(Render(stack))
  {
    if stack != [] {
      var front, p := stack[..|stack| - 1], stack[|stack| - 1];
      assert p in stack;
      RenderTidy(front);
      var r, r0 := Render(stack), Render(front);
      assert r == r0 + ("/" + p);
      forall i | 0 <= i < |r| - 1 ensures !(r[i] == '/' && r[i + 1] == '/') {
        if i > |r0| { assert r[i] == p[i - |r0| - 1]; }
        if i == |r0| { assert r[i + 1] == p[0]; }
      }
      assert r[|r| - 1] == p[|p| - 1];
    }
  }

  /** The canonical path is absolute, has the resolved components and no superfluous slash. */
  lemma CanonicalIs(s: string)
    ensures var r := Canonical(s);
            && r != "" && r[0] == '/' && Split(r) == Resolve([], Split(s))
            && (r == "/" || r[|r| - 1] != '/') && forall i | 0 <= i < |r| - 1 :: !(r[i] == '/' && r[i + 1] == '/')
  {
    var stack := Resolve([], Split(s));
    SplitRender(stack);
    RenderTidy(stack);
    OnlySlash();
    RenderEmpty(stack);
  }

  /** What the program makes of a path: the canonical one, if the first component other than "." is a name or
      there is none at all; "." after the leading slashes, if there are only "."; and if the first one other than
      "." is "..", the leading slashes less one for each climb, and then the resolved components. */
  lemma ResultIs(s: string)
    requires s != "" && s[0] == '/'
    ensures Split(s) == [] ==> Result(s) == "/"
    ensures Split(s) != [] && (forall p | p in Split(s) :: p == ".") ==>
              Result(s) == seq(LeadingSlashes(s), i => '/') + "."
    ensures forall i | 0 <= i < |Split(s)| && Split(s)[i] != "." && (forall j | 0 <= j < i :: Split(s)[j] == ".") ::
              var stack, extra := Resolve([], Split(s)), LeadingSlashes(s) - Climbs([], Split(s));
              Result(s) == if Split(s)[i] != ".." || extra <= 0 then Canonical(s)
                           else seq(extra, i => '/') + if stack == [] then "" else Canonical(s)
  {
    hide Split, LeadingSlashes, Climbs, Resolve, Result, Canonical, TakeAll, AfterDots, Start;
    ResultOfDots(s);
    forall i | 0 <= i < |Split(s)| && Split(s)[i] != "." && (forall j | 0 <= j < i :: Split(s)[j] == ".")
      ensures var stack, extra := Resolve([], Split(s)), LeadingSlashes(s) - Climbs([], Split(s));
              Result(s) == if Split(s)[i] != ".." || extra <= 0 then Canonical(s)
                           else seq(extra, i => '/') + if stack == [] then "" else Canonical(s)
    {
      ResultFrom(s, i);
    }
  }

  lemma ResultOfDots(s: string)
    requires s != "" && s[0] == '/'
    ensures Split(s) == [] ==> Result(s) == "/"
    ensures Split(s) != [] && (forall p | p in Split(s) :: p == ".") ==>
              Result(s) == seq(LeadingSlashes(s), i => '/') + "."
  {
    DotsTaken(Start(s), Split(s));
    SomeReal(Split(s));
  }

  lemma ResultFrom(s: string, i: nat)
    requires s != "" && s[0] == '/' && i < |Split(s)| && Split(s)[i] != "."
    requires forall j | 0 <= j < i :: Split(s)[j] == "."
    ensures var stack, extra := Resolve([], Split(s)), LeadingSlashes(s) - Climbs([], Split(s));
            Result(s) == if Split(s)[i] != ".." || extra <= 0 then Canonical(s)
                         else seq(extra, i => '/') + if stack == [] then "" else Canonical(s)
  {
    AfterDotsAt(Split(s), i);
    var base := WorkDone(s);
    hide Split, LeadingSlashes, Climbs, Resolve, TakeAll, AfterDots;
    var stack := Resolve([], Split(s));
    RenderEmpty(stack);
    assert Slashes(base) == seq(base, i => '/');
    assert base == 0 ==> Slashes(base) + Render(stack) == Render(stack);
  }

  lemma {:induction false} AfterDotsAt(parts: seq<string>, i: nat)
    requires i < |parts| && parts[i] != "." && forall j | 0 <= j < i :: parts[j] == "."
    ensures AfterDots(parts) == parts[i..]
  {
    if i > 0 {
      assert parts[0] == ".";
      AfterDotsAt(parts[1..], i - 1);
    }
  }
}
