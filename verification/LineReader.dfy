/** Reading lines from a descriptor: readLine(), which reads byte by byte, and readLineBuf(), which reads
    blocks into a buffer of its own; chapter_59/read_line_mod.c. */
module LineReader {

  const NEWLINE := '\n'
  const NUL := '\0'
  const SIZE_MAX := 0xffff_ffff_ffff_ffff

  // ---------------------------------------------------------------- lines

  /** Up to and with the first newline; all of it, if there is none. */
  function FirstLine(s: string): (line: string)
    ensures line <= s && (s != "" ==> line != "")
  {
    if s == "" then ""
    else if s[0] == NEWLINE then [NEWLINE]
    else [s[0]] + FirstLine(s[1..])
  }

  /** The line at the front ends with the first newline, or with the text. */
  lemma {:induction false} FirstLineEnds(s: string)
    ensures var line := FirstLine(s);
            && line <= s && (s != "" ==> line != "") && '\n' !in line[..if line == "" then 0 else |line| - 1]
            && (|line| < |s| ==> line[|line| - 1] == '\n')
  {
    if s != "" && s[0] != NEWLINE {
      var rest := FirstLine(s[1..]);
      FirstLineEnds(s[1..]);
      assert FirstLine(s) == [s[0]] + rest;
      if rest != "" { assert ([s[0]] + rest)[..|rest|] == [s[0]] + rest[..|rest| - 1]; }
    }
  }

  predicate Terminated(line: string) {
    line != "" && line[|line| - 1] == NEWLINE
  }

  function Lines(s: string): (lines: seq<string>)
    decreases |s|
  {
    if s == "" then [] else [FirstLine(s)] + Lines(s[|FirstLine(s)|..])
  }

  function Concat(lines: seq<string>): string {
    if lines == [] then "" else lines[0] + Concat(lines[1..])
  }

  lemma {:induction false} LinesConcat(s: string)
    ensures Concat(Lines(s)) == s
    decreases |s|
  {
    hide FirstLine;
    if s != "" {
      var line := FirstLine(s);
      LinesConcat(s[|line|..]);
      var lines := Lines(s);
      assert lines == [line] + Lines(s[|line|..]);
      assert lines[1..] == Lines(s[|line|..]);
      assert s == line + s[|line|..];
    }
  }

  lemma {:induction false} FirstLineIs(s: string, k: nat)
    requires k <= |s| && NEWLINE !in s[..k] && (k < |s| ==> s[k] == NEWLINE)
    ensures FirstLine(s) == if k < |s| then s[..k + 1] else s
  {
    if k == 0 {
      assert s != "" ==> s[..1] == [NEWLINE];
    } else {
      assert s[0] == s[..k][0] && s[1..][..k - 1] == s[..k][1..];
      FirstLineIs(s[1..], k - 1);
      assert s == [s[0]] + s[1..];
      if k < |s| { assert s[..k + 1] == [s[0]] + s[1..][..k]; }
    }
  }

  // ---------------------------------------------------------------- descriptors

  /** An open descriptor, with the bytes still to come. */
  class Descriptor {
    var rest: string

    constructor (bytes: string)
      ensures rest == bytes
    {
      rest := bytes;
    }

    /** read(): any number of bytes from 1 to `count`; 0 at the end only. */
    method Read(b: array<char>, count: nat) returns (k: nat)
      requires 0 < count <= b.Length
      modifies this, b
      ensures k <= count && k <= |old(rest)| && (k == 0 <==> old(rest) == "")
      ensures b[..k] == old(rest)[..k] && rest == old(rest)[k..]
    {
      if rest == "" { return 0; }
      k :| 1 <= k <= count && k <= |rest|;
      var i := 0;
      while i < k
        invariant i <= k <= |rest| && rest == old(rest) && b[..i] == rest[..i]
      {
        b[i] := rest[i];
        i := i + 1;
      }
      rest := rest[k..];
    }
  }

  function Cut(line: string, n: nat): string {
    if |line| < n then line else line[..n]
  }

  /** The line at the front of `s`, once `k` bytes without a newline have been seen and the next is one, or
      there is none. */
  lemma LineSeen(s: string, k: nat)
    requires k <= |s| && NEWLINE !in s[..k] && (k < |s| ==> s[k] == NEWLINE)
    ensures var len := if k < |s| then k + 1 else k;
            FirstLine(s) == s[..len] && (Terminated(FirstLine(s)) <==> k < |s|)
            && forall n | 0 <= n :: Cut(FirstLine(s), n) == s[..if len < n then len else n]
  {
    hide FirstLine, Cut;
    FirstLineIs(s, k);
    assert s[..|s|] == s;
    if k == |s| && k > 0 { assert s[..k][k - 1] != NEWLINE; }
    var len := if k < |s| then k + 1 else k;
    forall n | 0 <= n ensures Cut(s[..len], n) == s[..if len < n then len else n] { CutPrefix(s, len, n); }
  }

  lemma CutPrefix(s: string, len: nat, n: nat)
    requires len <= |s|
    ensures Cut(s[..len], n) == s[..if len < n then len else n]
  {
  }

  /** readLine(). The first n - 1 bytes of the line go into `buffer`, the rest are dropped; -1 is EINVAL. */
  method ReadLine(fd: Descriptor, buffer: array?<char>, n: nat) returns (r: int)
    requires buffer != null ==> n <= buffer.Length
    modifies fd, buffer
    ensures n == 0 || buffer == null ==> r == -1 && fd.rest == old(fd.rest)
    ensures n > 0 && buffer != null ==>
              var line := FirstLine(old(fd.rest));
              r == |Cut(line, n - 1)| && buffer[..r] == Cut(line, n - 1) && fd.rest == old(fd.rest)[|line|..]
              && (r > 0 || Terminated(line) ==> buffer[r] == NUL)
  {
    hide FirstLine, Terminated, Cut;
    if n == 0 || buffer == null {
      return -1;
    }
    var totRead := 0;
    var ch := new char[1];
    ghost var was: string, k: nat := fd.rest, 0;
    while true
      invariant k <= |was| && fd.rest == was[k..] && NEWLINE !in was[..k]
      invariant totRead == (if k < n then k else n - 1) && buffer[..totRead] == was[..totRead]
      decreases |fd.rest|
    {
      var numRead := fd.Read(ch, 1);
      if numRead == 0 {
        LineSeen(was, k);
        if totRead == 0 {
          return 0;
        }
        break;
      }
      assert ch[0] == ch[..1][0] == was[k..][..1][0] == was[k];
      if totRead < n - 1 {
        buffer[totRead] := ch[0];
        totRead := totRead + 1;
        assert buffer[..totRead - 1] == was[..totRead - 1];
      }
      if ch[0] == NEWLINE {
        LineSeen(was, k);
        break;
      }
      k := k + 1;
    }
    buffer[totRead] := NUL;
    return totRead;
  }

  /** memchr() for a newline in b[from..to]; -1 is NULL. */
  method MemChr(b: array<char>, from: nat, to: nat) returns (p: int)
    requires from <= to <= b.Length
    ensures p == -1 || (from <= p < to && b[p] == NEWLINE)
    ensures NEWLINE !in b[from..if p == -1 then to else p]
  {
    p := from;
    while p < to
      invariant from <= p <= to && NEWLINE !in b[from..p]
    {
      if b[p] == NEWLINE { return; }
      p := p + 1;
    }
    p := -1;
  }

  /** memcpy() between two buffers. */
  method MemCpy(dst: array<char>, at: nat, src: array<char>, from: nat, count: nat)
    requires dst != src && at + count <= dst.Length && from + count <= src.Length
    modifies dst
    ensures dst[..at + count] == old(dst[..at]) + src[from..from + count]
  {
    for i := 0 to count
      invariant dst[..at + i] == old(dst[..at]) + src[from..from + i]
    {
      dst[at + i] := src[from + i];
    }
  }

  /** struct rl_buf: the bytes buf[next..end] have been read and not returned; `next` is -1 for NULL. */
  class RlBuf {
    const fd: Descriptor
    const buf: array<char>
    var next: int
    var end: nat

    ghost predicate Valid()
      reads this
    {
      buf.Length > 0 && -1 <= next && (next != -1 ==> next <= end <= buf.Length)
    }

    /** What this reader has still to return. */
    ghost function Remaining(): string
      reads this, buf, fd
      requires Valid()
    {
      (if next == -1 then "" else buf[next..end]) + fd.rest
    }

    /** readLineBufInit() */
    constructor (fd: Descriptor, size: nat)
      requires size > 0
      ensures Valid() && Remaining() == fd.rest && this.fd == fd && fresh(buf)
      ensures next == -1 && buf.Length == size
    {
      this.fd := fd;
      next, end := -1, 0;
      buf := new char[size];
    }

    /** Fetches a block when none is left; at the end of the input `next` stays NULL. */
    method Refill()
      requires Valid() && next == -1
      modifies this, buf, fd
      ensures Valid() && Remaining() == old(Remaining())
      ensures if old(Remaining()) == "" then next == -1 else 0 <= next < end
    {
      var readSize := fd.Read(buf, buf.Length);
      if readSize > 0 {
        next, end := 0, readSize;
      }
      assert old(fd.rest) == old(fd.rest)[..readSize] + old(fd.rest)[readSize..];
    }

    /** memchr() over the bytes in the buffer; `len` is the length of what precedes the newline, or of all. */
    method FindNewline() returns (found: bool, len: nat)
      requires Valid() && next != -1
      ensures len <= end - next && len <= |Remaining()| && NEWLINE !in Remaining()[..len]
      ensures if found then len < end - next && len < |Remaining()| && Remaining()[len] == NEWLINE
              else len == end - next
    {
      var p := MemChr(buf, next, end);
      found := p != -1;
      len := if found then p - next else end - next;
      assert Remaining()[..len] == buf[next..next + len];
    }

    /** Copies bytes of the buffer out; `drop` when what remains of it is to be forgotten. */
    method CopyOut(buffer: array<char>, at: nat, count: nat, drop: bool)
      requires Valid() && next != -1 && count <= end - next && buffer != buf && at + count <= buffer.Length
      modifies this, buffer
      ensures Valid() && next == (if drop then -1 else old(next) + count)
      ensures var gone := if drop then old(end - next) else count;
              count <= gone <= |old(Remaining())| && Remaining() == old(Remaining())[gone..]
      ensures buffer[..at + count] == old(buffer[..at]) + old(Remaining())[..count]
    {
      MemCpy(buffer, at, buf, next, count);
      next := if drop then -1 else next + count;
    }

    /** `totRead` bytes of the line at the front of `was` have been copied, and the line goes on. Of the input
        `taken` bytes are gone, more than that only if the output is full. */
    ghost predicate Partway(was: string, buffer: array<char>, totRead: nat, taken: nat, n: nat)
      reads this, buf, fd, buffer
    {
      && Valid() && (totRead == 0 || totRead < n) && n <= buffer.Length && buffer != buf
      && totRead <= taken <= |was| && (taken > totRead ==> totRead + 1 == n)
      && NEWLINE !in was[..taken] && buffer[..totRead] == was[..totRead] && Remaining() == was[taken..]
    }

    /** What readLineBuf() has done when it has copied the whole line at the front of `was`. */
    ghost predicate Returned(was: string, buffer: array<char>)
      reads this, buf, fd, buffer
    {
      && Valid() && |FirstLine(was)| < buffer.Length && Remaining() == was[|FirstLine(was)|..]
      && buffer[..|FirstLine(was)|] == FirstLine(was)
      && (FirstLine(was) != "" ==> buffer[|FirstLine(was)|] == NUL)
    }

    /** What it has done when the line is longer: the output is full, and the input has lost at least as much, but
        not the newline. */
    ghost predicate Truncated(was: string, buffer: array<char>, n: nat, taken: nat)
      reads this, buf, fd, buffer
    {
      && Valid() && 0 < n <= buffer.Length && n - 1 <= taken <= |FirstLine(was)| <= |was| && NEWLINE !in was[..taken]
      && buffer[..n - 1] == was[..n - 1] && buffer[n - 1] == NUL && Remaining() == was[taken..]
    }

    lemma ReturnedIs(was: string, buffer: array<char>)
      requires Returned(was, buffer)
      ensures var line := FirstLine(was);
              && |line| < buffer.Length && |line| <= |was| && Remaining() == was[|line|..]
              && buffer[..|line|] == line && (line != "" ==> buffer[|line|] == '\0')
    {
    }

    lemma TruncatedIs(was: string, buffer: array<char>, n: nat, taken: nat)
      requires Truncated(was, buffer, n, taken)
      ensures 0 < n <= buffer.Length && n - 1 <= taken <= |was| && '\n' !in was[..taken]
      ensures buffer[..n - 1] == was[..n - 1] && buffer[n - 1] == '\0' && Remaining() == was[taken..]
    {
    }

    /** The newline is `len` bytes ahead, and there is room for the line. */
    method CopyLine(buffer: array<char>, totRead: nat, len: nat, ghost was: string, ghost n: nat) returns (tot: nat)
      requires Partway(was, buffer, totRead, totRead, n) && next != -1 && len < end - next && len < |Remaining()|
      requires NEWLINE !in Remaining()[..len] && Remaining()[len] == NEWLINE && totRead + len + 2 <= n
      modifies this, buffer
      ensures Valid() && Returned(was, buffer) && tot == |FirstLine(was)| < n && Terminated(FirstLine(was))
    {
      hide FirstLine, Terminated, Cut, Remaining;
      NoNewline(was, totRead, len);
      LineSeen(was, totRead + len);
      CopyOut(buffer, totRead, len + 1, false);
      assert was[..totRead] + was[totRead..][..len + 1] == was[..totRead + len + 1];
      tot := totRead + len + 1;
      buffer[tot] := NUL;
    }

    /** There is no newline in the buffer; as much of it as there is room for is copied, and all of it dropped. */
    method CopyBlock(buffer: array<char>, totRead: nat, maxCopy: nat, ghost was: string, ghost n: nat)
        returns (tot: nat, ghost taken: nat)
      requires Partway(was, buffer, totRead, totRead, n) && next != -1 && maxCopy <= end - next
      requires end - next <= |Remaining()| && NEWLINE !in Remaining()[..end - next]
      requires maxCopy == 0 || totRead + maxCopy < n
      requires maxCopy < end - next ==> totRead + maxCopy + 1 == n
      modifies this, buffer
      ensures Partway(was, buffer, tot, taken, n) && next == -1
      ensures tot == totRead + maxCopy && taken == totRead + old(end - next)
    {
      hide Remaining;
      taken := totRead + (end - next);
      assert was[..taken] == was[..totRead] + was[totRead..][..end - next];
      CopyOut(buffer, totRead, maxCopy, true);
      assert was[..totRead] + was[totRead..][..maxCopy] == was[..totRead + maxCopy];
      tot := totRead + maxCopy;
    }

    /** The end of the line has been copied already, without a newline. */
    method EndUnterminated(buffer: array<char>, totRead: nat, ghost was: string, ghost n: nat)
      requires Partway(was, buffer, totRead, totRead, n) && totRead < n && Remaining() == ""
      modifies buffer
      ensures Returned(was, buffer) && totRead == |FirstLine(was)| && !Terminated(FirstLine(was))
    {
      LineSeen(was, totRead);
      buffer[totRead] := NUL;
    }

    /** All n - 1 bytes are used up. */
    method EndFull(buffer: array<char>, totRead: nat, ghost taken: nat, ghost was: string, ghost n: nat)
      requires Partway(was, buffer, totRead, taken, n) && totRead + 1 == n
      modifies buffer
      ensures if |FirstLine(was)| < n
              then Returned(was, buffer) && |FirstLine(was)| == totRead == taken && !Terminated(FirstLine(was))
              else Truncated(was, buffer, n, taken)
    {
      hide FirstLine, Terminated, Cut, Remaining;
      NoNewline(was, taken, 0);
      if taken == |was| { LineSeen(was, taken); }
      buffer[totRead] := NUL;
      LineInside(was);
    }

    lemma NothingRead(was: string, buffer: array<char>, n: nat)
      requires Partway(was, buffer, 0, 0, n) && Remaining() == ""
      ensures was == FirstLine(was) == "" && !Terminated("")
    {
      assert was[0..] == was;
    }

    /** readLineBuf(): the line in `buffer`, and its length; but a line that fills all n - 1 bytes without a
        newline is reported one short. For a longer one, `taken` is where the block ends that fills the output.
        If the newline comes later, the line is cut, also reported one short, and the rest of the block is lost;
        if the block has the newline, the program copies the line past the n bytes that it has. Here it stops
        instead, with `overran`. */
    method ReadLineBuf(buffer: array<char>, n: nat) returns (r: int, overran: bool, ghost taken: nat)
      requires Valid() && n <= buffer.Length && buffer != buf
      modifies this, buf, fd, buffer
      ensures Valid()
      ensures var line := FirstLine(old(Remaining()));
              |line| < n ==>
                !overran && Returned(old(Remaining()), buffer)
                && r == if |line| == n - 1 && !Terminated(line) then |line| - 1 else |line|
      ensures |FirstLine(old(Remaining()))| >= n > 0 ==>
                && n - 1 <= taken <= |old(Remaining())|
                && (overran <==> NEWLINE in old(Remaining())[..taken])
                && (!overran ==> r == n - 2 && Truncated(old(Remaining()), buffer, n, taken))
                && (old(next != -1 && 0 < n - 1 <= end - next) ==> taken == old(end - next))
      ensures n == 1 ==> taken == 0
      ensures n == 0 ==> (overran <==> old(Remaining()) != "") && (!overran ==> r == 0 && Remaining() == "")
    {
      hide FirstLine, Terminated, Returned, Truncated, Remaining, Partway;
      var totRead: nat := 0;
      taken := 0;
      ghost var was := Remaining();
      var limit := if n == 0 then SIZE_MAX else n - 1;    // n - 1 is a size_t
      Starts(buffer, n);
      while totRead < limit
        invariant Valid() && Partway(was, buffer, totRead, taken, n)
        invariant limit == 0 ==> taken == 0
        invariant old(next != -1 && 0 < n - 1 <= end - next) ==>
                    if totRead == 0 then next == old(next) && end == old(end) else taken == old(end - next)
        decreases |was| - taken, next != -1
      {
        PartwayFacts(was, buffer, totRead, taken, n);
        if next == -1 {
          RefillPartway(buffer, totRead, was, n);
          if next == -1 {
            if totRead > 0 {
              EndUnterminated(buffer, totRead, was, n);
              return totRead, false, taken;
            }
            NothingRead(was, buffer, n);
            NothingReturned(was, buffer, n);
            return 0, false, taken;
          }
        }
        var found, len := FindNewline();
        LineAhead(was, buffer, totRead, n, len, found);
        if found {
          if totRead + len + 2 > n {
            return 0, true, totRead + (end - next);
          }
          totRead := CopyLine(buffer, totRead, len, was, n);
          return totRead, false, taken;
        }
        var availableInBuffer := end - next;
        var spaceInOutput := limit - totRead;
        var maxCopy := if availableInBuffer > spaceInOutput then spaceInOutput else availableInBuffer;
        if maxCopy > 0 && totRead + maxCopy > n {
          return 0, true, taken;
        }
        totRead, taken := CopyBlock(buffer, totRead, maxCopy, was, n);
      }
      PartwayFull(was, buffer, totRead, taken, n);
      EndFull(buffer, totRead, taken, was, n);
      TruncatedFacts(was, buffer, n, taken);
      return totRead - 1, false, taken;
    }

    lemma Starts(buffer: array<char>, n: nat)
      requires Valid() && n <= buffer.Length && buffer != buf
      ensures Partway(Remaining(), buffer, 0, 0, n)
    {
    }

    lemma PartwayFacts(was: string, buffer: array<char>, totRead: nat, taken: nat, n: nat)
      requires Partway(was, buffer, totRead, taken, n)
      ensures totRead <= taken <= |was| && (totRead == 0 || totRead < n) && (taken > totRead ==> totRead + 1 == n)
      ensures Remaining() == was[taken..] && |Remaining()| == |was| - taken
    {
    }

    lemma TruncatedFacts(was: string, buffer: array<char>, n: nat, taken: nat)
      requires n > 0 && (|FirstLine(was)| >= n ==> Truncated(was, buffer, n, taken))
      ensures |FirstLine(was)| >= n ==> n - 1 <= taken <= |was| && NEWLINE !in was[..taken]
    {
    }

    lemma PartwayFull(was: string, buffer: array<char>, totRead: nat, taken: nat, n: nat)
      requires Partway(was, buffer, totRead, taken, n) && totRead >= if n == 0 then SIZE_MAX else n - 1
      ensures totRead + 1 == n
    {
    }

    method RefillPartway(buffer: array<char>, ghost totRead: nat, ghost was: string, ghost n: nat)
      requires Partway(was, buffer, totRead, totRead, n) && next == -1
      modifies this, buf, fd
      ensures Valid() && Partway(was, buffer, totRead, totRead, n)
      ensures if Remaining() == "" then next == -1 else 0 <= next < end
    {
      hide Remaining;
      Refill();
    }

    lemma NothingReturned(was: string, buffer: array<char>, n: nat)
      requires Partway(was, buffer, 0, 0, n) && was == FirstLine(was) == "" && Remaining() == ""
      ensures n > 0 ==> Returned(was, buffer)
    {
    }

    /** The line is at least as long as what has been seen of it. */
    lemma LineAhead(was: string, buffer: array<char>, totRead: nat, n: nat, len: nat, found: bool)
      requires Partway(was, buffer, totRead, totRead, n) && next != -1 && len <= |Remaining()|
      requires NEWLINE !in Remaining()[..len] && (found ==> len < |Remaining()| && Remaining()[len] == NEWLINE)
      ensures totRead + len <= |FirstLine(was)| && (found ==> |FirstLine(was)| == totRead + len + 1)
      ensures was == "" ==> FirstLine(was) == "" && Remaining() == ""
      ensures totRead + (end - next) <= |was|
      ensures found && len < end - next ==> NEWLINE in was[..totRead + (end - next)]
    {
      NoNewline(was, totRead, len);
      if found {
        LineSeen(was, totRead + len);
        assert was[totRead + len] == NEWLINE;
        if len < end - next { assert was[..totRead + (end - next)][totRead + len] == NEWLINE; }
      }
    }
  }

  lemma LineInside(s: string)
    ensures |FirstLine(s)| <= |s|
  {
  }

  /** If the line does not end within the next `d` bytes, it is longer. */
  lemma NoNewline(s: string, k: nat, d: nat)
    requires k + d <= |s| && NEWLINE !in s[..k] && NEWLINE !in s[k..][..d]
    ensures NEWLINE !in s[..k + d] && |FirstLine(s)| >= k + d && (k + d < |s| ==> |FirstLine(s)| > k + d)
  {
    assert s[..k + d] == s[..k] + s[k..][..d];
    LineAtLeast(s, k + d);
  }

  lemma {:induction false} LineAtLeast(s: string, k: nat)
    requires k <= |s| && NEWLINE !in s[..k]
    ensures |FirstLine(s)| >= k && (k < |s| ==> |FirstLine(s)| > k)
  {
    if k > 0 {
      assert s[0] == s[..k][0] && s[1..][..k - 1] == s[..k][1..];
      LineAtLeast(s[1..], k - 1);
    }
  }

  // ---------------------------------------------------------------- successive calls

  /** The lines that readLineBuf() gets right: newline and all, at most n - 1 bytes, and without a newline at most
      n - 2. */
  predicate FitsLine(line: string, n: nat) {
    |line| < n && (!Terminated(line) ==> |line| < n - 1)
  }

  predicate Fits(s: string, n: nat) {
    forall line | line in Lines(s) :: FitsLine(line, n)
  }

  /** What readLine() makes of the lines. */
  function CutAll(lines: seq<string>, n: nat): seq<string> {
    if lines == [] then [] else [Cut(lines[0], n)] + CutAll(lines[1..], n)
  }

  lemma {:induction false} CutAllIs(lines: seq<string>, n: nat)
    ensures |CutAll(lines, n)| == |lines|
    ensures forall i | 0 <= i < |lines| ::
              CutAll(lines, n)[i] == if |lines[i]| < n then lines[i] else lines[i][..n]
  {
    if lines != [] {
      CutAllIs(lines[1..], n);
      forall i | 0 <= i < |lines|
        ensures CutAll(lines, n)[i] == if |lines[i]| < n then lines[i] else lines[i][..n]
      {
        if i > 0 { assert CutAll(lines, n)[i] == CutAll(lines[1..], n)[i - 1] && lines[1..][i - 1] == lines[i]; }
      }
    }
  }

  lemma FitsIs(s: string, n: nat)
    ensures Fits(s, n) <==> forall line | line in Lines(s) ::
              |line| < n && ((line != "" && line[|line| - 1] == '\n') || |line| < n - 1)
  {
  }

  lemma NextLine(s: string, n: nat)
    requires s != "" && n > 0
    ensures var line := FirstLine(s);
            && line != "" && |line| <= |s|
            && Lines(s) == [line] + Lines(s[|line|..])
            && CutAll(Lines(s), n - 1) == [Cut(line, n - 1)] + CutAll(Lines(s[|line|..]), n - 1)
            && (Fits(s, n) <==> FitsLine(line, n) && Fits(s[|line|..], n))
            && (|line| < n ==> Cut(line, n - 1) == line) && (|line| >= n ==> |Cut(line, n - 1)| == n - 1)
  {
    var line := FirstLine(s);
    assert Lines(s)[0] == line;
    assert Lines(s)[1..] == Lines(s[|line|..]);
  }

  lemma AtEnd(n: nat)
    ensures FirstLine("") == "" && Lines("") == [] && Cut("", n) == "" && CutAll([], n) == []
    ensures forall m: nat :: Fits("", m)
  {
  }

  /** Calling readLine() until it returns 0 or fails; with no room for a byte that is at once. */
  method AllByReadLine(fd: Descriptor, buffer: array<char>, n: nat) returns (lines: seq<string>)
    requires n <= buffer.Length
    modifies fd, buffer
    ensures n > 1 ==> lines == CutAll(Lines(old(fd.rest)), n - 1) && fd.rest == ""
    ensures n == 1 ==> lines == [] && fd.rest == old(fd.rest)[|FirstLine(old(fd.rest))|..]
    ensures n == 0 ==> lines == [] && fd.rest == old(fd.rest)
  {
    hide FirstLine, Lines, Fits, CutAll, FitsLine;
    lines := [];
    if n <= 1 {
      var r := ReadLine(fd, buffer, n);
      assert r <= 0;
      return;
    }
    hide Cut;
    AtEnd(n - 1);
    while true
      invariant lines + CutAll(Lines(fd.rest), n - 1) == CutAll(Lines(old(fd.rest)), n - 1)
      decreases |fd.rest|
    {
      ghost var s := fd.rest;
      if s != "" {
        NextLine(s, n);
        CutSome(FirstLine(s), n - 1);
      }
      var r := ReadLine(fd, buffer, n);
      if r <= 0 {
        return;
      }
      lines := lines + [buffer[..r]];
    }
  }

  lemma CutSome(line: string, n: nat)
    requires line != "" && n > 0
    ensures Cut(line, n) != ""
  {
  }

  lemma {:induction false} FitsUncut(s: string, n: nat)
    requires n > 0
    ensures Fits(s, n) ==> CutAll(Lines(s), n - 1) == Lines(s)
    decreases |s|
  {
    hide FirstLine, Fits, FitsLine, Cut, CutAll, Lines;
    AtEnd(n - 1);
    if s != "" {
      NextLine(s, n);
      FitsUncut(s[|FirstLine(s)|..], n);
      FitsShort(FirstLine(s), n);
    }
  }

  lemma FitsShort(line: string, n: nat)
    ensures FitsLine(line, n) ==> |line| < n
    ensures n > 1 ==> FitsLine("", n)
  {
  }

  /** One call of readLineBuf(), with `s` still to be read before it. */
  lemma OneCall(s: string, rl: RlBuf, buffer: array<char>, n: nat, r: int, overran: bool, taken: nat)
    requires 1 < n <= buffer.Length && rl.Valid()
    requires var line := FirstLine(s);
             |line| < n ==>
               !overran && rl.Returned(s, buffer)
               && r == if |line| == n - 1 && !Terminated(line) then |line| - 1 else |line|
    requires |FirstLine(s)| >= n > 0 ==> overran || (r == n - 2 && rl.Truncated(s, buffer, n, taken))
    ensures var line := FirstLine(s);
            if FitsLine(line, n)
            then !overran && r == |line| && buffer[..r] == line && rl.Remaining() == s[|line|..]
            else s != "" && (overran || (r == n - 2 && |rl.Remaining()| < |s|))
    ensures s == "" ==> FitsLine(FirstLine(s), n) && rl.Remaining() == ""
    ensures !FitsLine(FirstLine(s), n) ==> |Cut(FirstLine(s), n - 1)| == n - 1
  {
    LineInside(s);
  }

  /** A line of the wrong length. */
  lemma Differs(lines: seq<string>, rest: seq<string>, x: string)
    requires rest != [] && |x| != |rest[0]|
    ensures !(lines + [x] <= lines + rest)
  {
    assert (lines + [x])[|lines|] == x && (lines + rest)[|lines|] == rest[0];
  }

  lemma StaysWrong(lines: seq<string>, x: string, expected: seq<string>)
    requires !(lines <= expected)
    ensures !(lines + [x] <= expected)
  {
  }

  /** Calling readLineBuf() until it returns 0 or less. However read() splits the input, the lines and their lengths are
      those that readLine() returns if and only if all lines fit. With room for no byte both return none, but
      for n = 0 readLine() reports EINVAL and this one overruns the output, and for n = 1 readLine() consumes a
      line and this one nothing. */
  method AllByReadLineBuf(rl: RlBuf, buffer: array<char>, n: nat) returns (lines: seq<string>, overran: bool)
    requires rl.Valid() && n <= buffer.Length && buffer != rl.buf
    modifies rl, rl.buf, rl.fd, buffer
    ensures rl.Valid()
    ensures n > 1 ==>
              (!overran && lines == CutAll(Lines(old(rl.Remaining())), n - 1) <==> Fits(old(rl.Remaining()), n))
    ensures n > 1 && Fits(old(rl.Remaining()), n) ==>
              lines == Lines(old(rl.Remaining())) && Concat(lines) == old(rl.Remaining()) && rl.Remaining() == ""
    ensures n <= 1 ==> lines == [] && (overran <==> n == 0 && old(rl.Remaining()) != "")
    ensures n == 1 ==> rl.Remaining() == old(rl.Remaining())
  {
    hide FirstLine, Lines, Fits, Cut, CutAll, Concat, Terminated, RlBuf.Remaining, FitsLine;
    if n <= 1 {
      lines, overran := NoRoom(rl, buffer, n);
      return;
    }
    lines, overran := [], false;
    AtEnd(n - 1);
    ghost var was, wrong := rl.Remaining(), false;
    ghost var expected := CutAll(Lines(was), n - 1);
    LinesConcat(was);
    FitsUncut(was, n);
    while true
      invariant rl.Valid()
      invariant !wrong ==> (Fits(was, n) <==> Fits(rl.Remaining(), n))
      invariant !wrong ==> lines + CutAll(Lines(rl.Remaining()), n - 1) == expected
      invariant wrong ==> !Fits(was, n) && !(lines <= expected)
      decreases |rl.Remaining()|
    {
      ghost var s := rl.Remaining();
      if s != "" { NextLine(s, n); }
      var r;
      ghost var taken;
      r, overran, taken := rl.ReadLineBuf(buffer, n);
      OneCall(s, rl, buffer, n, r, overran, taken);
      if overran || r <= 0 {
        assert s == "" && !wrong ==> lines + [] == expected;
        assert s != "" && !wrong ==> |lines| < |expected|;
        return;
      }
      if wrong {
        StaysWrong(lines, buffer[..r], expected);
      } else if !FitsLine(FirstLine(s), n) {
        Differs(lines, CutAll(Lines(s), n - 1), buffer[..r]);
        wrong := true;
      }
      lines := lines + [buffer[..r]];
    }
  }

  /** The first call ends it. */
  method NoRoom(rl: RlBuf, buffer: array<char>, n: nat) returns (lines: seq<string>, overran: bool)
    requires rl.Valid() && n <= buffer.Length && buffer != rl.buf && n <= 1
    modifies rl, rl.buf, rl.fd, buffer
    ensures rl.Valid() && lines == [] && (overran <==> n == 0 && old(rl.Remaining()) != "")
    ensures n == 1 ==> rl.Remaining() == old(rl.Remaining())
  {
    lines := [];
    var r;
    ghost var taken;
    r, overran, taken := rl.ReadLineBuf(buffer, n);
    assert overran || r <= 0;
  }

  /** "ab" at the end of the input is two bytes long, but with n = 3 the call returns 1. */
  method ShortByOne() returns (r: int)
    ensures r == 1
  {
    hide FirstLine;
    var fd := new Descriptor("ab");
    var rl := new RlBuf(fd, 1024);
    var buffer := new char[3];
    LineSeen("ab", 2);
    var overran;
    ghost var taken;
    r, overran, taken := rl.ReadLineBuf(buffer, 3);
  }

  /** A line of five bytes for n = 3: copied past the end of the output if it comes as one block, cut if the
      first two bytes come first. */
  method TooLong() returns (whole: bool, split: bool)
    ensures whole && !split
  {
    hide FirstLine;
    LineSeen("abcd\n", 4);
    var buffer := new char[3];
    ghost var taken;
    var r;
    var rl := Buffered("abcd\n", 5);
    r, whole, taken := rl.ReadLineBuf(buffer, 3);
    assert "abcd\n"[..5][4] == NEWLINE;
    rl := Buffered("abcd\n", 2);
    r, split, taken := rl.ReadLineBuf(buffer, 3);
  }

  method Fill(b: array<char>, bytes: string, k: nat)
    requires k <= |bytes| && k <= b.Length
    modifies b
    ensures b[..k] == bytes[..k]
  {
    for i := 0 to k
      invariant b[..i] == bytes[..i]
    {
      b[i] := bytes[i];
    }
  }

  /** Of the input `k` bytes have been read as one block. */
  method Buffered(bytes: string, k: nat) returns (rl: RlBuf)
    requires 0 < k <= |bytes|
    ensures fresh(rl) && fresh(rl.fd) && fresh(rl.buf) && rl.Valid() && rl.Remaining() == bytes
    ensures rl.next == 0 && rl.end == k
  {
    var fd := new Descriptor(bytes[k..]);
    rl := new RlBuf(fd, 1024 + k);
    Fill(rl.buf, bytes, k);
    assert bytes == bytes[..k] + bytes[k..];
    rl.next, rl.end := 0, k;
  }
}
