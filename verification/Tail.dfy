/** Where the last n lines of a file start: the byte-wise backward scan of chapter_13/naive_tail.c and the
    block-wise one of chapter_13/tail.c. */
module Tail {
  import opened Basics

  const NEWLINE := '\n'

  /** Number of newlines. */
  function Count(s: string): (n: nat)
    ensures n <= |s|
  {
    if s == "" then 0 else Count(s[..|s| - 1]) + if s[|s| - 1] == NEWLINE then 1 else 0
  }

  lemma {:induction false} CountAppend(a: string, b: string)
    ensures Count(a + b) == Count(a) + Count(b)
    decreases |b|
  {
    if b == "" {
      assert a + b == a;
    } else {
      CountAppend(a, b[..|b| - 1]);
      assert (a + b)[..|a + b| - 1] == a + b[..|b| - 1];
    }
  }

  lemma {:induction false} CountIs(s: string)
    ensures Count(s) == multiset(s)['\n']
  {
    if s != "" {
      CountIs(s[..|s| - 1]);
      assert s == s[..|s| - 1] + [s[|s| - 1]];
    }
  }

  /** The newlines from `p` on, one step further back. */
  lemma CountBack(s: string, p: nat)
    requires p < |s|
    ensures Count(s[p..]) == Count(s[p + 1..]) + if s[p] == NEWLINE then 1 else 0
  {
    assert s[p..] == [s[p]] + s[p + 1..] && [s[p]][..0] == "";
    CountAppend([s[p]], s[p + 1..]);
  }

  /** The offset `r` at which both programs start to print: the byte after the (n + 1)-th newline from the
      end; or 0 if there is no such newline, or if that newline is the very first byte. */
  predicate IsTailStart(file: string, n: nat, r: nat) {
    r <= |file|
    && if r == 0 then Count(file) <= n || (Count(file) == n + 1 && file[0] == NEWLINE)
       else r > 1 && file[r - 1] == NEWLINE && Count(file[r..]) == n
  }

  /** Where a backward scan may stop. */
  predicate IsStop(file: string, n: nat, p: nat) {
    p <= |file|
    && ((p == 0 && Count(file) <= n) || (p < |file| && file[p] == NEWLINE && Count(file[p..]) == n + 1))
  }

  lemma StopIsStart(file: string, n: nat, p: nat)
    requires IsStop(file, n, p)
    ensures IsTailStart(file, n, if p == 0 then 0 else p + 1)
  {
    if p == 0 {
      assert file[0..] == file;
    } else {
      CountBack(file, p);
    }
  }

  // ---------------------------------------------------------------- the programs

  /** naive_tail.c */
  method NaiveTail(file: string, n: nat) returns (adjustedPos: nat)
    ensures IsTailStart(file, n, adjustedPos) && adjustedPos <= |file|
    ensures if adjustedPos == 0 then Count(file) <= n || (Count(file) == n + 1 && file[0] == '\n')
            else adjustedPos > 1 && file[adjustedPos - 1] == '\n' && Count(file[adjustedPos..]) == n
  {
    var filePos := |file|;
    var lineCnt := 0;
    assert file[filePos..] == "";
    while filePos > 0
      invariant filePos <= |file| && lineCnt <= n && lineCnt == Count(file[filePos..])
      decreases filePos
    {
      CountBack(file, filePos - 1);
      filePos := filePos - 1;
      if file[filePos] == NEWLINE {
        lineCnt := lineCnt + 1;
        if lineCnt > n { break; }
      }
    }
    assert filePos == 0 ==> file[filePos..] == file;
    StopIsStart(file, n, filePos);
    adjustedPos := if filePos == 0 then 0 else filePos + 1;
  }

  /** fseek() and fread(): `count` bytes from `pos`. */
  method ReadAt(file: string, pos: nat, buffer: array<char>, count: nat)
    requires pos + count <= |file| && count <= buffer.Length
    modifies buffer
    ensures buffer[..count] == file[pos..pos + count]
  {
    for i := 0 to count
      invariant buffer[..i] == file[pos..pos + i]
    {
      buffer[i] := file[pos + i];
    }
  }

  /** Counts the newlines of one block from its end, and stops at the (n + 1)-th from the end of the file. */
  method ScanBlock(ghost file: string, ghost filePos: nat, buffer: array<char>, bytesRead: nat, n: nat, before: nat)
      returns (lineCnt: nat, i: int)
    requires bytesRead <= buffer.Length && filePos + bytesRead <= |file|
    requires buffer[..bytesRead] == file[filePos..filePos + bytesRead]
    requires before <= n && before == Count(file[filePos + bytesRead..])
    ensures lineCnt <= n ==> lineCnt == Count(file[filePos..])
    ensures lineCnt > n ==> 0 <= i < bytesRead && IsStop(file, n, filePos + i)
  {
    lineCnt := before;
    i := bytesRead - 1;
    while i >= 0
      invariant -1 <= i < bytesRead
      invariant lineCnt <= n && lineCnt == Count(file[filePos + i + 1..])
      decreases i
    {
      assert buffer[i] == buffer[..bytesRead][i] == file[filePos + i];
      CountBack(file, filePos + i);
      if buffer[i] == NEWLINE {
        lineCnt := lineCnt + 1;
        if lineCnt > n {
          return;
        }
      }
      i := i - 1;
    }
  }

  /** tail.c; the program fixes `blockSize` at 262144. */
  method BlockTail(file: string, n: nat, blockSize: nat) returns (adjustedPos: nat)
    requires blockSize > 0
    ensures IsTailStart(file, n, adjustedPos) && adjustedPos <= |file|
    ensures if adjustedPos == 0 then Count(file) <= n || (Count(file) == n + 1 && file[0] == '\n')
            else adjustedPos > 1 && file[adjustedPos - 1] == '\n' && Count(file[adjustedPos..]) == n
  {
    var filePos: nat := |file|;
    var lineCnt: nat := 0;
    var buffer := new char[blockSize];
    assert file[filePos..] == "";
    while filePos > 0 && lineCnt <= n
      invariant filePos <= |file|
      invariant lineCnt <= n ==> lineCnt == Count(file[filePos..])
      invariant lineCnt > n ==> IsStop(file, n, filePos)
      decreases lineCnt <= n, filePos
    {
      var toRead := if filePos < blockSize then filePos else blockSize;
      filePos := filePos - toRead;
      ReadAt(file, filePos, buffer, toRead);
      var i;
      lineCnt, i := ScanBlock(file, filePos, buffer, toRead, n, lineCnt);
      if lineCnt > n {
        filePos := filePos + i;
      }
    }
    assert filePos == 0 ==> file[filePos..] == file;
    StopIsStart(file, n, filePos);
    adjustedPos := if filePos == 0 then 0 else filePos + 1;
  }

  // ---------------------------------------------------------------- what the offset is

  lemma {:induction false} CountDrops(s: string, a: nat, b: nat)
    requires a <= b <= |s|
    ensures Count(s[b..]) <= Count(s[a..])
    ensures a < b && s[b - 1] == NEWLINE ==> Count(s[b..]) < Count(s[a..])
  {
    assert s[a..] == s[a..b] + s[b..];
    CountAppend(s[a..b], s[b..]);
  }

  /** There is one such offset, so the two programs start at the same byte, whatever the block size. */
  lemma SameStart(file: string, n: nat, a: nat, b: nat)
    requires IsTailStart(file, n, a) && IsTailStart(file, n, b)
    ensures a == b
  {
    if a < b {
      NotBoth(file, n, a, b);
    } else if b < a {
      NotBoth(file, n, b, a);
    }
  }

  lemma NotBoth(file: string, n: nat, a: nat, b: nat)
    requires a < b && IsTailStart(file, n, a)
    ensures !IsTailStart(file, n, b)
  {
    assert file[0..] == file;
    if b <= |file| {
      CountDrops(file, a, b);
      if a == 0 && 1 < b {
        CountDrops(file, 1, b);
        CountBack(file, 0);
      }
    }
  }

  /** The newlines printed. */
  lemma SuffixCount(file: string, n: nat, r: nat)
    requires IsTailStart(file, n, r)
    ensures Count(file[r..]) == Min(n, Count(file)) <==> !(Count(file) == n + 1 && file[0] == NEWLINE)
    ensures Count(file) == n + 1 && file[0] == NEWLINE ==> r == 0
  {
    assert file[0..] == file;
    CountDrops(file, 0, r);
    if r > 1 {
      CountDrops(file, 1, r);
      CountBack(file, 0);
    }
  }

  /** The lines of a text; the last one need not be terminated. */
  function Lines(s: string): nat {
    Count(s) + if s != "" && s[|s| - 1] != NEWLINE then 1 else 0
  }

  /** The programs print the last n lines, or all of them if there are fewer, exactly in these cases: a file
      whose last line is terminated must not have its (n + 1)-th newline from the end as first byte; a file
      whose last line is not terminated must have no more than n lines in all. */
  lemma LastLinesIff(file: string, n: nat, r: nat)
    requires n > 0 && IsTailStart(file, n, r)
    ensures Lines(file[r..]) == Min(n, Lines(file)) <==>
              if file == "" || file[|file| - 1] == NEWLINE then !(Count(file) == n + 1 && file[0] == NEWLINE)
              else Lines(file) <= n
  {
    hide Count;
    SuffixCount(file, n, r);
    StartInside(file, n, r);
    assert file[0..] == file;
    if r < |file| {
      assert file[r..][|file| - r - 1] == file[|file| - 1];
    }
  }

  lemma StartInside(file: string, n: nat, r: nat)
    requires n > 0 && IsTailStart(file, n, r)
    ensures r == |file| ==> file == ""
    ensures r > 0 ==> Count(file) > n
    ensures Count("") == 0
  {
    if r > 0 {
      CountBack(file, r - 1);
      CountDrops(file, 0, r - 1);
      assert file[0..] == file;
      assert file[|file|..] == "";
    }
  }

  /** With n = 1, a file that starts with its second newline from the end is printed whole, and of one whose
      last line is not terminated the last two lines are printed. */
  lemma OneLineTooMany()
    ensures IsTailStart("\nb\n", 1, 0) && Count("\nb\n") == 2
    ensures IsTailStart("a\nb\nc", 1, 2) && Lines("b\nc") == 2 && "a\nb\nc"[2..] == "b\nc"
  {
    CountThree('\n', 'b', '\n');
    CountThree('b', '\n', 'c');
    assert "\nb\n" == ['\n', 'b', '\n'] && "b\nc" == ['b', '\n', 'c'];
  }

  function One(c: char): nat {
    if c == NEWLINE then 1 else 0
  }

  lemma CountThree(x: char, y: char, z: char)
    ensures Count([x, y, z]) == One(x) + One(y) + One(z)
  {
    CountAppend([x, y], [z]);
    CountAppend([x], [y]);
    assert [x] + [y] == [x, y] && [x, y] + [z] == [x, y, z];
    assert [x][..0] == "" && [y][..0] == "" && [z][..0] == "";
  }
}
