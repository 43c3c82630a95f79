/** The keys of chapter_30/threadsafe_tree.c: C strings under strcmp() and strncmp().

    The tree modules compare keys as real numbers. `Weight` justifies that: it maps strings to reals so
    that strcmp() becomes the order of the reals. `StrNCmpAgrees` says for which keys delete(), which uses
    strncmp(), compares as add() and lookup() do.
  */
module TreeKeys {

  /** A byte other than the terminating null. */
  type Char = c: int | 1 <= c <= 255 witness 1

  type CString = seq<Char>

  function StrCmp(a: CString, b: CString): int {
    if a == [] || b == [] then |a| - |b|
    else if a[0] != b[0] then a[0] - b[0]
    else StrCmp(a[1..], b[1..])
  }

  function StrNCmp(a: CString, b: CString, n: nat): int {
    if n == 0 then 0
    else if a == [] || b == [] then |a| - |b|
    else if a[0] != b[0] then a[0] - b[0]
    else StrNCmp(a[1..], b[1..], n - 1)
  }

  function Take(s: CString, n: nat): CString {
    if |s| <= n then s else s[..n]
  }

  /** The string read as a fraction in base 256. */
  function Weight(s: CString): (r: real)
    ensures 0.0 <= r < 1.0
    ensures r == 0.0 <==> s == []
  {
    if s == [] then 0.0 else (s[0] as real + Weight(s[1..])) / 256.0
  }

  /** strcmp() orders strings as their weights are ordered, so it is a total order. */
  lemma {:induction false} StrCmpIsRealOrder(a: CString, b: CString)
    ensures StrCmp(a, b) < 0 <==> Weight(a) < Weight(b)
    ensures StrCmp(a, b) == 0 <==> Weight(a) == Weight(b)
    ensures StrCmp(a, b) == 0 <==> a == b
  {
    if a != [] && b != [] {
      StrCmpIsRealOrder(a[1..], b[1..]);
      assert a == [a[0]] + a[1..] && b == [b[0]] + b[1..];
      var x, y := a[0] as real + Weight(a[1..]), b[0] as real + Weight(b[1..]);
      assert Weight(a) == x / 256.0 && Weight(b) == y / 256.0;
      assert x / 256.0 < y / 256.0 <==> x < y;
    }
  }

  /** strncmp() with bound `n` gives what strcmp() gives, except for different strings that share their
      first `n` bytes, which it takes for equal. */
  lemma {:induction false} StrNCmpAgrees(a: CString, b: CString, n: nat)
    ensures StrNCmp(a, b, n) == StrCmp(a, b) <==> a == b || Take(a, n) != Take(b, n)
    ensures |a| < n && |b| < n ==> StrNCmp(a, b, n) == StrCmp(a, b)
    decreases n
  {
    if n == 0 {
      StrCmpIsRealOrder(a, b);
    } else if a == [] || b == [] {
      assert Take(a, n) == [] <==> a == [];
      assert Take(b, n) == [] <==> b == [];
    } else {
      StrNCmpAgrees(a[1..], b[1..], n - 1);
      TakeOne(a, n);
      TakeOne(b, n);
    }
  }

  lemma TakeOne(s: CString, n: nat)
    requires s != [] && n > 0
    ensures s == [s[0]] + s[1..] && Take(s, n) == [s[0]] + Take(s[1..], n - 1)
  {
  }
}
