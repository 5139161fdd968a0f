/** String helpers shared by the backend and the frontend: ASCII case
    folding, the extension after the last dot, the root `os.path.splitext`
    keeps, and decimal rendering of integers. */
module Text {

  function LowerChar(c: char): char {
    if 'A' <= c <= 'Z' then (c as int + 32) as char else c
  }

  /** Lower-cases the ASCII letters of `s` and keeps every other character. */
  function ToLower(s: string): (r: string)
    ensures |r| == |s|
    ensures forall i :: 0 <= i < |s| ==> r[i] == LowerChar(s[i])
  {
    if s == [] then [] else [LowerChar(s[0])] + ToLower(s[1..])
  }

  /** The text after the last '.', or all of `s` when it has no '.'; this is
      both Python's `s.rsplit(".", 1)[-1]` and JavaScript's `s.split('.').pop()`.
      The result is the longest dot-free suffix of `s`: a suffix, free of dots,
      and preceded by a dot whenever it is not all of `s`. */
  function AfterLastDot(s: string): (r: string)
    ensures |r| <= |s| && s[|s| - |r|..] == r
    ensures '.' !in r
    ensures |r| < |s| ==> s[|s| - |r| - 1] == '.'
    ensures '.' !in s <==> r == s
  {
    if |s| == 0 then s
    else if s[|s| - 1] == '.' then []
    else
      var r' := AfterLastDot(s[..|s| - 1]);
      SuffixOfInit(s, |s| - 1 - |r'|);
      r' + [s[|s| - 1]]
  }

  /** A suffix of `s` is the same suffix of `s` without its last character,
      followed by that character. */
  lemma SuffixOfInit(s: string, k: nat)
    requires k < |s|
    ensures s[k..] == s[..|s| - 1][k..] + [s[|s| - 1]]
    ensures k == 0 ==> s == s[..|s| - 1] + [s[|s| - 1]]
  {
  }

  /** Two strings that both meet the contract of `AfterLastDot` are equal:
      the contract pins the extension down. */
  lemma AfterLastDotUnique(s: string, e: string)
    requires |e| <= |s| && s[|s| - |e|..] == e
    requires '.' !in e
    requires |e| < |s| ==> s[|s| - |e| - 1] == '.'
    ensures e == AfterLastDot(s)
  {
  }

  /** Index of the last '.' of a string that has one. */
  function LastDot(s: string): (d: nat)
    requires '.' in s
    ensures d < |s| && s[d] == '.'
    ensures forall i :: d < i < |s| ==> s[i] != '.'
  {
    var e := AfterLastDot(s);
    assert forall i :: |s| - |e| <= i < |s| ==> s[i] == e[i - (|s| - |e|)];
    |s| - |e| - 1
  }

  /** The root that Python's `os.path.splitext` returns for a name without
      path separators: the text before the last '.', unless only dots
      precede that '.', in which case the whole name. */
  function SplitextRoot(s: string): (r: string)
    ensures '.' !in s ==> r == s
    ensures '.' in s ==> (r == s[..LastDot(s)] || r == s)
    ensures '.' in s && s[0] != '.' ==> r == s[..LastDot(s)]
    ensures '.' in s ==> (r == s <==> forall i :: 0 <= i < LastDot(s) ==> s[i] == '.')
  {
    if '.' !in s then s
    else
      var d := LastDot(s);
      if exists i :: 0 <= i < d && s[i] != '.' then s[..d] else s
  }

  /** When `splitext` does split, the root, the dot and the extension put
      back together give the name again. */
  lemma SplitextRejoins(s: string)
    requires SplitextRoot(s) != s
    ensures SplitextRoot(s) + "." + AfterLastDot(s) == s
  {
    var d := LastDot(s);
    assert s == s[..d] + [s[d]] + s[d + 1..];
  }

  function Digit(n: nat): char
    requires n < 10
  {
    ('0' as int + n) as char
  }

  function DigitValue(c: char): nat {
    if '0' <= c <= '9' then c as nat - '0' as nat else 0
  }

  predicate IsDigit(c: char) {
    '0' <= c <= '9'
  }

  /** Decimal rendering of a natural number, as Python's `str` and
      JavaScript's template literals produce it. */
  function NatToString(n: nat): (r: string)
    ensures |r| >= 1
    ensures forall i :: 0 <= i < |r| ==> IsDigit(r[i])
    ensures |r| > 1 ==> r[0] != '0'
  {
    if n < 10 then [Digit(n)] else NatToString(n / 10) + [Digit(n % 10)]
  }

  function IntToString(i: int): string {
    if i < 0 then "-" + NatToString(-i) else NatToString(i)
  }

  /** Reads a string of decimal digits back as a number. */
  function ParseNat(s: string): nat {
    if s == [] then 0 else 10 * ParseNat(s[..|s| - 1]) + DigitValue(s[|s| - 1])
  }

  lemma {:induction false} NatToStringRoundTrip(n: nat)
    ensures ParseNat(NatToString(n)) == n
  {
    if n >= 10 {
      var r := NatToString(n);
      assert r[..|r| - 1] == NatToString(n / 10);
      NatToStringRoundTrip(n / 10);
    }
  }

  /** Number of occurrences of `c` in `s`. */
  function CountChar(s: string, c: char): nat {
    if s == [] then 0 else (if s[0] == c then 1 else 0) + CountChar(s[1..], c)
  }

  lemma {:induction false} CountCharAppend(a: string, b: string, c: char)
    ensures CountChar(a + b, c) == CountChar(a, c) + CountChar(b, c)
  {
    if a == [] {
      assert a + b == b;
    } else {
      assert (a + b)[1..] == a[1..] + b;
      CountCharAppend(a[1..], b, c);
    }
  }

  lemma {:induction false} CountCharAbsent(s: string, c: char)
    requires c !in s
    ensures CountChar(s, c) == 0
  {
    if s != [] {
      CountCharAbsent(s[1..], c);
    }
  }
}
