/**
 * Character classes and the small string operations of Python that the three
 * scripts rely on: `str.isspace`, `str.strip`, `str.lower` (on ASCII letters),
 * `" ".join` and the word characters that decide the regex anchor `\b`.
 */
module Text {

  /** Python's `str.isspace()`: the characters that `strip()` removes and that `\s` matches. */
  predicate IsSpace(c: char) {
    || ('\t' <= c <= '\r')           // \t \n \v \f \r
    || ('\U{1c}' <= c <= ' ')         // file, group, record and unit separators, space
    || c == '\U{85}' || c == '\U{a0}' || c == '\U{1680}'
    || ('\U{2000}' <= c <= '\U{200a}')
    || c == '\U{2028}' || c == '\U{2029}' || c == '\U{202f}' || c == '\U{205f}' || c == '\U{3000}'
  }

  predicate AllSpace(s: string) {
    forall k :: 0 <= k < |s| ==> IsSpace(s[k])
  }

  /** No two neighbouring characters are both whitespace. */
  predicate NoDoubleSpace(s: string) {
    forall k :: 0 <= k < |s| - 1 ==> !(IsSpace(s[k]) && IsSpace(s[k + 1]))
  }

  /** Neither the first nor the last character is whitespace. */
  predicate NoOuterSpace(s: string) {
    s == [] || (!IsSpace(s[0]) && !IsSpace(s[|s| - 1]))
  }

  /** Index of the first character that is not whitespace (or |s|). */
  function StripStart(s: string): (a: nat)
    ensures a <= |s|
    ensures AllSpace(s[..a])
    ensures a < |s| ==> !IsSpace(s[a])
  {
    if s == [] || !IsSpace(s[0]) then 0 else 1 + StripStart(s[1..])
  }

  /** One past the last character at or after `a` that is not whitespace (or `a`). */
  function StripEnd(s: string, a: nat): (b: nat)
    requires a <= |s|
    ensures a <= b <= |s|
    ensures AllSpace(s[b..])
    ensures b > a ==> !IsSpace(s[b - 1])
  {
    if |s| == a || !IsSpace(s[|s| - 1]) then |s|
    else
      var b := StripEnd(s[..|s| - 1], a);
      assert s[b..] == s[..|s| - 1][b..] + [s[|s| - 1]];
      b
  }

  /** Python's `str.strip()` with no argument. */
  function Strip(s: string): (r: string)
    ensures NoOuterSpace(r)
    ensures |r| <= |s|
    ensures NoOuterSpace(s) ==> r == s
    ensures r == [] <==> AllSpace(s)
    ensures exists a, b :: 0 <= a <= b <= |s| && r == s[a..b] && AllSpace(s[..a]) && AllSpace(s[b..])
  {
    var a := StripStart(s);
    var b := StripEnd(s, a);
    assert 0 <= a <= b <= |s| && s[a..b] == s[a..b] && AllSpace(s[..a]) && AllSpace(s[b..]);
    assert NoOuterSpace(s) && s != [] ==> a == 0 && b == |s|;
    assert a == b ==> s[..a] == s;
    s[a..b]
  }

  /** Stripping keeps the no-double-whitespace property: it only cuts off the ends. */
  lemma StripKeepsNoDoubleSpace(s: string)
    requires NoDoubleSpace(s)
    ensures NoDoubleSpace(Strip(s))
  {
    var a := StripStart(s);
    var b := StripEnd(s, a);
    forall k | 0 <= k < |Strip(s)| - 1
      ensures !(IsSpace(Strip(s)[k]) && IsSpace(Strip(s)[k + 1]))
    {
      assert Strip(s)[k] == s[a + k] && Strip(s)[k + 1] == s[a + k + 1];
    }
  }

  /** First index at or after i that is not whitespace (or |s|). */
  function RunEnd(s: string, i: nat): (e: nat)
    requires i <= |s|
    ensures i <= e <= |s|
    decreases |s| - i
  {
    if i == |s| || !IsSpace(s[i]) then i else RunEnd(s, i + 1)
  }

  /** The run found from i is all whitespace and stops at a non-space or at the end. */
  lemma {:induction false} RunEndSpaces(s: string, i: nat)
    requires i <= |s|
    ensures forall k :: i <= k < RunEnd(s, i) ==> IsSpace(s[k])
    ensures RunEnd(s, i) < |s| ==> !IsSpace(s[RunEnd(s, i)])
    decreases |s| - i
  {
    if i < |s| && IsSpace(s[i]) {
      RunEndSpaces(s, i + 1);
    }
  }

  /** A whitespace stretch from i that stops at e (a non-space or the end) is the run RunEnd finds. */
  lemma {:induction false} RunEndIs(s: string, i: nat, e: nat)
    requires i <= e <= |s|
    requires forall k :: i <= k < e ==> IsSpace(s[k])
    requires e == |s| || !IsSpace(s[e])
    ensures RunEnd(s, i) == e
    decreases e - i
  {
    if i < e {
      RunEndIs(s, i + 1, e);
    }
  }

  /** Python's `" ".join(xs)`. */
  function JoinSpace(xs: seq<string>): string {
    if xs == [] then ""
    else if |xs| == 1 then xs[0]
    else xs[0] + " " + JoinSpace(xs[1..])
  }

  /** The number of characters in all of xs together. */
  function TotalLength(xs: seq<string>): nat {
    if xs == [] then 0 else |xs[0]| + TotalLength(xs[1..])
  }

  /** The join holds every character of xs, plus one separator between each neighbouring pair. */
  lemma {:induction false} JoinSpaceLength(xs: seq<string>)
    requires xs != []
    ensures |JoinSpace(xs)| == TotalLength(xs) + |xs| - 1
  {
    if |xs| > 1 {
      JoinSpaceLength(xs[1..]);
    } else {
      assert xs[1..] == [];
    }
  }

  /** Joining two non-empty lists one after the other is joining each and putting one space between. */
  lemma {:induction false} JoinSpaceAppend(a: seq<string>, b: seq<string>)
    requires a != [] && b != []
    ensures JoinSpace(a + b) == JoinSpace(a) + " " + JoinSpace(b)
  {
    if |a| == 1 {
      assert (a + b)[1..] == b;
    } else {
      assert (a + b)[1..] == a[1..] + b;
      JoinSpaceAppend(a[1..], b);
    }
  }

  /** A character the regex anchor `\b` treats as part of a word (ASCII letters, digits, `_`). */
  predicate IsWordChar(c: char) {
    ('a' <= c <= 'z') || ('A' <= c <= 'Z') || ('0' <= c <= '9') || c == '_'
  }

  predicate IsWordAt(s: string, k: int) {
    0 <= k < |s| && IsWordChar(s[k])
  }

  /** The regex anchor `\b` at position k of s: a word character on exactly one side. */
  predicate IsBoundary(s: string, k: int) {
    IsWordAt(s, k - 1) != IsWordAt(s, k)
  }

  /** `str.lower()` restricted to ASCII letters. */
  function Lower(c: char): (l: char)
    ensures IsWordChar(l) == IsWordChar(c)
    ensures !('A' <= l <= 'Z')
    ensures 'A' <= c <= 'Z' ==> 'a' <= l <= 'z' && l != c
    ensures 'A' <= c <= 'Z' ==> l as int - 'a' as int == c as int - 'A' as int
    ensures !('A' <= c <= 'Z') ==> l == c
  {
    if 'A' <= c <= 'Z' then (c as int + 32) as char else c
  }

  /** No ASCII capital letter occurs in s. */
  predicate NoUpper(s: string) {
    forall k :: 0 <= k < |s| ==> !('A' <= s[k] <= 'Z')
  }

  /** `str.lower()` on ASCII text: the same text up to case, with no capital left, and text without capitals unchanged. */
  function LowerAll(s: string): (r: string)
    ensures |r| == |s|
    ensures forall k :: 0 <= k < |s| ==> r[k] == Lower(s[k])
    ensures FoldEq(r, s)
    ensures NoUpper(r)
    ensures NoUpper(s) ==> r == s
  {
    seq(|s|, k requires 0 <= k < |s| => Lower(s[k]))
  }

  /** Two strings are equal when compared without regard to (ASCII) case. */
  predicate FoldEq(a: string, b: string) {
    |a| == |b| && forall k :: 0 <= k < |a| ==> Lower(a[k]) == Lower(b[k])
  }
}
