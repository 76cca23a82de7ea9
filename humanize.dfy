/**
 * The phrase rewriter of the humanize-ai-text skill
 * (registry/skills/humanize-ai-text/scripts/transform.py): a fixed, ordered table of
 * case-insensitive, word-bounded phrase replacements, followed by collapsing every
 * run of two or more whitespace characters into one space and stripping both ends.
 */
module Humanize {
  import opened Wrappers
  import opened Text

  /**
   * One row of the table. The regex is `\b<phrase>\b` when `optionalComma` is false
   * and `\b<phrase>,?\b` when it is true; it is matched with `re.IGNORECASE`.
   */
  datatype Rule = Rule(phrase: string, optionalComma: bool, replacement: string)

  /** The replacement table, in the order the script applies it. */
  const Table: seq<Rule> := [
    Rule("It is important to note that", false, ""),
    Rule("In order to", false, "To"),
    Rule("Utilize", false, "Use"),
    Rule("utilize", false, "use"),
    Rule("It is worth mentioning that", false, ""),
    Rule("In conclusion", true, ""),
    Rule("Furthermore", true, "Also,"),
    Rule("Additionally", true, "Also,"),
    Rule("Nevertheless", true, "Still,"),
    Rule("Consequently", true, "So,")
  ]

  predicate ValidRule(rule: Rule) {
    rule.phrase != []
  }

  predicate ValidRules(rules: seq<Rule>) {
    forall k :: 0 <= k < |rules| ==> ValidRule(rules[k])
  }

  /**
   * Length of the match of the rule's pattern that starts at position i of s, if any.
   * The `,?` is greedy: the comma is taken when a `\b` follows it, and otherwise the
   * engine backtracks and asks for `\b` right after the phrase.
   */
  function MatchLength(s: string, i: nat, rule: Rule): (n: Option<nat>)
    requires i <= |s|
    ensures n.Some? ==> |rule.phrase| <= n.value && i + n.value <= |s|
    // a match starts at a boundary with the phrase, ignoring case, and ends at a boundary,
    // right after the phrase or after the phrase and a comma
    ensures n.Some? <==>
      && IsBoundary(s, i)
      && i + |rule.phrase| <= |s| && FoldEq(s[i..i + |rule.phrase|], rule.phrase)
      && (|| IsBoundary(s, i + |rule.phrase|)
          || (rule.optionalComma && i + |rule.phrase| < |s| && s[i + |rule.phrase|] == ','
              && IsBoundary(s, i + |rule.phrase| + 1)))
    ensures n.Some? ==> IsBoundary(s, i) && IsBoundary(s, i + n.value)
    ensures n.Some? ==> n.value == |rule.phrase| ||
                        (n.value == |rule.phrase| + 1 && rule.optionalComma && s[i + |rule.phrase|] == ',')
    // `,?` is greedy: the comma is taken whenever a boundary follows it
    ensures (n.Some? && rule.optionalComma && i + |rule.phrase| < |s| && s[i + |rule.phrase|] == ','
             && IsBoundary(s, i + |rule.phrase| + 1)) ==> n.value == |rule.phrase| + 1
  {
    var p := |rule.phrase|;
    if !(IsBoundary(s, i) && i + p <= |s| && FoldEq(s[i..i + p], rule.phrase)) then None
    else if rule.optionalComma && i + p < |s| && s[i + p] == ',' && IsBoundary(s, i + p + 1) then Some(p + 1)
    else if IsBoundary(s, i + p) then Some(p)
    else None
  }

  /** `re.sub` of one rule over s[i..]: leftmost matches, left to right, never overlapping. */
  function SubFrom(s: string, rule: Rule, i: nat): string
    requires ValidRule(rule) && i <= |s|
    decreases |s| - i
  {
    if i == |s| then ""
    else match MatchLength(s, i, rule)
      case Some(n) => rule.replacement + SubFrom(s, rule, i + n)
      case None => [s[i]] + SubFrom(s, rule, i + 1)
  }

  /** `re.sub(pattern, replacement, s, flags=re.IGNORECASE)` for one table row. */
  function Sub(s: string, rule: Rule): string
    requires ValidRule(rule)
  {
    SubFrom(s, rule, 0)
  }

  /** The rules applied one after another, each to the output of the one before. */
  function ApplyRules(s: string, rules: seq<Rule>): string
    requires ValidRules(rules)
  {
    if rules == [] then s
    else Sub(ApplyRules(s, rules[..|rules| - 1]), rules[|rules| - 1])
  }

  /** `re.sub(r"\s{2,}", " ", s[i..])`: a run of two or more whitespace characters becomes one space. */
  function CollapseFrom(s: string, i: nat): string
    requires i <= |s|
    decreases |s| - i
  {
    if i == |s| then ""
    else if i + 1 < |s| && IsSpace(s[i]) && IsSpace(s[i + 1]) then " " + CollapseFrom(s, RunEnd(s, i))
    else [s[i]] + CollapseFrom(s, i + 1)
  }

  function Collapse(s: string): string {
    CollapseFrom(s, 0)
  }

  /**
   * The collapse leaves no two neighbouring whitespace characters, never grows the
   * text, and starts with whitespace exactly when the text it reads does.
   */
  lemma {:induction false} CollapseShape(s: string, i: nat)
    requires i <= |s|
    ensures NoDoubleSpace(CollapseFrom(s, i))
    ensures |CollapseFrom(s, i)| <= |s| - i
    ensures CollapseFrom(s, i) == [] <==> i == |s|
    ensures i < |s| ==> (IsSpace(CollapseFrom(s, i)[0]) <==> IsSpace(s[i]))
    decreases |s| - i
  {
    if i < |s| {
      if i + 1 < |s| && IsSpace(s[i]) && IsSpace(s[i + 1]) {
        RunEndSpaces(s, i);
        CollapseShape(s, RunEnd(s, i));
        assert " " + CollapseFrom(s, RunEnd(s, i)) == [' '] + CollapseFrom(s, RunEnd(s, i));
      } else {
        CollapseShape(s, i + 1);
      }
    }
  }

  /** The last line of `humanize`: collapse whitespace runs, then strip. */
  function Normalize(s: string): (r: string)
    ensures NoDoubleSpace(r) && NoOuterSpace(r)
    ensures |r| <= |s|
  {
    CollapseShape(s, 0);
    StripKeepsNoDoubleSpace(Collapse(s));
    Strip(Collapse(s))
  }

  /** `humanize(text)`: the loop rebinds `result` once per table row, then normalises it. */
  method Humanize(text: string) returns (result: string)
    ensures result == Normalize(ApplyRules(text, Table))
    ensures NoDoubleSpace(result) && NoOuterSpace(result)
    ensures |result| <= |text|
  {
    TableValid();
    result := text;
    for k := 0 to |Table|
      invariant ValidRules(Table[..k]) && result == ApplyRules(text, Table[..k])
    {
      ApplyRulesStep(text, Table, k);
      result := Sub(result, Table[k]);
    }
    assert Table[..|Table|] == Table;
    ApplyRulesShortens(text, Table);
    result := Normalize(result);
  }

  lemma TableValid()
    ensures ValidRules(Table) && AllShorten(Table)
  {
  }

  /** Applying one more rule of a list is one more substitution. */
  lemma ApplyRulesStep(s: string, rules: seq<Rule>, k: nat)
    requires ValidRules(rules) && k < |rules|
    ensures ValidRules(rules[..k]) && ValidRules(rules[..k + 1])
    ensures ApplyRules(s, rules[..k + 1]) == Sub(ApplyRules(s, rules[..k]), rules[k])
  {
    assert rules[..k + 1][..k] == rules[..k];
  }

  // ---------------------------------------------------------------------------
  // The table is applied in order

  /** Applying a concatenation of rule lists is applying the first list, then the second. */
  lemma {:induction false} ApplyRulesAppend(s: string, first: seq<Rule>, second: seq<Rule>)
    requires ValidRules(first) && ValidRules(second)
    ensures ValidRules(first + second)
    ensures ApplyRules(s, first + second) == ApplyRules(ApplyRules(s, first), second)
    decreases |second|
  {
    if second == [] {
      assert first + second == first;
    } else {
      var all := first + second;
      assert all[..|all| - 1] == first + second[..|second| - 1];
      ApplyRulesAppend(s, first, second[..|second| - 1]);
    }
  }

  // ---------------------------------------------------------------------------
  // Whitespace

  /** A rule whose replacement is no longer than its phrase. */
  predicate Shortens(rule: Rule) {
    |rule.replacement| <= |rule.phrase|
  }

  predicate AllShorten(rules: seq<Rule>) {
    forall k :: 0 <= k < |rules| ==> Shortens(rules[k])
  }

  /** Each match consumes at least its phrase, so a shortening rule never lengthens the text. */
  lemma {:induction false} SubFromShortens(s: string, rule: Rule, i: nat)
    requires ValidRule(rule) && Shortens(rule) && i <= |s|
    ensures |SubFrom(s, rule, i)| <= |s| - i
    decreases |s| - i
  {
    if i < |s| {
      match MatchLength(s, i, rule)
      case Some(n) => SubFromShortens(s, rule, i + n);
      case None => SubFromShortens(s, rule, i + 1);
    }
  }

  lemma SubShortens(s: string, rule: Rule)
    requires ValidRule(rule) && Shortens(rule)
    ensures |Sub(s, rule)| <= |s|
  {
    SubFromShortens(s, rule, 0);
  }

  /** A list of shortening rules never lengthens the text. */
  lemma {:induction false} ApplyRulesShortens(s: string, rules: seq<Rule>)
    requires ValidRules(rules) && AllShorten(rules)
    ensures |ApplyRules(s, rules)| <= |s|
  {
    if rules != [] {
      var init := rules[..|rules| - 1];
      assert forall k :: 0 <= k < |init| ==> init[k] == rules[k];
      ApplyRulesShortens(s, init);
      SubShortens(ApplyRules(s, init), rules[|rules| - 1]);
    }
  }

  /** The characters of s that are not whitespace, in order. */
  function Visible(s: string): string {
    if s == [] then "" else (if IsSpace(s[0]) then "" else [s[0]]) + Visible(s[1..])
  }

  lemma {:induction false} VisibleAppend(a: string, b: string)
    ensures Visible(a + b) == Visible(a) + Visible(b)
  {
    if a != [] {
      assert (a + b)[1..] == a[1..] + b;
      VisibleAppend(a[1..], b);
    } else {
      assert a + b == b;
    }
  }

  lemma {:induction false} VisibleOfSpaces(s: string)
    requires AllSpace(s)
    ensures Visible(s) == ""
  {
    if s != [] { VisibleOfSpaces(s[1..]); }
  }

  /** Collapsing whitespace runs leaves every other character where it was, in order. */
  lemma {:induction false} CollapseKeepsVisible(s: string, i: nat)
    requires i <= |s|
    ensures Visible(CollapseFrom(s, i)) == Visible(s[i..])
    decreases |s| - i
  {
    if i < |s| {
      if i + 1 < |s| && IsSpace(s[i]) && IsSpace(s[i + 1]) {
        var e := RunEnd(s, i);
        RunEndSpaces(s, i);
        CollapseKeepsVisible(s, e);
        assert s[i..] == s[i..e] + s[e..];
        VisibleAppend(s[i..e], s[e..]);
        VisibleOfSpaces(s[i..e]);
        VisibleAppend(" ", CollapseFrom(s, e));
      } else {
        CollapseKeepsVisible(s, i + 1);
        assert s[i..] == [s[i]] + s[i + 1..];
        VisibleAppend([s[i]], s[i + 1..]);
        VisibleAppend([s[i]], CollapseFrom(s, i + 1));
      }
    }
  }

  /** Text that has no whitespace run is left as it is by the collapse. */
  lemma {:induction false} CollapseIdentity(s: string, i: nat)
    requires i <= |s| && NoDoubleSpace(s)
    ensures CollapseFrom(s, i) == s[i..]
    decreases |s| - i
  {
    if i < |s| {
      CollapseIdentity(s, i + 1);
      assert s[i..] == [s[i]] + s[i + 1..];
    }
  }

  /** A whitespace run that starts before a non-space at n - 1 ends there too, whether or not the text goes on. */
  lemma RunEndPrefix(x: string, n: nat, i: nat)
    requires i < n <= |x| && !IsSpace(x[n - 1])
    ensures RunEnd(x[..n], i) == RunEnd(x, i)
  {
    var e := RunEnd(x, i);
    RunEndSpaces(x, i);
    assert e < n;
    RunEndIs(x[..n], i, e);
  }

  /** Text that ends in a non-space collapses on its own, whatever follows it. */
  lemma {:induction false} CollapsePrefix(x: string, n: nat, i: nat)
    requires i <= n <= |x| && (n == 0 || !IsSpace(x[n - 1]))
    ensures CollapseFrom(x, i) == CollapseFrom(x[..n], i) + CollapseFrom(x, n)
    decreases n - i
  {
    if i < n {
      var u := x[..n];
      if i + 1 < n && IsSpace(x[i]) && IsSpace(x[i + 1]) {
        RunEndPrefix(x, n, i);
        CollapsePrefix(x, n, RunEnd(x, i));
      } else {
        CollapsePrefix(x, n, i + 1);
      }
    }
  }

  /** The collapse from i onwards is the collapse of the text from i. */
  lemma {:induction false} CollapseSuffix(x: string, i: nat)
    requires i <= |x|
    ensures CollapseFrom(x, i) == Collapse(x[i..])
    decreases |x| - i
  {
    if i < |x| {
      var t := x[i..];
      assert t[0] == x[i];
      assert i + 1 < |x| ==> t[1] == x[i + 1];
      if i + 1 < |x| && IsSpace(x[i]) && IsSpace(x[i + 1]) {
        var e := RunEnd(x, i);
        RunEndSpaces(x, i);
        assert forall k :: 0 <= k < e - i ==> t[k] == x[i + k];
        assert e < |x| ==> t[e - i] == x[e];
        RunEndIs(t, 0, e - i);
        assert t[e - i..] == x[e..];
        CollapseSuffix(x, e);
        CollapseSuffix(t, e - i);
      } else {
        assert t[1..] == x[i + 1..];
        CollapseSuffix(x, i + 1);
        CollapseSuffix(t, 1);
      }
    }
  }

  /** The run x[n..m] of two or more whitespace characters, between non-spaces (or the ends), becomes one space. */
  lemma CollapseRunAt(x: string, n: nat, m: nat)
    requires n + 2 <= m <= |x|
    requires n == 0 || !IsSpace(x[n - 1])
    requires forall k :: n <= k < m ==> IsSpace(x[k])
    requires m == |x| || !IsSpace(x[m])
    ensures Collapse(x) == Collapse(x[..n]) + " " + Collapse(x[m..])
  {
    CollapsePrefix(x, n, 0);
    CollapseRunTail(x, n, m);
    var a, b := Collapse(x[..n]), Collapse(x[m..]);
    assert a + (" " + b) == a + " " + b;
  }

  /** From the start of such a run, the collapse is one space followed by the collapse of what is after the run. */
  lemma CollapseRunTail(x: string, n: nat, m: nat)
    requires n + 2 <= m <= |x|
    requires forall k :: n <= k < m ==> IsSpace(x[k])
    requires m == |x| || !IsSpace(x[m])
    ensures CollapseFrom(x, n) == " " + Collapse(x[m..])
  {
    RunEndIs(x, n, m);
    CollapseOfRun(x, n);
    CollapseSuffix(x, m);
  }

  /** At a run of two or more whitespace characters the collapse emits one space and skips the run. */
  lemma CollapseOfRun(x: string, n: nat)
    requires n + 1 < |x| && IsSpace(x[n]) && IsSpace(x[n + 1])
    ensures CollapseFrom(x, n) == " " + CollapseFrom(x, RunEnd(x, n))
  {
  }

  /** The single character x[n], between non-spaces (or the ends), is kept as it is. */
  lemma CollapseSingleAt(x: string, n: nat)
    requires n < |x|
    requires n == 0 || !IsSpace(x[n - 1])
    requires n + 1 == |x| || !IsSpace(x[n + 1])
    ensures Collapse(x) == Collapse(x[..n]) + [x[n]] + Collapse(x[n + 1..])
  {
    CollapsePrefix(x, n, 0);
    CollapseSuffix(x, n + 1);
  }

  /**
   * A whitespace run of two or more characters between two non-spaces (or the ends)
   * becomes exactly one space, and the text on either side collapses on its own.
   */
  lemma CollapseRun(a: string, w: string, b: string)
    requires a == [] || !IsSpace(a[|a| - 1])
    requires |w| >= 2 && AllSpace(w)
    requires b == [] || !IsSpace(b[0])
    ensures Collapse(a + w + b) == Collapse(a) + " " + Collapse(b)
  {
    var x := a + w + b;
    assert x[..|a|] == a && x[|a| + |w|..] == b;
    assert forall k :: |a| <= k < |a| + |w| ==> x[k] == w[k - |a|];
    CollapseRunAt(x, |a|, |a| + |w|);
  }

  /** A single whitespace character between two non-spaces (or the ends) is kept as it is. */
  lemma CollapseSingle(a: string, c: char, b: string)
    requires a == [] || !IsSpace(a[|a| - 1])
    requires b == [] || !IsSpace(b[0])
    ensures Collapse(a + [c] + b) == Collapse(a) + [c] + Collapse(b)
  {
    var x := a + [c] + b;
    assert x[..|a|] == a && x[|a| + 1..] == b && x[|a|] == c;
    CollapseSingleAt(x, |a|);
  }

  /** Stripping removes only whitespace. */
  lemma StripKeepsVisible(s: string)
    ensures Visible(Strip(s)) == Visible(s)
  {
    var a := StripStart(s);
    var b := StripEnd(s, a);
    assert s == s[..a] + s[a..b] + s[b..];
    VisibleAppend(s[..a] + s[a..b], s[b..]);
    VisibleAppend(s[..a], s[a..b]);
    VisibleOfSpaces(s[..a]);
    VisibleOfSpaces(s[b..]);
  }

  /** The final collapse-and-strip changes nothing but whitespace. */
  lemma NormalizeKeepsVisible(s: string)
    ensures Visible(Normalize(s)) == Visible(s)
  {
    CollapseKeepsVisible(s, 0);
    assert s[0..] == s;
    StripKeepsVisible(Collapse(s));
  }

  // ---------------------------------------------------------------------------
  // Text the table does not touch

  predicate NoMatch(s: string, rule: Rule) {
    forall i :: 0 <= i <= |s| ==> MatchLength(s, i, rule).None?
  }

  /** Where a rule's pattern matches nowhere, the substitution copies the text. */
  lemma NoMatchIdentity(s: string, rule: Rule)
    requires ValidRule(rule) && NoMatch(s, rule)
    ensures Sub(s, rule) == s
  {
    CopyUntil(s, rule, 0, |s|);
    assert s[0..|s|] == s;
  }

  /** Up to the next match, the substitution copies the text. */
  lemma {:induction false} CopyUntil(s: string, rule: Rule, a: nat, b: nat)
    requires ValidRule(rule) && a <= b <= |s|
    requires forall k :: a <= k < b ==> MatchLength(s, k, rule).None?
    ensures SubFrom(s, rule, a) == s[a..b] + SubFrom(s, rule, b)
    decreases b - a
  {
    if a < b {
      CopyUntil(s, rule, a + 1, b);
      assert s[a..b] == [s[a]] + s[a + 1..b];
    }
  }

  /** Text in which no table phrase matches, with no whitespace run and no outer whitespace, is returned unchanged. */
  lemma PlainTextUnchanged(text: string)
    requires forall k :: 0 <= k < |Table| ==> NoMatch(text, Table[k])
    requires NoDoubleSpace(text) && NoOuterSpace(text)
    ensures Normalize(ApplyRules(text, Table)) == text
  {
    PlainTextUnchangedPrefix(text, |Table|);
    assert Table[..|Table|] == Table;
    CollapseIdentity(text, 0);
    assert text[0..] == text;
  }

  lemma {:induction false} PlainTextUnchangedPrefix(text: string, n: nat)
    requires n <= |Table|
    requires forall k :: 0 <= k < |Table| ==> NoMatch(text, Table[k])
    ensures ApplyRules(text, Table[..n]) == text
  {
    if n > 0 {
      assert Table[..n][..n - 1] == Table[..n - 1];
      PlainTextUnchangedPrefix(text, n - 1);
      NoMatchIdentity(text, Table[n - 1]);
    }
  }

  // ---------------------------------------------------------------------------
  // Case-insensitive matching: the `Utilize` row also takes lowercase `utilize`

  /** The two `utilize` rows match at exactly the same places, whatever the case of the text. */
  lemma UtilizeRowsMatchAlike(s: string, i: nat)
    requires i <= |s|
    ensures MatchLength(s, i, Table[2]) == MatchLength(s, i, Table[3])
  {
    var p := |Table[2].phrase|;
    if i + p <= |s| {
      assert FoldEq(s[i..i + p], Table[2].phrase) == FoldEq(s[i..i + p], Table[3].phrase) by {
        assert forall k :: 0 <= k < p ==> Lower(Table[2].phrase[k]) == Lower(Table[3].phrase[k]);
      }
    }
  }

  /** The first match of a rule at or after a (|s| when there is none). */
  function FirstMatch(s: string, rule: Rule, a: nat): (m: nat)
    requires a <= |s|
    ensures a <= m <= |s|
    ensures forall k :: a <= k < m ==> MatchLength(s, k, rule).None?
    ensures m < |s| ==> MatchLength(s, m, rule).Some?
    decreases |s| - a
  {
    if a == |s| || MatchLength(s, a, rule).Some? then a else FirstMatch(s, rule, a + 1)
  }

  lemma WordAtShift(a: string, b: string, u: string, t: int)
    requires a != [] && b != [] && IsWordChar(a[|a| - 1]) == IsWordChar(b[|b| - 1])
    requires -1 <= t
    ensures IsWordAt(a + u, |a| + t) == IsWordAt(b + u, |b| + t)
  {
    if t == -1 {
      assert (a + u)[|a| - 1] == a[|a| - 1] && (b + u)[|b| - 1] == b[|b| - 1];
    } else if t < |u| {
      assert (a + u)[|a| + t] == u[t] && (b + u)[|b| + t] == u[t];
    }
  }

  lemma BoundaryShift(a: string, b: string, u: string, t: nat)
    requires a != [] && b != [] && IsWordChar(a[|a| - 1]) == IsWordChar(b[|b| - 1])
    ensures IsBoundary(a + u, |a| + t) == IsBoundary(b + u, |b| + t)
  {
    WordAtShift(a, b, u, t - 1);
    WordAtShift(a, b, u, t);
  }

  /** A match at i of x and one at k of y agree when everything the pattern inspects agrees. */
  lemma MatchCongruent(x: string, i: nat, y: string, k: nat, rule: Rule)
    requires i <= |x| && k <= |y| && |x| - i == |y| - k
    requires IsBoundary(x, i) == IsBoundary(y, k)
    requires i + |rule.phrase| <= |x| ==> x[i..i + |rule.phrase|] == y[k..k + |rule.phrase|]
    requires i + |rule.phrase| < |x| ==> x[i + |rule.phrase|] == y[k + |rule.phrase|]
    requires IsBoundary(x, i + |rule.phrase|) == IsBoundary(y, k + |rule.phrase|)
    requires IsBoundary(x, i + |rule.phrase| + 1) == IsBoundary(y, k + |rule.phrase| + 1)
    ensures MatchLength(x, i, rule) == MatchLength(y, k, rule)
  {
  }

  /** Whether a match starts at position |a| + j depends on the prefix a only through the word class of its last character. */
  lemma MatchShift(a: string, b: string, u: string, j: nat, rule: Rule)
    requires a != [] && b != [] && IsWordChar(a[|a| - 1]) == IsWordChar(b[|b| - 1])
    requires j <= |u|
    ensures MatchLength(a + u, |a| + j, rule) == MatchLength(b + u, |b| + j, rule)
  {
    var x, y := a + u, b + u;
    var p := |rule.phrase|;
    BoundaryShift(a, b, u, j);
    BoundaryShift(a, b, u, j + p);
    BoundaryShift(a, b, u, j + p + 1);
    if j + p <= |u| {
      assert x[|a| + j..|a| + j + p] == u[j..j + p] == y[|b| + j..|b| + j + p];
    }
    if j + p < |u| {
      assert x[|a| + j + p] == u[j + p] == y[|b| + j + p];
    }
    MatchCongruent(x, |a| + j, y, |b| + j, rule);
  }

  /** The predicate that the induction below carries: no match of the `Utilize` row in x at or after i. */
  predicate NoMatchFrom(x: string, i: nat) {
    forall j :: i <= j <= |x| ==> MatchLength(x, j, Table[2]).None?
  }

  /** `Use` followed by anything cannot start a match of `utilize`, nor can its last two letters. */
  lemma UseStartsNoMatch(x: string, i: nat, j: nat)
    requires i <= j < i + 3 && i + 3 <= |x| && x[i..i + 3] == "Use"
    ensures MatchLength(x, j, Table[2]).None?
  {
    if j + 7 <= |x| {
      assert x[i + 1] == x[i..i + 3][1] == 's';
      assert x[i + 2] == x[i..i + 3][2] == 'e';
      if j == i {
        assert x[j..j + 7][1] == 's';
      } else {
        assert x[j..j + 7][0] == x[j];
      }
    }
  }

  /** Induction step where the `Utilize` row matched at i and `Use` was written. */
  lemma UtilizeStepMatched(s: string, i: nat, rest: string)
    requires i + 7 <= |s| && Lower(s[i + 6]) == 'e'
    requires NoMatchFrom(s[..i + 7] + rest, i + 7)
    ensures NoMatchFrom(s[..i] + "Use" + rest, i)
  {
    var x := s[..i] + "Use" + rest;
    var y := s[..i + 7] + rest;
    assert x[i..i + 3] == "Use";
    forall j | i <= j <= |x| ensures MatchLength(x, j, Table[2]).None? {
      if j < i + 3 {
        UseStartsNoMatch(x, i, j);
      } else {
        assert x == (s[..i] + "Use") + rest;
        MatchShift(s[..i] + "Use", s[..i + 7], rest, j - (i + 3), Table[2]);
        assert MatchLength(y, j + 4, Table[2]).None?;
      }
    }
  }

  /**
   * x agrees with s up to m, where either s ends or a match starts in s and `U` starts in x.
   * A match of `utilize` at i < m in x would then be one in s, or would need `U` inside it.
   */
  lemma NoMatchBeforeNext(s: string, x: string, i: nat, m: nat)
    requires i < m <= |s| && MatchLength(s, i, Table[2]).None?
    requires m <= |x| && x[..m] == s[..m]
    requires m < |s| ==> m < |x| && x[m] == 'U' && MatchLength(s, m, Table[2]).Some?
    requires m == |s| ==> |x| == |s|
    ensures MatchLength(x, i, Table[2]).None?
  {
    var rule := Table[2];
    assert forall k :: 0 <= k < m ==> x[k] == x[..m][k] == s[..m][k] == s[k];
    if m < i + 7 {
      if i + 7 <= |x| {
        assert x[i..i + 7][m - i] == x[m];
        assert !FoldEq(x[i..i + 7], rule.phrase);
      }
    } else {
      assert x[i..i + 7] == s[i..i + 7];
      if m == i + 7 && m < |s| {
        assert s[m..m + 7][0] == s[m];
      }
      assert IsWordAt(x, i + 7) == IsWordAt(s, i + 7);
      assert MatchLength(x, i, rule) == MatchLength(s, i, rule);
    }
  }

  /** s[..m] followed by the substitution from m, where m is a match or the end of s. */
  lemma NextMatchShape(s: string, m: nat, x: string)
    requires m <= |s| && (m < |s| ==> MatchLength(s, m, Table[2]).Some?)
    requires x == s[..m] + SubFrom(s, Table[2], m)
    ensures m <= |x| && x[..m] == s[..m]
    ensures m < |s| ==> m < |x| && x[m] == 'U'
    ensures m == |s| ==> |x| == |s|
  {
    if m < |s| {
      assert MatchLength(s, m, Table[2]) == Some(7);
      assert SubFrom(s, Table[2], m) == "Use" + SubFrom(s, Table[2], m + 7);
    }
  }

  lemma PrefixRegroup(s: string, a: nat, b: nat, u: string, v: string)
    requires a <= b <= |s| && u == s[a..b] + v
    ensures s[..a] + u == s[..b] + v
  {
    assert s[..a] + s[a..b] == s[..b];
  }

  /**
   * Induction step where the `Utilize` row did not match at i and s[i] was copied:
   * no match can start at i either, since the text up to the next match is copied.
   */
  lemma UtilizeStepCopied(s: string, i: nat)
    requires i < |s| && MatchLength(s, i, Table[2]).None?
    ensures MatchLength(s[..i + 1] + SubFrom(s, Table[2], i + 1), i, Table[2]).None?
  {
    var rule := Table[2];
    var m := FirstMatch(s, rule, i + 1);
    CopyUntil(s, rule, i + 1, m);
    var x := s[..i + 1] + SubFrom(s, rule, i + 1);
    PrefixRegroup(s, i + 1, m, SubFrom(s, rule, i + 1), SubFrom(s, rule, m));
    NextMatchShape(s, m, x);
    NoMatchBeforeNext(s, x, i, m);
  }

  /** The induction step for a match at i: `Use` is written and the rest is substituted from i + 7. */
  lemma UtilizeCaseMatched(s: string, i: nat)
    requires i < |s| && MatchLength(s, i, Table[2]).Some?
    requires i + 7 <= |s| && NoMatchFrom(s[..i + 7] + SubFrom(s, Table[2], i + 7), i + 7)
    ensures NoMatchFrom(s[..i] + SubFrom(s, Table[2], i), i)
  {
    var rule := Table[2];
    assert MatchLength(s, i, rule) == Some(7);
    assert s[..i] + SubFrom(s, rule, i) == s[..i] + "Use" + SubFrom(s, rule, i + 7);
    assert FoldEq(s[i..i + 7], rule.phrase);
    assert Lower(s[i..i + 7][6]) == 'e';
    UtilizeStepMatched(s, i, SubFrom(s, rule, i + 7));
  }

  /** The induction step where s[i] is copied. */
  lemma UtilizeCaseCopied(s: string, i: nat)
    requires i < |s| && MatchLength(s, i, Table[2]).None?
    requires NoMatchFrom(s[..i + 1] + SubFrom(s, Table[2], i + 1), i + 1)
    ensures NoMatchFrom(s[..i] + SubFrom(s, Table[2], i), i)
  {
    var rule := Table[2];
    var x := s[..i + 1] + SubFrom(s, rule, i + 1);
    assert SubFrom(s, rule, i) == [s[i]] + SubFrom(s, rule, i + 1);
    assert s[..i] + SubFrom(s, rule, i) == x by {
      assert s[..i] + [s[i]] == s[..i + 1];
    }
    UtilizeStepCopied(s, i);
    forall j | i <= j <= |x| ensures MatchLength(x, j, rule).None? {
      if j > i {
        assert i + 1 <= j;
      }
    }
  }

  /**
   * After the `Utilize` row has run over s[i..] (with s[..i] left in front), its pattern
   * matches nowhere at or after position i: the replacement `Use` cannot start a new match,
   * and untouched text keeps the boundaries it had.
   */
  lemma {:induction false} UtilizeLeavesNoMatchFrom(s: string, i: nat)
    requires i <= |s|
    ensures NoMatchFrom(s[..i] + SubFrom(s, Table[2], i), i)
    decreases |s| - i
  {
    if i == |s| {
      assert s[..i] + SubFrom(s, Table[2], i) == s;
    } else if MatchLength(s, i, Table[2]).Some? {
      UtilizeLeavesNoMatchFrom(s, i + 7);
      UtilizeCaseMatched(s, i);
    } else {
      UtilizeLeavesNoMatchFrom(s, i + 1);
      UtilizeCaseCopied(s, i);
    }
  }

  /** After the `Utilize` row, the `utilize` pattern matches nowhere. */
  lemma UtilizeLeavesNoMatch(s: string)
    ensures NoMatch(Sub(s, Table[2]), Table[3])
  {
    UtilizeLeavesNoMatchFrom(s, 0);
    assert s[..0] + SubFrom(s, Table[2], 0) == Sub(s, Table[2]);
    forall i | 0 <= i <= |Sub(s, Table[2])| ensures MatchLength(Sub(s, Table[2]), i, Table[3]).None? {
      UtilizeRowsMatchAlike(Sub(s, Table[2]), i);
    }
  }

  /** So the lowercase `utilize` row never changes anything: running it after the `Utilize` row is a no-op. */
  lemma LowercaseUtilizeNeverFires(s: string)
    ensures Sub(Sub(s, Table[2]), Table[3]) == Sub(s, Table[2])
  {
    UtilizeLeavesNoMatch(s);
    NoMatchIdentity(Sub(s, Table[2]), Table[3]);
  }

  /** In the whole pipeline, the fourth row leaves the output of the first three unchanged. */
  lemma FourthRowIsNoOp(text: string)
    ensures ApplyRules(text, Table[..4]) == ApplyRules(text, Table[..3])
  {
    assert Table[..4][..3] == Table[..3];
    assert Table[..3][..2] == Table[..2];
    LowercaseUtilizeNeverFires(ApplyRules(text, Table[..2]));
  }

  // ---------------------------------------------------------------------------
  // Word boundaries and the optional comma

  /**
   * A `,?` row takes the comma only when a word character follows it; before a space,
   * punctuation or the end of the text, `\b` fails after the comma and the match ends
   * at the phrase, leaving the comma in the text.
   */
  lemma OptionalCommaOnlyBeforeWordChar(s: string, i: nat, rule: Rule)
    requires rule.optionalComma && ValidRule(rule) && IsWordChar(rule.phrase[|rule.phrase| - 1])
    requires i + |rule.phrase| < |s| && s[i + |rule.phrase|] == ','
    requires IsBoundary(s, i) && FoldEq(s[i..i + |rule.phrase|], rule.phrase)
    ensures MatchLength(s, i, rule) ==
      Some(if IsWordAt(s, i + |rule.phrase| + 1) then |rule.phrase| + 1 else |rule.phrase|)
  {
    var p := |rule.phrase|;
    assert s[i..i + p][p - 1] == s[i + p - 1];
    assert IsWordChar(s[i + p - 1]);
  }

  /** The `Utilize` row rewrites the lowercase spelling too. */
  lemma UtilizeRowTakesLowercase()
    ensures Sub("utilize", Table[2]) == "Use"
  {
    assert MatchLength("utilize", 0, Table[2]) == Some(7);
  }

  /** A phrase at the start of a longer word is not rewritten. */
  lemma PhrasePrefixOfWordUntouched()
    ensures Sub("utilized", Table[2]) == "utilized"
  {
    var s := "utilized";
    forall i | 0 <= i <= |s| ensures MatchLength(s, i, Table[2]).None? {
      if i == 0 { assert IsWordAt(s, 7); }
    }
    NoMatchIdentity(s, Table[2]);
  }

  /** A phrase at the end of a longer word is not rewritten. */
  lemma PhraseSuffixOfWordUntouched()
    ensures Sub("reutilize", Table[2]) == "reutilize"
  {
    var s := "reutilize";
    forall i | 0 <= i <= |s| ensures MatchLength(s, i, Table[2]).None? {
      if i == 2 { assert IsWordAt(s, 1); }
      else if i < 2 { assert s[i..i + 7][0] == s[i]; }
    }
    NoMatchIdentity(s, Table[2]);
  }

  /** A comma followed by a space survives the rewrite. */
  lemma CommaBeforeSpaceKept()
    ensures Sub("Furthermore, x", Table[6]) == "Also,, x"
  {
    var s, rule := "Furthermore, x", Table[6];
    assert MatchLength(s, 0, rule) == Some(11) by {
      assert FoldEq(s[0..11], rule.phrase);
      assert !IsWordAt(s, 12);
    }
    forall k | 11 <= k < |s| ensures MatchLength(s, k, rule).None? {
      assert k + 11 > |s|;
    }
    CopyUntil(s, rule, 11, |s|);
    assert s[11..|s|] == ", x";
  }

  /** A comma followed by a letter is consumed. */
  lemma CommaBeforeLetterConsumed()
    ensures Sub("Furthermore,x", Table[6]) == "Also,x"
  {
    var s, rule := "Furthermore,x", Table[6];
    assert MatchLength(s, 0, rule) == Some(12) by {
      assert FoldEq(s[0..11], rule.phrase);
      assert IsWordAt(s, 12) && !IsWordAt(s, 13);
    }
    assert MatchLength(s, 12, rule).None?;
    assert SubFrom(s, rule, 12) == "x";
  }
}
