/**
 * The extractive summarizer of the summarize-text skill: split the text into
 * sentences, score each sentence by the frequencies of its words in the whole
 * text (stop words excluded), keep the best-scoring sentences and print them
 * in their original order.
 */
module Summarize {
  import opened Text

  /** The words that never contribute to a score. */
  const StopWords: set<string> := {
    "the", "a", "an", "is", "are", "was", "were", "be", "been", "being",
    "have", "has", "had", "do", "does", "did", "will", "would", "could",
    "should", "may", "might", "can", "shall", "to", "of", "in", "for",
    "on", "with", "at", "by", "from", "as", "into", "through", "during",
    "before", "after", "above", "below", "between", "and", "but", "or",
    "not", "no", "nor", "so", "yet", "both", "either", "neither", "each",
    "every", "all", "any", "few", "more", "most", "other", "some", "such",
    "than", "too", "very", "just", "because", "if", "when", "while",
    "where", "how", "what", "which", "who", "whom", "this", "that",
    "these", "those", "it", "its", "i", "me", "my", "we", "our", "you",
    "your", "he", "him", "his", "she", "her", "they", "them", "their"
  }

  // ---------------------------------------------------------------------
  // Sentence splitting: re.split(r'(?<=[.!?])\s+', text.strip())
  // ---------------------------------------------------------------------

  predicate IsTerminator(c: char) {
    c == '.' || c == '!' || c == '?'
  }

  /** Position p of s is where the splitter cuts: whitespace right after `.`, `!` or `?`. */
  predicate IsBreak(s: string, p: int) {
    0 < p < |s| && IsTerminator(s[p - 1]) && IsSpace(s[p])
  }

  /** No position of s is a cut. */
  predicate NoBreak(s: string) {
    forall p :: 0 < p < |s| ==> !IsBreak(s, p)
  }

  /** The pieces of a split together with the separators that were cut out between them. */
  datatype Split = Split(parts: seq<string>, seps: seq<string>)

  /** parts[0] + seps[0] + parts[1] + ... + parts[last]. */
  function Interleave(parts: seq<string>, seps: seq<string>): string
    requires |parts| == |seps| + 1
  {
    if |seps| == 0 then parts[0]
    else parts[0] + seps[0] + Interleave(parts[1..], seps[1..])
  }

  /** The k-th cut: a non-empty whitespace separator after a piece that ends a sentence, with no whitespace left behind it. */
  predicate WellCut(parts: seq<string>, seps: seq<string>, k: int)
    requires 0 <= k < |seps| && |parts| == |seps| + 1
  {
    && seps[k] != [] && AllSpace(seps[k])
    && parts[k] != [] && IsTerminator(parts[k][|parts[k]| - 1])
    && (parts[k + 1] == [] || !IsSpace(parts[k + 1][0]))
  }

  /** What a split promises about its pieces and separators. */
  predicate WellSplit(r: Split) {
    && |r.parts| == |r.seps| + 1
    && (forall k :: 0 <= k < |r.parts| ==> NoBreak(r.parts[k]))
    && (forall k :: 0 <= k < |r.seps| ==> WellCut(r.parts, r.seps, k))
  }

  /** The first piece is where the joined text begins. */
  lemma InterleaveStartsWithFirst(parts: seq<string>, seps: seq<string>)
    requires |parts| == |seps| + 1
    ensures parts[0] <= Interleave(parts, seps)
  {
    if |seps| > 0 {
      assert Interleave(parts, seps) == parts[0] + (seps[0] + Interleave(parts[1..], seps[1..]));
    }
  }

  /** A stretch of s with no cut strictly inside it has no cut of its own. */
  lemma NoBreakInside(s: string, start: nat, i: nat)
    requires start <= i <= |s|
    requires forall p :: start < p < i ==> !IsBreak(s, p)
    ensures NoBreak(s[start..i])
  {
    forall p | 0 < p < i - start ensures !IsBreak(s[start..i], p) {
      assert !IsBreak(s, start + p);
    }
  }

  /** Cutting s at the whitespace run s[i..e] that follows a terminator. */
  lemma CutAt(s: string, start: nat, i: nat, e: nat)
    requires start <= i < e <= |s|
    requires start == 0 || IsSpace(s[start - 1])
    requires IsBreak(s, i)
    requires forall k :: i <= k < e ==> IsSpace(s[k])
    ensures s[start..i] != [] && IsTerminator(s[start..i][i - start - 1])
    ensures s[i..e] != [] && AllSpace(s[i..e])
    ensures s[start..] == s[start..i] + s[i..e] + s[e..]
  {
  }

  /** A sentence and the separator after it, put in front of a split, give a split. */
  lemma PrependCut(piece: string, sep: string, rest: Split)
    requires WellSplit(rest)
    requires NoBreak(piece) && piece != [] && IsTerminator(piece[|piece| - 1])
    requires sep != [] && AllSpace(sep)
    requires rest.parts[0] == [] || !IsSpace(rest.parts[0][0])
    ensures WellSplit(Split([piece] + rest.parts, [sep] + rest.seps))
    ensures Interleave([piece] + rest.parts, [sep] + rest.seps) == piece + sep + Interleave(rest.parts, rest.seps)
  {
    var r := Split([piece] + rest.parts, [sep] + rest.seps);
    assert r.parts[1..] == rest.parts && r.seps[1..] == rest.seps;
    assert WellCut(r.parts, r.seps, 0);
    forall k | 1 <= k < |r.seps| ensures WellCut(r.parts, r.seps, k) {
      assert WellCut(rest.parts, rest.seps, k - 1);
    }
  }

  /** At a cut, the current piece and the whitespace run after it go in front of the split of the rest. */
  lemma BreakStep(s: string, start: nat, i: nat, e: nat, rest: Split)
    requires start <= i < e <= |s|
    requires start == 0 || IsSpace(s[start - 1])
    requires forall p :: start < p < i ==> !IsBreak(s, p)
    requires IsBreak(s, i) && e == RunEnd(s, i)
    requires WellSplit(rest) && Interleave(rest.parts, rest.seps) == s[e..]
    ensures WellSplit(Split([s[start..i]] + rest.parts, [s[i..e]] + rest.seps))
    ensures Interleave([s[start..i]] + rest.parts, [s[i..e]] + rest.seps) == s[start..]
  {
    NoBreakInside(s, start, i);
    RunEndSpaces(s, i);
    CutAt(s, start, i, e);
    InterleaveStartsWithFirst(rest.parts, rest.seps);
    assert rest.parts[0] == [] || rest.parts[0][0] == s[e];
    PrependCut(s[start..i], s[i..e], rest);
  }

  /**
   * The split of s[start..], while scanning at i: the current piece starts at
   * `start` and nothing in (start, i) is a cut.
   */
  function SplitFrom(s: string, start: nat, i: nat): (r: Split)
    requires start <= i <= |s|
    requires start == 0 || IsSpace(s[start - 1])
    requires forall p :: start < p < i ==> !IsBreak(s, p)
    ensures WellSplit(r)
    ensures Interleave(r.parts, r.seps) == s[start..]
    decreases |s| - i
  {
    if i == |s| then
      NoBreakInside(s, start, i);
      assert s[start..i] == s[start..];
      Split([s[start..]], [])
    else if IsBreak(s, i) then
      var e := RunEnd(s, i);
      RunEndSpaces(s, i);
      assert i < e && IsSpace(s[e - 1]);
      var rest := SplitFrom(s, e, e);
      BreakStep(s, start, i, e, rest);
      Split([s[start..i]] + rest.parts, [s[i..e]] + rest.seps)
    else
      SplitFrom(s, start, i + 1)
  }

  /** The sentences of a text: its stripped form cut at every whitespace run after `.`, `!` or `?`. */
  function Sentences(text: string): (r: seq<string>)
    ensures |r| >= 1
  {
    SplitFrom(Strip(text), 0, 0).parts
  }

  /** The last piece is where the joined text ends, right after the last separator. */
  lemma {:induction false} InterleaveEndsWithLast(parts: seq<string>, seps: seq<string>)
    requires |parts| == |seps| + 1 && |seps| > 0
    ensures var t := Interleave(parts, seps); var m := |t| - |parts[|parts| - 1]|;
      |seps[|seps| - 1]| <= m && t[m..] == parts[|parts| - 1] && t[m - |seps[|seps| - 1]|..m] == seps[|seps| - 1]
  {
    if |seps| == 1 {
      assert Interleave(parts, seps) == parts[0] + seps[0] + parts[1];
    } else {
      InterleaveEndsWithLast(parts[1..], seps[1..]);
      assert Interleave(parts, seps) == (parts[0] + seps[0]) + Interleave(parts[1..], seps[1..]);
    }
  }

  /** A piece that ends a text without outer whitespace, right after a whitespace separator, is non-empty and trimmed. */
  lemma LastPieceTrimmed(t: string, sep: string, last: string)
    requires NoOuterSpace(t) && sep != [] && AllSpace(sep)
    requires |sep| + |last| <= |t|
    requires t[|t| - |last|..] == last && t[|t| - |last| - |sep|..|t| - |last|] == sep
    requires last == [] || !IsSpace(last[0])
    ensures last != [] && NoOuterSpace(last)
  {
    var m := |t| - |last|;
    assert t[m - 1] == sep[|sep| - 1] by { assert t[m - |sep|..m][|sep| - 1] == sep[|sep| - 1]; }
    assert m < |t|;
    assert last[|last| - 1] == t[|t| - 1] by { assert t[m..][|last| - 1] == last[|last| - 1]; }
  }

  /** A piece followed by a separator is non-empty and trimmed. */
  lemma CutPieceTrimmed(r: Split, t: string, k: nat)
    requires WellSplit(r) && Interleave(r.parts, r.seps) == t && NoOuterSpace(t)
    requires k < |r.seps|
    ensures NoOuterSpace(r.parts[k]) && r.parts[k] != []
  {
    assert WellCut(r.parts, r.seps, k);
    if k > 0 {
      assert WellCut(r.parts, r.seps, k - 1);
    } else {
      InterleaveStartsWithFirst(r.parts, r.seps);
      assert r.parts[0][0] == t[0];
    }
  }

  /** One piece of a split of a text without outer whitespace has none either, and is empty only when the text is. */
  lemma PieceTrimmed(r: Split, t: string, k: nat)
    requires WellSplit(r) && Interleave(r.parts, r.seps) == t && NoOuterSpace(t)
    requires k < |r.parts|
    ensures NoOuterSpace(r.parts[k]) && (t != [] ==> r.parts[k] != [])
  {
    var n := |r.seps|;
    if k < n {
      CutPieceTrimmed(r, t, k);
    } else if k == 0 {
      assert r.parts[0] == t;
    } else {
      assert WellCut(r.parts, r.seps, k - 1);
      LastPartTrimmed(r.parts, r.seps, t);
    }
  }

  /** The piece after the last cut of a text without outer whitespace is non-empty and trimmed. */
  lemma LastPartTrimmed(parts: seq<string>, seps: seq<string>, t: string)
    requires |parts| == |seps| + 1 && |seps| > 0
    requires WellCut(parts, seps, |seps| - 1)
    requires Interleave(parts, seps) == t && NoOuterSpace(t)
    ensures parts[|seps|] != [] && NoOuterSpace(parts[|seps|])
  {
    InterleaveEndsWithLast(parts, seps);
    LastPieceTrimmed(t, seps[|seps| - 1], parts[|seps|]);
  }

  /**
   * No sentence begins or ends with whitespace, and every sentence is non-empty
   * exactly when the text is not blank (a blank text gives the one sentence "").
   */
  lemma SentencesTrimmed(text: string)
    ensures forall k :: 0 <= k < |Sentences(text)| ==> NoOuterSpace(Sentences(text)[k])
    ensures (forall k :: 0 <= k < |Sentences(text)| ==> Sentences(text)[k] != []) <==> !AllSpace(text)
  {
    var t := Strip(text);
    var r := SplitFrom(t, 0, 0);
    assert Sentences(text) == r.parts;
    forall k | 0 <= k < |r.parts|
      ensures NoOuterSpace(r.parts[k]) && (t != [] ==> r.parts[k] != [])
    {
      PieceTrimmed(r, t, k);
    }
    if AllSpace(text) {
      InterleaveStartsWithFirst(r.parts, r.seps);
      assert r.parts[0] == [];
    }
  }

  // ---------------------------------------------------------------------
  // Words: re.findall(r'\b[a-z]+\b', s.lower())
  // ---------------------------------------------------------------------

  predicate IsLowerLetter(c: char) {
    'a' <= c <= 'z'
  }

  predicate AllLowerLetters(w: string) {
    forall k :: 0 <= k < |w| ==> IsLowerLetter(w[k])
  }

  /** First index at or after i that is not a word character (or |s|). */
  function WordEnd(s: string, i: nat): (e: nat)
    requires i <= |s|
    ensures i <= e <= |s|
    ensures forall k :: i <= k < e ==> IsWordChar(s[k])
    ensures e < |s| ==> !IsWordChar(s[e])
    decreases |s| - i
  {
    if i == |s| || !IsWordChar(s[i]) then i else WordEnd(s, i + 1)
  }

  /**
   * The matches of `\b[a-z]+\b` in s[i..]: the whole words (maximal runs of
   * word characters) that consist of lower-case letters only.
   */
  function FindWords(s: string, i: nat): (r: seq<string>)
    requires i <= |s|
    ensures forall k :: 0 <= k < |r| ==> r[k] != [] && AllLowerLetters(r[k])
    decreases |s| - i
  {
    if i == |s| then []
    else if !IsWordChar(s[i]) then FindWords(s, i + 1)
    else
      var e := WordEnd(s, i);
      if AllLowerLetters(s[i..e]) then [s[i..e]] + FindWords(s, e) else FindWords(s, e)
  }

  /** The words a text is scored by. */
  function Words(s: string): (r: seq<string>)
    ensures forall k :: 0 <= k < |r| ==> r[k] != [] && AllLowerLetters(r[k])
  {
    FindWords(LowerAll(s), 0)
  }

  /** The end of a word depends only on the text from there on. */
  lemma {:induction false} WordEndShift(p: string, q: string, j: nat)
    requires j <= |q|
    ensures WordEnd(p + q, |p| + j) == |p| + WordEnd(q, j)
    decreases |q| - j
  {
    if j < |q| {
      assert (p + q)[|p| + j] == q[j];
      WordEndShift(p, q, j + 1);
    }
  }

  /** The words found from a position depend only on the text from there on. */
  lemma {:induction false} FindWordsShift(p: string, q: string, j: nat)
    requires j <= |q|
    ensures FindWords(p + q, |p| + j) == FindWords(q, j)
    decreases |q| - j
  {
    if j < |q| {
      var x := p + q;
      assert x[|p| + j] == q[j];
      if IsWordChar(q[j]) {
        var e := WordEnd(q, j);
        WordEndShift(p, q, j);
        assert x[|p| + j..|p| + e] == q[j..e];
        FindWordsShift(p, q, e);
      } else {
        FindWordsShift(p, q, j + 1);
      }
    }
  }

  /** Text followed by a non-word character (or nothing) yields its words on its own. */
  lemma {:induction false} FindWordsPrefix(a: string, t: string, i: nat)
    requires i <= |a| && (t == [] || !IsWordChar(t[0]))
    ensures FindWords(a + t, i) == FindWords(a, i) + FindWords(a + t, |a|)
    decreases |a| - i
  {
    if i < |a| {
      var x := a + t;
      assert x[i] == a[i];
      if IsWordChar(a[i]) {
        var e := WordEnd(a, i);
        assert forall k :: i <= k < e ==> x[k] == a[k];
        assert e < |x| ==> !IsWordChar(x[e]);
        assert WordEnd(x, i) == e;
        assert x[i..e] == a[i..e];
        FindWordsPrefix(a, t, e);
      } else {
        FindWordsPrefix(a, t, i + 1);
      }
    }
  }

  /** A non-word character separates the words: those on its left, then those on its right. */
  lemma FindWordsSplit(a: string, c: char, b: string)
    requires !IsWordChar(c)
    ensures FindWords(a + [c] + b, 0) == FindWords(a, 0) + FindWords(b, 0)
  {
    var y := [c] + b;
    assert a + [c] + b == a + y;
    FindWordsPrefix(a, y, 0);
    FindWordsShift(a, y, 0);
    FindWordsShift([c], b, 0);
  }

  /** A non-empty run of lower-case letters is one word. */
  lemma FindWordsSingle(w: string)
    requires w != [] && AllLowerLetters(w)
    ensures FindWords(w, 0) == [w]
  {
    assert forall k :: 0 <= k < |w| ==> IsWordChar(w[k]);
    assert WordEnd(w, 0) == |w|;
    assert w[0..|w|] == w;
  }

  /** A run of word characters with a capital, a digit or `_` in it yields no word. */
  lemma FindWordsMixed(w: string)
    requires w != [] && (forall k :: 0 <= k < |w| ==> IsWordChar(w[k])) && !AllLowerLetters(w)
    ensures FindWords(w, 0) == []
  {
    assert WordEnd(w, 0) == |w|;
    assert w[0..|w|] == w;
  }

  /** After lower-casing, a non-word character still separates the words of a text. */
  lemma WordsSplit(a: string, c: char, b: string)
    requires !IsWordChar(c)
    ensures Words(a + [c] + b) == Words(a) + Words(b)
  {
    assert LowerAll(a + [c] + b) == LowerAll(a) + [Lower(c)] + LowerAll(b);
    FindWordsSplit(LowerAll(a), Lower(c), LowerAll(b));
  }

  /** A non-empty run of ASCII letters, in any case, is one word: its lower-case form. */
  lemma WordsSingle(w: string)
    requires w != [] && forall k :: 0 <= k < |w| ==> ('a' <= w[k] <= 'z' || 'A' <= w[k] <= 'Z')
    ensures Words(w) == [LowerAll(w)]
  {
    FindWordsSingle(LowerAll(w));
  }

  // ---------------------------------------------------------------------
  // Frequencies and scores
  // ---------------------------------------------------------------------

  /** `Counter(w for w in words if w not in stop_words)`. */
  function WordFreq(words: seq<string>): (freq: map<string, nat>)
    ensures forall w :: w in freq <==> w in words && w !in StopWords
    ensures forall w :: w in freq ==> freq[w] == multiset(words)[w]
  {
    if words == [] then map[]
    else
      var init := words[..|words| - 1];
      var w := words[|words| - 1];
      assert words == init + [w];
      var f := WordFreq(init);
      if w in StopWords then f
      else f[w := if w in f then f[w] + 1 else 1]
  }

  /** `word_freq.get(w, 0)`. */
  function Get(freq: map<string, nat>, w: string): nat {
    if w in freq then freq[w] else 0
  }

  /** `sum(word_freq.get(w, 0) for w in words)`. */
  function Total(words: seq<string>, freq: map<string, nat>): nat {
    if words == [] then 0 else Total(words[..|words| - 1], freq) + Get(freq, words[|words| - 1])
  }

  /** The weight a word earns in a text: zero for a stop word, otherwise how often it occurs. */
  function Weight(w: string, all: seq<string>): nat {
    if w in StopWords then 0 else multiset(all)[w]
  }

  /** The reference score: the sum of the weights of the words. */
  function WeightSum(words: seq<string>, all: seq<string>): nat {
    if words == [] then 0 else WeightSum(words[..|words| - 1], all) + Weight(words[|words| - 1], all)
  }

  /** A sentence's score counts every one of its non-stop words as often as it occurs in the text. */
  lemma {:induction false} TotalIsWeightSum(words: seq<string>, all: seq<string>)
    ensures Total(words, WordFreq(all)) == WeightSum(words, all)
  {
    if words != [] {
      TotalIsWeightSum(words[..|words| - 1], all);
      var w := words[|words| - 1];
      if w !in StopWords && w !in all {
        assert multiset(all)[w] == 0;
      }
    }
  }

  /** The score of a sentence within a text. */
  function Score(sentence: string, freq: map<string, nat>): nat {
    Total(Words(sentence), freq)
  }

  // ---------------------------------------------------------------------
  // Ranking
  // ---------------------------------------------------------------------

  /** The tuple `(score, i, sentence)` built for the i-th sentence. */
  datatype Scored = Scored(score: nat, index: nat, sentence: string)

  /** x is ranked before y: a higher score, or an equal score and an earlier sentence. */
  predicate Beats(x: Scored, y: Scored) {
    x.score > y.score || (x.score == y.score && x.index < y.index)
  }

  /** The i-th element carries index i. */
  predicate Indexed(s: seq<Scored>) {
    forall k :: 0 <= k < |s| ==> s[k].index == k
  }

  /** The tuples of a text, in sentence order. */
  function Ranked(text: string): (r: seq<Scored>)
    ensures |r| == |Sentences(text)|
    ensures Indexed(r)
  {
    var ss := Sentences(text);
    var freq := WordFreq(Words(text));
    seq(|ss|, i requires 0 <= i < |ss| => Scored(Score(ss[i], freq), i, ss[i]))
  }

  /** The loop that builds `scored`. */
  method ScoreSentences(sentences: seq<string>, freq: map<string, nat>) returns (scored: seq<Scored>)
    ensures |scored| == |sentences|
    ensures forall k :: 0 <= k < |scored| ==> scored[k] == Scored(Score(sentences[k], freq), k, sentences[k])
  {
    scored := [];
    for i := 0 to |sentences|
      invariant |scored| == i
      invariant forall k :: 0 <= k < i ==> scored[k] == Scored(Score(sentences[k], freq), k, sentences[k])
    {
      var score := Score(sentences[i], freq);
      scored := scored + [Scored(score, i, sentences[i])];
    }
  }

  /** s[lo..hi] is in ranking order. */
  predicate RankedRange(s: seq<Scored>, lo: int, hi: int)
    requires 0 <= lo <= hi <= |s|
  {
    forall p, q :: lo <= p < q < hi ==> Beats(s[p], s[q])
  }

  /**
   * The state of inserting the element with index i: it sits at j, everything
   * else in s[..i + 1] is in ranking order and came earlier, and it beats what follows it.
   */
  predicate Inserting(s: seq<Scored>, j: int, i: int)
  {
    && 0 <= j <= i < |s|
    && s[j].index == i
    && (forall k :: 0 <= k <= i && k != j ==> s[k].index < i)
    && RankedRange(s, 0, j)
    && RankedRange(s, j + 1, i + 1)
    && (forall p, q :: 0 <= p < j < q <= i ==> Beats(s[p], s[q]))
    && (forall q :: j < q <= i ==> Beats(s[j], s[q]))
  }

  lemma SwapStep(s: seq<Scored>, j: int, i: int)
    requires Inserting(s, j, i)
    requires 0 < j && s[j - 1].score < s[j].score
    ensures Inserting(s[j - 1 := s[j]][j := s[j - 1]], j - 1, i)
    ensures s[j - 1 := s[j]][j := s[j - 1]][i + 1..] == s[i + 1..]
  {
  }

  /** Two sequences that agree from i + 1 on agree at each of those positions. */
  lemma TailKept(s: seq<Scored>, o: seq<Scored>, i: int)
    requires 0 <= i < |s| == |o| && s[i + 1..] == o[i + 1..]
    ensures forall k :: i < k < |s| ==> s[k] == o[k]
  {
    forall k | i < k < |s| ensures s[k] == o[k] {
      assert s[k] == s[i + 1..][k - i - 1];
    }
  }

  /** Swapping two neighbours rearranges a sequence. */
  lemma SwapPermutes(s: seq<Scored>, j: int)
    requires 0 < j < |s|
    ensures multiset(s[j - 1 := s[j]][j := s[j - 1]]) == multiset(s)
  {
  }

  lemma InsertDone(s: seq<Scored>, j: int, i: int)
    requires Inserting(s, j, i)
    requires j == 0 || s[j - 1].score >= s[j].score
    ensures RankedRange(s, 0, i + 1)
  {
    assert j > 0 ==> Beats(s[j - 1], s[j]);
  }

  /**
   * `scored.sort(key=score, reverse=True)`: a stable sort by descending score,
   * so that equal scores keep their sentence order.
   */
  method SortByScore(a: array<Scored>)
    requires forall k :: 0 <= k < a.Length ==> a[k].index == k
    modifies a
    ensures RankedRange(a[..], 0, a.Length)
    ensures multiset(a[..]) == multiset(old(a[..]))
  {
    var i := 0;
    while i < a.Length
      invariant 0 <= i <= a.Length
      invariant RankedRange(a[..], 0, i)
      invariant forall k :: 0 <= k < i ==> a[k].index < i
      invariant forall k :: i <= k < a.Length ==> a[k].index == k
      invariant multiset(a[..]) == multiset(old(a[..]))
    {
      InsertAt(a, i);
      i := i + 1;
    }
  }

  /** Move a[i] down past every element of the ranked prefix a[..i] that it beats on score. */
  method InsertAt(a: array<Scored>, i: int)
    requires 0 <= i < a.Length
    requires RankedRange(a[..], 0, i)
    requires forall k :: 0 <= k < i ==> a[k].index < i
    requires a[i].index == i
    modifies a
    ensures RankedRange(a[..], 0, i + 1)
    ensures forall k :: 0 <= k <= i ==> a[k].index <= i
    ensures forall k :: i < k < a.Length ==> a[k] == old(a[k])
    ensures multiset(a[..]) == multiset(old(a[..]))
  {
    ghost var orig := a[..];
    var j := i;
    while j > 0 && a[j - 1].score < a[j].score
      invariant Inserting(a[..], j, i)
      invariant a[i + 1..] == orig[i + 1..]
      invariant multiset(a[..]) == multiset(orig)
    {
      ghost var before := a[..];
      SwapStep(before, j, i);
      SwapPermutes(before, j);
      a[j - 1], a[j] := a[j], a[j - 1];
      assert a[..] == before[j - 1 := before[j]][j := before[j - 1]];
      j := j - 1;
    }
    InsertDone(a[..], j, i);
    TailKept(a[..], orig, i);
  }
  /** Indices strictly increase along s. */
  predicate ByIndex(s: seq<Scored>) {
    forall p, q :: 0 <= p < q < |s| ==> s[p].index < s[q].index
  }

  /** Every element of s has an index other than i. */
  predicate Avoids(s: seq<Scored>, i: nat) {
    forall k :: 0 <= k < |s| ==> s[k].index != i
  }

  /** Every element of s has an index above i. */
  predicate Above(s: seq<Scored>, i: int) {
    forall k :: 0 <= k < |s| ==> s[k].index > i
  }

  /** An element below everything in an index-ordered list can go in front of it. */
  lemma PrependByIndex(h: Scored, tail: seq<Scored>)
    requires ByIndex(tail) && Above(tail, h.index)
    ensures ByIndex([h] + tail)
  {
  }

  /** Rearranging a list and adding x keeps every index above i when x's index is. */
  lemma RearrangedAbove(t: seq<Scored>, s: seq<Scored>, x: Scored, i: int)
    requires multiset(t) == multiset(s) + multiset{x}
    requires Above(s, i) && x.index > i
    ensures Above(t, i)
  {
    forall k | 0 <= k < |t| ensures t[k].index > i {
      assert t[k] in multiset(t);
      if t[k] != x { assert t[k] in s; }
    }
  }

  /** The tail of an index-ordered list avoiding i is one too, and lies above its head. */
  lemma TailByIndex(s: seq<Scored>, i: nat)
    requires s != [] && ByIndex(s) && Avoids(s, i)
    ensures ByIndex(s[1..]) && Avoids(s[1..], i) && Above(s[1..], s[0].index)
  {
    forall k | 0 <= k < |s| - 1 ensures s[1..][k] == s[k + 1] {}
  }

  /** Insert x into s, which is ordered by index, at its place. */
  function InsertByIndex(x: Scored, s: seq<Scored>): (r: seq<Scored>)
    requires ByIndex(s)
    requires Avoids(s, x.index)
    ensures multiset(r) == multiset(s) + multiset{x}
    ensures ByIndex(r)
  {
    if s == [] then [x]
    else if x.index < s[0].index then
      assert Above(s, x.index) by {
        forall k | 0 <= k < |s| ensures s[k].index > x.index {
          if k > 0 { assert s[0].index < s[k].index; }
        }
      }
      PrependByIndex(x, s);
      [x] + s
    else
      TailByIndex(s, x.index);
      var tail := InsertByIndex(x, s[1..]);
      assert s == [s[0]] + s[1..];
      RearrangedAbove(tail, s[1..], x, s[0].index);
      PrependByIndex(s[0], tail);
      [s[0]] + tail
  }
  /** Rearranging a list keeps an index out of it. */
  lemma RearrangedAvoids(t: seq<Scored>, s: seq<Scored>, i: nat)
    requires multiset(t) == multiset(s)
    requires Avoids(s, i)
    ensures Avoids(t, i)
  {
    forall k | 0 <= k < |t| ensures t[k].index != i {
      assert t[k] in multiset(s);
    }
  }

  /** No index occurs twice in s. */
  predicate DistinctIndices(s: seq<Scored>) {
    forall p, q :: 0 <= p < q < |s| ==> s[p].index != s[q].index
  }

  /** The tail of a list with distinct indices has distinct indices, none of them the head's. */
  lemma DistinctTail(s: seq<Scored>)
    requires s != [] && DistinctIndices(s)
    ensures DistinctIndices(s[1..]) && Avoids(s[1..], s[0].index)
  {
    forall k | 0 <= k < |s| - 1 ensures s[1..][k] == s[k + 1] {}
  }

  /** `sorted(xs, key=index)` for tuples whose indices are distinct. */
  function SortByIndex(s: seq<Scored>): (r: seq<Scored>)
    requires DistinctIndices(s)
    ensures multiset(r) == multiset(s)
    ensures ByIndex(r)
  {
    if s == [] then []
    else
      DistinctTail(s);
      var rest := SortByIndex(s[1..]);
      RearrangedAvoids(rest, s[1..], s[0].index);
      assert multiset(s) == multiset(s[1..]) + multiset{s[0]} by {
        assert s == [s[0]] + s[1..];
      }
      InsertByIndex(s[0], rest)
  }

  /**
   * top is a selection of k tuples of scored, listed in sentence order, that
   * beat every tuple left out.
   */
  predicate IsTopK(scored: seq<Scored>, k: nat, top: seq<Scored>) {
    && |top| == k
    && ByIndex(top)
    && (forall x :: x in top ==> x in scored)
    && (forall x, y :: x in top && y in scored && y !in top ==> Beats(x, y))
  }

  /** Python's `len(xs[:n])` for a list of length len; its contract is that definition, written out by the sign of n. */
  function SliceLength(len: nat, n: int): (k: nat)
    ensures k <= len
    ensures 0 <= n ==> k == if n < len then n else len
    ensures n < 0 ==> k == if len + n > 0 then len + n else 0
  {
    if n >= 0 then (if n < len then n else len)
    else if len + n > 0 then len + n else 0
  }

  /** A tuple of an indexed list is the one stored at its index. */
  lemma IndexedMember(s: seq<Scored>, x: Scored)
    requires Indexed(s)
    requires x in s
    ensures x.index < |s| && s[x.index] == x
  {
  }

  /** In a ranked rearrangement of an indexed list no index occurs twice. */
  lemma RankedDistinct(scored: seq<Scored>, sorted: seq<Scored>)
    requires Indexed(scored)
    requires multiset(sorted) == multiset(scored)
    requires RankedRange(sorted, 0, |sorted|)
    ensures DistinctIndices(sorted)
  {
    forall p, q | 0 <= p < q < |sorted| ensures sorted[p].index != sorted[q].index {
      assert sorted[p] in multiset(scored) && sorted[q] in multiset(scored);
      IndexedMember(scored, sorted[p]);
      IndexedMember(scored, sorted[q]);
      assert Beats(sorted[p], sorted[q]);
    }
  }

  /** The first k tuples of a ranked rearrangement, in any order, are a top-k selection. */
  lemma RankedPrefixIsTop(scored: seq<Scored>, sorted: seq<Scored>, k: nat, top: seq<Scored>)
    requires multiset(sorted) == multiset(scored)
    requires RankedRange(sorted, 0, |sorted|)
    requires k <= |sorted|
    requires multiset(top) == multiset(sorted[..k])
    requires ByIndex(top)
    ensures IsTopK(scored, k, top)
  {
    assert |top| == |multiset(top)| == |multiset(sorted[..k])| == k;
    forall x | x in top ensures x in scored {
      assert x in multiset(sorted[..k]);
      assert x in sorted;
      assert x in multiset(scored);
    }
    forall x, y | x in top && y in scored && y !in top ensures Beats(x, y) {
      assert x in multiset(sorted[..k]);
      var u :| 0 <= u < k && sorted[..k][u] == x;
      assert y in multiset(sorted);
      var v :| 0 <= v < |sorted| && sorted[v] == y;
      assert y !in sorted[..k] by { assert y !in multiset(top); }
      assert Beats(sorted[u], sorted[v]);
    }
  }

  /** `sorted(scored[:k], key=index)` after the descending sort. */
  method SelectTop(scored: seq<Scored>, k: nat) returns (top: seq<Scored>)
    requires Indexed(scored)
    requires k <= |scored|
    ensures IsTopK(scored, k, top)
  {
    var a := new Scored[|scored|](i requires 0 <= i < |scored| => scored[i]);
    assert a[..] == scored;
    SortByScore(a);
    var sorted := a[..];
    RankedDistinct(scored, sorted);
    top := SortByIndex(sorted[..k]);
    RankedPrefixIsTop(scored, sorted, k, top);
  }

  /** The elements of a list, as a set. */
  function Members(t: seq<Scored>): set<Scored> {
    set x | x in t
  }

  /** The tuples of scored that rank before x. */
  function Beaters(scored: seq<Scored>, x: Scored): set<Scored> {
    set z | z in scored && Beats(z, x)
  }

  lemma SubsetCard<T>(a: set<T>, b: set<T>)
    requires a <= b
    ensures |a| <= |b|
  {
    assert b == a + (b - a);
  }

  /** An index-ordered list has no repeated element. */
  lemma {:induction false} MembersOfByIndex(t: seq<Scored>)
    requires ByIndex(t)
    ensures |Members(t)| == |t|
  {
    if t != [] {
      MembersOfByIndex(t[1..]);
      assert Members(t) == {t[0]} + Members(t[1..]);
      assert t[0] !in Members(t[1..]);
    }
  }

  /**
   * Whether a tuple is selected does not depend on the selection: it is
   * selected exactly when fewer than k tuples rank before it.
   */
  lemma SelectedIffFewBeaters(scored: seq<Scored>, k: nat, top: seq<Scored>, x: Scored)
    requires IsTopK(scored, k, top)
    requires x in scored
    ensures x in top <==> |Beaters(scored, x)| < k
  {
    MembersOfByIndex(top);
    if x in top {
      assert Beaters(scored, x) <= Members(top) - {x};
      SubsetCard(Beaters(scored, x), Members(top) - {x});
    } else {
      assert Members(top) <= Beaters(scored, x);
      SubsetCard(Members(top), Beaters(scored, x));
    }
  }

  /** Two non-empty index-ordered lists with the same elements start alike and agree on the rest. */
  lemma SameHeadByIndex(t1: seq<Scored>, t2: seq<Scored>)
    requires ByIndex(t1) && ByIndex(t2) && t1 != []
    requires forall x :: x in t1 <==> x in t2
    ensures t2 != [] && t1[0] == t2[0]
    ensures forall x :: x in t1[1..] <==> x in t2[1..]
  {
    assert t1[0] in t2 && t2 != [];
    assert t2[0] in t1;
    var p :| 0 <= p < |t1| && t1[p] == t2[0];
    var q :| 0 <= q < |t2| && t2[q] == t1[0];
    assert t1[0] == t2[0];
    forall x ensures x in t1[1..] <==> x in t2[1..] {
      assert x in t1[1..] ==> x in t1 && x.index > t1[0].index;
      assert x in t2[1..] ==> x in t2 && x.index > t2[0].index;
      assert x in t1 && x != t1[0] ==> x in t1[1..];
      assert x in t2 && x != t2[0] ==> x in t2[1..];
    }
  }

  /** Two index-ordered lists with the same elements are the same list. */
  lemma {:induction false} ByIndexUnique(t1: seq<Scored>, t2: seq<Scored>)
    requires ByIndex(t1) && ByIndex(t2)
    requires forall x :: x in t1 <==> x in t2
    ensures t1 == t2
  {
    if t1 == [] {
      MembersOfByIndex(t1);
      MembersOfByIndex(t2);
      assert Members(t1) == Members(t2);
    } else {
      SameHeadByIndex(t1, t2);
      ByIndexUnique(t1[1..], t2[1..]);
      assert t1 == [t1[0]] + t1[1..] && t2 == [t2[0]] + t2[1..];
    }
  }

  /** There is only one top-k selection, so the summary is determined by the text. */
  lemma TopKUnique(scored: seq<Scored>, k: nat, t1: seq<Scored>, t2: seq<Scored>)
    requires IsTopK(scored, k, t1) && IsTopK(scored, k, t2)
    ensures t1 == t2
  {
    forall x ensures x in t1 <==> x in t2 {
      if x in scored {
        SelectedIffFewBeaters(scored, k, t1, x);
        SelectedIffFewBeaters(scored, k, t2, x);
      }
    }
    ByIndexUnique(t1, t2);
  }

  /** ix lists positions below len in strictly increasing order. */
  predicate Increasing(ix: seq<nat>, len: nat) {
    && (forall k :: 0 <= k < |ix| ==> ix[k] < len)
    && (forall p, q :: 0 <= p < q < |ix| ==> ix[p] < ix[q])
  }

  /** The sentences at the positions ix, in that order. */
  function Pick(ss: seq<string>, ix: seq<nat>): seq<string>
    requires Increasing(ix, |ss|)
  {
    seq(|ix|, k requires 0 <= k < |ix| => ss[ix[k]])
  }

  /** The original sentence index of each selected tuple. */
  function Indices(top: seq<Scored>): seq<nat> {
    seq(|top|, k requires 0 <= k < |top| => top[k].index)
  }

  /** A top-k selection of a text's tuples is k of its sentences, picked at increasing positions. */
  lemma TopPicksSentences(text: string, k: nat, top: seq<Scored>)
    requires IsTopK(Ranked(text), k, top)
    ensures Increasing(Indices(top), |Sentences(text)|)
    ensures |Indices(top)| == k
    ensures Texts(top) == Pick(Sentences(text), Indices(top))
  {
    var scored := Ranked(text);
    var ix := Indices(top);
    forall j | 0 <= j < |top|
      ensures ix[j] < |Sentences(text)| && Texts(top)[j] == Sentences(text)[ix[j]]
    {
      assert top[j] in top;
      IndexedMember(scored, top[j]);
    }
  }

  /** The number of sentences `summarize` keeps when its caller gives none. */
  const DefaultSentences: nat := 3

  /**
   * `summarize(text, num_sentences)`: the stripped text itself when it has no
   * more sentences than asked for, otherwise the sentences of a top selection
   * (of the size Python's slice gives), in their original order, joined by one space.
   */
  method Summarize(text: string, numSentences: int) returns (summary: string)
    ensures |Sentences(text)| <= numSentences ==> summary == Strip(text)
    ensures |Sentences(text)| > numSentences ==>
      exists top :: IsTopK(Ranked(text), SliceLength(|Sentences(text)|, numSentences), top)
                 && summary == JoinSpace(Texts(top))
    ensures 0 <= numSentences < |Sentences(text)| ==>
      exists ix :: Increasing(ix, |Sentences(text)|) && |ix| == numSentences
                && summary == JoinSpace(Pick(Sentences(text), ix))
  {
    var sentences := Sentences(text);
    if |sentences| <= numSentences {
      return Strip(text);
    }
    var freq := WordFreq(Words(text));
    var scored := ScoreSentences(sentences, freq);
    assert scored == Ranked(text);
    var top := SelectTop(scored, SliceLength(|scored|, numSentences));
    summary := JoinSpace(Texts(top));
    TopPicksSentences(text, SliceLength(|scored|, numSentences), top);
  }

  /** The sentences carried by a list of tuples (`s[2] for s in top`); its contract is that definition, position by position. */
  function Texts(top: seq<Scored>): (r: seq<string>)
    ensures |r| == |top|
    ensures forall k :: 0 <= k < |top| ==> r[k] == top[k].sentence
  {
    seq(|top|, k requires 0 <= k < |top| => top[k].sentence)
  }
}
