/**
 * Sentence statistics of the scorer: Python's `re.split(r'[.!?]+', text)`,
 * `str.strip()` and `str.split()`, restated as functions over code points,
 * and the average number of whitespace-separated tokens per sentence.
 */
module Sentences {
  import opened Seqs

  /** Python's `str.isspace()` for one code point (the Unicode whitespace of `strip` and `split`). */
  predicate IsSpace(c: char) {
    || ('\t' <= c <= '\r')
    || ('\U{001C}' <= c <= ' ')
    || c == '\U{0085}' || c == '\U{00A0}' || c == '\U{1680}'
    || ('\U{2000}' <= c <= '\U{200A}')
    || c == '\U{2028}' || c == '\U{2029}' || c == '\U{202F}' || c == '\U{205F}' || c == '\U{3000}'
  }

  /** A character of the class `[.!?]` that ends a sentence. */
  predicate IsTerminator(c: char) {
    c == '.' || c == '!' || c == '?'
  }

  predicate AllSpace(s: string) {
    forall i :: 0 <= i < |s| ==> IsSpace(s[i])
  }

  predicate NoTerminator(s: string) {
    forall i :: 0 <= i < |s| ==> !IsTerminator(s[i])
  }

  /** The characters of `s` that are not whitespace, in order. */
  function NonSpace(s: string): (r: string)
    ensures |r| <= |s|
    ensures forall i :: 0 <= i < |r| ==> !IsSpace(r[i])
  {
    if |s| == 0 then []
    else (if IsSpace(s[0]) then [] else [s[0]]) + NonSpace(s[1..])
  }

  lemma {:induction false} NonSpaceAppend(a: string, b: string)
    ensures NonSpace(a + b) == NonSpace(a) + NonSpace(b)
  {
    if |a| == 0 {
      assert a + b == b;
    } else {
      assert (a + b)[1..] == a[1..] + b;
      NonSpaceAppend(a[1..], b);
    }
  }

  lemma {:induction false} NonSpaceEmpty(s: string)
    ensures NonSpace(s) == [] <==> AllSpace(s)
  {
    if |s| > 0 {
      NonSpaceEmpty(s[1..]);
    }
  }

  lemma {:induction false} NonSpaceIdentity(s: string)
    requires forall i :: 0 <= i < |s| ==> !IsSpace(s[i])
    ensures NonSpace(s) == s
  {
    if |s| > 0 {
      NonSpaceIdentity(s[1..]);
      assert [s[0]] + s[1..] == s;
    }
  }

  /** The characters of `s` that are not sentence terminators, in order. */
  function NonTerminators(s: string): string
  {
    if |s| == 0 then []
    else (if IsTerminator(s[0]) then [] else [s[0]]) + NonTerminators(s[1..])
  }

  lemma {:induction false} NonTerminatorsAppend(a: string, b: string)
    ensures NonTerminators(a + b) == NonTerminators(a) + NonTerminators(b)
  {
    if |a| == 0 {
      assert a + b == b;
    } else {
      assert (a + b)[1..] == a[1..] + b;
      NonTerminatorsAppend(a[1..], b);
    }
  }

  lemma {:induction false} NonTerminatorsIdentity(s: string)
    requires NoTerminator(s)
    ensures NonTerminators(s) == s
  {
    if |s| > 0 {
      NonTerminatorsIdentity(s[1..]);
      assert [s[0]] + s[1..] == s;
    }
  }

  lemma {:induction false} NonTerminatorsOfRun(s: string)
    requires forall i :: 0 <= i < |s| ==> IsTerminator(s[i])
    ensures NonTerminators(s) == []
  {
    if |s| > 0 {
      NonTerminatorsOfRun(s[1..]);
    }
  }

  /** The character classes the splitters scan for. */
  datatype Class = Spaces | WordChars | Terminators | PieceChars | TokenChars

  predicate InClass(c: char, k: Class) {
    match k
    case Spaces => IsSpace(c)
    case WordChars => !IsSpace(c)
    case Terminators => IsTerminator(c)
    case PieceChars => !IsTerminator(c)
    case TokenChars => !IsSpace(c) && !IsTerminator(c)
  }

  /** Length of the leading whitespace of `s`. */
  function SpacePrefix(s: string): (n: nat)
    ensures n <= |s|
  {
    if |s| == 0 || !IsSpace(s[0]) then 0 else 1 + SpacePrefix(s[1..])
  }

  /** Length of the leading non-whitespace of `s`. */
  function WordPrefix(s: string): (n: nat)
    ensures n <= |s|
  {
    if |s| == 0 || IsSpace(s[0]) then 0 else 1 + WordPrefix(s[1..])
  }

  /** Length of the leading terminators of `s`. */
  function TerminatorPrefix(s: string): (n: nat)
    ensures n <= |s|
  {
    if |s| == 0 || !IsTerminator(s[0]) then 0 else 1 + TerminatorPrefix(s[1..])
  }

  /** Length of the text of `s` before its first terminator. */
  function PiecePrefix(s: string): (n: nat)
    ensures n <= |s|
  {
    if |s| == 0 || IsTerminator(s[0]) then 0 else 1 + PiecePrefix(s[1..])
  }

  /** Length of the leading characters of `s` that are neither whitespace nor terminators. */
  function TokenPrefix(s: string): (n: nat)
    ensures n <= |s|
  {
    if |s| == 0 || IsSpace(s[0]) || IsTerminator(s[0]) then 0 else 1 + TokenPrefix(s[1..])
  }

  /** Length of the longest prefix of `s` whose characters are all in class `k`. */
  function Span(s: string, k: Class): (n: nat)
    ensures n <= |s|
  {
    match k
    case Spaces => SpacePrefix(s)
    case WordChars => WordPrefix(s)
    case Terminators => TerminatorPrefix(s)
    case PieceChars => PiecePrefix(s)
    case TokenChars => TokenPrefix(s)
  }

  /** `Span` counts one more for each leading character in the class. */
  lemma SpanStep(s: string, k: Class)
    ensures Span(s, k) == if |s| == 0 || !InClass(s[0], k) then 0 else 1 + Span(s[1..], k)
  {
  }

  /** The prefix `Span` measures is in the class, and the character after it is not. */
  lemma {:induction false} SpanFacts(s: string, k: Class)
    ensures forall i :: 0 <= i < Span(s, k) ==> InClass(s[i], k)
    ensures Span(s, k) < |s| ==> !InClass(s[Span(s, k)], k)
  {
    SpanStep(s, k);
    if |s| > 0 && InClass(s[0], k) {
      SpanFacts(s[1..], k);
      assert forall i :: 1 <= i < Span(s, k) ==> s[i] == s[1..][i - 1];
    }
  }

  /**
   * Number of maximal runs of class-`k` characters in `s`: the positions where
   * a run starts, reading left to right; `within` says whether the character
   * before `s` was itself inside a run.
   */
  function Runs(s: string, k: Class, within: bool): nat
  {
    if |s| == 0 then 0
    else (if InClass(s[0], k) && !within then 1 else 0) + Runs(s[1..], k, InClass(s[0], k))
  }

  lemma {:induction false} RunsSkip(s: string, n: nat, k: Class, within: bool)
    requires n <= |s|
    requires forall i :: 0 <= i < n ==> !InClass(s[i], k)
    ensures Runs(s, k, within) == Runs(s[n..], k, if n == 0 then within else false)
  {
    if n > 0 {
      RunsSkip(s[1..], n - 1, k, false);
      assert s[1..][n - 1..] == s[n..];
    }
  }

  lemma {:induction false} RunsInside(s: string, n: nat, k: Class)
    requires 0 < n <= |s|
    requires forall i :: 0 <= i < n ==> InClass(s[i], k)
    ensures Runs(s, k, true) == Runs(s[n..], k, true)
  {
    if n > 1 {
      RunsInside(s[1..], n - 1, k);
      assert s[1..][n - 1..] == s[n..];
    }
  }

  lemma RunsOfNone(s: string, k: Class, within: bool)
    requires forall i :: 0 <= i < |s| ==> !InClass(s[i], k)
    ensures Runs(s, k, within) == 0
  {
    RunsSkip(s, |s|, k, within);
  }

  /** Python's `s.lstrip()`. */
  function LStrip(s: string): (r: string)
    ensures |r| <= |s| && r == s[|s| - |r|..]
    ensures AllSpace(s[..|s| - |r|])
    ensures r != [] ==> !IsSpace(r[0])
  {
    var n := Span(s, Spaces);
    SpanFacts(s, Spaces);
    assert forall i :: 0 <= i < n ==> s[..n][i] == s[i];
    s[n..]
  }

  /** Python's `s.rstrip()`. */
  function RStrip(s: string): (r: string)
    ensures |r| <= |s| && r == s[..|r|]
    ensures AllSpace(s[|r|..])
    ensures r != [] ==> !IsSpace(r[|r| - 1])
    decreases |s|
  {
    if |s| > 0 && IsSpace(s[|s| - 1]) then
      var r := RStrip(s[..|s| - 1]);
      assert s[..|s| - 1][..|r|] == s[..|r|];
      assert s[|r|..] == s[..|s| - 1][|r|..] + [s[|s| - 1]];
      r
    else s
  }

  /** Number of whitespace characters `strip` removes at the front. */
  function Leading(s: string): nat {
    |s| - |LStrip(s)|
  }

  /**
   * Python's `s.strip()`: the slice of `s` left once the whitespace at both
   * ends is removed; empty exactly when `s` is blank.
   */
  function Strip(s: string): (r: string)
    ensures Leading(s) + |r| <= |s|
    ensures r == s[Leading(s)..Leading(s) + |r|]
    ensures AllSpace(s[..Leading(s)]) && AllSpace(s[Leading(s) + |r|..])
    ensures r != [] ==> !IsSpace(r[0]) && !IsSpace(r[|r| - 1])
    ensures r == [] <==> AllSpace(s)
  {
    StripSlice(s);
    StripBlank(s);
    RStrip(LStrip(s))
  }

  lemma StripSlice(s: string)
    ensures var r := RStrip(LStrip(s));
      && Leading(s) + |r| <= |s|
      && r == s[Leading(s)..Leading(s) + |r|]
      && AllSpace(s[..Leading(s)]) && AllSpace(s[Leading(s) + |r|..])
      && (r != [] ==> !IsSpace(r[0]) && !IsSpace(r[|r| - 1]))
  {
    var l := LStrip(s);
    var r := RStrip(l);
    var k := Leading(s);
    assert l == s[k..];
    assert r == l[..|r|];
    assert s[k + |r|..] == l[|r|..];
    if r != [] {
      assert r[0] == l[0];
    }
  }

  lemma StripBlank(s: string)
    ensures RStrip(LStrip(s)) == [] <==> AllSpace(s)
  {
    var l := LStrip(s);
    var r := RStrip(l);
    var k := Leading(s);
    if r == [] {
      assert AllSpace(l) by {
        assert l[|r|..] == l;
      }
      assert s == s[..k] + l;
      AllSpaceAppend(s[..k], l);
    } else {
      StripSlice(s);
      assert s[k] == r[0];
    }
  }

  /** A word of `split`: a non-empty run of non-whitespace characters. */
  predicate IsWord(w: string) {
    w != [] && forall i :: 0 <= i < |w| ==> !IsSpace(w[i])
  }

  /** Python's `s.split()`: the maximal runs of non-whitespace characters. */
  function SplitWords(s: string): (ws: seq<string>)
    ensures forall i :: 0 <= i < |ws| ==> IsWord(ws[i])
    decreases |s|
  {
    if |s| == 0 then []
    else if IsSpace(s[0]) then SplitWords(s[1..])
    else
      var n := Span(s, WordChars);
      FirstWord(s, n);
      [s[..n]] + SplitWords(s[n..])
  }

  /** A word starting at the front of a text is a non-empty run of non-whitespace. */
  lemma FirstWord(t: string, n: nat)
    requires |t| > 0 && !IsSpace(t[0])
    requires n == Span(t, WordChars)
    ensures 1 <= n <= |t|
    ensures IsWord(t[..n])
  {
    SpanFacts(t, WordChars);
    assert forall i :: 0 <= i < n ==> t[..n][i] == t[i];
  }

  /** The words are the non-whitespace characters of `s`, in order. */
  lemma {:induction false} SplitWordsContent(s: string)
    ensures Flatten(SplitWords(s)) == NonSpace(s)
    decreases |s|
  {
    if |s| == 0 {
    } else if IsSpace(s[0]) {
      SplitWordsContent(s[1..]);
    } else {
      var n := Span(s, WordChars);
      FirstWord(s, n);
      var ws := SplitWords(s);
      assert ws == [s[..n]] + SplitWords(s[n..]);
      assert ws[1..] == SplitWords(s[n..]);
      SplitWordsContent(s[n..]);
      NonSpaceOfWord(s, n);
    }
  }

  lemma NonSpaceOfWord(t: string, n: nat)
    requires n == Span(t, WordChars)
    ensures NonSpace(t) == t[..n] + NonSpace(t[n..])
  {
    SpanFacts(t, WordChars);
    assert forall i :: 0 <= i < n ==> t[..n][i] == t[i];
    NonSpaceIdentity(t[..n]);
    assert t == t[..n] + t[n..];
    NonSpaceAppend(t[..n], t[n..]);
  }

  /** A maximal run at the front of `t` counts one, and counting resumes after it. */
  lemma RunsStep(t: string, n: nat, k: Class)
    requires 0 < n <= |t|
    requires forall i :: 0 <= i < n ==> InClass(t[i], k)
    requires n < |t| ==> !InClass(t[n], k)
    ensures Runs(t, k, false) == 1 + Runs(t[n..], k, false)
  {
    assert Runs(t, k, false) == 1 + Runs(t[1..], k, true);
    if n > 1 {
      RunsInside(t[1..], n - 1, k);
      assert t[1..][n - 1..] == t[n..];
    }
    if n < |t| {
      assert t[n..][0] == t[n];
    }
  }

  /** The number of words is the number of maximal non-whitespace runs. */
  lemma {:induction false} SplitWordsCount(s: string)
    ensures |SplitWords(s)| == Runs(s, WordChars, false)
    decreases |s|
  {
    if |s| == 0 {
    } else if IsSpace(s[0]) {
      SplitWordsCount(s[1..]);
      assert Runs(s, WordChars, false) == Runs(s[1..], WordChars, false);
    } else {
      var n := Span(s, WordChars);
      FirstWord(s, n);
      SpanFacts(s, WordChars);
      SplitWordsCount(s[n..]);
      RunsStep(s, n, WordChars);
    }
  }

  /** A text with a non-whitespace character has at least one word. */
  lemma WordsOfNonBlank(s: string)
    requires !AllSpace(s)
    ensures |SplitWords(s)| >= 1
  {
    SplitWordsContent(s);
    NonSpaceEmpty(s);
  }

  /**
   * Python's `re.split(r'[.!?]+', s)`: the pieces between maximal runs of
   * terminators, keeping the empty piece before a leading run and after a
   * trailing one.
   */
  function SplitOnTerminators(s: string): (ps: seq<string>)
    ensures |ps| >= 1
    ensures forall i :: 0 <= i < |ps| ==> NoTerminator(ps[i])
    decreases |s|
  {
    var n := Span(s, PieceChars);
    PieceNoTerminator(s);
    if n == |s| then [s]
    else
      var m := Span(s[n..], Terminators);
      [s[..n]] + SplitOnTerminators(s[n + m..])
  }

  /** The text before the first terminator holds no terminator. */
  lemma PieceNoTerminator(s: string)
    ensures NoTerminator(s[..Span(s, PieceChars)])
  {
    var n := Span(s, PieceChars);
    SpanFacts(s, PieceChars);
    assert forall i :: 0 <= i < n ==> s[..n][i] == s[i];
  }

  lemma SpanRunLength(s: string, n: nat)
    requires n < |s|
    requires IsTerminator(s[n])
    ensures var m := Span(s[n..], Terminators);
      && m >= 1
      && (forall i :: n <= i < n + m ==> IsTerminator(s[i]))
      && (n + m < |s| ==> !IsTerminator(s[n + m]))
  {
    var m := Span(s[n..], Terminators);
    SpanFacts(s[n..], Terminators);
    assert s[n..][0] == s[n];
    assert forall i :: n <= i < n + m ==> s[i] == s[n..][i - n];
    if n + m < |s| {
      assert s[n + m] == s[n..][m];
    }
  }

  lemma DropRun(a: string, b: string, c: string)
    requires NoTerminator(a)
    requires forall i :: 0 <= i < |b| ==> IsTerminator(b[i])
    ensures NonTerminators(a + b + c) == a + NonTerminators(c)
  {
    NonTerminatorsAppend(a, b);
    NonTerminatorsIdentity(a);
    NonTerminatorsOfRun(b);
    assert NonTerminators(a + b) == a;
    NonTerminatorsAppend(a + b, c);
  }

  lemma SpanRunContent(s: string, n: nat, m: nat)
    requires 0 < m && n + m <= |s|
    requires forall i :: 0 <= i < n ==> !IsTerminator(s[i])
    requires forall i :: n <= i < n + m ==> IsTerminator(s[i])
    ensures NonTerminators(s) == s[..n] + NonTerminators(s[n + m..])
  {
    var a, b, c := s[..n], s[n..n + m], s[n + m..];
    SliceParts(s, n, m, a, b, c);
    DropRun(a, b, c);
  }

  lemma SliceParts(s: string, n: nat, m: nat, a: string, b: string, c: string)
    requires 0 < m && n + m <= |s|
    requires a == s[..n] && b == s[n..n + m] && c == s[n + m..]
    requires forall i :: 0 <= i < n ==> !IsTerminator(s[i])
    requires forall i :: n <= i < n + m ==> IsTerminator(s[i])
    ensures s == a + b + c
    ensures NoTerminator(a)
    ensures forall i :: 0 <= i < |b| ==> IsTerminator(b[i])
  {
    assert forall i :: 0 <= i < |a| ==> a[i] == s[i];
    assert forall i :: 0 <= i < |b| ==> b[i] == s[n + i];
  }

  lemma SpanRunRuns(s: string, n: nat, m: nat)
    requires 0 < m && n + m <= |s|
    requires forall i :: 0 <= i < n ==> !IsTerminator(s[i])
    requires forall i :: n <= i < n + m ==> IsTerminator(s[i])
    requires n + m < |s| ==> !IsTerminator(s[n + m])
    ensures Runs(s, Terminators, false) == 1 + Runs(s[n + m..], Terminators, false)
  {
    RunsSkip(s, n, Terminators, false);
    var t := s[n..];
    assert forall i :: 0 <= i <= m && i < |t| ==> t[i] == s[n + i];
    RunsStep(t, m, Terminators);
    assert t[m..] == s[n + m..];
  }

  /** The pieces hold exactly the non-terminator characters of `s`, in order. */
  lemma {:induction false} SplitOnTerminatorsContent(s: string)
    ensures Flatten(SplitOnTerminators(s)) == NonTerminators(s)
    decreases |s|
  {
    var n := Span(s, PieceChars);
    if n == |s| {
      assert SplitOnTerminators(s) == [s];
      FlattenSingle(s);
      NonTerminatorsIdentity(s);
    } else {
      var m := Span(s[n..], Terminators);
      SpanFacts(s, PieceChars);
      SplitStep(s, n, m);
      SpanRunLength(s, n);
      SpanRunContent(s, n, m);
      SplitOnTerminatorsContent(s[n + m..]);
    }
  }

  /** One step of the split: the first piece, then the pieces after the first run of terminators. */
  lemma SplitStep(s: string, n: nat, m: nat)
    requires n == Span(s, PieceChars) && n < |s|
    requires m == Span(s[n..], Terminators)
    ensures n + m <= |s|
    ensures Flatten(SplitOnTerminators(s)) == s[..n] + Flatten(SplitOnTerminators(s[n + m..]))
  {
    SplitUnfold(s, n, m);
    FlattenAppend([s[..n]], SplitOnTerminators(s[n + m..]));
    FlattenSingle(s[..n]);
  }

  lemma SplitUnfold(s: string, n: nat, m: nat)
    requires n == Span(s, PieceChars) && n < |s|
    requires m == Span(s[n..], Terminators)
    ensures SplitOnTerminators(s) == [s[..n]] + SplitOnTerminators(s[n + m..])
  {
  }

  /** There is one piece more than there are maximal runs of terminators. */
  lemma {:induction false} SplitOnTerminatorsCount(s: string)
    ensures |SplitOnTerminators(s)| == 1 + Runs(s, Terminators, false)
    decreases |s|
  {
    var n := Span(s, PieceChars);
    SpanFacts(s, PieceChars);
    if n == |s| {
      RunsOfNone(s, Terminators, false);
    } else {
      var m := Span(s[n..], Terminators);
      SpanFacts(s, PieceChars);
      SpanRunLength(s, n);
      SpanRunRuns(s, n, m);
      SplitOnTerminatorsCount(s[n + m..]);
    }
  }

  // ---------------------------------------------------------------------
  // Where the split cuts

  /** A non-empty run of terminators. */
  predicate IsTerminatorRun(t: string) {
    t != [] && forall i :: 0 <= i < |t| ==> IsTerminator(t[i])
  }

  /** `ps[0] + ts[0] + ps[1] + ... + ts[|ts| - 1] + ps[|ts|]`: the pieces rejoined with the runs between them. */
  function Interleave(ps: seq<string>, ts: seq<string>): string
    requires |ps| == |ts| + 1
    decreases |ts|
  {
    if |ts| == 0 then ps[0] else ps[0] + ts[0] + Interleave(ps[1..], ts[1..])
  }

  /**
   * `ps` and `ts` cut `s` the way `re.split(r'[.!?]+', s)` does: rejoined
   * they give `s`, the pieces hold no terminator, the separators are
   * non-empty terminator runs, and only the first and last piece may be empty,
   * so every separator is a maximal run.
   */
  predicate CutsAtRuns(s: string, ps: seq<string>, ts: seq<string>) {
    && |ps| == |ts| + 1
    && Interleave(ps, ts) == s
    && (forall j :: 0 <= j < |ps| ==> NoTerminator(ps[j]))
    && (forall j :: 0 <= j < |ts| ==> IsTerminatorRun(ts[j]))
    && (forall j :: 0 < j < |ps| - 1 ==> ps[j] != [])
  }

  /** The maximal runs of terminators the split cuts at, in order. */
  function TerminatorRuns(s: string): seq<string>
    decreases |s|
  {
    var n := Span(s, PieceChars);
    if n == |s| then []
    else
      var m := Span(s[n..], Terminators);
      [s[n..n + m]] + TerminatorRuns(s[n + m..])
  }

  lemma RunsUnfold(s: string, n: nat, m: nat)
    requires n == Span(s, PieceChars) && n < |s|
    requires m == Span(s[n..], Terminators) && n + m <= |s|
    ensures TerminatorRuns(s) == [s[n..n + m]] + TerminatorRuns(s[n + m..])
  {
  }

  /** A prefix in the class followed by the end or by a character outside it is exactly the span. */
  lemma {:induction false} SpanExact(s: string, k: Class, n: nat)
    requires n <= |s|
    requires forall i :: 0 <= i < n ==> InClass(s[i], k)
    requires n < |s| ==> !InClass(s[n], k)
    ensures Span(s, k) == n
  {
    SpanStep(s, k);
    if n > 0 {
      assert forall i :: 0 <= i < n - 1 ==> s[1..][i] == s[i + 1];
      if n < |s| {
        assert s[1..][n - 1] == s[n];
      }
      SpanExact(s[1..], k, n - 1);
    }
  }

  /** A text that starts with a non-terminator has a non-empty first piece. */
  lemma FirstPieceNonEmpty(s: string)
    requires |s| > 0 && !IsTerminator(s[0])
    ensures SplitOnTerminators(s)[0] != []
  {
    SpanStep(s, PieceChars);
  }

  /** A piece and a run put in front of a cut text give a cut of the longer text. */
  lemma CutsCons(s: string, p: string, t: string, r: string, ps: seq<string>, ts: seq<string>)
    requires CutsAtRuns(r, ps, ts)
    requires NoTerminator(p) && IsTerminatorRun(t) && s == p + t + r
    requires |ps| > 1 ==> ps[0] != []
    ensures CutsAtRuns(s, [p] + ps, [t] + ts)
  {
    var ps2, ts2 := [p] + ps, [t] + ts;
    assert ps2[1..] == ps && ts2[1..] == ts;
    assert Interleave(ps2, ts2) == p + t + Interleave(ps, ts);
    assert forall j :: 1 <= j < |ps2| ==> ps2[j] == ps[j - 1];
    assert forall j :: 1 <= j < |ts2| ==> ts2[j] == ts[j - 1];
  }

  /** The split and its runs cut the text at the maximal terminator runs. */
  lemma {:induction false} SplitOnTerminatorsCuts(s: string)
    ensures CutsAtRuns(s, SplitOnTerminators(s), TerminatorRuns(s))
    decreases |s|
  {
    var n := Span(s, PieceChars);
    if n == |s| {
      CutsOfWhole(s);
    } else {
      var m := Span(s[n..], Terminators);
      SpanFacts(s, PieceChars);
      SpanRunLength(s, n);
      SplitOnTerminatorsCuts(s[n + m..]);
      CutsAfterRun(s, n, m);
    }
  }

  lemma ThreeParts(s: string, n: nat, m: nat)
    requires n + m <= |s|
    ensures s == s[..n] + s[n..n + m] + s[n + m..]
  {
  }

  /** A text without terminators is cut into itself alone. */
  lemma CutsOfWhole(s: string)
    requires Span(s, PieceChars) == |s|
    ensures CutsAtRuns(s, SplitOnTerminators(s), TerminatorRuns(s))
  {
    PieceNoTerminator(s);
    assert s[..|s|] == s;
    assert SplitOnTerminators(s) == [s] && TerminatorRuns(s) == [];
  }

  /** The first piece and run, put in front of the cut of the rest, cut the whole text. */
  /** The terminators after the first piece form a run, and what follows it does not start with a terminator. */
  lemma RunAfterPiece(s: string, n: nat, m: nat)
    requires n == Span(s, PieceChars) && n < |s|
    requires m == Span(s[n..], Terminators)
    ensures n + m <= |s|
    ensures IsTerminatorRun(s[n..n + m])
    ensures n + m < |s| ==> !IsTerminator(s[n + m])
  {
    SpanFacts(s, PieceChars);
    SpanRunLength(s, n);
    assert forall j :: n <= j < n + m ==> s[n..n + m][j - n] == s[j];
  }

  /** The piece after a run is non-empty whenever more pieces follow it. */
  lemma NextPieceNonEmpty(s: string, n: nat, m: nat)
    requires n == Span(s, PieceChars) && n < |s|
    requires m == Span(s[n..], Terminators)
    requires n + m <= |s|
    ensures |SplitOnTerminators(s[n + m..])| > 1 ==> SplitOnTerminators(s[n + m..])[0] != []
  {
    RunAfterPiece(s, n, m);
    var r := s[n + m..];
    if |SplitOnTerminators(r)| > 1 {
      assert |r| > 0 && r[0] == s[n + m];
      FirstPieceNonEmpty(r);
    }
  }

  lemma CutsAfterRun(s: string, n: nat, m: nat)
    requires n == Span(s, PieceChars) && n < |s|
    requires m == Span(s[n..], Terminators)
    requires n + m <= |s|
    requires CutsAtRuns(s[n + m..], SplitOnTerminators(s[n + m..]), TerminatorRuns(s[n + m..]))
    ensures CutsAtRuns(s, SplitOnTerminators(s), TerminatorRuns(s))
  {
    var r := s[n + m..];
    RunAfterPiece(s, n, m);
    NextPieceNonEmpty(s, n, m);
    PieceNoTerminator(s);
    ThreeParts(s, n, m);
    CutsCons(s, s[..n], s[n..n + m], r, SplitOnTerminators(r), TerminatorRuns(r));
    SplitUnfold(s, n, m);
    RunsUnfold(s, n, m);
  }

  /** The head of a rejoined text is the head of its first piece. */
  lemma InterleaveHead(ps: seq<string>, ts: seq<string>)
    requires |ps| == |ts| + 1 && ps[0] != []
    ensures |Interleave(ps, ts)| > 0 && Interleave(ps, ts)[0] == ps[0][0]
  {
  }

  /** One step of a cut: the first piece, its run, and the rest cut the same way. */
  lemma CutsStep(s: string, ps: seq<string>, ts: seq<string>)
    requires CutsAtRuns(s, ps, ts) && |ts| > 0
    ensures var a, b := |ps[0]|, |ts[0]|;
      && a + b <= |s|
      && Span(s, PieceChars) == a && a < |s|
      && Span(s[a..], Terminators) == b
      && s[..a] == ps[0] && s[a..a + b] == ts[0]
      && CutsAtRuns(s[a + b..], ps[1..], ts[1..])
  {
    var a, b := |ps[0]|, |ts[0]|;
    var r := Interleave(ps[1..], ts[1..]);
    assert s == ps[0] + ts[0] + r;
    assert forall i :: 0 <= i < a ==> s[i] == ps[0][i];
    assert s[a] == ts[0][0];
    SpanExact(s, PieceChars, a);
    var u := s[a..];
    assert u == ts[0] + r;
    assert forall i :: 0 <= i < b ==> u[i] == ts[0][i];
    if b < |u| {
      assert u[b] == r[0];
      if |ts| > 1 {
        assert ps[1] != [];
      } else {
        assert r == ps[1];
      }
      assert ps[1] != [];
      InterleaveHead(ps[1..], ts[1..]);
      assert !IsTerminator(ps[1][0]);
    }
    SpanExact(u, Terminators, b);
    assert s[a + b..] == r;
    assert forall j :: 0 < j < |ps[1..]| - 1 ==> ps[1..][j] == ps[j + 1];
  }

  lemma CutsWithoutRuns(s: string, ps: seq<string>, ts: seq<string>)
    requires CutsAtRuns(s, ps, ts) && |ts| == 0
    ensures ps == SplitOnTerminators(s) && ts == TerminatorRuns(s)
  {
    assert ps == [s];
    SpanExact(s, PieceChars, |s|);
    assert SplitOnTerminators(s) == [s];
  }

  /** A first piece and run that are the split's, followed by the split of the rest, are the split. */
  lemma SplitFromStep(s: string, a: nat, b: nat, ps: seq<string>, ts: seq<string>)
    requires a == Span(s, PieceChars) && a < |s|
    requires b == Span(s[a..], Terminators) && a + b <= |s|
    requires |ps| > 0 && |ts| > 0 && ps[0] == s[..a] && ts[0] == s[a..a + b]
    requires ps[1..] == SplitOnTerminators(s[a + b..]) && ts[1..] == TerminatorRuns(s[a + b..])
    ensures ps == SplitOnTerminators(s) && ts == TerminatorRuns(s)
  {
    SplitUnfold(s, a, b);
    RunsUnfold(s, a, b);
    assert ps == [ps[0]] + ps[1..];
    assert ts == [ts[0]] + ts[1..];
  }

  /** The cut at the maximal terminator runs is unique: it is the split. */
  lemma {:induction false} CutsAreTheSplit(s: string, ps: seq<string>, ts: seq<string>)
    requires CutsAtRuns(s, ps, ts)
    ensures ps == SplitOnTerminators(s) && ts == TerminatorRuns(s)
    decreases |ts|
  {
    if |ts| == 0 {
      CutsWithoutRuns(s, ps, ts);
    } else {
      var a, b := |ps[0]|, |ts[0]|;
      CutsStep(s, ps, ts);
      CutsAreTheSplit(s[a + b..], ps[1..], ts[1..]);
      SplitFromStep(s, a, b, ps, ts);
    }
  }

  /** A sentence: non-empty, no terminator, no whitespace at either end. */
  predicate IsSentence(s: string) {
    && s != []
    && NoTerminator(s)
    && !IsSpace(s[0]) && !IsSpace(s[|s| - 1])
  }

  /** `[p.strip() for p in pieces if p.strip()]`. */
  function KeepSentences(ps: seq<string>): (ss: seq<string>)
    requires forall i :: 0 <= i < |ps| ==> NoTerminator(ps[i])
    ensures |ss| <= |ps|
    ensures forall i :: 0 <= i < |ss| ==> IsSentence(ss[i])
    ensures ss == [] <==> forall i :: 0 <= i < |ps| ==> AllSpace(ps[i])
  {
    if |ps| == 0 then []
    else
      var p := Strip(ps[0]);
      assert NoTerminator(p) by {
        assert NoTerminator(ps[0]);
        assert forall i :: 0 <= i < |p| ==> p[i] == ps[0][Leading(ps[0]) + i];
      }
      (if p != [] then [p] else []) + KeepSentences(ps[1..])
  }

  /** The sentences of a text: the non-blank pieces between terminator runs, stripped. */
  function SentencesOf(text: string): (ss: seq<string>)
    ensures forall i :: 0 <= i < |ss| ==> IsSentence(ss[i])
  {
    KeepSentences(SplitOnTerminators(text))
  }

  lemma AllSpaceAppend(a: string, b: string)
    ensures AllSpace(a + b) <==> AllSpace(a) && AllSpace(b)
  {
    if AllSpace(a) && AllSpace(b) {
      assert forall i :: |a| <= i < |a + b| ==> (a + b)[i] == b[i - |a|];
    }
    if AllSpace(a + b) {
      assert forall i :: 0 <= i < |a| ==> (a + b)[i] == a[i];
      assert forall i :: 0 <= i < |b| ==> (a + b)[|a| + i] == b[i];
    }
  }

  lemma {:induction false} AllSpaceFlatten(ps: seq<string>)
    ensures AllSpace(Flatten(ps)) <==> forall i :: 0 <= i < |ps| ==> AllSpace(ps[i])
  {
    if |ps| > 0 {
      AllSpaceFlatten(ps[1..]);
      var f := Flatten(ps);
      assert f == ps[0] + Flatten(ps[1..]);
      assert forall i :: 0 <= i < |ps[0]| ==> f[i] == ps[0][i];
      assert forall i :: 0 <= i < |Flatten(ps[1..])| ==> f[|ps[0]| + i] == Flatten(ps[1..])[i];
      assert forall i :: 1 <= i < |ps| ==> ps[i] == ps[1..][i - 1];
    }
  }

  predicate SpaceOrTerminator(c: char) {
    IsSpace(c) || IsTerminator(c)
  }

  lemma {:induction false} AllSpaceNonTerminators(s: string)
    ensures AllSpace(NonTerminators(s)) <==> forall i :: 0 <= i < |s| ==> SpaceOrTerminator(s[i])
  {
    if |s| > 0 {
      AllSpaceNonTerminators(s[1..]);
      var rest := NonTerminators(s[1..]);
      if IsTerminator(s[0]) {
        assert NonTerminators(s) == rest;
      } else {
        assert NonTerminators(s) == [s[0]] + rest;
        AllSpaceAppend([s[0]], rest);
      }
      SpaceOrTerminatorCons(s);
    }
  }

  lemma SpaceOrTerminatorCons(s: string)
    requires |s| > 0
    ensures (forall i :: 0 <= i < |s| ==> SpaceOrTerminator(s[i])) <==>
      SpaceOrTerminator(s[0]) && forall i :: 0 <= i < |s[1..]| ==> SpaceOrTerminator(s[1..][i])
  {
    assert forall i :: 1 <= i < |s| ==> s[i] == s[1..][i - 1];
  }

  /** A text has no sentence exactly when it holds nothing but whitespace and terminators. */
  lemma NoSentencesIff(text: string)
    ensures SentencesOf(text) == [] <==>
      forall i :: 0 <= i < |text| ==> SpaceOrTerminator(text[i])
  {
    var ps := SplitOnTerminators(text);
    SplitOnTerminatorsContent(text);
    AllSpaceFlatten(ps);
    AllSpaceNonTerminators(text);
  }

  /** Total number of whitespace-separated tokens over the sentences. */
  function TokenTotal(ss: seq<string>): nat
  {
    if |ss| == 0 then 0 else |SplitWords(ss[0])| + TokenTotal(ss[1..])
  }

  /** Every sentence contributes at least one token. */
  lemma {:induction false} TokensAtLeastSentences(ss: seq<string>)
    requires forall i :: 0 <= i < |ss| ==> IsSentence(ss[i])
    ensures TokenTotal(ss) >= |ss|
  {
    if |ss| > 0 {
      assert !AllSpace(ss[0]);
      WordsOfNonBlank(ss[0]);
      TokensAtLeastSentences(ss[1..]);
    }
  }

  lemma RatioAtLeastOne(total: nat, n: nat)
    requires 0 < n <= total
    ensures total as real / n as real >= 1.0
  {
    var r := total as real / n as real;
    assert r * n as real == total as real;
  }

  /**
   * `avg_sentence_length`: tokens per sentence, with the denominator floored
   * at one sentence. It is 0 exactly when there is no sentence, and at least 1
   * otherwise.
   */
  function AvgSentenceLength(text: string): (r: real)
    ensures r >= 0.0
    ensures r == 0.0 <==> SentencesOf(text) == []
    ensures SentencesOf(text) != [] ==> r >= 1.0
  {
    var ss := SentencesOf(text);
    TokensAtLeastSentences(ss);
    var n := if |ss| > 1 then |ss| else 1;
    var r := TokenTotal(ss) as real / n as real;
    if ss != [] then RatioAtLeastOne(TokenTotal(ss), n); r else r
  }

  /** The empty text has no sentence. */
  lemma SentencesOfEmpty()
    ensures SentencesOf("") == []
  {
    assert SplitOnTerminators("") == [""];
  }

  /** A text of one ordinary character is one sentence of one word. */
  lemma OneWordSentence(c: char)
    requires !IsSpace(c) && !IsTerminator(c)
    ensures SentencesOf([c]) == [[c]]
    ensures AvgSentenceLength([c]) == 1.0
  {
    var t := [c];
    assert Span(t, PieceChars) == 1 by {
      assert Span(t[1..], PieceChars) == 0;
    }
    assert SplitOnTerminators(t) == [t];
    assert Span(t, Spaces) == 0;
    assert LStrip(t) == t;
    assert RStrip(t) == t;
    assert Strip(t) == t;
    assert KeepSentences([t]) == [t] by {
      assert KeepSentences([t][1..]) == [];
    }
    assert Span(t, WordChars) == 1 by {
      assert Span(t[1..], WordChars) == 0;
    }
    assert SplitWords(t) == [t] by {
      assert SplitWords(t[1..]) == [];
    }
    assert TokenTotal([t]) == 1 by {
      assert TokenTotal([t][1..]) == 0;
    }
    AvgOfOneSentence(t);
  }

  /** With a single sentence the average is that sentence's number of words. */
  lemma AvgOfOneSentence(text: string)
    requires |SentencesOf(text)| == 1
    ensures AvgSentenceLength(text) == |SplitWords(SentencesOf(text)[0])| as real
  {
    var ss := SentencesOf(text);
    assert TokenTotal(ss) == |SplitWords(ss[0])| + TokenTotal(ss[1..]);
    assert TokenTotal(ss[1..]) == 0;
    assert AvgSentenceLength(text) == TokenTotal(ss) as real / 1 as real;
    DivideByOne(TokenTotal(ss));
  }

  lemma DivideByOne(n: nat)
    ensures n as real / 1 as real == n as real
  {
  }
  // Which pieces become sentences, and how many tokens they hold

  /** Positions from `from` on of the non-blank pieces, in increasing order. */
  function NonBlankFrom(ps: seq<string>, from: nat): (idx: seq<nat>)
    requires from <= |ps|
    ensures forall k :: 0 <= k < |idx| ==> from <= idx[k] < |ps|
    ensures forall k, l :: 0 <= k < l < |idx| ==> idx[k] < idx[l]
    ensures forall j :: from <= j < |ps| ==> (!AllSpace(ps[j]) <==> j in idx)
    decreases |ps| - from
  {
    if from == |ps| then []
    else (if AllSpace(ps[from]) then [] else [from]) + NonBlankFrom(ps, from + 1)
  }

  /** Positions of the non-blank pieces, in increasing order. */
  function NonBlankIndices(ps: seq<string>): (idx: seq<nat>)
    ensures forall k :: 0 <= k < |idx| ==> idx[k] < |ps|
    ensures forall k, l :: 0 <= k < l < |idx| ==> idx[k] < idx[l]
    ensures forall j :: 0 <= j < |ps| ==> (!AllSpace(ps[j]) <==> j in idx)
  {
    NonBlankFrom(ps, 0)
  }

  lemma KeepSentencesUnfold(ps: seq<string>)
    requires |ps| > 0
    requires forall i :: 0 <= i < |ps| ==> NoTerminator(ps[i])
    ensures KeepSentences(ps) == (if AllSpace(ps[0]) then [] else [Strip(ps[0])]) + KeepSentences(ps[1..])
  {
  }

  /** The pieces at the given positions, stripped, in the order of the positions. */
  function StrippedAt(ps: seq<string>, idx: seq<nat>): (ss: seq<string>)
    requires forall k :: 0 <= k < |idx| ==> idx[k] < |ps|
    ensures |ss| == |idx|
    ensures forall k :: 0 <= k < |idx| ==> ss[k] == Strip(ps[idx[k]])
  {
    seq(|idx|, k requires 0 <= k < |idx| => Strip(ps[idx[k]]))
  }

  lemma StrippedAtCons(ps: seq<string>, i: nat, idx: seq<nat>)
    requires i < |ps|
    requires forall k :: 0 <= k < |idx| ==> idx[k] < |ps|
    ensures StrippedAt(ps, [i] + idx) == [Strip(ps[i])] + StrippedAt(ps, idx)
  {
    var a, b := StrippedAt(ps, [i] + idx), [Strip(ps[i])] + StrippedAt(ps, idx);
    assert forall k :: 1 <= k < |a| ==> ([i] + idx)[k] == idx[k - 1];
    assert forall k :: 1 <= k < |a| ==> a[k] == b[k];
  }

  lemma KeepSentencesAt(ps: seq<string>, from: nat)
    requires from < |ps|
    requires forall i :: 0 <= i < |ps| ==> NoTerminator(ps[i])
    ensures KeepSentences(ps[from..]) ==
      (if AllSpace(ps[from]) then [] else [Strip(ps[from])]) + KeepSentences(ps[from + 1..])
  {
    KeepSentencesUnfold(ps[from..]);
    assert ps[from..][0] == ps[from] && ps[from..][1..] == ps[from + 1..];
  }

  lemma NonBlankFromAt(ps: seq<string>, from: nat)
    requires from < |ps|
    ensures NonBlankFrom(ps, from) == (if AllSpace(ps[from]) then [] else [from]) + NonBlankFrom(ps, from + 1)
  {
  }

  lemma {:induction false} KeepSentencesFrom(ps: seq<string>, from: nat)
    requires from <= |ps|
    requires forall i :: 0 <= i < |ps| ==> NoTerminator(ps[i])
    ensures KeepSentences(ps[from..]) == StrippedAt(ps, NonBlankFrom(ps, from))
    decreases |ps| - from
  {
    if from < |ps| {
      KeepSentencesFrom(ps, from + 1);
      KeepSentencesAt(ps, from);
      NonBlankFromAt(ps, from);
      if !AllSpace(ps[from]) {
        StrippedAtCons(ps, from, NonBlankFrom(ps, from + 1));
      }
    } else {
      assert NonBlankFrom(ps, from) == [];
    }
  }

  /**
   * The sentences are exactly the stripped non-blank pieces, in order: the
   * `k`-th sentence is the strip of the `k`-th non-blank piece.
   */
  lemma KeepSentencesExactly(ps: seq<string>)
    requires forall i :: 0 <= i < |ps| ==> NoTerminator(ps[i])
    ensures |KeepSentences(ps)| == |NonBlankIndices(ps)|
    ensures forall k :: 0 <= k < |KeepSentences(ps)| ==>
      KeepSentences(ps)[k] == Strip(ps[NonBlankIndices(ps)[k]])
  {
    KeepSentencesFrom(ps, 0);
    assert ps[0..] == ps;
    assert KeepSentences(ps) == StrippedAt(ps, NonBlankIndices(ps));
  }

  /** Characters outside the class in front of a text do not change its run count once a run has ended. */
  lemma {:induction false} RunsSplitAt(a: string, t: string, r: string, k: Class, within: bool)
    requires |t| > 0
    requires forall i :: 0 <= i < |t| ==> !InClass(t[i], k)
    ensures Runs(a + t + r, k, within) == Runs(a, k, within) + Runs(r, k, false)
    decreases |a|
  {
    var s := a + t + r;
    if |a| == 0 {
      assert s == t + r;
      assert forall i :: 0 <= i < |t| ==> s[i] == t[i];
      RunsSkip(s, |t|, k, within);
      assert s[|t|..] == r;
    } else {
      assert s[0] == a[0];
      assert s[1..] == a[1..] + t + r;
      RunsSplitAt(a[1..], t, r, k, InClass(a[0], k));
    }
  }

  /** Trailing characters outside the class add no run. */
  lemma RunsAppendNone(a: string, t: string, k: Class, within: bool)
    requires forall i :: 0 <= i < |t| ==> !InClass(t[i], k)
    ensures Runs(a + t, k, within) == Runs(a, k, within)
  {
    if |t| > 0 {
      RunsSplitAt(a, t, [], k, within);
      assert a + t + [] == a + t;
      assert Runs([], k, false) == 0;
    } else {
      assert a + t == a;
    }
  }

  /** Two classes that agree on every character of a text count the same runs. */
  lemma {:induction false} RunsAgree(s: string, k1: Class, k2: Class, within: bool)
    requires forall i :: 0 <= i < |s| ==> (InClass(s[i], k1) <==> InClass(s[i], k2))
    ensures Runs(s, k1, within) == Runs(s, k2, within)
    decreases |s|
  {
    if |s| > 0 {
      assert forall i :: 1 <= i < |s| ==> s[1..][i - 1] == s[i];
      RunsAgree(s[1..], k1, k2, InClass(s[0], k1));
    }
  }

  /** Leading whitespace starts no token run. */
  lemma RunsDropLeading(p: string)
    ensures Leading(p) <= |p|
    ensures Runs(p, TokenChars, false) == Runs(p[Leading(p)..], TokenChars, false)
  {
    var r := LStrip(p);
    var l := |p| - |r|;
    assert Leading(p) == l && AllSpace(p[..l]);
    RunsSkipSpaces(p, l);
  }

  lemma {:induction false} RunsSkipSpaces(p: string, l: nat)
    requires l <= |p| && AllSpace(p[..l])
    ensures Runs(p, TokenChars, false) == Runs(p[l..], TokenChars, false)
    decreases l
  {
    if l > 0 {
      assert IsSpace(p[..l][0]);
      assert AllSpace(p[1..][..l - 1]) by {
        assert forall j :: 1 <= j < l ==> p[1..][..l - 1][j - 1] == p[..l][j];
      }
      RunsSkipSpaces(p[1..], l - 1);
      assert p[1..][l - 1..] == p[l..];
    }
  }

  /** Trailing whitespace starts no token run. */
  lemma RunsDropTrailing(p: string)
    ensures Leading(p) <= |p|
    ensures Runs(p[Leading(p)..], TokenChars, false) == Runs(Strip(p), TokenChars, false)
  {
    var q, l := Strip(p), Leading(p);
    var tail := p[l + |q|..];
    assert p[l..] == q + tail;
    assert forall i :: 0 <= i < |tail| ==> IsSpace(tail[i]);
    RunsAppendNone(q, tail, TokenChars, false);
  }

  lemma StripNoTerminator(p: string)
    requires NoTerminator(p)
    ensures NoTerminator(Strip(p))
  {
    var q, l := Strip(p), Leading(p);
    assert forall i :: 0 <= i < |q| ==> q[i] == p[l + i];
  }

  /** The words of a stripped piece are the maximal runs of its non-whitespace, non-terminator characters. */
  lemma WordsOfPiece(p: string)
    requires NoTerminator(p)
    ensures |SplitWords(Strip(p))| == Runs(p, TokenChars, false)
  {
    var q := Strip(p);
    SplitWordsCount(q);
    StripNoTerminator(p);
    RunsAgree(q, WordChars, TokenChars, false);
    RunsDropLeading(p);
    RunsDropTrailing(p);
  }

  /** Total tokens of the pieces, each counted as its maximal token runs. */
  function PieceTokens(ps: seq<string>): nat
  {
    if |ps| == 0 then 0 else Runs(ps[0], TokenChars, false) + PieceTokens(ps[1..])
  }

  /** Keeping the non-blank pieces and stripping them loses no token. */
  lemma {:induction false} TokenTotalOfKept(ps: seq<string>)
    requires forall i :: 0 <= i < |ps| ==> NoTerminator(ps[i])
    ensures TokenTotal(KeepSentences(ps)) == PieceTokens(ps)
    decreases |ps|
  {
    if |ps| > 0 {
      TokenTotalOfKept(ps[1..]);
      WordsOfPiece(ps[0]);
      var p := Strip(ps[0]);
      var ss := KeepSentences(ps);
      if p == [] {
        assert ss == KeepSentences(ps[1..]);
        assert SplitWords(p) == [];
      } else {
        assert ss == [p] + KeepSentences(ps[1..]);
        assert ss[1..] == KeepSentences(ps[1..]);
      }
    }
  }

  /** The token runs of a cut text are the token runs of its pieces: every terminator run ends a token. */
  lemma {:induction false} PieceTokensOfCuts(s: string, ps: seq<string>, ts: seq<string>)
    requires CutsAtRuns(s, ps, ts)
    ensures PieceTokens(ps) == Runs(s, TokenChars, false)
    decreases |ts|
  {
    if |ts| == 0 {
      assert PieceTokens(ps) == Runs(ps[0], TokenChars, false) + PieceTokens(ps[1..]);
    } else {
      var r := Interleave(ps[1..], ts[1..]);
      assert CutsAtRuns(r, ps[1..], ts[1..]) by {
        assert forall j :: 0 < j < |ps| ==> ps[1..][j - 1] == ps[j];
        assert forall j :: 0 < j < |ts| ==> ts[1..][j - 1] == ts[j];
      }
      PieceTokensOfCuts(r, ps[1..], ts[1..]);
      assert IsTerminatorRun(ts[0]);
      RunsSplitAt(ps[0], ts[0], r, TokenChars, false);
    }
  }

  /**
   * The token total is the number of maximal runs of characters that are
   * neither whitespace nor terminators in the whole text, so the average is
   * that count over the number of sentences, floored at one.
   */
  lemma AvgSentenceLengthValue(text: string)
    ensures TokenTotal(SentencesOf(text)) == Runs(text, TokenChars, false)
    ensures var n := |SentencesOf(text)|;
      AvgSentenceLength(text) == Runs(text, TokenChars, false) as real / (if n > 1 then n else 1) as real
  {
    var ps, ts := SplitOnTerminators(text), TerminatorRuns(text);
    SplitOnTerminatorsCuts(text);
    TokenTotalOfKept(ps);
    PieceTokensOfCuts(text, ps, ts);
  }
}
