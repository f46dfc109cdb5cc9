/**
 * The metrics of `analyze_text` (text/rate/rateTextAI.py): suspicious-character
 * accounting against a weight table, foreign-character accounting,
 * punctuation density, the aggregate score and the three-band verdict.
 */
module Scoring {
  import opened Wrappers
  import opened Seqs
  import opened Assoc
  import opened Weights

  /** The allow-list of native letters `ąćęłńóśźżĄĆĘŁŃÓŚŹŻ`, never counted as foreign. */
  const PolishLetters: string :=
    "\U{0105}\U{0107}\U{0119}\U{0142}\U{0144}\U{00F3}\U{015B}\U{017A}\U{017C}" +
    "\U{0104}\U{0106}\U{0118}\U{0141}\U{0143}\U{00D3}\U{015A}\U{0179}\U{017B}"

  // ---------------------------------------------------------------------
  // Suspicious characters

  /**
   * `suspicious_counts`: for each weighted character, in table order, its
   * number of occurrences in the text, omitting those that do not occur.
   */
  function SuspiciousCounts(text: string, weights: WeightTable): seq<(char, nat)>
  {
    if |weights| == 0 then []
    else
      var k := weights[0].0;
      var cnt := Count(text, k);
      (if cnt > 0 then [(k, cnt)] else []) + SuspiciousCounts(text, weights[1..])
  }

  /**
   * `suspicious_counts` holds exactly the weighted characters that occur in
   * the text, each with its number of occurrences, in weight-table order.
   */
  lemma SuspiciousCountsSpec(text: string, weights: WeightTable)
    ensures var r := SuspiciousCounts(text, weights);
      && (forall i :: 0 <= i < |r| ==> r[i].1 == Count(text, r[i].0) && r[i].1 > 0)
      && (forall k :: k in Keys(r) <==> k in Keys(weights) && k in text)
      && IsSubsequence(Keys(r), Keys(weights))
  {
    SuspiciousCountsCounted(text, weights);
    SuspiciousCountsKeys(text, weights);
  }

  /** The first weighted character is listed first exactly when it occurs. */
  lemma SuspiciousCountsStep(text: string, weights: WeightTable)
    requires |weights| > 0
    ensures var k := weights[0].0;
      var head := if Count(text, k) > 0 then [(k, Count(text, k))] else [];
      SuspiciousCounts(text, weights) == head + SuspiciousCounts(text, weights[1..])
  {
  }

  /** Every listed count is the positive number of occurrences of its character. */
  lemma {:induction false} SuspiciousCountsCounted(text: string, weights: WeightTable)
    ensures var r := SuspiciousCounts(text, weights);
      forall i :: 0 <= i < |r| ==> r[i].1 == Count(text, r[i].0) && r[i].1 > 0
  {
    if |weights| > 0 {
      var k := weights[0].0;
      var rest := SuspiciousCounts(text, weights[1..]);
      SuspiciousCountsCounted(text, weights[1..]);
      SuspiciousCountsStep(text, weights);
      var r := SuspiciousCounts(text, weights);
      if Count(text, k) > 0 {
        assert r == [(k, Count(text, k))] + rest;
        assert forall i :: 1 <= i < |r| ==> r[i] == rest[i - 1];
      } else {
        assert r == rest;
      }
    }
  }

  /** The listed characters are the weighted ones that occur, in table order. */
  lemma {:induction false} SuspiciousCountsKeys(text: string, weights: WeightTable)
    ensures var r := SuspiciousCounts(text, weights);
      && (forall k :: k in Keys(r) <==> k in Keys(weights) && k in text)
      && IsSubsequence(Keys(r), Keys(weights))
  {
    if |weights| > 0 {
      var k := weights[0].0;
      var cnt := Count(text, k);
      var rest := SuspiciousCounts(text, weights[1..]);
      SuspiciousCountsKeys(text, weights[1..]);
      SuspiciousCountsStep(text, weights);
      var head := if cnt > 0 then [(k, cnt)] else [];
      KeysAppend(head, rest);
      KeysStep(weights);
      var r := SuspiciousCounts(text, weights);
      if cnt > 0 {
        assert Keys(r) == [k] + Keys(rest);
        assert Keys(r)[1..] == Keys(rest);
      } else {
        assert Keys(r) == Keys(rest);
        SubsequenceCons(Keys(rest), Keys(weights[1..]), k);
      }
    }
  }

  /** `weighted_score`: the sum, over weighted characters that occur, of count times weight. */
  function WeightedScore(text: string, weights: WeightTable): real
  {
    if |weights| == 0 then 0.0
    else
      var cnt := Count(text, weights[0].0);
      (if cnt > 0 then Scale(cnt, weights[0].1) else 0.0) + WeightedScore(text, weights[1..])
  }

  /** `n * w`, spelled out as `n` additions of `w` so that proofs about it stay linear. */
  function Scale(n: nat, w: real): real {
    if n == 0 then 0.0 else w + Scale(n - 1, w)
  }

  /** Repeated addition is the product. */
  lemma {:induction false} ScaleIsProduct(n: nat, w: real)
    ensures Scale(n, w) == n as real * w
  {
    if n > 0 {
      ScaleIsProduct(n - 1, w);
    }
  }

  lemma {:induction false} ScaleNonNegative(n: nat, w: real)
    requires w >= 0.0
    ensures Scale(n, w) >= 0.0
  {
    if n > 0 {
      ScaleNonNegative(n - 1, w);
    }
  }

  lemma {:induction false} ScaleStrictlyMonotone(n: nat, w1: real, w2: real)
    requires n > 0 && w1 < w2
    ensures Scale(n, w1) < Scale(n, w2)
  {
    if n > 1 {
      ScaleStrictlyMonotone(n - 1, w1, w2);
    }
  }

  /** With non-negative weights the weighted score is non-negative. */
  lemma {:induction false} WeightedScoreNonNegative(text: string, weights: WeightTable)
    requires NonNegative(weights)
    ensures WeightedScore(text, weights) >= 0.0
  {
    if |weights| > 0 {
      WeightedScoreNonNegative(text, weights[1..]);
      ScaleNonNegative(Count(text, weights[0].0), weights[0].1);
    }
  }

  /** Text holding no weighted character scores 0. */
  lemma {:induction false} WeightedScoreAbsent(text: string, weights: WeightTable)
    requires forall i :: 0 <= i < |weights| ==> weights[i].0 !in text
    ensures WeightedScore(text, weights) == 0.0
  {
    if |weights| > 0 {
      WeightedScoreAbsent(text, weights[1..]);
    }
  }

  /** Text holding no weighted character has no suspicious counts. */
  lemma {:induction false} SuspiciousCountsAbsent(text: string, weights: WeightTable)
    requires forall i :: 0 <= i < |weights| ==> weights[i].0 !in text
    ensures SuspiciousCounts(text, weights) == []
  {
    if |weights| > 0 {
      SuspiciousCountsAbsent(text, weights[1..]);
    }
  }

  /**
   * Raising the weight of a character that occurs in the text strictly raises
   * the weighted score.
   */
  lemma {:induction false} WeightedScoreRaise(text: string, weights: WeightTable, i: nat, w: real)
    requires i < |weights| && weights[i].1 < w && weights[i].0 in text
    ensures WeightedScore(text, weights) < WeightedScore(text, weights[i := (weights[i].0, w)])
  {
    var raised := weights[i := (weights[i].0, w)];
    if i == 0 {
      assert raised[1..] == weights[1..];
      ScaleStrictlyMonotone(Count(text, weights[0].0), weights[0].1, w);
    } else {
      assert raised[1..] == weights[1..][i - 1 := (weights[i].0, w)];
      WeightedScoreRaise(text, weights[1..], i - 1, w);
    }
  }

  /** `suspicious_count`: the sum of the per-character counts. */
  function TotalCount(counts: seq<(char, nat)>): nat
  {
    if |counts| == 0 then 0 else counts[0].1 + TotalCount(counts[1..])
  }

  /** Reference: the weight of every position of the text, summed position by position. */
  function PositionalWeight(text: string, weights: WeightTable): real
  {
    if |text| == 0 then 0.0 else WeightOf(weights, text[0]) + PositionalWeight(text[1..], weights)
  }

  /** Reference: the number of positions of the text that hold a weighted character. */
  function WeightedPositions(text: string, weights: WeightTable): (n: nat)
    ensures n <= |text|
  {
    if |text| == 0 then 0
    else (if text[0] in Keys(weights) then 1 else 0) + WeightedPositions(text[1..], weights)
  }

  lemma {:induction false} PositionalWeightSplit(text: string, k: char, w: real, rest: WeightTable)
    requires k !in Keys(rest)
    ensures PositionalWeight(text, [(k, w)] + rest) == Scale(Count(text, k), w) + PositionalWeight(text, rest)
  {
    if |text| > 0 {
      PositionalWeightSplit(text[1..], k, w, rest);
      WeightOfCons(k, w, rest, text[0]);
      CountStepTimes(text, k, w);
    }
  }

  lemma CountStepTimes(text: string, k: char, w: real)
    requires |text| > 0
    ensures Scale(Count(text, k), w) == (if text[0] == k then w else 0.0) + Scale(Count(text[1..], k), w)
  {
  }

  lemma {:induction false} WeightedPositionsSplit(text: string, k: char, w: real, rest: WeightTable)
    requires k !in Keys(rest)
    ensures WeightedPositions(text, [(k, w)] + rest) == Count(text, k) + WeightedPositions(text, rest)
  {
    if |text| > 0 {
      WeightedPositionsSplit(text[1..], k, w, rest);
      assert Keys([(k, w)] + rest) == [k] + Keys(rest);
    }
  }

  /**
   * Counting per weighted character and summing count times weight gives the
   * same score as adding up the weight of every position of the text.
   */
  lemma {:induction false} WeightedScoreByPosition(text: string, weights: WeightTable)
    requires DistinctKeys(weights)
    ensures WeightedScore(text, weights) == PositionalWeight(text, weights)
  {
    if |weights| == 0 {
      PositionalWeightOfEmpty(text, weights);
    } else {
      var rest := weights[1..];
      HeadKeyNotInTail(weights);
      WeightedScoreByPosition(text, rest);
      PositionalWeightSplit(text, weights[0].0, weights[0].1, rest);
      assert [(weights[0].0, weights[0].1)] + rest == weights;
    }
  }

  lemma {:induction false} PositionalWeightOfEmpty(text: string, weights: WeightTable)
    requires |weights| == 0
    ensures PositionalWeight(text, weights) == 0.0
  {
    if |text| > 0 {
      PositionalWeightOfEmpty(text[1..], weights);
    }
  }

  /** `suspicious_count` is the number of positions of the text holding a weighted character. */
  lemma {:induction false} SuspiciousCountByPosition(text: string, weights: WeightTable)
    requires DistinctKeys(weights)
    ensures TotalCount(SuspiciousCounts(text, weights)) == WeightedPositions(text, weights)
  {
    if |weights| == 0 {
      if |text| > 0 {
        SuspiciousCountByPosition(text[1..], weights);
      }
    } else {
      var k := weights[0].0;
      var rest := weights[1..];
      HeadKeyNotInTail(weights);
      SuspiciousCountByPosition(text, rest);
      WeightedPositionsSplit(text, k, weights[0].1, rest);
      assert [(k, weights[0].1)] + rest == weights;
      var cnt := Count(text, k);
      assert WeightedPositions(text, weights) == cnt + WeightedPositions(text, rest);
      if cnt > 0 {
        var r := SuspiciousCounts(text, weights);
        assert r == [(k, cnt)] + SuspiciousCounts(text, rest);
        assert r[1..] == SuspiciousCounts(text, rest);
        assert TotalCount(r) == cnt + TotalCount(r[1..]);
      } else {
        assert SuspiciousCounts(text, weights) == SuspiciousCounts(text, rest);
      }
    }
  }

  // ---------------------------------------------------------------------
  // Foreign characters

  /** A code point above 127 that is neither an allowed native letter nor a weighted character. */
  predicate IsForeign(c: char, weights: WeightTable) {
    c as int > 127 && c !in PolishLetters && c !in Keys(weights)
  }

  /** The foreign characters of the text, one per position, in order. */
  function ForeignChars(text: string, weights: WeightTable): (r: string)
    ensures |r| <= |text|
    ensures forall i :: 0 <= i < |r| ==> IsForeign(r[i], weights)
    ensures forall c :: c in r <==> c in text && IsForeign(c, weights)
  {
    if |text| == 0 then []
    else (if IsForeign(text[0], weights) then [text[0]] else []) + ForeignChars(text[1..], weights)
  }

  /** Foreign characters depend on the weight table only through its keys. */
  lemma {:induction false} ForeignCharsByKeys(text: string, w1: WeightTable, w2: WeightTable)
    requires Keys(w1) == Keys(w2)
    ensures ForeignChars(text, w1) == ForeignChars(text, w2)
  {
    if |text| > 0 {
      ForeignCharsByKeys(text[1..], w1, w2);
    }
  }

  /** `non_ascii_count`. */
  function NonAsciiCount(text: string, weights: WeightTable): nat {
    |ForeignChars(text, weights)|
  }

  /** Inserts `x` into a strictly increasing sequence, unless it is already there. */
  function InsertSorted(x: char, s: seq<char>): (r: seq<char>)
    requires StrictlyIncreasing(s)
    ensures StrictlyIncreasing(r)
    ensures forall y :: y in r <==> y in s || y == x
    ensures |r| <= |s| + 1
  {
    if |s| == 0 then [x]
    else if x < s[0] then
      assert forall i :: 0 <= i < |s| ==> s[0] <= s[i];
      [x] + s
    else if x == s[0] then s
    else
      var t := InsertSorted(x, s[1..]);
      assert forall y :: y in s <==> y == s[0] || y in s[1..];
      assert forall i :: 0 <= i < |t| ==> s[0] < t[i] by {
        forall i | 0 <= i < |t|
          ensures s[0] < t[i]
        {
          assert t[i] in t;
          if t[i] != x {
            var j :| 0 <= j < |s[1..]| && s[1..][j] == t[i];
            assert s[1..][j] == s[j + 1];
          }
        }
      }
      [s[0]] + t
  }

  /** `sorted(set(s))`: the distinct characters of `s`, in increasing code-point order. */
  function SortedDistinct(s: seq<char>): (r: seq<char>)
    ensures StrictlyIncreasing(r)
    ensures forall y :: y in r <==> y in s
    ensures |r| <= |s|
  {
    if |s| == 0 then []
    else
      var p := s[..|s| - 1];
      assert forall y :: y in s <==> y in p || y == s[|s| - 1] by {
        assert s == p + [s[|s| - 1]];
      }
      InsertSorted(s[|s| - 1], SortedDistinct(p))
  }

  // ---------------------------------------------------------------------
  // Punctuation

  /** Comma, semicolon, hyphen-minus, en dash and em dash. */
  predicate IsPunctuation(c: char) {
    c == ',' || c == ';' || c == '-' || c == '\U{2013}' || c == '\U{2014}'
  }

  /** `commas + semicolons + dashes`: five separate `text.count` calls added up. */
  function PunctuationCount(text: string): nat {
    Count(text, ',') + Count(text, ';') + Count(text, '-') + Count(text, '\U{2013}') + Count(text, '\U{2014}')
  }

  /** Reference: the number of positions holding one of the five marks. */
  function PunctuationPositions(text: string): (n: nat)
    ensures n <= |text|
  {
    if |text| == 0 then 0
    else (if IsPunctuation(text[0]) then 1 else 0) + PunctuationPositions(text[1..])
  }

  /** The five counts never count a position twice. */
  lemma {:induction false} PunctuationCountByPosition(text: string)
    ensures PunctuationCount(text) == PunctuationPositions(text)
  {
    if |text| > 0 {
      PunctuationCountByPosition(text[1..]);
    }
  }

  /** Floors a non-negative length at 1, as `max(1, n)`. */
  function AtLeastOne(n: nat): (r: nat)
    ensures r >= 1 && r >= n
  {
    if n > 1 then n else 1
  }

  /** `punctuation_density`: percentage of characters that are punctuation marks; within [0, 100]. */
  function PunctuationDensity(text: string): (r: real)
    ensures 0.0 <= r <= 100.0
    ensures |text| == 0 ==> r == 0.0
  {
    PunctuationCountByPosition(text);
    var n := AtLeastOne(|text|);
    assert PunctuationCount(text) <= n;
    FractionAtMostOne(PunctuationCount(text), n);
    PunctuationCount(text) as real / n as real * 100.0
  }

  /** A text that is a single dash or comma has density 100. */
  lemma PunctuationDensityOfOne(c: char)
    requires IsPunctuation(c)
    ensures PunctuationDensity([c]) == 100.0
  {
    PunctuationCountByPosition([c]);
    assert PunctuationPositions([c]) == 1 by {
      assert PunctuationPositions([c][1..]) == 0;
    }
  }

  lemma FractionAtMostOne(p: nat, n: nat)
    requires 0 < n && p <= n
    ensures 0.0 <= p as real / n as real <= 1.0
  {
    var q := p as real / n as real;
    assert q * n as real == p as real;
  }

  // ---------------------------------------------------------------------
  // Score and verdict

  const WeightFactor: real := 1.8
  const ForeignFactor: real := 0.5
  const SentenceFactor: real := 0.3
  const DensityFactor: real := 0.7
  const SentenceBaseline: real := 18.0

  function Max(a: real, b: real): real {
    if a >= b then a else b
  }

  /** `max(1, total_chars / 100)`: the per-100-characters normaliser, never below 1. */
  function Normaliser(length: nat): (d: real)
    ensures d >= 1.0
    ensures d >= length as real / 100.0
  {
    Max(1.0, length as real / 100.0)
  }

  /** The raw signal before normalisation. */
  function RawScore(weighted: real, foreign: nat, avgSentence: real, density: real): real {
    weighted * WeightFactor
      + foreign as real * ForeignFactor
      + Max(0.0, avgSentence - SentenceBaseline) * SentenceFactor
      + density * DensityFactor
  }

  /** `ai_score`. */
  function AiScore(weighted: real, foreign: nat, avgSentence: real, density: real, length: nat): real {
    RawScore(weighted, foreign, avgSentence, density) / Normaliser(length)
  }

  /** Nothing counted, nothing scored. */
  lemma AiScoreOfNothing()
    ensures AiScore(0.0, 0, 0.0, 0.0, 0) == 0.0
  {
  }

  /** With non-negative inputs the score is non-negative. */
  lemma AiScoreNonNegative(weighted: real, foreign: nat, avgSentence: real, density: real, length: nat)
    requires weighted >= 0.0 && density >= 0.0
    ensures AiScore(weighted, foreign, avgSentence, density, length) >= 0.0
  {
    var raw := RawScore(weighted, foreign, avgSentence, density);
    var d := Normaliser(length);
    assert raw >= 0.0;
    assert raw / d * d == raw;
  }

  /** A larger weighted score gives a strictly larger aggregate score, all else equal. */
  lemma AiScoreStrictlyMonotone(w1: real, w2: real, foreign: nat, avgSentence: real, density: real, length: nat)
    requires w1 < w2
    ensures AiScore(w1, foreign, avgSentence, density, length) < AiScore(w2, foreign, avgSentence, density, length)
  {
    var d := Normaliser(length);
    var r1 := RawScore(w1, foreign, avgSentence, density);
    var r2 := RawScore(w2, foreign, avgSentence, density);
    assert r1 < r2;
    assert r1 / d * d == r1 && r2 / d * d == r2;
  }

  /** The verdict bands; the `color` of the source is red, orange and green respectively. */
  datatype Verdict = LikelyAi | PossiblyAi | HumanLike {
    /** Severity: 0 for human-like, 2 for likely AI-generated. */
    function Severity(): nat {
      match this
      case HumanLike => 0
      case PossiblyAi => 1
      case LikelyAi => 2
    }
  }

  const HighThreshold: real := 2.0
  const LowThreshold: real := 0.7

  /** The three bands split the score line: above 2.0, in (0.7, 2.0], and at most 0.7. */
  function VerdictOf(score: real): (v: Verdict)
    ensures v == LikelyAi <==> score > 2.0
    ensures v == PossiblyAi <==> 0.7 < score <= 2.0
    ensures v == HumanLike <==> score <= 0.7
  {
    if score > HighThreshold then LikelyAi
    else if score > LowThreshold then PossiblyAi
    else HumanLike
  }

  /** A higher score never gets a milder verdict. */
  lemma VerdictMonotone(s1: real, s2: real)
    requires s1 <= s2
    ensures VerdictOf(s1).Severity() <= VerdictOf(s2).Severity()
  {
  }
}
