/**
 * `analyze_text` of text/rate/rateTextAI.py assembled from its metrics, and
 * the per-character summary the `index` view builds from its result.
 */
module Analysis {
  import opened Wrappers
  import opened Seqs
  import opened Assoc
  import opened Weights
  import opened Sentences
  import opened Scoring
  import opened Highlight
  import opened Cleaner
  import opened HtmlEscape

  /** The dictionary `analyze_text` returns; `color` is carried by the verdict. */
  datatype Report = Report(
    length: nat,
    suspiciousCounts: seq<(char, nat)>,
    weightedScore: real,
    nonAsciiCount: nat,
    nonAsciiChars: seq<char>,
    suspiciousCount: nat,
    suspiciousChars: seq<char>,
    avgSentenceLength: real,
    punctuationDensity: real,
    aiScore: real,
    verdict: Verdict,
    highlighted: string)

  /** `analyze_text(text, weights_map)`, with `show` producing the weight shown in a span title. */
  function Analyze(text: string, weights: WeightTable, show: real -> string): (r: Report)
    ensures r.length == |text|
    ensures forall k :: k in r.suspiciousChars <==> k in Keys(weights) && k in text
    ensures forall i :: 0 <= i < |r.suspiciousCounts| ==> r.suspiciousCounts[i].1 == Count(text, r.suspiciousCounts[i].0)
    ensures r.nonAsciiCount <= r.length
    ensures StrictlyIncreasing(r.nonAsciiChars)
    ensures |r.nonAsciiChars| <= r.nonAsciiCount
    ensures forall c :: c in r.nonAsciiChars <==> c in text && IsForeign(c, weights)
    ensures 0.0 <= r.punctuationDensity <= 100.0
    ensures r.avgSentenceLength >= 0.0
    ensures r.avgSentenceLength == 0.0 <==> SentencesOf(text) == []
    ensures r.verdict == LikelyAi <==> r.aiScore > 2.0
    ensures r.verdict == HumanLike <==> r.aiScore <= 0.7
    ensures r.highlighted == "" <==> text == ""
  {
    var counts := SuspiciousCounts(text, weights);
    SuspiciousCountsSpec(text, weights);
    var ws := WeightedScore(text, weights);
    var foreign := ForeignChars(text, weights);
    var avg := AvgSentenceLength(text);
    var density := PunctuationDensity(text);
    var score := AiScore(ws, |foreign|, avg, density, |text|);
    HighlightedEmpty(text, weights, show);
    Report(
      |text|, counts, ws, |foreign|, SortedDistinct(foreign), TotalCount(counts), Keys(counts),
      avg, density, score, VerdictOf(score), Highlighted(text, weights, show))
  }

  /**
   * On a well-formed table the totals agree with position-by-position
   * references: `suspicious_count` is the number of weighted positions, the
   * weighted score the sum of the weights of all positions, and the highlighting
   * has one `sus` span per suspicious character and one `nonascii` span per
   * foreign one.
   */
  lemma AnalyzeByPosition(text: string, weights: WeightTable, show: real -> string)
    requires DistinctKeys(weights)
    ensures Analyze(text, weights, show).suspiciousCount == WeightedPositions(text, weights)
    ensures Analyze(text, weights, show).weightedScore == PositionalWeight(text, weights)
    ensures CountSuspicious(Chunks(text, weights)) == Analyze(text, weights, show).suspiciousCount
    ensures CountNonAscii(Chunks(text, weights)) == Analyze(text, weights, show).nonAsciiCount
  {
    SuspiciousCountByPosition(text, weights);
    WeightedScoreByPosition(text, weights);
    SuspiciousSpansAreSuspiciousCount(text, weights);
    NonAsciiSpansAreNonAsciiCount(text, weights);
  }

  /** With non-negative weights neither the weighted score nor the aggregate score is negative. */
  lemma AnalyzeNonNegative(text: string, weights: WeightTable, show: real -> string)
    requires NonNegative(weights)
    ensures Analyze(text, weights, show).weightedScore >= 0.0
    ensures Analyze(text, weights, show).aiScore >= 0.0
  {
    var r := Analyze(text, weights, show);
    WeightedScoreNonNegative(text, weights);
    AiScoreNonNegative(r.weightedScore, r.nonAsciiCount, r.avgSentenceLength, r.punctuationDensity, |text|);
  }

  /** The empty text: every figure is zero and the verdict is human-like. */
  lemma AnalyzeEmpty(weights: WeightTable, show: real -> string)
    ensures Analyze("", weights, show) == Report(0, [], 0.0, 0, [], 0, [], 0.0, 0.0, 0.0, HumanLike, "")
  {
    AnalyzeNothingWeighted("", weights, show);
    SentencesOfEmpty();
    AiScoreOfNothing();
    var r := Analyze("", weights, show);
    assert ForeignChars("", weights) == [];
    assert r.suspiciousChars == Keys(r.suspiciousCounts);
  }

  /**
   * Raising the weight of a character that occurs in the text raises both the
   * weighted score and the aggregate score, and leaves the foreign count alone.
   */
  lemma AnalyzeRaiseWeight(text: string, weights: WeightTable, show: real -> string, i: nat, w: real)
    requires i < |weights| && weights[i].1 < w && weights[i].0 in text
    ensures Analyze(text, weights, show).weightedScore < Analyze(text, weights[i := (weights[i].0, w)], show).weightedScore
    ensures Analyze(text, weights, show).aiScore < Analyze(text, weights[i := (weights[i].0, w)], show).aiScore
    ensures Analyze(text, weights, show).nonAsciiCount == Analyze(text, weights[i := (weights[i].0, w)], show).nonAsciiCount
  {
    var raised := weights[i := (weights[i].0, w)];
    WeightedScoreRaise(text, weights, i, w);
    assert Keys(raised) == Keys(weights);
    ForeignCharsByKeys(text, weights, raised);
    var r1 := Analyze(text, weights, show);
    var r2 := Analyze(text, raised, show);
    AiScoreStrictlyMonotone(r1.weightedScore, r2.weightedScore, r1.nonAsciiCount, r1.avgSentenceLength,
      r1.punctuationDensity, |text|);
  }

  /** A text holding no key of the table has nothing suspicious in it. */
  lemma AnalyzeNothingWeighted(text: string, weights: WeightTable, show: real -> string)
    requires forall j :: 0 <= j < |text| ==> text[j] !in Keys(weights)
    ensures Analyze(text, weights, show).suspiciousCounts == []
    ensures Analyze(text, weights, show).suspiciousCount == 0
    ensures Analyze(text, weights, show).weightedScore == 0.0
  {
    forall i | 0 <= i < |weights|
      ensures weights[i].0 !in text
    {
      KeyAt(weights, i);
    }
    WeightedScoreAbsent(text, weights);
    SuspiciousCountsAbsent(text, weights);
  }

  /** After `clean_text`, no character of the default table is left to count. */
  lemma CleanedTextScoresZero(text: string, show: real -> string)
    ensures Analyze(CleanText(text), DefaultWeights, show).suspiciousCounts == []
    ensures Analyze(CleanText(text), DefaultWeights, show).suspiciousCount == 0
    ensures Analyze(CleanText(text), DefaultWeights, show).weightedScore == 0.0
  {
    CleanKeysAreDefaultWeightKeys();
    AnalyzeNothingWeighted(CleanText(text), DefaultWeights, show);
  }

  /** A one-character text made of a weighted character scores its weight. */
  lemma {:induction false} WeightedScoreOfOne(c: char, weights: WeightTable)
    requires DistinctKeys(weights)
    ensures WeightedScore([c], weights) == WeightOf(weights, c)
  {
    WeightedScoreByPosition([c], weights);
    assert PositionalWeight([c], weights) == WeightOf(weights, c) + PositionalWeight([], weights);
  }

  /**
   * A text of one weighted punctuation mark: it scores its weight, has no
   * foreign character, is one one-word sentence and is all punctuation.
   */
  lemma AnalyzeOneMark(c: char, weights: WeightTable, show: real -> string)
    requires DistinctKeys(weights) && c in Keys(weights)
    requires IsPunctuation(c)
    ensures Analyze([c], weights, show).weightedScore == WeightOf(weights, c)
    ensures Analyze([c], weights, show).nonAsciiCount == 0
    ensures Analyze([c], weights, show).avgSentenceLength == 1.0
    ensures Analyze([c], weights, show).punctuationDensity == 100.0
  {
    WeightedScoreOfOne(c, weights);
    assert ForeignChars([c], weights) == [];
    PunctuationDensityOfOne(c);
    OneWordSentence(c);
  }

  /**
   * A lone em dash under the default table: weight 4.0, no foreign character,
   * one one-word sentence, every character a dash, so the score is
   * (4.0 * 1.8 + 100 * 0.7) / 1 = 77.2 and the text is judged likely AI-generated.
   */
  lemma AnalyzeEmDash(show: real -> string)
    ensures Analyze("\U{2014}", DefaultWeights, show).weightedScore == 4.0
    ensures Analyze("\U{2014}", DefaultWeights, show).nonAsciiCount == 0
    ensures Analyze("\U{2014}", DefaultWeights, show).avgSentenceLength == 1.0
    ensures Analyze("\U{2014}", DefaultWeights, show).punctuationDensity == 100.0
    ensures Analyze("\U{2014}", DefaultWeights, show).aiScore == 77.2
    ensures Analyze("\U{2014}", DefaultWeights, show).verdict == LikelyAi
  {
    DefaultWeightsWellFormed();
    LookupAt(DefaultWeights, 1);
    KeyAt(DefaultWeights, 1);
    AnalyzeOneMark('\U{2014}', DefaultWeights, show);
  }

  // ---------------------------------------------------------------------
  // Whitespace in the highlighting and the score

  /**
   * Text of ASCII characters only, whitespace included, is rendered as its
   * plain escape under a table whose keys all lie above U+007F, such as the
   * defaults.
   */
  lemma AsciiTextIsPlain(text: string, weights: WeightTable, show: real -> string)
    requires forall i :: 0 <= i < |text| ==> text[i] as int <= 127
    requires forall i :: 0 <= i < |weights| ==> weights[i].0 as int > 127
    ensures Highlighted(text, weights, show) == Escape(text)
  {
    HighlightedPlain(text, weights, show);
  }

  /**
   * Whitespace outside ASCII is never rendered bare under the defaults: the
   * no-break, thin and narrow no-break spaces are default keys and become
   * `sus` spans, and every other one is foreign and becomes a `nonascii` span.
   */
  lemma NonAsciiWhitespace(c: char)
    requires IsSpace(c) && c as int > 127
    ensures c == '\U{00A0}' || c == '\U{2009}' || c == '\U{202F}' ==> ChunkOf(c, DefaultWeights).Suspicious?
    ensures c != '\U{00A0}' && c != '\U{2009}' && c != '\U{202F}' ==> ChunkOf(c, DefaultWeights).NonAscii?
  {
    ChunkOfSpec(c, DefaultWeights);
    if c == '\U{00A0}' {
      DefaultKeyAt(10);
    } else if c == '\U{2009}' {
      DefaultKeyAt(11);
    } else if c == '\U{202F}' {
      DefaultKeyAt(12);
    } else {
      OtherSpaceIsForeign(c);
    }
  }

  lemma OtherSpaceIsForeign(c: char)
    requires IsSpace(c) && c as int > 127
    requires c != '\U{00A0}' && c != '\U{2009}' && c != '\U{202F}'
    ensures IsForeign(c, DefaultWeights)
  {
    DefaultSpaceKeys();
    ForeignSpace(c, DefaultWeights);
  }

  /**
   * Non-ASCII whitespace other than the three spaces is foreign under any
   * table whose only whitespace keys are those three spaces.
   */
  lemma ForeignSpace(c: char, weights: WeightTable)
    requires IsSpace(c) && c as int > 127
    requires c != '\U{00A0}' && c != '\U{2009}' && c != '\U{202F}'
    requires forall i :: 0 <= i < |weights| && IsSpace(weights[i].0) ==>
      weights[i].0 == '\U{00A0}' || weights[i].0 == '\U{2009}' || weights[i].0 == '\U{202F}'
    ensures IsForeign(c, weights)
  {
    PolishLettersNotSpace();
    var ks := Keys(weights);
    forall j | 0 <= j < |ks|
      ensures ks[j] != c
    {
      assert ks[j] == weights[j].0;
    }
    assert c !in PolishLetters;
  }

  /** The only whitespace among the default characters are the three spaces. */
  lemma DefaultSpaceKeys()
    ensures forall i :: 0 <= i < |DefaultWeights| && IsSpace(DefaultWeights[i].0) ==>
      DefaultWeights[i].0 == '\U{00A0}' || DefaultWeights[i].0 == '\U{2009}' || DefaultWeights[i].0 == '\U{202F}'
  {
  }

  lemma DefaultKeyAt(i: nat)
    requires i < |DefaultWeights|
    ensures DefaultWeights[i].0 in Keys(DefaultWeights)
  {
    KeyAt(DefaultWeights, i);
  }

  lemma PolishLettersNotSpace()
    ensures forall i :: 0 <= i < |PolishLetters| ==> !IsSpace(PolishLetters[i])
  {
  }

  /**
   * A text of one weighted whitespace character: it scores its weight, has
   * no foreign character, no sentence and no punctuation.
   */
  lemma AnalyzeOneSpace(c: char, weights: WeightTable, show: real -> string)
    requires DistinctKeys(weights) && c in Keys(weights)
    requires IsSpace(c)
    ensures Analyze([c], weights, show).weightedScore == WeightOf(weights, c)
    ensures Analyze([c], weights, show).nonAsciiCount == 0
    ensures Analyze([c], weights, show).avgSentenceLength == 0.0
    ensures Analyze([c], weights, show).punctuationDensity == 0.0
    ensures Analyze([c], weights, show).aiScore == WeightOf(weights, c) * 1.8
  {
    WeightedScoreOfOne(c, weights);
    assert ForeignChars([c], weights) == [];
    SpaceHasNoSentence(c);
    SpaceHasNoPunctuation(c);
    ScoreOfWeightAlone(WeightOf(weights, c));
  }

  lemma ScoreOfWeightAlone(w: real)
    ensures AiScore(w, 0, 0.0, 0.0, 1) == w * 1.8
  {
    assert Normaliser(1) == 1.0;
  }

  lemma SpaceHasNoSentence(c: char)
    requires IsSpace(c)
    ensures AvgSentenceLength([c]) == 0.0
  {
    NoSentencesIff([c]);
  }

  lemma SpaceHasNoPunctuation(c: char)
    requires IsSpace(c)
    ensures PunctuationDensity([c]) == 0.0
  {
    PunctuationCountByPosition([c]);
    assert PunctuationPositions([c]) == 0 by {
      assert PunctuationPositions([c][1..]) == 0;
    }
  }

  /**
   * A lone no-break space under the defaults: weight 1.5 and nothing else, so
   * the score is 1.5 * 1.8 = 2.7 and the text is judged likely AI-generated.
   */
  lemma AnalyzeNoBreakSpace(show: real -> string)
    ensures Analyze("\U{00A0}", DefaultWeights, show).weightedScore == 1.5
    ensures Analyze("\U{00A0}", DefaultWeights, show).aiScore == 2.7
    ensures Analyze("\U{00A0}", DefaultWeights, show).verdict == LikelyAi
  {
    var c := '\U{00A0}';
    DefaultWeightsWellFormed();
    LookupAt(DefaultWeights, 10);
    KeyAt(DefaultWeights, 10);
    assert WeightOf(DefaultWeights, c) == 1.5;
    AnalyzeOneSpace(c, DefaultWeights, show);
  }

  // ---------------------------------------------------------------------
  // The summary of the `index` view

  /** One row of `suspicious_summary`. */
  datatype SummaryRow = SummaryRow(ch: char, count: nat, weight: real, desc: string)

  /** The description shown for a character, `CHAR_DESCRIPTIONS.get(ch, "")` when `descs` is `Descriptions`. */
  function DescriptionOf(descs: seq<(char, string)>, ch: char): string {
    Lookup(descs, ch).GetOr("")
  }

  /** `suspicious_summary`: one row per suspicious character, in the order of the counts. */
  function Summary(counts: seq<(char, nat)>, weights: WeightTable, descs: seq<(char, string)>): (rows: seq<SummaryRow>)
    ensures |rows| == |counts|
    ensures forall i :: 0 <= i < |rows| ==> rows[i].ch == counts[i].0 && rows[i].count == counts[i].1
  {
    seq(|counts|, i requires 0 <= i < |counts| =>
      SummaryRow(counts[i].0, counts[i].1, WeightOf(weights, counts[i].0), DescriptionOf(descs, counts[i].0)))
  }

  /** In a table of non-empty descriptions, a lookup defaulting to "" is empty exactly for absent keys. */
  lemma {:induction false} DescribedExactly(descs: seq<(char, string)>, ch: char)
    requires DistinctKeys(descs)
    requires forall i :: 0 <= i < |descs| ==> descs[i].1 != ""
    ensures Lookup(descs, ch).GetOr("") != "" <==> ch in Keys(descs)
  {
    if ch in Keys(descs) {
      var i :| 0 <= i < |descs| && descs[i].0 == ch;
      LookupAt(descs, i);
    }
  }

  /** A row has a description exactly when its character is one of the default characters. */
  lemma DescriptionIffDefault(ch: char)
    ensures DescriptionOf(Descriptions, ch) != "" <==> ch in Keys(DefaultWeights)
  {
    DescriptionsCoverDefaults();
    DefaultWeightsWellFormed();
    DistinctKeysByKeys(Descriptions, DefaultWeights);
    DescribedExactly(Descriptions, ch);
  }

  /** Every row carries the weight its character has in the table. */
  lemma SummaryWeights(counts: seq<(char, nat)>, weights: WeightTable, descs: seq<(char, string)>)
    requires DistinctKeys(weights)
    requires forall i :: 0 <= i < |counts| ==> counts[i].0 in Keys(weights)
    ensures forall i :: 0 <= i < |counts| ==> Lookup(weights, Summary(counts, weights, descs)[i].ch) == Some(Summary(counts, weights, descs)[i].weight)
  {
    var rows := Summary(counts, weights, descs);
    forall i | 0 <= i < |rows|
      ensures Lookup(weights, rows[i].ch) == Some(rows[i].weight)
    {
      var ks := Keys(weights);
      assert counts[i].0 in ks;
      var j :| 0 <= j < |ks| && ks[j] == counts[i].0;
      LookupAt(weights, j);
    }
  }

  /** Every suspicious character of the text has a row, and every row is one. */
  lemma SummaryCoversSuspicious(text: string, weights: WeightTable, descs: seq<(char, string)>)
    ensures forall c :: c in Keys(weights) && c in text <==>
      exists i :: 0 <= i < |Summary(SuspiciousCounts(text, weights), weights, descs)| && Summary(SuspiciousCounts(text, weights), weights, descs)[i].ch == c
  {
    SuspiciousCountsKeys(text, weights);
    SummaryChars(SuspiciousCounts(text, weights), weights, descs);
  }

  /** The rows are about exactly the counted characters. */
  lemma SummaryChars(counts: seq<(char, nat)>, weights: WeightTable, descs: seq<(char, string)>)
    ensures forall c :: c in Keys(counts) <==>
      exists i :: 0 <= i < |Summary(counts, weights, descs)| && Summary(counts, weights, descs)[i].ch == c
  {
    var rows := Summary(counts, weights, descs);
    forall c | c in Keys(counts)
      ensures exists i :: 0 <= i < |rows| && rows[i].ch == c
    {
      var i :| 0 <= i < |counts| && Keys(counts)[i] == c;
      assert rows[i].ch == c;
    }
    forall c | exists i :: 0 <= i < |rows| && rows[i].ch == c
      ensures c in Keys(counts)
    {
      var i :| 0 <= i < |rows| && rows[i].ch == c;
      assert Keys(counts)[i] == c;
    }
  }

  /**
   * Each row of the summary of an analysis holds its character's number of
   * occurrences, which is positive, and its weight in the table in use.
   */
  lemma SummaryOfAnalysis(text: string, weights: WeightTable, descs: seq<(char, string)>)
    requires DistinctKeys(weights)
    ensures forall i :: 0 <= i < |Summary(SuspiciousCounts(text, weights), weights, descs)| ==>
      var row := Summary(SuspiciousCounts(text, weights), weights, descs)[i];
      row.count == Count(text, row.ch) && row.count > 0 && Lookup(weights, row.ch) == Some(row.weight)
  {
    var counts := SuspiciousCounts(text, weights);
    SuspiciousCountsSpec(text, weights);
    forall i | 0 <= i < |counts|
      ensures counts[i].0 in Keys(weights)
    {
      KeyAt(counts, i);
    }
    SummaryWeights(counts, weights, descs);
  }

  /** Under a table of non-empty descriptions a row has a description exactly when its character is in the table. */
  lemma SummaryDescriptions(counts: seq<(char, nat)>, weights: WeightTable, descs: seq<(char, string)>)
    requires DistinctKeys(descs)
    requires forall i :: 0 <= i < |descs| ==> descs[i].1 != ""
    ensures forall i :: 0 <= i < |counts| ==>
      (Summary(counts, weights, descs)[i].desc != "" <==> counts[i].0 in Keys(descs))
  {
    forall i | 0 <= i < |counts|
      ensures Summary(counts, weights, descs)[i].desc != "" <==> counts[i].0 in Keys(descs)
    {
      DescribedExactly(descs, counts[i].0);
    }
  }

  /** Under the shipped descriptions a row has a description exactly when its character is a default one. */
  lemma SummaryDescribed(counts: seq<(char, nat)>, weights: WeightTable)
    ensures forall i :: 0 <= i < |counts| ==>
      (Summary(counts, weights, Descriptions)[i].desc != "" <==> counts[i].0 in Keys(DefaultWeights))
  {
    DescriptionsCoverDefaults();
    DefaultWeightsWellFormed();
    DistinctKeysByKeys(Descriptions, DefaultWeights);
    SummaryDescriptions(counts, weights, Descriptions);
  }
}
