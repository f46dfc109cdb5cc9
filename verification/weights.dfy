/**
 * The built-in weight table of the scorer and the descriptions shown next to
 * each weighted character (text/rate/rateTextAI.py, DEFAULT_WEIGHTS and
 * CHAR_DESCRIPTIONS).
 */
module Weights {
  import opened Wrappers
  import opened Assoc

  /** A weight table of the scorer: character -> weight, in insertion order. */
  type WeightTable = seq<(char, real)>

  /**
   * Typographic characters that a person rarely types by hand: en and em
   * dash, curly and low quotation marks, ellipsis, non-breaking, thin and
   * narrow no-break spaces, bullet and arrows.
   */
  const DefaultWeights: WeightTable := [
    ('\U{2013}', 3.0), ('\U{2014}', 4.0),
    ('\U{201C}', 1.0), ('\U{201D}', 1.0),
    ('\U{201E}', 1.0), ('\U{201F}', 1.0),
    ('\U{2018}', 0.8), ('\U{2019}', 0.8), ('\U{201A}', 0.8),
    ('\U{2026}', 1.5),
    ('\U{00A0}', 1.5), ('\U{2009}', 1.0), ('\U{202F}', 1.0),
    ('\U{2022}', 0.7),
    ('\U{2192}', 1.2), ('\U{2190}', 1.2)
  ]

  /** Human-readable (Polish) names of the default characters. */
  const Descriptions: seq<(char, string)> := [
    ('\U{2013}', "p\U{00F3}\U{0142}pauza"),
    ('\U{2014}', "pauza"),
    ('\U{201C}', "cudzys\U{0142}owy angielskie otwieraj\U{0105}ce"),
    ('\U{201D}', "cudzys\U{0142}owy angielskie zamykaj\U{0105}ce"),
    ('\U{201E}', "polskie otwieraj\U{0105}ce"),
    ('\U{201F}', "polskie zamykaj\U{0105}ce"),
    ('\U{2018}', "pojedyncze otwieraj\U{0105}ce"),
    ('\U{2019}', "pojedyncze zamykaj\U{0105}ce"),
    ('\U{201A}', "cudzys\U{0142}\U{00F3}w dolny"),
    ('\U{2026}', "wielokropek"),
    ('\U{00A0}', "spacja nie\U{0142}amliwa"),
    ('\U{2009}', "w\U{0105}ska spacja"),
    ('\U{202F}', "w\U{0105}ska nie\U{0142}amliwa spacja"),
    ('\U{2022}', "punktor / bullet"),
    ('\U{2192}', "strza\U{0142}ka w prawo"),
    ('\U{2190}', "strza\U{0142}ka w lewo")
  ]

  /** The weight of `c`, or 0 when `c` is not weighted (Python's `weights.get(c, 0)`). */
  function WeightOf(weights: WeightTable, c: char): real {
    Lookup(weights, c).GetOr(0.0)
  }

  lemma WeightOfCons(k: char, w: real, rest: WeightTable, c: char)
    requires k !in Keys(rest)
    ensures WeightOf([(k, w)] + rest, c) == (if c == k then w else 0.0) + WeightOf(rest, c)
  {
    var t := [(k, w)] + rest;
    assert t[1..] == rest;
  }

  /** Every weight is non-negative. */
  predicate NonNegative(weights: WeightTable) {
    forall i :: 0 <= i < |weights| ==> weights[i].1 >= 0.0
  }

  /** The default table is a well-formed table of positive weights on non-ASCII characters. */
  lemma DefaultWeightsWellFormed()
    ensures DistinctKeys(DefaultWeights)
    ensures forall i :: 0 <= i < |DefaultWeights| ==> DefaultWeights[i].1 > 0.0
    ensures forall i :: 0 <= i < |DefaultWeights| ==> DefaultWeights[i].0 as int > 127
  {
    DefaultWeightsDistinct();
    DefaultWeightsPositive();
  }

  lemma DefaultWeightsDistinct()
    ensures DistinctKeys(DefaultWeights)
  {
  }

  lemma DefaultWeightsPositive()
    ensures forall i :: 0 <= i < |DefaultWeights| ==> DefaultWeights[i].1 > 0.0
  {
  }

  lemma DescriptionsAligned()
    ensures |Descriptions| == |DefaultWeights|
    ensures forall i :: 0 <= i < |Descriptions| ==> Descriptions[i].0 == DefaultWeights[i].0
  {
  }

  lemma DescriptionsNonEmpty()
    ensures forall i :: 0 <= i < |Descriptions| ==> Descriptions[i].1 != ""
  {
  }

  /** Every default character has a non-empty description, and no other character has one. */
  lemma DescriptionsCoverDefaults()
    ensures Keys(Descriptions) == Keys(DefaultWeights)
    ensures forall i :: 0 <= i < |Descriptions| ==> Descriptions[i].1 != ""
  {
    DescriptionsAligned();
    DescriptionsNonEmpty();
    KeysOfAligned(Descriptions, DefaultWeights);
  }
}
