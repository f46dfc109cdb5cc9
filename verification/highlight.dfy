/**
 * The highlighted rendering built at the end of `analyze_text`
 * (text/rate/rateTextAI.py): every character of the text becomes one chunk,
 * either a tinted `sus` span for a weighted character, a `nonascii` span for
 * a foreign one, or the bare escaped character.
 */
module Highlight {
  import opened Seqs
  import opened Assoc
  import opened Weights
  import opened HtmlEscape
  import opened Scoring

  /** The three background tints of a weighted character, strongest first. */
  datatype Tier = Strong | Medium | Mild {
    function Background(): string {
      match this
      case Strong => "#ffd6d6"
      case Medium => "#fff4cc"
      case Mild => "#ffffe6"
    }

    /** 2 for the strongest tint, 0 for the mildest. */
    function Rank(): nat {
      match this
      case Strong => 2
      case Medium => 1
      case Mild => 0
    }
  }

  /** The tint bands: weight 4.0 and up, [2.0, 4.0), and below 2.0. */
  function TierOf(w: real): (t: Tier)
    ensures t == Strong <==> w >= 4.0
    ensures t == Medium <==> 2.0 <= w < 4.0
    ensures t == Mild <==> w < 2.0
  {
    if w >= 4.0 then Strong else if w >= 2.0 then Medium else Mild
  }

  /** A heavier weight never gets a lighter tint. */
  lemma TierMonotone(w1: real, w2: real)
    requires w1 <= w2
    ensures TierOf(w1).Rank() <= TierOf(w2).Rank()
  {
  }

  /** What one character of the text turns into, before it is rendered as markup. */
  datatype Chunk =
    | Plain(esc: string)
    | Suspicious(tier: Tier, weight: real, esc: string)
    | NonAscii(esc: string)

  /** The chunk of one character: weighted characters first, then foreign ones, else bare. */
  function ChunkOf(c: char, weights: WeightTable): Chunk {
    if c in Keys(weights) then
      var w := WeightOf(weights, c);
      Suspicious(TierOf(w), w, EscapeChar(c))
    else if c as int > 127 && c !in PolishLetters then
      NonAscii(EscapeChar(c))
    else
      Plain(EscapeChar(c))
  }

  /**
   * Every chunk carries the escaped character; it is a `sus` chunk exactly for
   * weighted characters, with that character's weight, and a `nonascii` chunk
   * exactly for foreign characters.
   */
  lemma ChunkOfSpec(c: char, weights: WeightTable)
    ensures ChunkOf(c, weights).esc == EscapeChar(c)
    ensures ChunkOf(c, weights).Suspicious? <==> c in Keys(weights)
    ensures ChunkOf(c, weights).Suspicious? ==> ChunkOf(c, weights).weight == WeightOf(weights, c)
    ensures ChunkOf(c, weights).NonAscii? <==> IsForeign(c, weights)
    ensures ChunkOf(c, weights).Plain? <==> c !in Keys(weights) && (c as int <= 127 || c in PolishLetters)
  {
  }

  /** The chunks of a text, one per character, in order. */
  function Chunks(text: string, weights: WeightTable): (cs: seq<Chunk>)
    ensures |cs| == |text|
  {
    if |text| == 0 then [] else [ChunkOf(text[0], weights)] + Chunks(text[1..], weights)
  }

  /** The markup of one chunk; the weight's text form is produced by `show`. */
  function Render(chunk: Chunk, show: real -> string): string {
    match chunk
    case Plain(esc) => esc
    case Suspicious(tier, w, esc) =>
      "<span class='sus' style='background:" + tier.Background() + "' title='waga: " + show(w) + "'>"
        + esc + "</span>"
    case NonAscii(esc) => "<span class='nonascii' title='znak spoza ASCII'>" + esc + "</span>"
  }

  /** The markup of a sequence of chunks, concatenated. */
  function RenderAll(cs: seq<Chunk>, show: real -> string): string {
    if |cs| == 0 then "" else Render(cs[0], show) + RenderAll(cs[1..], show)
  }

  /** `highlighted_text`. */
  function Highlighted(text: string, weights: WeightTable, show: real -> string): string {
    RenderAll(Chunks(text, weights), show)
  }

  /** The escaped characters carried by a sequence of chunks, concatenated. */
  function Escaped(cs: seq<Chunk>): string {
    if |cs| == 0 then "" else cs[0].esc + Escaped(cs[1..])
  }

  function CountSuspicious(cs: seq<Chunk>): nat {
    if |cs| == 0 then 0 else (if cs[0].Suspicious? then 1 else 0) + CountSuspicious(cs[1..])
  }

  function CountNonAscii(cs: seq<Chunk>): nat {
    if |cs| == 0 then 0 else (if cs[0].NonAscii? then 1 else 0) + CountNonAscii(cs[1..])
  }

  /** The escaped characters of the chunks are the escaped text. */
  lemma {:induction false} EscapedChunks(text: string, weights: WeightTable)
    ensures Escaped(Chunks(text, weights)) == Escape(text)
  {
    if |text| > 0 {
      EscapedChunks(text[1..], weights);
      ChunkOfSpec(text[0], weights);
      assert Chunks(text, weights)[1..] == Chunks(text[1..], weights);
    }
  }

  /** Unescaping what the chunks carry gives back the analysed text. */
  lemma ChunksRoundTrip(text: string, weights: WeightTable)
    ensures Unescape(Escaped(Chunks(text, weights))) == text
  {
    EscapedChunks(text, weights);
    EscapeRoundTrip(text);
  }

  /** There is one `sus` span per position holding a weighted character. */
  lemma {:induction false} SuspiciousChunksByPosition(text: string, weights: WeightTable)
    ensures CountSuspicious(Chunks(text, weights)) == WeightedPositions(text, weights)
  {
    if |text| > 0 {
      SuspiciousChunksByPosition(text[1..], weights);
      ChunkOfSpec(text[0], weights);
      assert Chunks(text, weights)[1..] == Chunks(text[1..], weights);
    }
  }

  /** The number of `sus` spans is `suspicious_count`. */
  lemma SuspiciousSpansAreSuspiciousCount(text: string, weights: WeightTable)
    requires DistinctKeys(weights)
    ensures CountSuspicious(Chunks(text, weights)) == TotalCount(SuspiciousCounts(text, weights))
  {
    SuspiciousChunksByPosition(text, weights);
    SuspiciousCountByPosition(text, weights);
  }

  /** The number of `nonascii` spans is `non_ascii_count`. */
  lemma {:induction false} NonAsciiSpansAreNonAsciiCount(text: string, weights: WeightTable)
    ensures CountNonAscii(Chunks(text, weights)) == NonAsciiCount(text, weights)
  {
    if |text| > 0 {
      NonAsciiSpansAreNonAsciiCount(text[1..], weights);
      ChunkOfSpec(text[0], weights);
      assert Chunks(text, weights)[1..] == Chunks(text[1..], weights);
    }
  }

  /** Rendering distributes over concatenation of texts. */
  lemma {:induction false} HighlightedAppend(a: string, b: string, weights: WeightTable, show: real -> string)
    ensures Highlighted(a + b, weights, show) == Highlighted(a, weights, show) + Highlighted(b, weights, show)
  {
    if |a| > 0 {
      assert (a + b)[1..] == a[1..] + b;
      HighlightedAppend(a[1..], b, weights, show);
    } else {
      assert a + b == b;
    }
  }

  /** The rendering is empty exactly when the text is. */
  lemma HighlightedEmpty(text: string, weights: WeightTable, show: real -> string)
    ensures Highlighted(text, weights, show) == "" <==> text == ""
  {
    if |text| > 0 {
      var c := ChunkOf(text[0], weights);
      ChunkOfSpec(text[0], weights);
      assert |Render(c, show)| >= 1;
    }
  }

  /**
   * Without weighted or foreign characters the rendering is plain HTML
   * escaping of the text: no span is emitted.
   */
  lemma {:induction false} HighlightedPlain(text: string, weights: WeightTable, show: real -> string)
    requires forall i :: 0 <= i < |text| ==> text[i] !in Keys(weights) && !IsForeign(text[i], weights)
    ensures Highlighted(text, weights, show) == Escape(text)
  {
    if |text| > 0 {
      HighlightedPlain(text[1..], weights, show);
      ChunkOfSpec(text[0], weights);
    }
  }
}
