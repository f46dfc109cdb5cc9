/**
 * The text cleaner `clean_text` (text/clean/cleanTextAI.py, and the identical
 * copy in text/rate/rateTextAI.py): a fixed table of one-character patterns,
 * each replaced in turn, over the whole text, by a short ASCII string.
 */
module Cleaner {
  import opened Wrappers
  import opened Seqs
  import opened Assoc
  import Weights

  /** A substitution table: pattern character -> replacement string. */
  type Substitutions = seq<(char, string)>

  /** The `replacements` dict display as written: 17 entries, the right single quote listed twice. */
  const ReplacementLiteral: Substitutions := [
    ('\U{2013}', "-"), ('\U{2014}', "-"),
    ('\U{201C}', "\""), ('\U{201D}', "\""),
    ('\U{201E}', "\""), ('\U{201F}', "\""),
    ('\U{2018}', "'"), ('\U{2019}', "'"), ('\U{201A}', "'"),
    ('\U{2026}', "..."),
    ('\U{00A0}', " "), ('\U{2009}', " "), ('\U{202F}', " "),
    ('\U{2022}', "-"),
    ('\U{2192}', "->"), ('\U{2190}', "<-"),
    ('\U{2019}', "'")
  ]

  /** The dict the display builds: 16 distinct keys in first-occurrence order. */
  const Replacements: Substitutions := [
    ('\U{2013}', "-"), ('\U{2014}', "-"),
    ('\U{201C}', "\""), ('\U{201D}', "\""),
    ('\U{201E}', "\""), ('\U{201F}', "\""),
    ('\U{2018}', "'"), ('\U{2019}', "'"), ('\U{201A}', "'"),
    ('\U{2026}', "..."),
    ('\U{00A0}', " "), ('\U{2009}', " "), ('\U{202F}', " "),
    ('\U{2022}', "-"),
    ('\U{2192}', "->"), ('\U{2190}', "<-")
  ]

  /**
   * Storing `k: v` into a dict under construction: an existing key keeps its
   * position and takes the new value; a new key goes to the end.
   */
  function DictInsert(d: Substitutions, k: char, v: string): Substitutions
  {
    if |d| == 0 then [(k, v)]
    else if d[0].0 == k then [(k, v)] + d[1..]
    else [d[0]] + DictInsert(d[1..], k, v)
  }

  /** The dict a display of `lit` evaluates to (Python evaluates the entries left to right). */
  function DictOf(lit: Substitutions): Substitutions
  {
    if |lit| == 0 then []
    else DictInsert(DictOf(lit[..|lit| - 1]), lit[|lit| - 1].0, lit[|lit| - 1].1)
  }

  lemma {:induction false} DictInsertExisting(d: Substitutions, k: char, v: string)
    requires DistinctKeys(d)
    requires (k, v) in d
    ensures DictInsert(d, k, v) == d
  {
    var i :| 0 <= i < |d| && d[i] == (k, v);
    if d[0].0 != k {
      assert i > 0 && d[1..][i - 1] == (k, v);
      DictInsertExisting(d[1..], k, v);
    } else {
      assert i == 0;
    }
  }

  lemma {:induction false} DictOfDistinct(t: Substitutions)
    requires DistinctKeys(t)
    ensures DictOf(t) == t
  {
    if |t| > 0 {
      var p := t[..|t| - 1];
      DistinctLast(t);
      DictOfDistinct(p);
      DictInsertAppend(p, t[|t| - 1].0, t[|t| - 1].1);
      assert p + [t[|t| - 1]] == t;
    }
  }

  /** In a table of distinct keys the last key is not among the others, which stay distinct. */
  lemma DistinctLast(t: Substitutions)
    requires |t| > 0 && DistinctKeys(t)
    ensures DistinctKeys(t[..|t| - 1])
    ensures t[|t| - 1].0 !in Keys(t[..|t| - 1])
  {
    var p := t[..|t| - 1];
    assert forall i :: 0 <= i < |p| ==> p[i] == t[i];
  }

  lemma {:induction false} DictInsertAppend(d: Substitutions, k: char, v: string)
    requires k !in Keys(d)
    ensures DictInsert(d, k, v) == d + [(k, v)]
  {
    if |d| > 0 {
      assert Keys(d) == [d[0].0] + Keys(d[1..]);
      DictInsertAppend(d[1..], k, v);
      assert [d[0]] + (d[1..] + [(k, v)]) == d + [(k, v)];
    }
  }

  lemma ReplacementsDistinct()
    ensures DistinctKeys(Replacements)
  {
    CleanKeysAreDefaultWeightKeys();
    Weights.DefaultWeightsDistinct();
    DistinctKeysByKeys(Replacements, Weights.DefaultWeights);
  }

  lemma LiteralPrefix()
    ensures ReplacementLiteral == Replacements + [('\U{2019}', "'")]
  {
  }

  /**
   * The display is a well-defined table: the repeated key carries the same
   * replacement both times, so evaluating it yields exactly `Replacements`.
   */
  lemma ReplacementsFromLiteral()
    ensures DictOf(ReplacementLiteral) == Replacements
  {
    LiteralPrefix();
    ReplacementsDistinct();
    DictOfDistinct(Replacements);
    assert Replacements[7] == ('\U{2019}', "'");
    DictInsertExisting(Replacements, '\U{2019}', "'");
    var lit := ReplacementLiteral;
    assert lit[..|lit| - 1] == Replacements;
  }

  /** The display is consistent: a key listed twice carries the same replacement both times. */
  lemma LiteralConsistent()
    ensures forall i, j ::
      (0 <= i < |ReplacementLiteral| && 0 <= j < |ReplacementLiteral| &&
       ReplacementLiteral[i].0 == ReplacementLiteral[j].0) ==>
        ReplacementLiteral[i].1 == ReplacementLiteral[j].1
  {
    LiteralPrefix();
    ReplacementsDistinct();
  }

  /** Python's `s.replace(k, v)` for a one-character pattern `k`. */
  function ReplaceChar(s: string, k: char, v: string): (r: string)
    ensures k !in s ==> r == s
    ensures k !in v ==> k !in r
  {
    if |s| == 0 then []
    else (if s[0] == k then v else [s[0]]) + ReplaceChar(s[1..], k, v)
  }

  /** The cleaning loop: each (pattern, replacement) in table order, over the whole text. */
  function ReplaceInOrder(s: string, table: Substitutions): string
    decreases |table|
  {
    if |table| == 0 then s
    else ReplaceInOrder(ReplaceChar(s, table[0].0, table[0].1), table[1..])
  }

  /** What one character becomes under a table that is applied simultaneously. */
  function SubstChar(table: Substitutions, c: char): string {
    Lookup(table, c).GetOr([c])
  }

  /** Simultaneous, character-by-character substitution: the reference for the cleaning loop. */
  function Substitute(s: string, table: Substitutions): (r: string)
    ensures |s| == 0 ==> r == []
  {
    if |s| == 0 then [] else SubstChar(table, s[0]) + Substitute(s[1..], table)
  }

  lemma {:induction false} SubstituteAppend(a: string, b: string, table: Substitutions)
    ensures Substitute(a + b, table) == Substitute(a, table) + Substitute(b, table)
  {
    if |a| == 0 {
      assert a + b == b;
    } else {
      assert (a + b)[1..] == a[1..] + b;
      SubstituteAppend(a[1..], b, table);
    }
  }

  /** Text that holds no pattern character is left as it is. */
  lemma {:induction false} SubstituteUntouched(s: string, table: Substitutions)
    requires forall i :: 0 <= i < |s| ==> s[i] !in Keys(table)
    ensures Substitute(s, table) == s
  {
    if |s| > 0 {
      SubstituteUntouched(s[1..], table);
      assert [s[0]] + s[1..] == s;
    }
  }

  /** No replacement string contains a pattern character of the table. */
  predicate NoReplacementHoldsKey(table: Substitutions) {
    forall i, j :: 0 <= i < |table| && 0 <= j < |table| ==> table[i].0 !in table[j].1
  }

  lemma {:induction false} ReplaceThenSubstitute(s: string, k: char, v: string, rest: Substitutions)
    requires forall i :: 0 <= i < |v| ==> v[i] !in Keys(rest)
    ensures Substitute(ReplaceChar(s, k, v), rest) == Substitute(s, [(k, v)] + rest)
  {
    if |s| > 0 {
      var head := if s[0] == k then v else [s[0]];
      SubstituteAppend(head, ReplaceChar(s[1..], k, v), rest);
      ReplaceThenSubstitute(s[1..], k, v, rest);
      if s[0] == k {
        SubstituteUntouched(v, rest);
      } else {
        assert [s[0]][1..] == [];
      }
    }
  }

  /**
   * Replacing the patterns one after another over the whole text equals
   * substituting every character at once, provided no replacement string
   * re-introduces a pattern of the table.
   */
  lemma {:induction false} SequentialIsSimultaneous(s: string, table: Substitutions)
    requires NoReplacementHoldsKey(table)
    ensures ReplaceInOrder(s, table) == Substitute(s, table)
    decreases |table|
  {
    if |table| == 0 {
      SubstituteUntouched(s, table);
    } else {
      var rest := table[1..];
      assert NoReplacementHoldsKey(rest);
      SequentialIsSimultaneous(ReplaceChar(s, table[0].0, table[0].1), rest);
      assert forall i :: 0 <= i < |table[0].1| ==> table[0].1[i] !in Keys(rest) by {
        forall i, j | 0 <= i < |table[0].1| && 0 <= j < |rest|
          ensures rest[j].0 != table[0].1[i]
        {
          assert rest[j] == table[j + 1];
        }
      }
      ReplaceThenSubstitute(s, table[0].0, table[0].1, rest);
      assert [(table[0].0, table[0].1)] + rest == table;
    }
  }

  lemma ReplacementsAreAscii()
    ensures forall j :: 0 <= j < |Replacements| ==> forall i :: 0 <= i < |Replacements[j].1| ==> Replacements[j].1[i] as int < 128
  {
  }

  lemma ReplacementKeysAreNonAscii()
    ensures forall j :: 0 <= j < |Replacements| ==> Replacements[j].0 as int > 127
  {
  }

  lemma ReplacementsSafe()
    ensures NoReplacementHoldsKey(Replacements)
  {
    ReplacementsAreAscii();
    ReplacementKeysAreNonAscii();
  }

  /** Substituting never produces a pattern character, when no replacement holds one. */
  lemma {:induction false} SubstituteAvoidsKeys(s: string, table: Substitutions)
    requires DistinctKeys(table)
    requires NoReplacementHoldsKey(table)
    ensures forall i :: 0 <= i < |Substitute(s, table)| ==> Substitute(s, table)[i] !in Keys(table)
  {
    if |s| > 0 {
      SubstituteAvoidsKeys(s[1..], table);
      var c := s[0];
      var head := SubstChar(table, c);
      assert forall i :: 0 <= i < |head| ==> head[i] !in Keys(table) by {
        if c in Keys(table) {
          var j :| 0 <= j < |table| && table[j].0 == c;
          LookupAt(table, j);
        }
      }
    }
  }

  /** Number of extra characters the substitution of `c` adds. */
  function Growth(c: char): nat {
    if c == '\U{2026}' then 2 else if c == '\U{2192}' || c == '\U{2190}' then 1 else 0
  }

  /** Each table entry lengthens its character by `Growth`, and only table keys grow. */
  predicate GrowsBy(table: Substitutions) {
    && (forall j :: 0 <= j < |table| ==> |table[j].1| == 1 + Growth(table[j].0))
    && (forall c :: Growth(c) > 0 ==> exists j :: 0 <= j < |table| && table[j].0 == c)
  }

  lemma {:induction false} SubstituteLength(s: string, table: Substitutions)
    requires DistinctKeys(table)
    requires GrowsBy(table)
    ensures |Substitute(s, table)| ==
      |s| + 2 * Count(s, '\U{2026}') + Count(s, '\U{2192}') + Count(s, '\U{2190}')
  {
    if |s| > 0 {
      SubstituteLength(s[1..], table);
      SubstCharLength(table, s[0]);
    }
  }

  /** Each character grows by exactly its `Growth` under such a table. */
  lemma SubstCharLength(table: Substitutions, c: char)
    requires DistinctKeys(table)
    requires GrowsBy(table)
    ensures |SubstChar(table, c)| == 1 + Growth(c)
  {
    if Growth(c) > 0 || c in Keys(table) {
      var j :| 0 <= j < |table| && table[j].0 == c;
      LookupAt(table, j);
    }
  }

  lemma ReplacementLengths()
    ensures forall j :: 0 <= j < |Replacements| ==> |Replacements[j].1| == 1 + Growth(Replacements[j].0)
  {
  }

  lemma GrowingKeysIndexed()
    ensures Replacements[9].0 == '\U{2026}'
    ensures Replacements[14].0 == '\U{2192}'
    ensures Replacements[15].0 == '\U{2190}'
  {
  }

  lemma GrowingKeysPresent()
    ensures forall c :: Growth(c) > 0 ==> exists j :: 0 <= j < |Replacements| && Replacements[j].0 == c
  {
    GrowingKeysIndexed();
  }

  lemma ReplacementsGrowth()
    ensures GrowsBy(Replacements)
  {
    ReplacementLengths();
    GrowingKeysPresent();
  }

  /** `clean_text(text)` as written: every table entry replaced in turn. */
  function CleanText(text: string): (r: string)
    ensures forall i :: 0 <= i < |r| ==> r[i] !in Keys(Replacements)
    ensures |r| == |text| + 2 * Count(text, '\U{2026}') + Count(text, '\U{2192}') + Count(text, '\U{2190}')
  {
    ReplacementsSafe();
    ReplacementsDistinct();
    ReplacementsGrowth();
    SequentialIsSimultaneous(text, Replacements);
    SubstituteAvoidsKeys(text, Replacements);
    SubstituteLength(text, Replacements);
    ReplaceInOrder(text, Replacements)
  }

  /** The cleaning loop is a per-character substitution. */
  lemma CleanTextPerCharacter(text: string)
    ensures CleanText(text) == Substitute(text, Replacements)
  {
    ReplacementsSafe();
    SequentialIsSimultaneous(text, Replacements);
  }

  /** Cleaning distributes over concatenation: `clean(a + b) == clean(a) + clean(b)`. */
  lemma CleanTextAppend(a: string, b: string)
    ensures CleanText(a + b) == CleanText(a) + CleanText(b)
  {
    CleanTextPerCharacter(a + b);
    CleanTextPerCharacter(a);
    CleanTextPerCharacter(b);
    SubstituteAppend(a, b, Replacements);
  }

  /** Text without any table character is a fixed point. */
  lemma CleanTextUntouched(text: string)
    requires forall i :: 0 <= i < |text| ==> text[i] !in Keys(Replacements)
    ensures CleanText(text) == text
  {
    CleanTextPerCharacter(text);
    SubstituteUntouched(text, Replacements);
  }

  /** Pure ASCII text is a fixed point: every table character lies above U+007F. */
  lemma CleanTextAscii(text: string)
    requires forall i :: 0 <= i < |text| ==> text[i] as int < 128
    ensures CleanText(text) == text
  {
    ReplacementKeysAreNonAscii();
    CleanTextUntouched(text);
  }

  /** Cleaning twice is cleaning once. */
  lemma CleanTextIdempotent(text: string)
    ensures CleanText(CleanText(text)) == CleanText(text)
  {
    CleanTextUntouched(CleanText(text));
  }

  lemma KeysAligned()
    ensures |Replacements| == |Weights.DefaultWeights|
    ensures forall i :: 0 <= i < |Replacements| ==> Replacements[i].0 == Weights.DefaultWeights[i].0
  {
  }

  /** The cleaner removes exactly the characters the scorer weighs by default, in the same order. */
  lemma CleanKeysAreDefaultWeightKeys()
    ensures Keys(Replacements) == Keys(Weights.DefaultWeights)
  {
    KeysAligned();
    KeysOfAligned(Replacements, Weights.DefaultWeights);
  }
}
