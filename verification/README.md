# ToolsAI text scorer and cleaner — a Dafny model

ToolsAI has two small text tools, and this project models their logic.

- **Scorer** (`text/rate/rateTextAI.py`) takes a text and a table of weights for
  "suspicious" typographic characters: en and em dashes, curly quotes, the ellipsis,
  special spaces, the bullet and arrows. From them it computes:
  - suspicious-character counts and a weighted score;
  - a count and a sorted list of foreign (non-ASCII, non-Polish) characters;
  - the average sentence length and the punctuation density;
  - an aggregate score and a three-band verdict;
  - HTML markup that highlights every contributing character.

  Its weight store loads the table from a JSON file, heals a missing file or one
  whose UTF-8 text is not valid JSON with the defaults, migrates a legacy file
  shape, and applies the overrides of the settings form.
- **Cleaner** (`clean_text`, which appears identically in both files) replaces
  each of those typographic characters by a short ASCII string. The cleaner
  script writes the result next to the input, as `<base>_clean.txt`.

Modules, one per concern:

| file | module | what it holds |
|---|---|---|
| `wrappers.dfy` | `Wrappers` | `Option` / `Result` |
| `seqs.dfy` | `Seqs` | counting, flattening, subsequences |
| `assoc.dfy` | `Assoc` | insertion-ordered dictionaries as association lists |
| `weights.dfy` | `Weights` | `DEFAULT_WEIGHTS`, `CHAR_DESCRIPTIONS` |
| `cleaner.dfy` | `Cleaner` | `clean_text` |
| `sentences.dfy` | `Sentences` | `re.split(r'[.!?]+')`, `strip`, `split`, average sentence length |
| `scoring.dfy` | `Scoring` | counts, foreign characters, density, score, verdict |
| `html_escape.dfy` | `HtmlEscape` | `html.escape` of one character |
| `highlight.dfy` | `Highlight` | the highlighted markup |
| `analysis.dfy` | `Analysis` | `analyze_text` and the `suspicious_summary` of the index view |
| `weight_store.dfy` | `WeightStore` | `load_weights`, `save_weights`, the settings override loop |
| `output_path.dfy` | `OutputPath` | POSIX `os.path.splitext` and the `_clean.txt` output name |

Modelling choices:

- **Text.** Python `str` is `seq<char>`, where a `char` is one Unicode scalar value.
  A Python string may also hold lone surrogates (U+D800 to U+DFFF), which no
  `char` represents.
- **Tables.** A `dict` is a sequence of key/value pairs in insertion order.
- **Floats.** Floating-point numbers are `real`. `cnt * float(w)` is
  `Scale(cnt, w)`, a repeated addition that is proved equal to the product.
- **Parameters.** The tables `analyze_text` reads are parameters. This covers the
  weights, and the descriptions of the summary. The model can therefore be read
  both for the shipped constants and for any table a user stores.
- **Unmodelled functions.** `float(str)` is a parameter
  `parse: string -> Option<real>`. The text form of a weight inside a span title
  is a parameter `show: real -> string`.
- **The weights file.** It is modelled by what reading it as UTF-8 and `json.load`
  make of it: absent; bytes that are not UTF-8 (`UnicodeDecodeError`); text on
  which `json.load` raises `JSONDecodeError` (empty, a syntax error, a leading
  byte order mark); or a decoded `Json` value.

Notable behaviours of the code:

- **Lone em dash.** The text `"—"` is one sentence of one word, so its average
  sentence length is 1. The em dash also counts as punctuation, which puts the
  density at 100 and the score at 77.2 (`Analysis.AnalyzeEmDash`).
- **Whitespace-only text.** Its length is its number of characters. ASCII
  whitespace is rendered as its plain escape (`Analysis.AsciiTextIsPlain`). Under
  the defaults, the no-break, thin and narrow no-break spaces are weighted and
  become `sus` spans, and every other non-ASCII whitespace character is foreign
  and becomes a `nonascii` span (`Analysis.NonAsciiWhitespace`). Such text is
  scored: a lone no-break space scores 2.7 and is judged likely AI
  (`Analysis.AnalyzeNoBreakSpace`).
- **Override values.** The settings form accepts any value `float` parses,
  negative ones included (`WeightStore.OverrideRule`).
- **Summary order.** The summary follows the order of the weight table and lists
  only the weighted characters.
- **Empty object file.** A weights file holding `{}` loads as an empty table
  (`WeightStore.DecodeEmptyObject`). Only a missing file or a file on which
  `json.load` raises `JSONDecodeError` is healed with the defaults. A file whose
  bytes are not UTF-8 raises `UnicodeDecodeError`, which the handler does not
  catch: loading fails and the file is left as it is (`WeightStore.LoadUndecodable`).
- **Fixed constants.** The thresholds and factors are constants in the code.

## Model

| member | source | states |
|---|---|---|
| Weights.DefaultWeightsWellFormed | text/rate/rateTextAI.py:16-29 | the default table has distinct keys, positive weights, and only characters above U+007F |
| Weights.DescriptionsCoverDefaults | text/rate/rateTextAI.py:32-49 | the descriptions name exactly the default characters, in the same order, and none is empty |
| Cleaner.ReplacementsFromLiteral | text/clean/cleanTextAI.py:6-20 | evaluating the 17-entry dict display, where the right single quote is listed twice, yields the 16-entry table the loop iterates |
| Cleaner.LiteralConsistent | text/clean/cleanTextAI.py:11-19 | wherever the display lists a key twice, it gives the same replacement both times, so the duplicate is harmless |
| Cleaner.SequentialIsSimultaneous | text/clean/cleanTextAI.py:22-23 | replacing the patterns one after another over the whole text equals substituting every character at once, whenever no replacement string contains a pattern |
| Cleaner.CleanText | text/clean/cleanTextAI.py:5-24 | no table character survives cleaning; the length grows by 2 per ellipsis and by 1 per arrow, and by nothing else |
| Cleaner.CleanTextPerCharacter | text/rate/rateTextAI.py:79-97 | the copy in the scorer is the same per-character substitution by the replacement table |
| Cleaner.CleanTextAppend | text/clean/cleanTextAI.py:22-23 | cleaning distributes over concatenation |
| Cleaner.CleanTextIdempotent | text/clean/cleanTextAI.py:5-24 | cleaning twice is cleaning once |
| Cleaner.CleanTextUntouched | text/clean/cleanTextAI.py:5-24 | a text holding no table character comes back unchanged |
| Cleaner.CleanTextAscii | text/clean/cleanTextAI.py:6-20 | pure ASCII text comes back unchanged, because every pattern lies above U+007F |
| Cleaner.CleanKeysAreDefaultWeightKeys | text/rate/rateTextAI.py:80-94 | the cleaner removes exactly the characters the scorer weighs by default, in the same order |
| OutputPath.SplitExt | text/clean/cleanTextAI.py:33 | base plus extension is the path; a non-empty extension starts with its only dot, lies in the last path component, and follows a name that is not all dots |
| OutputPath.SplitExtEmpty | text/clean/cleanTextAI.py:33 | the extension is empty exactly when no dot of the last component can start one |
| OutputPath.CleanOutputPath | text/clean/cleanTextAI.py:34 | the output name always ends in `_clean.txt` |
| OutputPath.CleanOutputDiffers | text/clean/cleanTextAI.py:33-37 | the output path string differs from the input path string |
| OutputPath.CleanOutputOfTxt | text/clean/cleanTextAI.py:33-34 | for `name.txt` with a proper name, only the extension is replaced |
| OutputPath.CleanOutputOfHiddenFile | text/clean/cleanTextAI.py:33-34 | `.txt` has no extension, so the suffix is appended to it |
| Scoring.SuspiciousCountsSpec | text/rate/rateTextAI.py:104-109 | the counts list exactly the weighted characters occurring in the text, each with its positive number of occurrences, in table order |
| Scoring.SuspiciousCountByPosition | text/rate/rateTextAI.py:161 | `suspicious_count` equals the number of text positions holding a weighted character |
| Scoring.WeightedScoreByPosition | text/rate/rateTextAI.py:105-110 | summing count times weight per character equals summing the weights of all positions |
| Scoring.WeightedScoreRaise | text/rate/rateTextAI.py:106-110 | raising the weight of a character that occurs strictly raises the weighted score |
| Scoring.ForeignChars | text/rate/rateTextAI.py:112-115 | a character is listed exactly when it occurs and lies above 127 outside the Polish letters and the table |
| Scoring.ForeignCharsByKeys | text/rate/rateTextAI.py:114 | the foreign characters depend on the table only through its keys |
| Scoring.SortedDistinct | text/rate/rateTextAI.py:163-165 | the result is strictly increasing and holds exactly the elements of its input |
| Scoring.PunctuationCountByPosition | text/rate/rateTextAI.py:121-123 | the five separate counts add up to the number of punctuation positions, with nothing counted twice |
| Scoring.PunctuationDensity | text/rate/rateTextAI.py:124 | the density is a percentage in [0, 100], and 0 for the empty text |
| Scoring.Normaliser | text/rate/rateTextAI.py:131 | the divisor is at least 1 and at least the length over 100 |
| Scoring.AiScoreNonNegative | text/rate/rateTextAI.py:126-131 | with a non-negative weighted score and density, the score is non-negative |
| Scoring.AiScoreStrictlyMonotone | text/rate/rateTextAI.py:126-131 | a larger weighted score gives a strictly larger score, all else being equal |
| Scoring.VerdictOf | text/rate/rateTextAI.py:133-141 | the verdict is likely-AI exactly above 2.0, possibly-AI exactly in (0.7, 2.0], and human-like exactly at 0.7 or below |
| Scoring.VerdictMonotone | text/rate/rateTextAI.py:133-141 | a higher score never gets a milder verdict |
| Sentences.SplitOnTerminators | text/rate/rateTextAI.py:117 | the split yields at least one piece, and no piece holds a terminator |
| Sentences.SplitOnTerminatorsCuts | text/rate/rateTextAI.py:117 | the text is the first piece, then the first maximal terminator run, then the second piece, and so on; every run is non-empty and all terminators, and every inner piece is non-empty |
| Sentences.CutsAreTheSplit | text/rate/rateTextAI.py:117 | any cut of the text into terminator-free pieces at maximal terminator runs is exactly the split, so the split is determined by where the runs are |
| Sentences.SplitOnTerminatorsContent | text/rate/rateTextAI.py:117 | the pieces, joined, are the text with its terminators removed |
| Sentences.SplitOnTerminatorsCount | text/rate/rateTextAI.py:117 | there is exactly one piece more than there are maximal runs of terminators |
| Sentences.Strip | text/rate/rateTextAI.py:118 | the result is a slice of the input with whitespace on both sides cut off and none left at its ends; it is empty exactly for blank input |
| Sentences.KeepSentences | text/rate/rateTextAI.py:118 | every kept sentence is non-empty, terminator-free and stripped; nothing is kept exactly when every piece is blank |
| Sentences.NonBlankIndices | text/rate/rateTextAI.py:118 | the positions are strictly increasing and are exactly the positions of the pieces that are not blank |
| Sentences.KeepSentencesExactly | text/rate/rateTextAI.py:118 | the `k`-th sentence is the stripped `k`-th non-blank piece, and there are as many sentences as non-blank pieces |
| Sentences.SplitWordsContent | text/rate/rateTextAI.py:119 | the words, joined, are the non-whitespace characters of the input |
| Sentences.SplitWordsCount | text/rate/rateTextAI.py:119 | the number of words is the number of maximal non-whitespace runs |
| Sentences.NoSentencesIff | text/rate/rateTextAI.py:117-118 | a text has no sentence exactly when it holds only whitespace and terminators |
| Sentences.AvgSentenceLength | text/rate/rateTextAI.py:119 | the average is 0 exactly when there is no sentence, and at least 1 otherwise |
| Sentences.AvgOfOneSentence | text/rate/rateTextAI.py:119 | with one sentence, the average is its number of words |
| Sentences.WordsOfPiece | text/rate/rateTextAI.py:118-119 | a stripped piece splits into as many words as the piece has maximal runs of characters that are neither whitespace nor terminators |
| Sentences.AvgSentenceLengthValue | text/rate/rateTextAI.py:117-119 | the total number of words is the number of maximal runs of non-whitespace, non-terminator characters in the whole text; the average is that number over the number of sentences, with the divisor at least 1 |
| HtmlEscape.EscapeRoundTrip | text/rate/rateTextAI.py:145 | decoding the escaped text gives back the original |
| HtmlEscape.Escape | text/rate/rateTextAI.py:145 | the escaped text never contains a raw `<`, `>`, `"` or `'` |
| Highlight.TierOf | text/rate/rateTextAI.py:148-153 | the tint bands are weight 4.0 and up, [2.0, 4.0), and below 2.0 |
| Highlight.TierMonotone | text/rate/rateTextAI.py:148-153 | a heavier weight never gets a lighter tint |
| Highlight.ChunkOfSpec | text/rate/rateTextAI.py:144-158 | a character gets a `sus` span exactly when weighted, carrying its weight; a `nonascii` span exactly when foreign; otherwise just its escape |
| Highlight.ChunksRoundTrip | text/rate/rateTextAI.py:143-158 | unescaping the characters carried by the spans gives back the analysed text |
| Highlight.SuspiciousSpansAreSuspiciousCount | text/rate/rateTextAI.py:154 | the number of `sus` spans equals `suspicious_count` |
| Highlight.NonAsciiSpansAreNonAsciiCount | text/rate/rateTextAI.py:155-156 | the number of `nonascii` spans equals `non_ascii_count` |
| Highlight.HighlightedAppend | text/rate/rateTextAI.py:143-158 | highlighting distributes over concatenation |
| Highlight.HighlightedEmpty | text/rate/rateTextAI.py:143-158 | the markup is empty exactly when the text is |
| Highlight.HighlightedPlain | text/rate/rateTextAI.py:157-158 | without weighted or foreign characters, the markup is plain HTML escaping |
| Analysis.Analyze | text/rate/rateTextAI.py:100-181 | the report's length, suspicious characters and counts, foreign list (sorted and distinct), density bounds, sentence average, verdict bands and markup emptiness, each related to the text |
| Analysis.AnalyzeByPosition | text/rate/rateTextAI.py:160-161 | the totals agree with position-by-position references, and with the number of spans in the markup |
| Analysis.AnalyzeNonNegative | text/rate/rateTextAI.py:105-131 | with non-negative weights, neither the weighted score nor the score is negative |
| Analysis.AnalyzeEmpty | text/rate/rateTextAI.py:100-181 | the empty text yields all zeros, empty lists, empty markup and the human-like verdict |
| Analysis.AnalyzeRaiseWeight | text/rate/rateTextAI.py:106-131 | raising the weight of an occurring character strictly raises both scores and leaves the foreign count alone |
| Analysis.AnalyzeNothingWeighted | text/rate/rateTextAI.py:104-110 | a text without weighted characters has no counts and a zero weighted score |
| Analysis.CleanedTextScoresZero | text/rate/rateTextAI.py:79-110 | after cleaning, nothing is counted against the default table |
| Analysis.AnalyzeOneMark | text/rate/rateTextAI.py:100-131 | a lone weighted punctuation mark scores its weight, has no foreign character, is a one-word sentence and has density 100 |
| Analysis.AnalyzeEmDash | text/rate/rateTextAI.py:100-141 | a lone em dash under the defaults has weighted score 4.0, average 1, density 100 and score 77.2, and is judged likely AI |
| Analysis.AsciiTextIsPlain | text/rate/rateTextAI.py:143-158 | text of ASCII characters, whitespace included, is rendered as its plain HTML escape under any table whose keys lie above U+007F |
| Analysis.NonAsciiWhitespace | text/rate/rateTextAI.py:143-158 | under the defaults, non-ASCII whitespace is a `sus` span exactly for the no-break, thin and narrow no-break spaces, and a `nonascii` span otherwise |
| Analysis.AnalyzeOneSpace | text/rate/rateTextAI.py:100-131 | a lone weighted whitespace character scores its weight times 1.8, with no foreign character, no sentence and no punctuation |
| Analysis.AnalyzeNoBreakSpace | text/rate/rateTextAI.py:100-141 | a lone no-break space under the defaults has weighted score 1.5 and score 2.7, and is judged likely AI |
| Analysis.SummaryCoversSuspicious | text/rate/rateTextAI.py:198-206 | a character has a row exactly when it is weighted and occurs in the text |
| Analysis.SummaryOfAnalysis | text/rate/rateTextAI.py:199-203 | each row holds the positive number of occurrences of its character and its weight in the table |
| Analysis.DescriptionIffDefault | text/rate/rateTextAI.py:204 | a character has a non-empty description exactly when it is a default character |
| Analysis.SummaryDescribed | text/rate/rateTextAI.py:204 | a summary row has a description exactly when its character is a default character |
| WeightStore.LoadHeals | text/rate/rateTextAI.py:53-67 | a missing file, or one on which `json.load` raises a JSON decoding error, loads as the defaults and is rewritten with them |
| WeightStore.LoadUndecodable | text/rate/rateTextAI.py:57-67 | a file whose bytes are not UTF-8 makes loading fail with the decoding error, and nothing is rewritten |
| WeightStore.LoadParsed | text/rate/rateTextAI.py:57-64 | a parsed file loads exactly when it decodes, and is never rewritten |
| WeightStore.DecodeKeys | text/rate/rateTextAI.py:61-64 | a successful load keeps the file's keys, in file order |
| WeightStore.DecodeNonObject | text/rate/rateTextAI.py:60-64 | a document that is not an object makes loading fail |
| WeightStore.DecodeEmptyObject | text/rate/rateTextAI.py:60-64 | `{}` loads as an empty table |
| WeightStore.DecodeFlat | text/rate/rateTextAI.py:64 | the flat format loads exactly when every value converts, and each weight is its converted value |
| WeightStore.DecodeLegacy | text/rate/rateTextAI.py:59-62 | a legacy file loads exactly when every entry is an object whose `w` field is absent or converts; each weight is then the converted `w` field, or else the key's default weight, or 0 |
| WeightStore.MixedShapesFail | text/rate/rateTextAI.py:60-64 | a file mixing object and non-object values never loads |
| WeightStore.SaveDecodeRoundTrip | text/rate/rateTextAI.py:69-73 | whatever is saved loads back unchanged |
| WeightStore.HealedFileIsStable | text/rate/rateTextAI.py:53-67 | after healing, the next load returns the same defaults without rewriting |
| WeightStore.ApplyOverrides | text/rate/rateTextAI.py:215-221 | the keys are unchanged; a key takes the form's value when the form holds one that parses, and otherwise keeps its weight |
| WeightStore.OverrideRule | text/rate/rateTextAI.py:217-221 | a key takes the form's value exactly when the form holds one and it parses, whatever its sign; otherwise the key keeps its weight |
| WeightStore.OverridesKeepKeys | text/rate/rateTextAI.py:215 | the form never adds, removes or reorders keys |
| WeightStore.OverridesIgnoreOtherFields | text/rate/rateTextAI.py:215-219 | form fields naming no stored key change nothing |
| WeightStore.OverridesIdempotent | text/rate/rateTextAI.py:215-221 | submitting the same form twice equals submitting it once |
| WeightStore.OverridesPersist | text/rate/rateTextAI.py:215-222 | after saving the form's result, the next load returns exactly that table |
| WeightStore.StringTableRoundTrip | text/rate/rateTextAI.py:69-73 | the string-keyed view of a character table is single-character and converts back to it |

## Left out

- File, Flask, Tk, drag-and-drop and message-box I/O is left out: opening, reading and writing files, routes, templates and dialogs. Loading takes the state of the file as input, and saving yields the document that would be written.
- `round(..., 3)` and `round(..., 2)` of the returned figures are left out: the model keeps exact values. Binary floating point, NaN and infinity are also left out, because `real` has none of them.
- The JSON text format itself is left out: the file is the value `json.load` produces, an object with distinct member keys. `ensure_ascii` and `indent` do not affect that value.
- Decoding errors on reading the cleaner's input (`errors="ignore"`) are left out: the cleaner starts from the decoded text.
- Multi-character weight keys are left out: `Analysis.Analyze` takes a character-keyed table. A stored table whose keys are single characters converts to and from that form by `WeightStore.AsCharTable` and `WeightStore.AsStringTable`. In the code, `text.count(ch)` (text/rate/rateTextAI.py:107) would score a multi-character key by its number of non-overlapping occurrences as a substring, and the empty key as `len(text) + 1`; the model does not score such keys.
- The `settings_list` view, `reset_weights`, and the form dispatch of the index view (which button was pressed) are left out: they only combine modelled operations or render templates.
- `float(str)` is left out: it is the `parse` parameter. The formatting of a weight inside a span title is the `show` parameter.
- Lone surrogates (U+D800 to U+DFFF) in a text or a weight key, which a JSON escape such as `"\ud800"` can produce, are left out: a Dafny `char` cannot hold them.
- `os.path.splitext` on Windows is left out: only the POSIX rules are modelled.
- `on_drop` and `choose_file` are left out: they are file-dialog and event plumbing around `process_file`.
