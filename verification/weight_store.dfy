/**
 * The persisted weight table of text/rate/rateTextAI.py: `load_weights`, the
 * document `save_weights` writes, and the override loop of the `settings`
 * view. The file is modelled by what `json.load` makes of it; the keys of a
 * stored table are strings, as in the JSON object.
 */
module WeightStore {
  import opened Wrappers
  import opened Seqs
  import opened Assoc
  import opened Weights

  /** A weight table as stored: string keys, in file order. */
  type StringTable = seq<(string, real)>

  /** A JSON value after `json.load`; an object's members are in file order. */
  datatype Json =
    | JNull
    | JBool(b: bool)
    | JNumber(n: real)
    | JString(s: string)
    | JArray(items: seq<Json>)
    | JObject(members: seq<(string, Json)>)

  /**
   * The weights file: absent; bytes that are not UTF-8, on which reading the
   * text raises `UnicodeDecodeError`; UTF-8 text on which `json.load` raises
   * `JSONDecodeError` (an empty file, a syntax error, a leading byte order
   * mark); or the value it decodes to.
   */
  datatype Stored = Missing | Undecodable | Malformed | Parsed(doc: Json)

  /** The exceptions `load_weights` lets escape. */
  datatype LoadError =
    | NotUtf8                // `UnicodeDecodeError`, outside the caught exceptions
    | NotAnObject            // the document has no `.values()` / `.items()`
    | EntryNotAnObject(key: string)  // a legacy entry has no `.get`
    | NotANumber(key: string)        // `float(...)` rejects the value

  /** The table `load_weights` returns, and the document it writes back first, if any. */
  datatype Loaded = Loaded(weights: StringTable, rewritten: Option<Json>)

  /** The character-keyed table with each key as a one-character string. */
  function AsStringTable(t: WeightTable): (r: StringTable)
    ensures |r| == |t|
    ensures forall i :: 0 <= i < |t| ==> r[i] == ([t[i].0], t[i].1)
  {
    if |t| == 0 then [] else [([t[0].0], t[0].1)] + AsStringTable(t[1..])
  }

  /** Every key is a single character, as the scorer requires. */
  predicate SingleCharKeys(t: StringTable) {
    forall i :: 0 <= i < |t| ==> |t[i].0| == 1
  }

  /** The character-keyed view of a table whose keys are single characters. */
  function AsCharTable(t: StringTable): (r: WeightTable)
    requires SingleCharKeys(t)
    ensures |r| == |t|
  {
    if |t| == 0 then [] else [(t[0].0[0], t[0].1)] + AsCharTable(t[1..])
  }

  /** The two views are inverse to each other. */
  lemma {:induction false} CharTableRoundTrip(t: StringTable)
    requires SingleCharKeys(t)
    ensures AsStringTable(AsCharTable(t)) == t
  {
    if |t| > 0 {
      CharTableRoundTrip(t[1..]);
      assert [t[0].0[0]] == t[0].0;
    }
  }

  lemma {:induction false} StringTableRoundTrip(t: WeightTable)
    ensures SingleCharKeys(AsStringTable(t))
    ensures AsCharTable(AsStringTable(t)) == t
  {
    if |t| > 0 {
      StringTableRoundTrip(t[1..]);
      assert AsStringTable(t)[1..] == AsStringTable(t[1..]);
    }
  }

  /** `DEFAULT_WEIGHTS` as `load_weights` returns it. */
  function DefaultTable(): StringTable {
    AsStringTable(DefaultWeights)
  }

  /** `json.dump({k: float(v) ...})`: an object with one number per entry, in table order. */
  function SaveDocument(t: StringTable): (doc: Json)
    ensures doc.JObject? && |doc.members| == |t|
    ensures forall i :: 0 <= i < |t| ==> doc.members[i] == (t[i].0, JNumber(t[i].1))
  {
    JObject(seq(|t|, i requires 0 <= i < |t| => (t[i].0, JNumber(t[i].1))))
  }

  /**
   * `float(v)` on a decoded JSON value: numbers as they are, booleans as 1 or 0,
   * strings through `parse`; anything else is rejected.
   */
  function ToFloat(v: Json, parse: string -> Option<real>): Option<real> {
    match v
    case JNumber(n) => Some(n)
    case JBool(b) => Some(if b then 1.0 else 0.0)
    case JString(s) => parse(s)
    case _ => None
  }

  /** The value of one entry of the flat format: the entry converted by `float`. */
  function FlatValue(k: string, v: Json, parse: string -> Option<real>): Result<real, LoadError> {
    match ToFloat(v, parse)
    case Some(x) => Success(x)
    case None => Failure(NotANumber(k))
  }

  /**
   * The value of one entry of the legacy format: its `w` field, else the
   * default weight of `k` (`DEFAULT_WEIGHTS.get(k, 0)`).
   */
  function LegacyValue(k: string, v: Json, defaults: StringTable, parse: string -> Option<real>): Result<real, LoadError> {
    if !v.JObject? then Failure(EntryNotAnObject(k))
    else
      match Lookup(v.members, "w")
      case None => Success(Lookup(defaults, k).GetOr(0.0))
      case Some(x) => FlatValue(k, x, parse)
  }

  /**
   * A dict comprehension over the members: every value converted by `f`,
   * stopping at the first member whose conversion fails.
   */
  function ConvertAll(m: seq<(string, Json)>, f: (string, Json) -> Result<real, LoadError>): (r: Result<StringTable, LoadError>)
    ensures r.Success? <==> forall i :: 0 <= i < |m| ==> f(m[i].0, m[i].1).Success?
    ensures r.Success? ==> |r.value| == |m|
    ensures r.Success? ==> forall i :: 0 <= i < |m| ==> r.value[i] == (m[i].0, f(m[i].0, m[i].1).value)
    ensures r.Failure? ==> exists i :: 0 <= i < |m| && f(m[i].0, m[i].1) == Failure(r.error)
  {
    if |m| == 0 then Success([])
    else
      match f(m[0].0, m[0].1)
      case Failure(e) => Failure(e)
      case Success(x) =>
        var rest := ConvertAll(m[1..], f);
        if rest.Failure? then
          assert forall i :: 0 <= i < |m| - 1 ==> m[1..][i] == m[i + 1];
          Failure(rest.error)
        else
          assert forall i :: 1 <= i < |m| ==> m[i] == m[1..][i - 1];
          Success([(m[0].0, x)] + rest.value)
  }

  /** Whether an object's first value is itself an object, which selects the legacy format. */
  predicate IsLegacy(m: seq<(string, Json)>) {
    |m| > 0 && m[0].1.JObject?
  }

  /**
   * What `load_weights` makes of a decoded file, with `defaults` standing for
   * `DEFAULT_WEIGHTS` and `parse` for `float(str)`.
   */
  function Decode(doc: Json, defaults: StringTable, parse: string -> Option<real>): Result<StringTable, LoadError> {
    if !doc.JObject? then Failure(NotAnObject)
    else if IsLegacy(doc.members) then ConvertAll(doc.members, (k, v) => LegacyValue(k, v, defaults, parse))
    else ConvertAll(doc.members, (k, v) => FlatValue(k, v, parse))
  }

  /**
   * `load_weights`, with the state of the weights file as input and
   * `defaults` standing for `DEFAULT_WEIGHTS`.
   */
  function LoadFrom(stored: Stored, defaults: StringTable, parse: string -> Option<real>): Result<Loaded, LoadError> {
    match stored
    case Missing => Success(Loaded(defaults, Some(SaveDocument(defaults))))
    case Undecodable => Failure(NotUtf8)
    case Malformed => Success(Loaded(defaults, Some(SaveDocument(defaults))))
    case Parsed(doc) =>
      match Decode(doc, defaults, parse)
      case Success(t) => Success(Loaded(t, None))
      case Failure(e) => Failure(e)
  }

  /** `load_weights` itself. */
  function Load(stored: Stored, parse: string -> Option<real>): Result<Loaded, LoadError> {
    LoadFrom(stored, DefaultTable(), parse)
  }

  lemma HealsTo(stored: Stored, defaults: StringTable, parse: string -> Option<real>)
    requires stored.Missing? || stored.Malformed?
    ensures LoadFrom(stored, defaults, parse) == Success(Loaded(defaults, Some(SaveDocument(defaults))))
  {
  }

  /** A missing or malformed file yields the defaults and rewrites the file with them. */
  lemma LoadHeals(stored: Stored, parse: string -> Option<real>)
    requires stored.Missing? || stored.Malformed?
    ensures Load(stored, parse).Success?
    ensures Load(stored, parse).value.weights == AsStringTable(DefaultWeights)
    ensures Load(stored, parse).value.rewritten == Some(SaveDocument(AsStringTable(DefaultWeights)))
  {
  }

  /**
   * A file whose bytes are not UTF-8 is not healed: the decoding error escapes
   * `load_weights`, no table is returned and the file stays as it is.
   */
  lemma LoadUndecodable(defaults: StringTable, parse: string -> Option<real>)
    ensures LoadFrom(Undecodable, defaults, parse).Failure?
    ensures LoadFrom(Undecodable, defaults, parse).error == NotUtf8
  {
  }

  /** A file that decodes is never rewritten; its table is what `load_weights` returns. */
  lemma LoadParsed(doc: Json, defaults: StringTable, parse: string -> Option<real>)
    ensures LoadFrom(Parsed(doc), defaults, parse).Success? <==> Decode(doc, defaults, parse).Success?
    ensures LoadFrom(Parsed(doc), defaults, parse).Success? ==>
      LoadFrom(Parsed(doc), defaults, parse).value == Loaded(Decode(doc, defaults, parse).value, None)
  {
  }

  /** A successful decode keeps the file's keys, in file order. */
  lemma DecodeKeys(doc: Json, defaults: StringTable, parse: string -> Option<real>)
    requires Decode(doc, defaults, parse).Success?
    ensures doc.JObject?
    ensures Keys(Decode(doc, defaults, parse).value) == Keys(doc.members)
  {
  }

  /** A decoded value that is not an object makes `load_weights` raise. */
  lemma DecodeNonObject(doc: Json, defaults: StringTable, parse: string -> Option<real>)
    requires !doc.JObject?
    ensures Decode(doc, defaults, parse) == Failure(NotAnObject)
  {
  }

  /** `{}` is falsy, so it takes the flat path and loads as an empty table, not the defaults. */
  lemma DecodeEmptyObject(defaults: StringTable, parse: string -> Option<real>)
    ensures Decode(JObject([]), defaults, parse) == Success([])
  {
  }

  /** The flat format: each weight is the member's value converted by `float`. */
  lemma DecodeFlat(m: seq<(string, Json)>, defaults: StringTable, parse: string -> Option<real>)
    requires !IsLegacy(m)
    ensures Decode(JObject(m), defaults, parse).Success? <==> forall i :: 0 <= i < |m| ==> ToFloat(m[i].1, parse).Some?
    ensures Decode(JObject(m), defaults, parse).Success? ==>
      forall i :: 0 <= i < |m| ==> Decode(JObject(m), defaults, parse).value[i].1 == ToFloat(m[i].1, parse).value
  {
    var f := (k, v) => FlatValue(k, v, parse);
    var r := ConvertAll(m, f);
    assert forall i :: 0 <= i < |m| ==> (f(m[i].0, m[i].1).Success? <==> ToFloat(m[i].1, parse).Some?);
  }

  /**
   * The legacy format: every member must be an object; each weight is its `w`
   * field converted by `float`, or the default weight of its key when `w` is absent.
   */
  lemma DecodeLegacy(m: seq<(string, Json)>, defaults: StringTable, parse: string -> Option<real>)
    requires IsLegacy(m)
    ensures Decode(JObject(m), defaults, parse).Success? <==>
      forall i :: 0 <= i < |m| ==>
        m[i].1.JObject? && (Lookup(m[i].1.members, "w").None? || ToFloat(Lookup(m[i].1.members, "w").value, parse).Some?)
    ensures Decode(JObject(m), defaults, parse).Success? ==> forall i :: 0 <= i < |m| ==>
      Decode(JObject(m), defaults, parse).value[i].1 ==
        match Lookup(m[i].1.members, "w")
        case None => Lookup(defaults, m[i].0).GetOr(0.0)
        case Some(x) => ToFloat(x, parse).value
  {
    var f := (k, v) => LegacyValue(k, v, defaults, parse);
    var r := ConvertAll(m, f);
    assert forall i :: 0 <= i < |m| ==> (f(m[i].0, m[i].1).Success? <==>
      m[i].1.JObject? && (Lookup(m[i].1.members, "w").None? || ToFloat(Lookup(m[i].1.members, "w").value, parse).Some?));
  }

  /** An object mixing object values with other values never loads. */
  lemma MixedShapesFail(m: seq<(string, Json)>, defaults: StringTable, parse: string -> Option<real>, i: nat, j: nat)
    requires i < |m| && j < |m|
    requires m[i].1.JObject? && !m[j].1.JObject?
    ensures Decode(JObject(m), defaults, parse).Failure?
  {
    if IsLegacy(m) {
      var f := (k, v) => LegacyValue(k, v, defaults, parse);
      assert f(m[j].0, m[j].1).Failure?;
    } else {
      var f := (k, v) => FlatValue(k, v, parse);
      assert f(m[i].0, m[i].1).Failure?;
    }
  }

  /** Whatever `save_weights` writes, `load_weights` reads back unchanged. */
  lemma SaveDecodeRoundTrip(t: StringTable, defaults: StringTable, parse: string -> Option<real>)
    ensures Decode(SaveDocument(t), defaults, parse) == Success(t)
  {
    var m := SaveDocument(t).members;
    var f := (k, v) => FlatValue(k, v, parse);
    assert forall i :: 0 <= i < |m| ==> f(m[i].0, m[i].1) == Success(t[i].1);
    var r := ConvertAll(m, f);
    assert r.value == t;
  }

  /** After healing a missing or malformed file, the next load reads the same defaults. */
  lemma HealedFileIsStable(stored: Stored, parse: string -> Option<real>)
    requires stored.Missing? || stored.Malformed?
    ensures Load(Parsed(Load(stored, parse).value.rewritten.value), parse) ==
      Success(Loaded(Load(stored, parse).value.weights, None))
  {
    HealedFromIsStable(stored, DefaultTable(), parse);
  }

  lemma HealedFromIsStable(stored: Stored, defaults: StringTable, parse: string -> Option<real>)
    requires stored.Missing? || stored.Malformed?
    ensures LoadFrom(Parsed(LoadFrom(stored, defaults, parse).value.rewritten.value), defaults, parse) ==
      Success(Loaded(LoadFrom(stored, defaults, parse).value.weights, None))
  {
    HealsTo(stored, defaults, parse);
    SaveDecodeRoundTrip(defaults, defaults, parse);
  }

  // ---------------------------------------------------------------------
  // The settings form

  /**
   * The new weight of key `k` under the submitted form: the first value the
   * form holds for `k`, if `float` accepts it; otherwise the old weight.
   */
  function Override(k: string, w: real, form: seq<(string, string)>, parse: string -> Option<real>): real {
    match Lookup(form, k)
    case None => w
    case Some(s) => parse(s).GetOr(w)
  }

  /** The override loop of the `settings` view: each stored key looked up in the form, in table order. */
  function ApplyOverrides(t: StringTable, form: seq<(string, string)>, parse: string -> Option<real>): (r: StringTable)
    ensures Keys(r) == Keys(t)
    ensures forall i :: 0 <= i < |t| && t[i].0 in Keys(form) && parse(Lookup(form, t[i].0).value).Some? ==>
      r[i].1 == parse(Lookup(form, t[i].0).value).value
    ensures forall i :: 0 <= i < |t| && (t[i].0 !in Keys(form) || parse(Lookup(form, t[i].0).value).None?) ==>
      r[i].1 == t[i].1
  {
    seq(|t|, i requires 0 <= i < |t| => (t[i].0, Override(t[i].0, t[i].1, form, parse)))
  }

  /** The form never adds or removes keys, nor changes their order. */
  lemma OverridesKeepKeys(t: StringTable, form: seq<(string, string)>, parse: string -> Option<real>)
    ensures Keys(ApplyOverrides(t, form, parse)) == Keys(t)
  {
  }

  /**
   * A key takes the submitted value exactly when the form holds one for it
   * and `float` accepts it, whatever its sign; otherwise it keeps its weight.
   */
  lemma OverrideRule(k: string, w: real, form: seq<(string, string)>, parse: string -> Option<real>)
    ensures k !in Keys(form) ==> Override(k, w, form, parse) == w
    ensures k in Keys(form) && parse(Lookup(form, k).value).None? ==> Override(k, w, form, parse) == w
    ensures k in Keys(form) && parse(Lookup(form, k).value).Some? ==>
      Override(k, w, form, parse) == parse(Lookup(form, k).value).value
  {
  }

  /** Form fields that name no stored key change nothing. */
  lemma OverridesIgnoreOtherFields(t: StringTable, form: seq<(string, string)>, parse: string -> Option<real>)
    requires forall i :: 0 <= i < |t| ==> t[i].0 !in Keys(form)
    ensures ApplyOverrides(t, form, parse) == t
  {
  }

  /** Submitting the same form twice has the effect of submitting it once. */
  lemma OverridesIdempotent(t: StringTable, form: seq<(string, string)>, parse: string -> Option<real>)
    ensures ApplyOverrides(ApplyOverrides(t, form, parse), form, parse) == ApplyOverrides(t, form, parse)
  {
  }

  /** After the form is saved, the next load returns exactly the overridden table. */
  lemma OverridesPersist(t: StringTable, form: seq<(string, string)>, parse: string -> Option<real>)
    ensures Load(Parsed(SaveDocument(ApplyOverrides(t, form, parse))), parse) ==
      Success(Loaded(ApplyOverrides(t, form, parse), None))
  {
    SaveDecodeRoundTrip(ApplyOverrides(t, form, parse), DefaultTable(), parse);
  }
}
