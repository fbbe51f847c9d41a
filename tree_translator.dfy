/**
 * The shape-preserving walk that translates a missing tree: string values go
 * through the leaf translator, arrays are translated element by element
 * (string elements only), nested objects recursively, and every other value
 * passes through. The first failure aborts the whole walk.
 */
module TreeTranslator {
  import opened Wrappers
  import opened JsonTree
  import opened Retry

  /** The leaf translator, retries included: one string in, its translation or the error raised. */
  type Translator = string -> Result<string, TranslationFailure>

  /** An array element: strings are translated, anything else is kept as it is. */
  function TranslateItem(item: Json, tr: Translator): Result<Json, TranslationFailure> {
    if item.Str? then
      var t :- tr(item.s);
      Success(Str(t))
    else Success(item)
  }

  /** The elements of an array, in order; the first failure is the result. */
  function TranslateItems(items: seq<Json>, tr: Translator): Result<seq<Json>, TranslationFailure> {
    if items == [] then Success([])
    else
      var head :- TranslateItem(items[0], tr);
      var tail :- TranslateItems(items[1..], tr);
      Success([head] + tail)
  }

  /** One property value, by kind: string, array, nested object, or anything else unchanged. */
  function TranslateValue(v: Json, tr: Translator): Result<Json, TranslationFailure>
    decreases v, 1
  {
    match v
    case Str(s) =>
      var t :- tr(s);
      Success(Str(t))
    case Arr(items) =>
      var ts :- TranslateItems(items, tr);
      Success(Arr(ts))
    case Obj(sub) =>
      var ts :- TranslateNestedObject(sub, tr);
      Success(Obj(ts))
    case _ => Success(v)
  }

  /** The properties of an object in key order; the first failure aborts the rest. */
  function TranslateNestedObject(fs: seq<Field>, tr: Translator): Result<seq<Field>, TranslationFailure>
    decreases fs, 0
  {
    if fs == [] then Success([])
    else
      var translated :- TranslateValue(fs[0].value, tr);
      var rest :- TranslateNestedObject(fs[1..], tr);
      Success([Field(fs[0].key, translated)] + rest)
  }

  // Specification of a successful walk, as a relation between a tree and its translation.

  ghost predicate ItemTranslated(item: Json, out: Json, tr: Translator) {
    if item.Str? then tr(item.s).Success? && out == Str(tr(item.s).value) else out == item
  }

  ghost predicate ValueTranslated(v: Json, out: Json, tr: Translator)
    decreases v, 1
  {
    match v
    case Str(s) => tr(s).Success? && out == Str(tr(s).value)
    case Arr(items) =>
      out.Arr? && |out.items| == |items| &&
      forall i :: 0 <= i < |items| ==> ItemTranslated(items[i], out.items[i], tr)
    case Obj(sub) => out.Obj? && FieldsTranslated(sub, out.fields, tr)
    case _ => out == v
  }

  /** Same keys in the same order, each value translated. */
  ghost predicate FieldsTranslated(fs: seq<Field>, out: seq<Field>, tr: Translator)
    decreases fs, 0
  {
    |out| == |fs| &&
    forall i :: 0 <= i < |fs| ==> out[i].key == fs[i].key && ValueTranslated(fs[i].value, out[i].value, tr)
  }

  /** Every string the walk hands to the leaf translator, in walk order. */
  function StringItems(items: seq<Json>): seq<string> {
    if items == [] then []
    else (if items[0].Str? then [items[0].s] else []) + StringItems(items[1..])
  }

  function ValueStrings(v: Json): seq<string>
    decreases v, 1
  {
    match v
    case Str(s) => [s]
    case Arr(items) => StringItems(items)
    case Obj(sub) => StringLeaves(sub)
    case _ => []
  }

  function StringLeaves(fs: seq<Field>): seq<string>
    decreases fs, 0
  {
    if fs == [] then [] else ValueStrings(fs[0].value) + StringLeaves(fs[1..])
  }

  /** The error of the first string, in walk order, that the leaf translator fails on. */
  function FirstError(strings: seq<string>, tr: Translator): Option<TranslationFailure> {
    if strings == [] then None
    else if tr(strings[0]).Failure? then Some(tr(strings[0]).error)
    else FirstError(strings[1..], tr)
  }

  function ErrorOf<T>(r: Result<T, TranslationFailure>): Option<TranslationFailure> {
    if r.Failure? then Some(r.error) else None
  }


  /** `FirstError` is the error of the first failing string, and there is none exactly when every string translates. */
  lemma {:induction false} FirstErrorIsFirst(strings: seq<string>, tr: Translator)
    ensures FirstError(strings, tr).None? <==> forall i :: 0 <= i < |strings| ==> tr(strings[i]).Success?
    ensures FirstError(strings, tr).Some? ==>
      exists i :: 0 <= i < |strings| && tr(strings[i]) == Failure(FirstError(strings, tr).value) &&
        forall j :: 0 <= j < i ==> tr(strings[j]).Success?
  {
    if strings != [] && tr(strings[0]).Success? {
      FirstErrorIsFirst(strings[1..], tr);
      assert forall i :: 0 < i < |strings| ==> strings[i] == strings[1..][i - 1];
      if FirstError(strings, tr).Some? {
        var i :| 0 <= i < |strings[1..]| && tr(strings[1..][i]) == Failure(FirstError(strings, tr).value) &&
          forall j :: 0 <= j < i ==> tr(strings[1..][j]).Success?;
        assert tr(strings[i + 1]) == Failure(FirstError(strings, tr).value);
      }
    }
  }

  lemma {:induction false} FirstErrorConcat(a: seq<string>, b: seq<string>, tr: Translator)
    ensures FirstError(a + b, tr) == if FirstError(a, tr).Some? then FirstError(a, tr) else FirstError(b, tr)
  {
    if a == [] {
      assert a + b == b;
    } else {
      assert (a + b)[1..] == a[1..] + b;
      FirstErrorConcat(a[1..], b, tr);
    }
  }

  /** An array translation fails with the error of its first failing string element. */
  lemma {:induction false} ItemsFailAtFirstFailure(items: seq<Json>, tr: Translator)
    ensures ErrorOf(TranslateItems(items, tr)) == FirstError(StringItems(items), tr)
  {
    if items != [] {
      ItemsFailAtFirstFailure(items[1..], tr);
      var here := if items[0].Str? then [items[0].s] else [];
      FirstErrorConcat(here, StringItems(items[1..]), tr);
    }
  }

  lemma {:induction false} ValueFailsAtFirstFailure(v: Json, tr: Translator)
    ensures ErrorOf(TranslateValue(v, tr)) == FirstError(ValueStrings(v), tr)
    decreases v, 1
  {
    match v
    case Arr(items) => ItemsFailAtFirstFailure(items, tr);
    case Obj(sub) => WalkFailsAtFirstFailure(sub, tr);
    case _ =>
  }

  /**
   * The walk fails exactly when the leaf translator fails on some string it
   * reaches, and then with the error of the first such string in key order;
   * a failed walk yields no tree at all.
   */
  lemma {:induction false} WalkFailsAtFirstFailure(fs: seq<Field>, tr: Translator)
    ensures ErrorOf(TranslateNestedObject(fs, tr)) == FirstError(StringLeaves(fs), tr)
    decreases fs, 0
  {
    if fs != [] {
      ValueFailsAtFirstFailure(fs[0].value, tr);
      WalkFailsAtFirstFailure(fs[1..], tr);
      FirstErrorConcat(ValueStrings(fs[0].value), StringLeaves(fs[1..]), tr);
    }
  }

  /** A successful array translation is exactly an element-wise translation of the same length. */
  lemma {:induction false} ItemsSpec(items: seq<Json>, out: seq<Json>, tr: Translator)
    ensures TranslateItems(items, tr) == Success(out) <==>
      |out| == |items| && forall i :: 0 <= i < |items| ==> ItemTranslated(items[i], out[i], tr)
  {
    if items != [] {
      if out != [] {
        ItemsSpec(items[1..], out[1..], tr);
        assert forall i :: 0 < i < |items| ==> items[i] == items[1..][i - 1];
        assert forall i :: 0 < i < |out| ==> out[i] == out[1..][i - 1];
        assert out == [out[0]] + out[1..];
      }
    }
  }

  lemma {:induction false} ValueSpec(v: Json, out: Json, tr: Translator)
    ensures TranslateValue(v, tr) == Success(out) <==> ValueTranslated(v, out, tr)
    decreases v, 1
  {
    match v
    case Arr(items) =>
      if out.Arr? {
        ItemsSpec(items, out.items, tr);
      }
    case Obj(sub) =>
      if out.Obj? {
        WalkSpec(sub, out.fields, tr);
      }
    case _ =>
  }

  /**
   * A successful walk is exactly a translation of the tree: the same keys in
   * the same order, every string replaced by its translation, every array of
   * the same length with only its strings translated, nested objects
   * translated in turn, and every other value unchanged.
   */
  lemma {:induction false} WalkSpec(fs: seq<Field>, out: seq<Field>, tr: Translator)
    ensures TranslateNestedObject(fs, tr) == Success(out) <==> FieldsTranslated(fs, out, tr)
    decreases fs, 0
  {
    if fs != [] && out != [] {
      ValueSpec(fs[0].value, out[0].value, tr);
      WalkSpec(fs[1..], out[1..], tr);
      assert forall i :: 0 < i < |fs| ==> fs[i] == fs[1..][i - 1];
      assert forall i :: 0 < i < |out| ==> out[i] == out[1..][i - 1];
      assert out == [Field(out[0].key, out[0].value)] + out[1..];
    }
  }

  /** A translation keeps the key sequence, hence unique keys. */
  lemma TranslationKeepsKeys(fs: seq<Field>, out: seq<Field>, tr: Translator)
    requires FieldsTranslated(fs, out, tr)
    ensures KeysOf(out) == KeysOf(fs)
    ensures UniqueKeys(fs) ==> UniqueKeys(out)
  {
  }

  /** Looking a key up in a translation finds the translation of the value found in the original. */
  lemma {:induction false} TranslatedLookup(fs: seq<Field>, out: seq<Field>, tr: Translator, k: string)
    requires FieldsTranslated(fs, out, tr)
    ensures Lookup(out, k).Some? <==> Lookup(fs, k).Some?
    ensures Lookup(fs, k).Some? ==> ValueTranslated(Lookup(fs, k).value, Lookup(out, k).value, tr)
  {
    if fs != [] && fs[0].key != k {
      assert forall i :: 0 < i < |fs| ==> fs[i] == fs[1..][i - 1] && out[i] == out[1..][i - 1];
      TranslatedLookup(fs[1..], out[1..], tr, k);
    }
  }
}
