/**
 * JSON values as the localisation files hold them after parsing.
 * An object is the sequence of its own properties in enumeration order;
 * property access and JavaScript truthiness are modelled here.
 */
module JsonTree {
  import opened Wrappers

  datatype Json =
    | Str(s: string)
    | Num(n: real)
    | Bool(b: bool)
    | Null
    | Arr(items: seq<Json>)
    | Obj(fields: seq<Field>)

  /** One own property of an object. */
  datatype Field = Field(key: string, value: Json)

  function KeysOf(fs: seq<Field>): seq<string> {
    seq(|fs|, i requires 0 <= i < |fs| => fs[i].key)
  }

  predicate HasKey(fs: seq<Field>, k: string) {
    exists i :: 0 <= i < |fs| && fs[i].key == k
  }

  /** No key occurs twice in one object. */
  predicate UniqueKeys(fs: seq<Field>) {
    forall i, j :: 0 <= i < j < |fs| ==> fs[i].key != fs[j].key
  }

  /** Unique keys in this object and in every object nested under its properties. */
  predicate WellFormed(fs: seq<Field>)
    decreases fs
  {
    UniqueKeys(fs) &&
    forall i :: 0 <= i < |fs| ==> fs[i].value.Obj? ==> WellFormed(fs[i].value.fields)
  }

  /** `obj[k]` on an object: the value of the first property named `k`, or `undefined`. */
  function Lookup(fs: seq<Field>, k: string): (r: Option<Json>)
    ensures r.Some? <==> HasKey(fs, k)
  {
    if fs == [] then None
    else if fs[0].key == k then Some(fs[0].value)
    else
      assert forall i :: 1 <= i < |fs| ==> fs[i] == fs[1..][i - 1];
      Lookup(fs[1..], k)
  }

  /** The properties of a possibly absent value; anything that is not an object has none. */
  function FieldsOf(x: Option<Json>): seq<Field> {
    if x.Some? && x.value.Obj? then x.value.fields else []
  }

  /** `target ? target[k] : undefined`, with a non-object target treated as having no keys. */
  function Get(x: Option<Json>, k: string): Option<Json> {
    Lookup(FieldsOf(x), k)
  }

  /** JavaScript truthiness; `None` is `undefined`. Arrays and objects are always truthy. */
  predicate Truthy(x: Option<Json>) {
    match x
    case None => false
    case Some(v) =>
      match v
      case Str(s) => s != ""
      case Num(n) => n != 0.0
      case Bool(b) => b
      case Null => false
      case Arr(_) => true
      case Obj(_) => true
  }

  /** With unique keys, looking up the key of the i-th property yields that property's value. */
  lemma {:induction false} LookupAt(fs: seq<Field>, i: nat)
    requires UniqueKeys(fs)
    requires i < |fs|
    ensures Lookup(fs, fs[i].key) == Some(fs[i].value)
  {
    if i > 0 {
      assert fs[0].key != fs[i].key;
      assert fs[1..][i - 1] == fs[i];
      LookupAt(fs[1..], i - 1);
    }
  }

  /** A successful lookup names a property that precedes every other property with that key. */
  lemma {:induction false} LookupFound(fs: seq<Field>, k: string)
    requires Lookup(fs, k).Some?
    ensures exists i :: 0 <= i < |fs| && fs[i] == Field(k, Lookup(fs, k).value)
  {
    if fs[0].key != k {
      LookupFound(fs[1..], k);
      var i :| 0 <= i < |fs[1..]| && fs[1..][i] == Field(k, Lookup(fs[1..], k).value);
      assert fs[i + 1] == fs[1..][i];
    }
  }
}
