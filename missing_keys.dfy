/**
 * The missing-key detector: a structural diff driven by the source tree that
 * keeps exactly the source entries whose counterpart in the target is falsy,
 * recursing into nested objects and pruning the ones that are fully present.
 */
module MissingKeys {
  import opened Wrappers
  import opened JsonTree

  /**
   * The missing tree of `source` against `target`. Nested objects are diffed
   * recursively and kept only when something under them is missing; every
   * other value (string, array, number, boolean, null) is copied verbatim
   * when the target's value at that key is falsy.
   */
  function FindMissingKeys(source: seq<Field>, target: Option<Json>): (missing: seq<Field>)
    ensures |missing| <= |source|
    decreases source
  {
    if source == [] then []
    else
      var f := source[0];
      var rest := FindMissingKeys(source[1..], target);
      var targetValue := Get(target, f.key);
      match f.value
      case Obj(sub) =>
        var nested := FindMissingKeys(sub, targetValue);
        if |nested| > 0 then [Field(f.key, Obj(nested))] + rest else rest
      case _ =>
        if !Truthy(targetValue) then [f] + rest else rest
  }

  /** No object value, at any depth under the properties, is empty. */
  predicate Pruned(fs: seq<Field>)
    decreases fs
  {
    forall i :: 0 <= i < |fs| ==> fs[i].value.Obj? ==>
      fs[i].value.fields != [] && Pruned(fs[i].value.fields)
  }

  /** `v` is the non-object value reached from `fs` along the key path `path`. */
  ghost predicate LeafAt(fs: seq<Field>, path: seq<string>, v: Json)
    decreases fs
  {
    |path| > 0 &&
    exists i :: 0 <= i < |fs| && fs[i].key == path[0] &&
      if fs[i].value.Obj? then LeafAt(fs[i].value.fields, path[1..], v)
      else |path| == 1 && fs[i].value == v
  }

  /** Property access along a key path, `undefined` as soon as a step finds nothing. */
  function At(x: Option<Json>, path: seq<string>): Option<Json>
    decreases |path|
  {
    if path == [] then x else At(Get(x, path[0]), path[1..])
  }

  /** Every leaf of the source has a truthy value at the same path in the target. */
  ghost predicate Satisfied(source: seq<Field>, target: Option<Json>) {
    forall path, v :: LeafAt(source, path, v) ==> Truthy(At(target, path))
  }

  /**
   * Every entry of the missing tree comes from a source entry with the same key:
   * a non-object entry is that source entry verbatim, and its target value is
   * falsy; an object entry is the non-empty missing tree of the source object
   * against the target's value at that key.
   */
  lemma {:induction false} MissingEntryFromSource(source: seq<Field>, target: Option<Json>, i: nat)
    requires i < |FindMissingKeys(source, target)|
    ensures var m := FindMissingKeys(source, target)[i];
      exists j :: 0 <= j < |source| && source[j].key == m.key &&
        if source[j].value.Obj? then
          var nested := FindMissingKeys(source[j].value.fields, Get(target, m.key));
          nested != [] && m.value == Obj(nested)
        else
          m == source[j] && !Truthy(Get(target, m.key))
  {
    var f := source[0];
    var rest := FindMissingKeys(source[1..], target);
    var missing := FindMissingKeys(source, target);
    var contributes := if f.value.Obj? then FindMissingKeys(f.value.fields, Get(target, f.key)) != []
                       else !Truthy(Get(target, f.key));
    if contributes && i == 0 {
      assert source[0].key == missing[0].key;
    } else {
      var i' := if contributes then i - 1 else i;
      assert missing[i] == rest[i'];
      MissingEntryFromSource(source[1..], target, i');
      var j :| 0 <= j < |source[1..]| && source[1..][j].key == rest[i'].key &&
        if source[1..][j].value.Obj? then
          var nested := FindMissingKeys(source[1..][j].value.fields, Get(target, rest[i'].key));
          nested != [] && rest[i'].value == Obj(nested)
        else
          rest[i'] == source[1..][j] && !Truthy(Get(target, rest[i'].key));
      assert source[j + 1] == source[1..][j];
    }
  }

  /** Every key of the missing tree is a key of the source. */
  lemma MissingKeysInSource(source: seq<Field>, target: Option<Json>, k: string)
    ensures HasKey(FindMissingKeys(source, target), k) ==> HasKey(source, k)
  {
    if HasKey(FindMissingKeys(source, target), k) {
      var i :| 0 <= i < |FindMissingKeys(source, target)| && FindMissingKeys(source, target)[i].key == k;
      MissingEntryFromSource(source, target, i);
    }
  }

  /** With unique keys, the first key does not recur in the rest of the object. */
  lemma TailLacksHeadKey(fs: seq<Field>)
    requires UniqueKeys(fs) && fs != []
    ensures UniqueKeys(fs[1..]) && !HasKey(fs[1..], fs[0].key)
  {
  }

  /** Unique keys in the source give unique keys in the missing tree. */
  lemma {:induction false} MissingUniqueKeys(source: seq<Field>, target: Option<Json>)
    requires UniqueKeys(source)
    ensures UniqueKeys(FindMissingKeys(source, target))
  {
    if source != [] {
      var rest := FindMissingKeys(source[1..], target);
      var missing := FindMissingKeys(source, target);
      TailLacksHeadKey(source);
      MissingUniqueKeys(source[1..], target);
      MissingKeysInSource(source[1..], target, source[0].key);
      if missing != rest {
        assert forall j :: 0 < j < |missing| ==> missing[j] == rest[j - 1];
      }
    }
  }

  /** Unique keys at every level of the source give unique keys at every level of the missing tree. */
  lemma {:induction false} MissingWellFormed(source: seq<Field>, target: Option<Json>)
    requires WellFormed(source)
    ensures WellFormed(FindMissingKeys(source, target))
    decreases source
  {
    var missing := FindMissingKeys(source, target);
    MissingUniqueKeys(source, target);
    forall i | 0 <= i < |missing| && missing[i].value.Obj? ensures WellFormed(missing[i].value.fields) {
      MissingEntryFromSource(source, target, i);
      var j :| 0 <= j < |source| && source[j].key == missing[i].key &&
        if source[j].value.Obj? then
          var nested := FindMissingKeys(source[j].value.fields, Get(target, missing[i].key));
          nested != [] && missing[i].value == Obj(nested)
        else
          missing[i] == source[j] && !Truthy(Get(target, missing[i].key));
      MissingWellFormed(source[j].value.fields, Get(target, missing[i].key));
    }
  }

  /**
   * A source leaf (anything but an object) at key `k` appears in the missing
   * tree, verbatim, exactly when the target's value at `k` is falsy.
   */
  lemma LeafMissingIff(source: seq<Field>, target: Option<Json>, j: nat)
    requires UniqueKeys(source)
    requires j < |source| && !source[j].value.Obj?
    ensures var k := source[j].key;
      Lookup(FindMissingKeys(source, target), k) ==
        if Truthy(Get(target, k)) then None else Some(source[j].value)
  {
    LookupMissing(source, target, j);
  }

  /**
   * A nested source object at key `k` appears in the missing tree exactly when
   * its own missing tree against the target's value at `k` is non-empty, and
   * then as that missing tree.
   */
  lemma NestedMissingIff(source: seq<Field>, target: Option<Json>, j: nat)
    requires UniqueKeys(source)
    requires j < |source| && source[j].value.Obj?
    ensures var k := source[j].key;
      var nested := FindMissingKeys(source[j].value.fields, Get(target, k));
      Lookup(FindMissingKeys(source, target), k) == if nested == [] then None else Some(Obj(nested))
  {
    LookupMissing(source, target, j);
  }

  lemma {:induction false} LookupMissing(source: seq<Field>, target: Option<Json>, j: nat)
    requires UniqueKeys(source)
    requires j < |source|
    ensures var k := source[j].key;
      var nested := if source[j].value.Obj? then FindMissingKeys(source[j].value.fields, Get(target, k)) else [];
      Lookup(FindMissingKeys(source, target), k) ==
        if source[j].value.Obj? then (if nested == [] then None else Some(Obj(nested)))
        else if Truthy(Get(target, k)) then None else Some(source[j].value)
  {
    var k := source[j].key;
    var rest := FindMissingKeys(source[1..], target);
    TailLacksHeadKey(source);
    if j == 0 {
      MissingKeysInSource(source[1..], target, k);
    } else {
      assert source[1..][j - 1] == source[j];
      assert source[0].key != k;
      LookupMissing(source[1..], target, j - 1);
    }
  }

  /** The missing tree never holds an empty object, however deep. */
  lemma {:induction false} MissingIsPruned(source: seq<Field>, target: Option<Json>)
    ensures Pruned(FindMissingKeys(source, target))
  {
    if source != [] {
      var f := source[0];
      var rest := FindMissingKeys(source[1..], target);
      var missing := FindMissingKeys(source, target);
      MissingIsPruned(source[1..], target);
      if missing != rest {
        assert forall j :: 0 < j < |missing| ==> missing[j] == rest[j - 1];
        if f.value.Obj? {
          MissingIsPruned(f.value.fields, Get(target, f.key));
        }
      }
    }
  }

  /**
   * Nothing is missing exactly when every leaf of the source has a truthy
   * counterpart at the same path in the target.
   */
  lemma {:induction false} NothingMissingIffSatisfied(source: seq<Field>, target: Option<Json>)
    ensures FindMissingKeys(source, target) == [] <==> Satisfied(source, target)
  {
    if FindMissingKeys(source, target) == [] {
      NothingMissingSatisfied(source, target);
    } else {
      var path, v := MissingWitness(source, target);
    }
  }

  lemma {:induction false} NothingMissingSatisfied(source: seq<Field>, target: Option<Json>)
    requires FindMissingKeys(source, target) == []
    ensures Satisfied(source, target)
    decreases source
  {
    forall path, v | LeafAt(source, path, v) ensures Truthy(At(target, path)) {
      var i :| 0 <= i < |source| && source[i].key == path[0] &&
        if source[i].value.Obj? then LeafAt(source[i].value.fields, path[1..], v)
        else |path| == 1 && source[i].value == v;
      EntrySatisfied(source, target, i);
      assert At(target, path) == At(Get(target, path[0]), path[1..]);
      if source[i].value.Obj? {
        NothingMissingSatisfied(source[i].value.fields, Get(target, path[0]));
      } else {
        assert path[1..] == [];
      }
    }
  }

  /** An empty missing tree means every single source entry is satisfied. */
  lemma {:induction false} EntrySatisfied(source: seq<Field>, target: Option<Json>, i: nat)
    requires FindMissingKeys(source, target) == []
    requires i < |source|
    ensures source[i].value.Obj? ==> FindMissingKeys(source[i].value.fields, Get(target, source[i].key)) == []
    ensures !source[i].value.Obj? ==> Truthy(Get(target, source[i].key))
  {
    if i > 0 {
      assert source[1..][i - 1] == source[i];
      EntrySatisfied(source[1..], target, i - 1);
    }
  }

  /** Conversely, when every source entry is satisfied nothing is missing. */
  lemma {:induction false} EntriesSatisfied(source: seq<Field>, target: Option<Json>)
    requires forall i :: 0 <= i < |source| ==>
      if source[i].value.Obj? then FindMissingKeys(source[i].value.fields, Get(target, source[i].key)) == []
      else Truthy(Get(target, source[i].key))
    ensures FindMissingKeys(source, target) == []
  {
    if source != [] {
      assert forall i :: 0 < i < |source| ==> source[i] == source[1..][i - 1];
      EntriesSatisfied(source[1..], target);
    }
  }

  lemma {:induction false} MissingWitness(source: seq<Field>, target: Option<Json>)
    returns (path: seq<string>, v: Json)
    requires FindMissingKeys(source, target) != []
    ensures LeafAt(source, path, v) && !Truthy(At(target, path))
    decreases source
  {
    var f := source[0];
    var targetValue := Get(target, f.key);
    if f.value.Obj? && FindMissingKeys(f.value.fields, targetValue) != [] {
      var p, w := MissingWitness(f.value.fields, targetValue);
      path, v := [f.key] + p, w;
      assert path[1..] == p;
    } else if !f.value.Obj? && !Truthy(targetValue) {
      path, v := [f.key], f.value;
    } else {
      path, v := MissingWitness(source[1..], target);
      var i :| 0 <= i < |source[1..]| && source[1..][i].key == path[0] &&
        if source[1..][i].value.Obj? then LeafAt(source[1..][i].value.fields, path[1..], v)
        else |path| == 1 && source[1..][i].value == v;
      assert source[i + 1] == source[1..][i];
    }
  }

  /** In a well-formed object, a leaf reached along a path is what property access along that path yields. */
  lemma {:induction false} LeafAtIsAt(fs: seq<Field>, path: seq<string>, v: Json)
    requires WellFormed(fs)
    requires LeafAt(fs, path, v)
    ensures At(Some(Obj(fs)), path) == Some(v)
    decreases fs
  {
    var i :| 0 <= i < |fs| && fs[i].key == path[0] &&
      if fs[i].value.Obj? then LeafAt(fs[i].value.fields, path[1..], v)
      else |path| == 1 && fs[i].value == v;
    LookupAt(fs, i);
    if fs[i].value.Obj? {
      LeafAtIsAt(fs[i].value.fields, path[1..], v);
    }
  }

  /**
   * Diffing a well-formed source against itself finds nothing missing when all
   * of its leaves are truthy.
   */
  lemma SelfDiffIsEmpty(source: seq<Field>)
    requires WellFormed(source)
    requires forall path, v :: LeafAt(source, path, v) ==> Truthy(Some(v))
    ensures FindMissingKeys(source, Some(Obj(source))) == []
  {
    forall path, v | LeafAt(source, path, v) ensures Truthy(At(Some(Obj(source)), path)) {
      LeafAtIsAt(source, path, v);
    }
    NothingMissingIffSatisfied(source, Some(Obj(source)));
  }

  /**
   * Against an absent target every leaf is missing: a source without empty
   * nested objects is its own missing tree.
   */
  lemma {:induction false} AllMissingAgainstAbsent(source: seq<Field>)
    requires Pruned(source)
    ensures FindMissingKeys(source, None) == source
  {
    if source != [] {
      assert Pruned(source[1..]) by {
        forall i | 0 <= i < |source[1..]| ensures source[1..][i] == source[i + 1] { }
      }
      AllMissingAgainstAbsent(source[1..]);
      if source[0].value.Obj? {
        AllMissingAgainstAbsent(source[0].value.fields);
      }
    }
  }

  /** Only the properties of the target matter: a non-object target behaves like `{}`. */
  lemma {:induction false} OnlyTargetFieldsMatter(source: seq<Field>, target: Option<Json>)
    ensures FindMissingKeys(source, target) == FindMissingKeys(source, Some(Obj(FieldsOf(target))))
  {
    if source != [] {
      OnlyTargetFieldsMatter(source[1..], target);
    }
  }
}
