/**
 * Merging translated entries into the existing translations of a language.
 * `Overlay` is the object spread `{...existing, ...translated}`: top level
 * only, translated values winning. `DeepMerge` is the recursive merge that
 * keeps previously translated siblings inside nested objects.
 */
module Merge {
  import opened Wrappers
  import opened JsonTree

  /** `obj[f.key] = f.value`: an existing key keeps its position and takes the new value; a new key is appended. */
  function Assign(fs: seq<Field>, f: Field): seq<Field> {
    if fs == [] then [f]
    else if fs[0].key == f.key then [f] + fs[1..]
    else [fs[0]] + Assign(fs[1..], f)
  }

  /** `{...existing, ...translated}`: the properties of `translated` assigned, in order, onto `existing`. */
  function Overlay(existing: seq<Field>, translated: seq<Field>): seq<Field>
    decreases |translated|
  {
    if translated == [] then existing
    else Overlay(Assign(existing, translated[0]), translated[1..])
  }

  lemma {:induction false} AssignLookup(fs: seq<Field>, f: Field, k: string)
    ensures Lookup(Assign(fs, f), k) == if k == f.key then Some(f.value) else Lookup(fs, k)
  {
    if fs != [] && fs[0].key != f.key {
      AssignLookup(fs[1..], f, k);
      assert Assign(fs, f)[1..] == Assign(fs[1..], f);
    }
  }

  lemma {:induction false} AssignKeepsKeyOrder(fs: seq<Field>, f: Field)
    ensures |Assign(fs, f)| >= |fs|
    ensures KeysOf(Assign(fs, f))[..|fs|] == KeysOf(fs)
    ensures UniqueKeys(fs) ==> UniqueKeys(Assign(fs, f))
  {
    var a := Assign(fs, f);
    if fs != [] && fs[0].key != f.key {
      AssignKeepsKeyOrder(fs[1..], f);
      assert forall i :: 0 < i < |a| ==> a[i] == Assign(fs[1..], f)[i - 1];
      assert forall i :: 0 < i < |fs| ==> fs[i] == fs[1..][i - 1];
      assert forall i :: 0 < i < |fs| ==> KeysOf(a)[i] == KeysOf(Assign(fs[1..], f))[i - 1];
      if UniqueKeys(fs) {
        assert UniqueKeys(fs[1..]);
        forall i | 0 < i < |a| ensures a[i].key != fs[0].key {
          AssignLookup(fs[1..], f, fs[0].key);
        }
      }
    } else if fs != [] {
      assert forall i :: 0 < i < |a| ==> a[i] == fs[i];
    }
    assert forall i :: 0 <= i < |fs| ==> KeysOf(a)[i] == KeysOf(fs)[i];
  }

  /**
   * The overlay holds every top-level key of both objects; a key of
   * `translated` takes its translated value, any other key keeps its
   * existing value.
   */
  lemma {:induction false} OverlayLookup(existing: seq<Field>, translated: seq<Field>, k: string)
    requires UniqueKeys(translated)
    ensures Lookup(Overlay(existing, translated), k) ==
      if HasKey(translated, k) then Lookup(translated, k) else Lookup(existing, k)
    ensures HasKey(Overlay(existing, translated), k) <==> HasKey(existing, k) || HasKey(translated, k)
    decreases |translated|
  {
    if translated != [] {
      var t := translated[0];
      assert UniqueKeys(translated[1..]);
      OverlayLookup(Assign(existing, t), translated[1..], k);
      AssignLookup(existing, t, k);
      assert forall i :: 0 < i < |translated| ==> translated[i] == translated[1..][i - 1];
      if k == t.key {
        assert !HasKey(translated[1..], k);
      }
    }
  }

  /** Existing keys keep their order at the front of the overlay, and keys stay unique. */
  lemma {:induction false} OverlayKeepsKeyOrder(existing: seq<Field>, translated: seq<Field>)
    ensures |Overlay(existing, translated)| >= |existing|
    ensures KeysOf(Overlay(existing, translated))[..|existing|] == KeysOf(existing)
    ensures UniqueKeys(existing) ==> UniqueKeys(Overlay(existing, translated))
    decreases |translated|
  {
    if translated != [] {
      var a := Assign(existing, translated[0]);
      AssignKeepsKeyOrder(existing, translated[0]);
      OverlayKeepsKeyOrder(a, translated[1..]);
      var r := Overlay(existing, translated);
      assert KeysOf(r)[..|existing|] == KeysOf(r)[..|a|][..|existing|];
    }
  }

  /** Assignment that merges an object into an existing object under the same key instead of replacing it. */
  function DeepAssign(fs: seq<Field>, f: Field): seq<Field>
    decreases f, fs
  {
    if fs == [] then [f]
    else if fs[0].key == f.key then
      var merged :=
        if fs[0].value.Obj? && f.value.Obj? then Field(f.key, Obj(DeepMerge(fs[0].value.fields, f.value.fields)))
        else f;
      [merged] + fs[1..]
    else [fs[0]] + DeepAssign(fs[1..], f)
  }

  /** Recursive merge: objects present on both sides are merged key by key, anything else is overlaid. */
  function DeepMerge(existing: seq<Field>, translated: seq<Field>): seq<Field>
    decreases translated, 0
  {
    if translated == [] then existing
    else DeepMerge(DeepAssign(existing, translated[0]), translated[1..])
  }

  /** The value a key ends up with when `incoming` is merged onto `current`. */
  function MergedValue(current: Option<Json>, incoming: Json): Json {
    if current.Some? && current.value.Obj? && incoming.Obj? then Obj(DeepMerge(current.value.fields, incoming.fields))
    else incoming
  }

  lemma {:induction false} DeepAssignLookup(fs: seq<Field>, f: Field, k: string)
    ensures Lookup(DeepAssign(fs, f), k) ==
      if k == f.key then Some(MergedValue(Lookup(fs, k), f.value)) else Lookup(fs, k)
  {
    if fs != [] && fs[0].key != f.key {
      DeepAssignLookup(fs[1..], f, k);
      assert DeepAssign(fs, f)[1..] == DeepAssign(fs[1..], f);
    }
  }

  /**
   * After a deep merge a key of `translated` holds its translated value,
   * merged recursively with the existing value when both are objects; every
   * other key keeps its existing value.
   */
  lemma {:induction false} DeepMergeLookup(existing: seq<Field>, translated: seq<Field>, k: string)
    requires UniqueKeys(translated)
    ensures Lookup(DeepMerge(existing, translated), k) ==
      if HasKey(translated, k) then Some(MergedValue(Lookup(existing, k), Lookup(translated, k).value))
      else Lookup(existing, k)
    decreases |translated|
  {
    if translated != [] {
      var t := translated[0];
      assert UniqueKeys(translated[1..]);
      DeepMergeLookup(DeepAssign(existing, t), translated[1..], k);
      DeepAssignLookup(existing, t, k);
      assert forall i :: 0 < i < |translated| ==> translated[i] == translated[1..][i - 1];
      if k == t.key {
        assert !HasKey(translated[1..], k);
      }
    }
  }

  lemma {:induction false} DeepMergeAppends(prefix: seq<Field>, translated: seq<Field>)
    requires UniqueKeys(translated)
    requires forall i :: 0 <= i < |translated| ==> !HasKey(prefix, translated[i].key)
    ensures DeepMerge(prefix, translated) == prefix + translated
    decreases |translated|
  {
    if translated != [] {
      var t := translated[0];
      DeepAssignAppends(prefix, t);
      assert forall i :: 0 < i < |translated| ==> translated[i] == translated[1..][i - 1];
      assert UniqueKeys(translated[1..]);
      forall i | 0 <= i < |translated[1..]| ensures !HasKey(prefix + [t], translated[1..][i].key) {
        assert translated[1..][i].key != t.key;
      }
      DeepMergeAppends(prefix + [t], translated[1..]);
      assert prefix + [t] + translated[1..] == prefix + translated;
    }
  }

  lemma {:induction false} DeepAssignAppends(fs: seq<Field>, f: Field)
    requires !HasKey(fs, f.key)
    ensures DeepAssign(fs, f) == fs + [f]
  {
    if fs != [] {
      assert !HasKey(fs[1..], f.key) by {
        forall i | 0 <= i < |fs[1..]| ensures fs[1..][i].key != f.key {
          assert fs[1..][i] == fs[i + 1];
        }
      }
      DeepAssignAppends(fs[1..], f);
    }
  }

  /** Merging into an empty object yields the translated object itself. */
  lemma DeepMergeIntoEmpty(translated: seq<Field>)
    requires UniqueKeys(translated)
    ensures DeepMerge([], translated) == translated
  {
    DeepMergeAppends([], translated);
  }
}
