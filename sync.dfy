/**
 * Processing of one target language: diff the source against the existing
 * translations, skip when nothing is missing, otherwise translate the
 * missing tree and write the merge of the existing translations with it.
 */
module Sync {
  import opened Wrappers
  import opened JsonTree
  import opened MissingKeys
  import opened TreeTranslator
  import opened Retry
  import opened Merge

  /** What happens to the language's file: left alone, or replaced by new contents. */
  datatype SyncOutcome = Skipped | Written(contents: seq<Field>)

  /**
   * The per-language step as written: the missing tree is computed against
   * the existing translations (`{}` when the file is absent), an empty one
   * means no write, and otherwise the translation is overlaid shallowly.
   * A translation failure propagates and nothing is written.
   */
  function SyncLanguage(source: seq<Field>, existing: seq<Field>, tr: Translator): Result<SyncOutcome, TranslationFailure> {
    var missing := FindMissingKeys(source, Some(Obj(existing)));
    if |missing| == 0 then Success(Skipped)
    else
      var translated :- TranslateNestedObject(missing, tr);
      Success(Written(Overlay(existing, translated)))
  }

  /** The same step with the recursive merge in place of the shallow overlay. */
  function SyncLanguageDeep(source: seq<Field>, existing: seq<Field>, tr: Translator): Result<SyncOutcome, TranslationFailure> {
    var missing := FindMissingKeys(source, Some(Obj(existing)));
    if |missing| == 0 then Success(Skipped)
    else
      var translated :- TranslateNestedObject(missing, tr);
      Success(Written(DeepMerge(existing, translated)))
  }

  /** The file's contents after a run: the new contents when written, the old ones otherwise. */
  function FileAfter(existing: seq<Field>, r: Result<SyncOutcome, TranslationFailure>): seq<Field> {
    if r.Success? && r.value.Written? then r.value.contents else existing
  }

  /** The language is skipped exactly when every source leaf already has a truthy translation. */
  lemma SkippedIffComplete(source: seq<Field>, existing: seq<Field>, tr: Translator)
    ensures SyncLanguage(source, existing, tr) == Success(Skipped) <==> Satisfied(source, Some(Obj(existing)))
  {
    NothingMissingIffSatisfied(source, Some(Obj(existing)));
  }

  /**
   * The step fails exactly when the leaf translator fails on a string of the
   * missing tree, with the error of the first such string; then no file is written.
   */
  lemma SyncFailsIff(source: seq<Field>, existing: seq<Field>, tr: Translator)
    ensures ErrorOf(SyncLanguage(source, existing, tr)) ==
      FirstError(StringLeaves(FindMissingKeys(source, Some(Obj(existing)))), tr)
  {
    WalkFailsAtFirstFailure(FindMissingKeys(source, Some(Obj(existing))), tr);
  }

  /**
   * A write keeps every existing top-level key, leaves the value of every key
   * that was not missing untouched, and puts the translation of the missing
   * value under every missing key.
   */
  lemma WrittenContents(source: seq<Field>, existing: seq<Field>, tr: Translator, contents: seq<Field>, k: string)
    requires UniqueKeys(source)
    requires SyncLanguage(source, existing, tr) == Success(Written(contents))
    ensures HasKey(existing, k) ==> HasKey(contents, k)
    ensures var missing := FindMissingKeys(source, Some(Obj(existing)));
      if HasKey(missing, k) then Lookup(contents, k).Some? && ValueTranslated(Lookup(missing, k).value, Lookup(contents, k).value, tr)
      else Lookup(contents, k) == Lookup(existing, k)
  {
    var missing := FindMissingKeys(source, Some(Obj(existing)));
    var translated := TranslateNestedObject(missing, tr).value;
    WalkSpec(missing, translated, tr);
    MissingUniqueKeys(source, Some(Obj(existing)));
    OverlayLookup(existing, translated, k);
    TranslatedLookup(missing, translated, tr, k);
  }

  /** Every number, boolean and null at any depth under the properties is truthy. */
  predicate TruthyScalars(fs: seq<Field>)
    decreases fs
  {
    forall i :: 0 <= i < |fs| ==>
      match fs[i].value
      case Obj(sub) => TruthyScalars(sub)
      case Str(_) => true
      case Arr(_) => true
      case _ => Truthy(Some(fs[i].value))
  }

  /** The leaf translator never succeeds with an empty string. */
  ghost predicate NonEmptyTranslations(tr: Translator) {
    forall s :: tr(s).Success? ==> tr(s).value != ""
  }

  /**
   * Deep-merging the translation of the missing tree into the existing
   * translations leaves nothing missing.
   */
  lemma {:induction false} DeepMergeCompletes(source: seq<Field>, existing: seq<Field>, translated: seq<Field>, tr: Translator)
    requires WellFormed(source) && TruthyScalars(source) && NonEmptyTranslations(tr)
    requires FieldsTranslated(FindMissingKeys(source, Some(Obj(existing))), translated, tr)
    ensures FindMissingKeys(source, Some(Obj(DeepMerge(existing, translated)))) == []
    decreases source
  {
    var missing := FindMissingKeys(source, Some(Obj(existing)));
    var merged := DeepMerge(existing, translated);
    MissingWellFormed(source, Some(Obj(existing)));
    forall i | 0 <= i < |source|
      ensures if source[i].value.Obj? then FindMissingKeys(source[i].value.fields, Get(Some(Obj(merged)), source[i].key)) == []
              else Truthy(Get(Some(Obj(merged)), source[i].key))
    {
      var k := source[i].key;
      DeepMergeLookup(existing, translated, k);
      TranslatedLookup(missing, translated, tr, k);
      match source[i].value
      case Obj(sub) =>
        NestedMissingIff(source, Some(Obj(existing)), i);
        var nested := FindMissingKeys(sub, Lookup(existing, k));
        if nested != [] {
          var out := Lookup(translated, k).value;
          assert ValueTranslated(Obj(nested), out, tr);
          var inner := FieldsOf(Lookup(existing, k));
          OnlyTargetFieldsMatter(sub, Lookup(existing, k));
          DeepMergeCompletes(sub, inner, out.fields, tr);
          MissingWellFormed(sub, Lookup(existing, k));
          if !(Lookup(existing, k).Some? && Lookup(existing, k).value.Obj?) {
            DeepMergeIntoEmpty(out.fields);
          }
          assert Lookup(merged, k) == Some(Obj(DeepMerge(inner, out.fields)));
        }
      case _ =>
        LeafMissingIff(source, Some(Obj(existing)), i);
    }
    EntriesSatisfied(source, Some(Obj(merged)));
  }

  /**
   * With the recursive merge, running the step a second time on the file the
   * first run left behind skips the language: nothing is missing any more,
   * provided the translator never yields an empty string and the source has
   * no falsy number, boolean or null.
   */
  lemma DeepSyncIdempotent(source: seq<Field>, existing: seq<Field>, tr: Translator)
    requires WellFormed(source) && TruthyScalars(source) && NonEmptyTranslations(tr)
    requires SyncLanguageDeep(source, existing, tr).Success?
    ensures SyncLanguageDeep(source, FileAfter(existing, SyncLanguageDeep(source, existing, tr)), tr) == Success(Skipped)
  {
    var missing := FindMissingKeys(source, Some(Obj(existing)));
    if missing != [] {
      var translated := TranslateNestedObject(missing, tr).value;
      WalkSpec(missing, translated, tr);
      DeepMergeCompletes(source, existing, translated, tr);
    }
  }

  /**
   * With the shallow overlay, a source without nested objects is complete
   * after one successful run: the second run skips the language.
   */
  lemma FlatSyncIdempotent(source: seq<Field>, existing: seq<Field>, tr: Translator)
    requires UniqueKeys(source) && TruthyScalars(source) && NonEmptyTranslations(tr)
    requires forall i :: 0 <= i < |source| ==> !source[i].value.Obj?
    requires SyncLanguage(source, existing, tr).Success?
    ensures SyncLanguage(source, FileAfter(existing, SyncLanguage(source, existing, tr)), tr) == Success(Skipped)
  {
    var missing := FindMissingKeys(source, Some(Obj(existing)));
    if missing != [] {
      var translated := TranslateNestedObject(missing, tr).value;
      var merged := Overlay(existing, translated);
      WalkSpec(missing, translated, tr);
      MissingUniqueKeys(source, Some(Obj(existing)));
      forall i | 0 <= i < |source| ensures Truthy(Get(Some(Obj(merged)), source[i].key)) {
        var k := source[i].key;
        OverlayLookup(existing, translated, k);
        TranslatedLookup(missing, translated, tr, k);
        LeafMissingIff(source, Some(Obj(existing)), i);
      }
      EntriesSatisfied(source, Some(Obj(merged)));
    }
  }

  /**
   * As written, the shallow overlay replaces a whole nested object: the
   * sibling "a" translated earlier is lost, and the next run translates "a"
   * again while losing "b", so the file never settles.
   */
  lemma ShallowMergeDropsNestedSibling()
    ensures var source := [Field("nested", Obj([Field("a", Str("A")), Field("b", Str("B"))]))];
      var existing := [Field("nested", Obj([Field("a", Str("x"))]))];
      var tr: Translator := s => Success(s);
      var first := [Field("nested", Obj([Field("b", Str("B"))]))];
      && SyncLanguage(source, existing, tr) == Success(Written(first))
      && SyncLanguage(source, first, tr) == Success(Written([Field("nested", Obj([Field("a", Str("A"))]))]))
  {
    var a, b := Field("a", Str("A")), Field("b", Str("B"));
    var source := [Field("nested", Obj([a, b]))];
    var existing := [Field("nested", Obj([Field("a", Str("x"))]))];
    var tr: Translator := s => Success(s);
    var first := [Field("nested", Obj([b]))];
    var second := [Field("nested", Obj([a]))];
    assert [a, b][1..] == [b] && [b][1..] == [] && [a][1..] == [];
    assert FindMissingKeys([a, b], Some(Str("x"))) == [a, b];
    assert FindMissingKeys([a, b], Some(Obj([Field("a", Str("x"))]))) == [b];
    assert FindMissingKeys(source, Some(Obj(existing))) == first;
    assert TranslateNestedObject([b], tr) == Success([b]);
    assert TranslateNestedObject(first, tr) == Success(first);
    assert first[1..] == [] && existing[1..] == [];
    assert Assign(existing, first[0]) == first;
    assert Overlay(existing, first) == first;
    assert FindMissingKeys([a, b], Some(Obj([b]))) == [a];
    assert FindMissingKeys(source, Some(Obj(first))) == second;
    assert TranslateNestedObject([a], tr) == Success([a]);
    assert TranslateNestedObject(second, tr) == Success(second);
  }

  /** The recursive merge keeps the earlier sibling and adds the missing one. */
  lemma DeepMergeKeepsNestedSibling()
    ensures var source := [Field("nested", Obj([Field("a", Str("A")), Field("b", Str("B"))]))];
      var existing := [Field("nested", Obj([Field("a", Str("x"))]))];
      var tr: Translator := s => Success(s);
      SyncLanguageDeep(source, existing, tr) ==
        Success(Written([Field("nested", Obj([Field("a", Str("x")), Field("b", Str("B"))]))]))
  {
    var x, b := Field("a", Str("x")), Field("b", Str("B"));
    var source := [Field("nested", Obj([Field("a", Str("A")), b]))];
    var existing := [Field("nested", Obj([x]))];
    var tr: Translator := s => Success(s);
    var first := [Field("nested", Obj([b]))];
    assert [Field("a", Str("A")), b][1..] == [b] && [b][1..] == [] && [x][1..] == [];
    assert FindMissingKeys([Field("a", Str("A")), b], Some(Obj([x]))) == [b];
    assert FindMissingKeys(source, Some(Obj(existing))) == first;
    assert TranslateNestedObject([b], tr) == Success([b]);
    assert TranslateNestedObject(first, tr) == Success(first);
    assert DeepAssign([x], b) == [x, b];
    assert DeepMerge([x], [b]) == [x, b];
    assert DeepAssign(existing, first[0]) == [Field("nested", Obj([x, b]))];
  }

  /** A flat overlay adds the new key after the existing ones and changes nothing else. */
  lemma OverlayAddsNewKey()
    ensures Overlay([Field("a", Str("1")), Field("b", Str("2"))], [Field("c", Str("3"))]) ==
      [Field("a", Str("1")), Field("b", Str("2")), Field("c", Str("3"))]
  {
  }

  /**
   * A language whose file already holds "greeting" gets only the nested
   * "bye" translated and written next to it.
   */
  lemma GreetingScenario()
    ensures var source := [Field("greeting", Str("Hello")), Field("nested", Obj([Field("bye", Str("Goodbye"))]))];
      var existing := [Field("greeting", Str("Hola"))];
      var tr: Translator := s => if s == "Goodbye" then Success("GOODBYE-ES") else Failure(TranslationFailure(s, DefaultRetryCount));
      && FindMissingKeys(source, Some(Obj(existing))) == [Field("nested", Obj([Field("bye", Str("Goodbye"))]))]
      && SyncLanguage(source, existing, tr) ==
        Success(Written([Field("greeting", Str("Hola")), Field("nested", Obj([Field("bye", Str("GOODBYE-ES"))]))]))
  {
    var bye := Field("bye", Str("Goodbye"));
    var hola := Field("greeting", Str("Hola"));
    var nested := Field("nested", Obj([bye]));
    var source := [Field("greeting", Str("Hello")), nested];
    var existing := [hola];
    var tr: Translator := s => if s == "Goodbye" then Success("GOODBYE-ES") else Failure(TranslationFailure(s, DefaultRetryCount));
    var done := Field("nested", Obj([Field("bye", Str("GOODBYE-ES"))]));
    assert source[1..] == [nested] && [bye][1..] == [] && [nested][1..] == [] && existing[1..] == [];
    assert "greeting" != "nested";
    assert Lookup(existing, "nested") == None;
    assert FindMissingKeys([bye], None) == [bye];
    assert FindMissingKeys([nested], Some(Obj(existing))) == [nested];
    assert FindMissingKeys(source, Some(Obj(existing))) == [nested];
    assert tr("Goodbye") == Success("GOODBYE-ES");
    assert TranslateValue(Str("Goodbye"), tr) == Success(Str("GOODBYE-ES"));
    assert TranslateNestedObject([], tr) == Success([]);
    var byeEs := Field("bye", Str("GOODBYE-ES"));
    assert [byeEs] + [] == [byeEs] && [done] + [] == [done];
    assert TranslateNestedObject([bye], tr) == Success([byeEs]);
    assert TranslateValue(Obj([bye]), tr) == Success(Obj([byeEs]));
    assert TranslateNestedObject([nested], tr) == Success([done]);
    assert Assign(existing, done) == [hola, done];
  }
}
