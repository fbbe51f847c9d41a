# translator-cli: a verified model of the localisation sync core

translator-cli keeps one JSON translation file per target language in step
with a source-language JSON dictionary. For each language it finds the
entries of the source that are missing or falsy in the language's file. When
nothing is missing, it leaves the file alone. Otherwise it machine-translates
just those entries, with a retrying leaf translator, and writes the existing
translations overlaid with the new ones.

This project models that core in Dafny, in the source's own form:

- `JsonTree` (json.dfy): parsed JSON values. An object is the sequence of its
  own properties in enumeration order. The module also defines property
  access (`Lookup`, `Get`) and JavaScript truthiness (`Truthy`). A missing key
  (`undefined`), `""`, `0`, `false` and `null` are falsy; arrays and objects are
  always truthy. A target that is not an object has no keys.
- `MissingKeys` (missing_keys.dfy): `FindMissingKeys`, the structural diff
  driven by the source. The module also gives a path-based reading of
  "every source leaf already has a truthy translation" (`Satisfied`).
- `TreeTranslator` (tree_translator.dfy): `TranslateNestedObject`, the
  shape-preserving walk. It uses an abstract leaf translator
  `string -> Result<string, TranslationFailure>`. It is specified by the
  relation `FieldsTranslated` and, for failures, by `FirstError`, the error
  of the first failing string in walk order.
- `Retry` (retry.dfy): `TranslateSingle`, the bounded retry loop with
  exponential backoff, as a method with a `while` loop. The translation
  service is a function from the attempt number to that attempt's outcome.
  The waits are returned as a ghost log of values.
- `Merge` (merge.dfy): `Overlay` is the object spread
  `{...existing, ...translated}`. Each translated property is assigned in
  place if its key exists and appended if not. `DeepMerge` is the corrected,
  recursive merge (see Findings).
- `Sync` (sync.dfy): `SyncLanguage`, the skip-or-translate-and-merge step for
  one language, as written. `SyncLanguageDeep` is the same step with the
  recursive merge. The module proves what the step writes, when it skips and
  when it fails.

The HTTP service, the file system and the clock are inputs. The leaf
translator and the per-attempt outcomes are parameters. The existing file
contents are a parameter, with `{}` for an absent file. The waits are values.

## Model

| member | source | states |
|---|---|---|
| `JsonTree.Lookup` | src/index.js:86 | property access finds a value exactly when the object has a property with that key |
| `JsonTree.LookupAt` | src/index.js:86 | in an object with unique keys, `obj[key]` of the i-th property's key is that property's value |
| `JsonTree.LookupFound` | src/index.js:86 | a value found by property access is the value of a property carrying that key |
| `MissingKeys.FindMissingKeys` | src/index.js:80-102 | the missing tree has no more entries than the source object |
| `MissingKeys.MissingEntryFromSource` | src/index.js:83-97 | every missing entry comes from a source entry with the same key. A non-object entry is copied verbatim and its target value is falsy. An object entry is the non-empty missing tree of the source object against the target's value at that key |
| `MissingKeys.MissingKeysInSource` | src/index.js:83-97 | every key of the missing tree is a key of the source |
| `MissingKeys.MissingUniqueKeys` | src/index.js:80-102 | unique source keys give unique keys in the missing tree |
| `MissingKeys.MissingWellFormed` | src/index.js:80-102 | unique keys at every level of the source give unique keys at every level of the missing tree |
| `MissingKeys.LeafMissingIff` | src/index.js:94-97 | a non-object source value at key K is in the missing tree, verbatim, if and only if `target[K]` is falsy (absent, `""`, 0, false or null) |
| `MissingKeys.NestedMissingIff` | src/index.js:88-93 | a nested source object at key K is in the missing tree if and only if its own missing tree against `target[K]` is non-empty, and then as that missing tree |
| `MissingKeys.MissingIsPruned` | src/index.js:88-93 | the missing tree never holds an empty object at any depth |
| `MissingKeys.NothingMissingIffSatisfied` | src/index.js:80-102 | the result is `{}` if and only if every leaf path of the source has a truthy value at the same path in the target |
| `MissingKeys.SelfDiffIsEmpty` | src/index.js:80-102 | diffing a well-formed source whose leaves are all truthy against itself yields `{}` |
| `MissingKeys.AllMissingAgainstAbsent` | src/index.js:83-97 | against an absent target, a source without empty nested objects is its own missing tree |
| `MissingKeys.OnlyTargetFieldsMatter` | src/index.js:86 | a target that is not an object behaves exactly like `{}` |
| `MissingKeys.EntrySatisfied` | src/index.js:83-97 | when nothing is missing, every source entry is satisfied: a leaf has a truthy target value and a nested object has an empty missing tree |
| `MissingKeys.EntriesSatisfied` | src/index.js:83-97 | when every source entry is satisfied, nothing is missing |
| `MissingKeys.LeafAtIsAt` | src/index.js:86 | in a well-formed object, the leaf reached along a key path is what property access along that path yields |
| `Retry.TranslateSingle` | src/index.js:53-76 | it succeeds if and only if some attempt within the budget of `retryCount` succeeds. At most `retryCount` attempts are made, and each attempt is made only after all earlier ones failed. The result is the text of the first successful attempt. After `retryCount` failures it raises the failure naming the text and the attempt count. The wait before attempt k+1 is `delay0 * 2^(k-1)`, and there is no wait after the last attempt |
| `TreeTranslator.WalkSpec` | src/index.js:129-148 | the walk succeeds with `out` if and only if `out` has the same keys in the same order, with each string translated, each array translated element-wise, nested objects translated recursively and every other value unchanged |
| `TreeTranslator.ValueSpec` | src/index.js:134-144 | one property value translates to `out` if and only if `out` is its translation by kind: string, array, object, other |
| `TreeTranslator.ItemsSpec` | src/index.js:136-139 | an array translates to `out` if and only if `out` has the same length, its strings are translated and its other elements are unchanged |
| `TreeTranslator.WalkFailsAtFirstFailure` | src/index.js:132-141 | the walk fails if and only if the leaf translator fails on some string it reaches. It then fails with the error of the first such string and yields no tree |
| `TreeTranslator.ValueFailsAtFirstFailure` | src/index.js:134-144 | one value's translation fails exactly with the error of its first failing string |
| `TreeTranslator.ItemsFailAtFirstFailure` | src/index.js:137-139 | an array translation fails exactly with the error of its first failing string element |
| `TreeTranslator.FirstErrorIsFirst` | src/index.js:132-145 | the reference `FirstError` is none exactly when every string translates. Otherwise it is the error of a failing string preceded only by successes |
| `TreeTranslator.TranslatedLookup` | src/index.js:132-147 | a translated object has a key exactly when the original has it, and the value there is the translation of the original value |
| `TreeTranslator.TranslationKeepsKeys` | src/index.js:132-147 | a translation keeps the key sequence, so it keeps unique keys |
| `Merge.AssignLookup` | src/index.js:123 | assigning one property changes the value of that key only |
| `Merge.OverlayLookup` | src/index.js:123 | `{...existing, ...translated}` holds every top-level key of both. A key of `translated` takes the translated value, and every other key keeps its existing value |
| `Merge.OverlayKeepsKeyOrder` | src/index.js:123 | existing keys keep their order at the front of the overlay, and unique keys stay unique |
| `Merge.DeepMergeLookup` | src/index.js:123 | after the recursive merge, a translated key holds its value merged with the existing object when both are objects, and replaces it otherwise. Every other key keeps its existing value |
| `Merge.DeepMergeIntoEmpty` | src/index.js:105 | merging into the empty object of an absent file yields the translated object |
| `Sync.SkippedIffComplete` | src/index.js:113-118 | a language is skipped, with no write, if and only if every source leaf already has a truthy value at its path in the existing file |
| `Sync.SyncFailsIff` | src/index.js:120 | the step fails, with no write, exactly when a string of the missing tree fails to translate, and with the first such error |
| `Sync.WrittenContents` | src/index.js:113-125 | a written file keeps every existing top-level key and leaves every key that was not missing untouched. Under every missing key it holds the translation of the missing value |
| `Sync.FlatSyncIdempotent` | src/index.js:113-123 | for a source without nested objects, a second run after a successful one skips the language |
| `Sync.ShallowMergeDropsNestedSibling` | src/index.js:123 | as written, the shallow overlay loses a previously translated sibling inside a nested object, and the next run loses the other sibling |
| `Sync.DeepMergeCompletes` | src/index.js:120-123 | deep-merging the translation of the missing tree into the existing translations leaves nothing missing |
| `Sync.DeepSyncIdempotent` | src/index.js:113-123 | with the recursive merge, a second run after a successful one skips the language. This assumes the translator never returns `""` and the source has no falsy number, boolean or null |
| `Sync.DeepMergeKeepsNestedSibling` | src/index.js:123 | on the same input, the recursive merge keeps the earlier sibling and adds the missing one |
| `Sync.OverlayAddsNewKey` | src/index.js:123 | existing `{"a":"1","b":"2"}` overlaid with `{"c":"3"}` is exactly `{"a":"1","b":"2","c":"3"}` |
| `Sync.GreetingScenario` | src/index.js:104-127 | with source `{"greeting":"Hello","nested":{"bye":"Goodbye"}}` and existing `{"greeting":"Hola"}`, the missing tree is `{"nested":{"bye":"Goodbye"}}` and the file written is `{"greeting":"Hola","nested":{"bye":"GOODBYE-ES"}}` |

## Findings

| source | as written | input that shows it | evidently intended | confidence | as-written member | corrected member |
|---|---|---|---|---|---|---|
| src/index.js:123 | `{...existing, ...translated}` replaces a whole top-level value, so a nested object of the missing tree overwrites the existing nested object | source `{"nested":{"a":"A","b":"B"}}`, existing `{"nested":{"a":"x"}}`: the file becomes `{"nested":{"b":"B"}}`. The next run writes `{"nested":{"a":"A"}}`, and the file never settles | new translations merged into the existing ones at every depth, so that a second run finds nothing missing | medium, not executed | `Sync.ShallowMergeDropsNestedSibling` | `Sync.DeepSyncIdempotent` |

`SyncLanguage` keeps the overlay as written. `SyncLanguageDeep` is the
corrected step. It uses `Merge.DeepMerge`, and `Sync.DeepMergeKeepsNestedSibling`
shows the corrected result on the same input.

## Left out

- The HTTP call to the translation service is left out, with its request parameters, headers and response shape. Each attempt is an abstract outcome `Option<string>`. A response that parses but carries no text, which the source would return as `undefined`, is not modelled.
- Reading and writing files, `JSON.parse`, `JSON.stringify` and the 2-space pretty-printing are left out. The existing file is given as an object, `{}` when absent. A file whose content is not a JSON object is not modelled.
- Loading the configuration by `require` and creating the default configuration file are left out. They are I/O and dynamic code loading.
- `sleep`/`setTimeout` are left out: the waits are recorded as values, not slept.
- `Promise.all` concurrency is modelled sequentially. The array elements are translated in index order, and the first failure in index order is the one reported. With real concurrency, the rejection that settles first is reported, and every element's request is issued even after one fails.
- Console logging is left out.
- The `translateAllKeys` and `translateForAllLanguages` drivers, which loop over the configured languages, are left out. So is bin/translator.js, which only spawns the main script. The per-language step is `Sync.SyncLanguage`.
- Retry.TranslateSingle: requires `retryCount >= 1`. With 0 the source's loop never runs and the function resolves to `undefined`. Every call site uses the default of 3.
- JavaScript enumerates integer-like keys before other keys. The model enumerates properties in the order of the sequence.
- Property access sees only own properties. Inherited members of `Object.prototype` are not modelled. For example, `target["constructor"]` is truthy in the source even when the file lacks that key. So are a source key named `hasOwnProperty` or `__proto__`.
- Indexing a string or array target by a key (for example `"abc"["0"]`) is not modelled: a target that is not an object has no keys.
- A source that is not an object at the top level is not modelled.
- Numbers are reals. JSON has no NaN or infinities, and a number is falsy exactly when it is zero.
- Duplicate keys in one object are not modelled: `JSON.parse` keeps the last one, while `Lookup` returns the first. The lemmas that depend on this assume unique keys (`UniqueKeys`, `WellFormed`).
