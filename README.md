# Website search index documents, in Dafny

This project models how OroCommerce's website search builds the documents it stores,
following `IndexDataProvider::prepareIndexData` and its private helpers. Listeners
hand over raw values per entity and field. The builder turns them into the stored
document `entity id -> field type -> field name -> value`. Along the way it does
the following:

- It looks up each field's type in the entity config. A field matches by exact name
  or by a placeholder pattern, and answers found in the config are memoized.
- It collects text marked `all_text` into the default all-text field. A
  placeholder (localized) value goes into the localized all-text field instead.
- It merges repeated values. Two text strings are joined with a space. Anything
  else becomes a list of distinct elements, old ones first.
- It drops empty values.
- It strips HTML only from text values of fields whose name starts with `all_text`.
- It cross-merges the default and the localized all-text fields.
- Finally, it keeps each word once in every text field whose name starts with
  `all_text`.

## Files

- `php.dfy` (module `Php`): the PHP values and the built-ins the builder relies
  on. These are truthiness, the `(string)` and `(array)` casts,
  `strpos(...) === 0`, `array_values(array_unique(...))`, and `explode` and
  `implode` on a single space. It also holds their lemmas: the first-seen order of
  `array_unique`, the round trips of `explode` and `implode`, and more.
- `search_index.dfy` (module `SearchIndex`): the data model and one function for
  each step, which says what that step computes. `Prepared` is
  `prepareIndexData` as a function of its inputs.
- `index_data_provider.dfy` (module `Engine`): the class `IndexDataProvider`.
  It has the injected services and the mutable `cache` field. Its methods are the
  source's loops and in-place updates, and each one is proved to compute its
  function in `SearchIndex`. `Valid()` says that every cached answer is what a
  fresh lookup gives, and every method that touches the cache keeps it.
  `prepareIndexData` is written as one method per loop nest:
  - `CollectRecords`, the record loop;
  - `CollectFields`, the field loop;
  - `MergeAllTextFields`, the cross-merge;
  - `FinishEntity`, the end of the entity loop;
  - `PrepareIndexData`, the entity loop, which calls the others.

  `AddRecord` is the body of the record loop.
- `index_properties.dfy` (module `IndexProperties`): the properties that span
  several steps:
  - squashing is idempotent;
  - a field without a type makes the batch fail;
  - a field named after the all-text field is only collected;
  - the all-text names of an entity have no repeats;
  - the exact effect of the cross-merge.
- `index_examples.dfy` (module `IndexExamples`): worked instances. Their services
  (`Plainly`) match no pattern and leave HTML alone. Placeholder replacement leaves
  every name unchanged except one: given non-empty placeholders, it turns
  `all_text_LOCALIZATION_ID` into `all_text_1`.

The methods of `IndexDataProvider` and the functions of `SearchIndex` overlap on
purpose. `SetIndexValue`, `AddRecord` and `FinishEntity` do in place what
`WithIndexValue`, `RecordStep` and `EntityEnd` state as values. Each method is
proved to compute its function. The lemmas about the whole batch are stated on
the functions.

The injected services are parameters of type `Collaborators`. They are
placeholder replacement (`PlaceholderInterface::replace`), pattern matching
(`PlaceholderHelper::isNameMatch`) and the HTML helpers
(`HtmlTagHelper::stripTags` and `stripLongWords`). Their code is not part of this
model, so they are uninterpreted functions.

Two details of the code matter:

- **The cross-merge at lines 156-163 appends; it is not a swap.** The default
  all-text field gets the current value of each localized all-text field appended.
  Each localized field gets appended the value the default field held before the
  loop. `IndexProperties.CrossMergeDefault` and
  `IndexProperties.CrossMergeLocalized` state the effect, and
  `IndexExamples.CrossMergeAppends` shows "Blue" and "Bleu" becoming "Blue Bleu"
  and "Bleu Blue".
- **There are two prefixes.** Line 149 tests a field name against the
  *configured* all-text name (`names.default` in `RecordStep`). Lines 202 and 346
  test the literal `"all_text"` (`ALL_TEXT_FIELD` in `SquashedEntry` and
  `Cleared`).

## Model

| member | source | states |
|---|---|---|
| Php.Unique | src/Oro/Bundle/WebsiteSearchBundle/Engine/IndexDataProvider.php:261 | `array_values(array_unique(xs))` has no repeats |
| Php.UniqueMembers | src/Oro/Bundle/WebsiteSearchBundle/Engine/IndexDataProvider.php:261 | de-duplicating keeps exactly the elements of the input: none lost, none added |
| Php.UniqueKeepsFirstSeenOrder | src/Oro/Bundle/WebsiteSearchBundle/Engine/IndexDataProvider.php:261 | the kept elements are in the order of their first occurrences in the input |
| Php.UniqueAppend | src/Oro/Bundle/WebsiteSearchBundle/Engine/IndexDataProvider.php:261 | de-duplicating `a + b` gives the distinct elements of `a`, then those of `b` not in `a` |
| Php.Absent | src/Oro/Bundle/WebsiteSearchBundle/Engine/IndexDataProvider.php:261 | the elements of `b` that are not in `a`, and only those |
| Php.UniqueOfDistinct | src/Oro/Bundle/WebsiteSearchBundle/Engine/IndexDataProvider.php:245 | a list without repeats is unchanged by `array_unique` |
| Php.AsArray | src/Oro/Bundle/WebsiteSearchBundle/Engine/IndexDataProvider.php:261 | definition of the `(array)` cast (a list as it is, a scalar as a one-element list, null as the empty list); used by `IndexProperties.UpdateFieldValueMembers` |
| Php.Explode | src/Oro/Bundle/WebsiteSearchBundle/Engine/IndexDataProvider.php:245 | `explode(' ', s)` gives at least one piece and no piece contains a space |
| Php.ImplodeExplode | src/Oro/Bundle/WebsiteSearchBundle/Engine/IndexDataProvider.php:245 | joining the pieces of a string with spaces gives the string back |
| Php.ExplodeImplode | src/Oro/Bundle/WebsiteSearchBundle/Engine/IndexDataProvider.php:245 | splitting a space-join of space-free words gives the words back |
| SearchIndex.MatchingFields | src/Oro/Bundle/WebsiteSearchBundle/Engine/IndexDataProvider.php:293-305 | the filtered entries all match, and none is left exactly when no entry matches |
| SearchIndex.LastOfMatchingFields | src/Oro/Bundle/WebsiteSearchBundle/Engine/IndexDataProvider.php:293-320 | the last entry the filter keeps (`end($fields)`) is a matching entry with no match after it |
| SearchIndex.LastMatch | src/Oro/Bundle/WebsiteSearchBundle/Engine/IndexDataProvider.php:293-322 | None exactly when no entry matches; otherwise the option of a matching entry after which nothing matches |
| SearchIndex.ResolveFieldConfig | src/Oro/Bundle/WebsiteSearchBundle/Engine/IndexDataProvider.php:285-327 | the last match's option when there is one; with no match, a truthy default; with neither, 'text' for 'type' and the field's own name for 'name' when the field is one of the two all-text fields; it fails exactly when none of these applies, and then with the "Missing option" error |
| Engine.IndexDataProvider.constructor | src/Oro/Bundle/WebsiteSearchBundle/Engine/IndexDataProvider.php:53-65 | the services are stored and the cache starts empty and consistent |
| Engine.IndexDataProvider.GetFieldConfig | src/Oro/Bundle/WebsiteSearchBundle/Engine/IndexDataProvider.php:285-327 | cached or not, the answer is `ResolveFieldConfig`; only an answer taken from a matching entry is added to the cache, and the cache stays consistent |
| SearchIndex.ToArray | src/Oro/Bundle/WebsiteSearchBundle/Engine/IndexDataProvider.php:185-192 | definition (a list of records as it is, a single record as a one-element list); used by `SearchIndex.RecordsFrom` and `IndexProperties.FieldsFromFailsIff` |
| SearchIndex.ValueOrEmpty | src/Oro/Bundle/WebsiteSearchBundle/Engine/IndexDataProvider.php:273-274 | the result is never null, and any result other than `''` is the stored value itself |
| SearchIndex.GetIndexValue | src/Oro/Bundle/WebsiteSearchBundle/Engine/IndexDataProvider.php:271-275 | a stored value other than null is returned as it is; a missing entry and a null one read as `''` |
| SearchIndex.Cleared | src/Oro/Bundle/WebsiteSearchBundle/Engine/IndexDataProvider.php:337-352 | a list is cleared element by element, keeping its length; other values are stripped of tags and then of long words when the type is text and the name starts with "all_text", and are otherwise unchanged |
| Engine.IndexDataProvider.ClearValue | src/Oro/Bundle/WebsiteSearchBundle/Engine/IndexDataProvider.php:337-352 | the in-place loop over a list, recursing into its elements, computes `Cleared` |
| IndexProperties.UpdateFieldValueMerges | src/Oro/Bundle/WebsiteSearchBundle/Engine/IndexDataProvider.php:254-262 | two strings of a text field give `existing + " " + new`; otherwise the distinct old elements followed by the distinct new ones not already present |
| IndexProperties.UpdateFieldValueMembers | src/Oro/Bundle/WebsiteSearchBundle/Engine/IndexDataProvider.php:261 | outside the text case the result is a list with no repeats that holds exactly the elements of both sides |
| IndexProperties.UpdateAllTextSplits | src/Oro/Bundle/WebsiteSearchBundle/Engine/IndexDataProvider.php:239-246 | splitting the result on spaces gives the de-duplicated words of the value, a list being joined with spaces first |
| IndexProperties.UpdateAllTextWords | src/Oro/Bundle/WebsiteSearchBundle/Engine/IndexDataProvider.php:239-246 | in the result no word repeats, no word of the input is lost or added, and the words keep the order of their first occurrences |
| IndexProperties.UpdateAllTextIdempotent | src/Oro/Bundle/WebsiteSearchBundle/Engine/IndexDataProvider.php:239-246 | applying updateAllTextFieldValue to its own result changes nothing |
| SearchIndex.WithIndexValue | src/Oro/Bundle/WebsiteSearchBundle/Engine/IndexDataProvider.php:218-232 | an empty cleared value (null, '' or []) leaves the index unchanged; otherwise entry `[id][type][field]` becomes the cleared value, merged with a truthy old value; every other entry is unchanged |
| SearchIndex.Stored | src/Oro/Bundle/WebsiteSearchBundle/Engine/IndexDataProvider.php:231 | the array assignment `$preparedIndexData[id][type][field] = v` sets that entry, adds the entity id and changes no other entry |
| Engine.IndexDataProvider.SetIndexValue | src/Oro/Bundle/WebsiteSearchBundle/Engine/IndexDataProvider.php:218-232 | updating the index taken by reference computes `WithIndexValue` |
| SearchIndex.Squashed | src/Oro/Bundle/WebsiteSearchBundle/Engine/IndexDataProvider.php:198-209 | keeps every type and field name; only text entries whose name starts with "all_text" are rewritten by updateAllTextFieldValue |
| Engine.IndexDataProvider.SquashAllTextFields | src/Oro/Bundle/WebsiteSearchBundle/Engine/IndexDataProvider.php:198-209 | the loop over the text fields computes `Squashed` |
| IndexProperties.SquashedIdempotent | src/Oro/Bundle/WebsiteSearchBundle/Engine/IndexDataProvider.php:198-209 | squashing a squashed document changes nothing |
| IndexProperties.SquashedUnchanged | src/Oro/Bundle/WebsiteSearchBundle/Engine/IndexDataProvider.php:198-209 | a document whose all-text fields repeat no word is squashed to itself |
| SearchIndex.Insert | src/Oro/Bundle/WebsiteSearchBundle/Engine/IndexDataProvider.php:145 | adding a name to the all-text name set keeps the old names, adds the new one and keeps the set free of repeats |
| SearchIndex.Remove | src/Oro/Bundle/WebsiteSearchBundle/Engine/IndexDataProvider.php:156 | `unset` removes exactly the given name and keeps the set free of repeats |
| SearchIndex.RecordStep | src/Oro/Bundle/WebsiteSearchBundle/Engine/IndexDataProvider.php:130-153 | a record reaches its all-text field (localized for a placeholder value), and that field is listed, only when isAllTextCollected holds; it is stored under its own placeholder-replaced name only if the field name does not start with the configured all-text name; no other entry changes; the list of all-text names stays free of repeats |
| Engine.IndexDataProvider.AddRecord | src/Oro/Bundle/WebsiteSearchBundle/Engine/IndexDataProvider.php:130-153 | the body of the record loop computes `RecordStep` |
| Engine.IndexDataProvider.CollectRecords | src/Oro/Bundle/WebsiteSearchBundle/Engine/IndexDataProvider.php:130-153 | the record loop computes `RecordsFrom` |
| IndexProperties.AllTextNamedFieldOnlyCollected | src/Oro/Bundle/WebsiteSearchBundle/Engine/IndexDataProvider.php:142-152 | the records of a field whose name starts with the configured all-text name change only the all-text fields they are collected into, and change nothing if the field is not text |
| Engine.IndexDataProvider.CollectFields | src/Oro/Bundle/WebsiteSearchBundle/Engine/IndexDataProvider.php:127-154 | the field loop computes `FieldsFrom`: a field without a type aborts, and the cache stays consistent |
| IndexProperties.FieldsFromFailsIff | src/Oro/Bundle/WebsiteSearchBundle/Engine/IndexDataProvider.php:127-128 | the fields of an entity fail exactly when one of them has no type |
| IndexProperties.FieldsFromFirstUntyped | src/Oro/Bundle/WebsiteSearchBundle/Engine/IndexDataProvider.php:127-128 | a failure of the fields of an entity is the "Missing option" error for 'type' of the first field without a type |
| Engine.IndexDataProvider.MergeAllTextFields | src/Oro/Bundle/WebsiteSearchBundle/Engine/IndexDataProvider.php:158-163 | the cross-merge loop computes `CrossMerge` from the default value read before it |
| IndexProperties.CrossMergeDefault | src/Oro/Bundle/WebsiteSearchBundle/Engine/IndexDataProvider.php:158-163 | the default all-text field gets each localized field's value appended, in order and as it stood after the field loop |
| IndexProperties.CrossMergeLocalized | src/Oro/Bundle/WebsiteSearchBundle/Engine/IndexDataProvider.php:158-163 | each localized all-text field gets the pre-loop default value appended, once |
| IndexProperties.ValuesOf | src/Oro/Bundle/WebsiteSearchBundle/Engine/IndexDataProvider.php:159-160 | definition: the values getIndexValue reads for each of the named text fields, in order; used by `IndexProperties.CrossMergeDefault` |
| IndexProperties.ValuesOfCons | src/Oro/Bundle/WebsiteSearchBundle/Engine/IndexDataProvider.php:159-160 | the values read for a non-empty list of fields are the first field's value followed by those of the rest |
| IndexProperties.ValuesOfUnchanged | src/Oro/Bundle/WebsiteSearchBundle/Engine/IndexDataProvider.php:159-160 | the values read from two indexes that agree on the named fields are the same |
| IndexProperties.CrossMergeFrame | src/Oro/Bundle/WebsiteSearchBundle/Engine/IndexDataProvider.php:158-163 | the cross-merge changes only the entity's default and localized text fields |
| Engine.IndexDataProvider.FinishEntity | src/Oro/Bundle/WebsiteSearchBundle/Engine/IndexDataProvider.php:156-165 | removing the default name, the cross-merge and the squash compute `EntityEnd` |
| Engine.IndexDataProvider.PrepareIndexData | src/Oro/Bundle/WebsiteSearchBundle/Engine/IndexDataProvider.php:112-169 | the result is `Prepared` of the inputs, whatever the cache held before, and the cache stays consistent |
| IndexProperties.EntitiesFromUntypedFails | src/Oro/Bundle/WebsiteSearchBundle/Engine/IndexDataProvider.php:124-128 | a field without a type in any entity makes the whole batch fail |
| IndexProperties.EntitiesFromMissingType | src/Oro/Bundle/WebsiteSearchBundle/Engine/IndexDataProvider.php:124-128 | every "Missing option" error of a batch is for 'type' of one of its fields that has no type |
| IndexProperties.PreparedUntyped | src/Oro/Bundle/WebsiteSearchBundle/Engine/IndexDataProvider.php:112-128 | the same for prepareIndexData with the configured all-text names |
| IndexExamples.NameConfigLookups | src/Oro/Bundle/WebsiteSearchBundle/Engine/IndexDataProvider.php:114-128 | with only the entry (name, type text) in the config, both all-text names are the built-in ones and "name" has type text |
| IndexExamples.NameRecordStep | src/Oro/Bundle/WebsiteSearchBundle/Engine/IndexDataProvider.php:130-153 | a collected text record goes to "all_text" and to its own field, and "all_text" is listed |
| IndexExamples.NameRecords | src/Oro/Bundle/WebsiteSearchBundle/Engine/IndexDataProvider.php:130-153 | the record loop over that one record gives the same result |
| IndexExamples.NameFields | src/Oro/Bundle/WebsiteSearchBundle/Engine/IndexDataProvider.php:127-154 | the field loop of that entity stores the value under both names |
| IndexExamples.NameSquashed | src/Oro/Bundle/WebsiteSearchBundle/Engine/IndexDataProvider.php:198-209 | that document is unchanged by squashing when its value repeats no word |
| IndexExamples.NameEnd | src/Oro/Bundle/WebsiteSearchBundle/Engine/IndexDataProvider.php:156-165 | with no localized all-text field the end of the entity changes nothing |
| IndexExamples.NameEntity | src/Oro/Bundle/WebsiteSearchBundle/Engine/IndexDataProvider.php:124-166 | the whole entity gives the document with the value under "all_text" and "name" |
| IndexExamples.NameCollected | src/Oro/Bundle/WebsiteSearchBundle/Engine/IndexDataProvider.php:112-169 | `{1: {name: [{value: s, all_text: true}]}}` gives `{1: {text: {name: s, all_text: s}}}` for every non-empty `s` that repeats no word |
| IndexExamples.ShirtWords | src/Oro/Bundle/WebsiteSearchBundle/Engine/IndexDataProvider.php:239-246 | "Red Shirt" repeats no word |
| IndexExamples.RedShirt | src/Oro/Bundle/WebsiteSearchBundle/Engine/IndexDataProvider.php:112-169 | the batch with "Red Shirt" gives `{1: {text: {name: "Red Shirt", all_text: "Red Shirt"}}}` |
| IndexExamples.BleuAppended | src/Oro/Bundle/WebsiteSearchBundle/Engine/IndexDataProvider.php:160-161 | the first update appends the localized value "Bleu" to the default "Blue" |
| IndexExamples.BlueAppended | src/Oro/Bundle/WebsiteSearchBundle/Engine/IndexDataProvider.php:162 | the second update appends the pre-loop default "Blue" to the localized "Bleu" |
| IndexExamples.CrossMergeAppends | src/Oro/Bundle/WebsiteSearchBundle/Engine/IndexDataProvider.php:158-163 | "Blue" in all_text and "Bleu" in all_text_1 become "Blue Bleu" and "Bleu Blue", not a swap |
| Php.Truthy | src/Oro/Bundle/WebsiteSearchBundle/Engine/IndexDataProvider.php:227 | definition of PHP truthiness (null, '', '0' and [] are false); used by `SearchIndex.WithIndexValue` and `SearchIndex.ResolveFieldConfig` |
| Php.StartsWith | src/Oro/Bundle/WebsiteSearchBundle/Engine/IndexDataProvider.php:149 | definition of `strpos(s, p) === 0`; used by `SearchIndex.RecordStep`, `SearchIndex.Squashed` and `SearchIndex.Cleared` |
| Php.Implode | src/Oro/Bundle/WebsiteSearchBundle/Engine/IndexDataProvider.php:242-245 | definition of `implode(' ', ws)`; properties in `Php.ImplodeExplode` and `Php.ExplodeImplode` |
| SearchIndex.IsAllTextCollected | src/Oro/Bundle/WebsiteSearchBundle/Engine/IndexDataProvider.php:176-179 | definition: a text field whose record is marked all_text; used by `SearchIndex.RecordStep` and `IndexProperties.AllTextNamedFieldOnlyCollected` |
| SearchIndex.UpdateFieldValue | src/Oro/Bundle/WebsiteSearchBundle/Engine/IndexDataProvider.php:254-262 | definition; properties in `IndexProperties.UpdateFieldValueMerges` and `IndexProperties.UpdateFieldValueMembers` |
| SearchIndex.AllTextSource | src/Oro/Bundle/WebsiteSearchBundle/Engine/IndexDataProvider.php:241-243 | definition: a list is joined with spaces first; properties in `IndexProperties.UpdateAllTextSplits` |
| SearchIndex.UpdateAllTextFieldValue | src/Oro/Bundle/WebsiteSearchBundle/Engine/IndexDataProvider.php:239-246 | definition; properties in `IndexProperties.UpdateAllTextSplits`, `IndexProperties.UpdateAllTextWords` and `IndexProperties.UpdateAllTextIdempotent` |
| SearchIndex.Merged | src/Oro/Bundle/WebsiteSearchBundle/Engine/IndexDataProvider.php:220-231 | definition of setIndexValue's effect on one entry; properties in `SearchIndex.WithIndexValue` |
| SearchIndex.RecordsFrom | src/Oro/Bundle/WebsiteSearchBundle/Engine/IndexDataProvider.php:130-153 | definition of the record loop; properties in `IndexProperties.AllTextNamedFieldOnlyCollected` and `IndexProperties.RecordsFromDistinct` |
| SearchIndex.FieldsFrom | src/Oro/Bundle/WebsiteSearchBundle/Engine/IndexDataProvider.php:127-154 | definition of the field loop; properties in `IndexProperties.FieldsFromFailsIff` and `IndexProperties.FieldsFromDistinct` |
| SearchIndex.CrossMerge | src/Oro/Bundle/WebsiteSearchBundle/Engine/IndexDataProvider.php:158-163 | definition of the cross-merge loop; properties in `IndexProperties.CrossMergeDefault`, `IndexProperties.CrossMergeLocalized` and `IndexProperties.CrossMergeFrame` |
| SearchIndex.EntityEnd | src/Oro/Bundle/WebsiteSearchBundle/Engine/IndexDataProvider.php:155-165 | definition of the end of one entity; properties in `IndexProperties.EntityCrossMerge` and `IndexExamples.NameEnd` |
| SearchIndex.EntitiesFrom | src/Oro/Bundle/WebsiteSearchBundle/Engine/IndexDataProvider.php:124-166 | definition of the entity loop; properties in `IndexProperties.EntitiesFromUntypedFails` and `IndexProperties.EntitiesFromMissingType` |
| SearchIndex.Prepared | src/Oro/Bundle/WebsiteSearchBundle/Engine/IndexDataProvider.php:112-169 | definition of prepareIndexData; properties in `IndexProperties.PreparedUntyped` and `IndexExamples.NameCollected` |
| IndexProperties.MergedAll | src/Oro/Bundle/WebsiteSearchBundle/Engine/IndexDataProvider.php:159-161 | definition: setIndexValue applied to one entry for each value in turn; used by `IndexProperties.CrossMergeDefault` |
| IndexProperties.RecordsFromDistinct | src/Oro/Bundle/WebsiteSearchBundle/Engine/IndexDataProvider.php:143-145 | the all-text names a field's records collect have no repeats when the list had none |
| IndexProperties.FieldsFromDistinct | src/Oro/Bundle/WebsiteSearchBundle/Engine/IndexDataProvider.php:125-154 | the all-text names of an entity, as the field loop leaves them, have no repeats |
| IndexProperties.EntityCrossMerge | src/Oro/Bundle/WebsiteSearchBundle/Engine/IndexDataProvider.php:155-163 | at the end of each entity the default all-text field gets every localized value appended in order, and each localized field gets the default value from before the loop appended once |
| SearchIndex.FieldMatches | src/Oro/Bundle/WebsiteSearchBundle/Engine/IndexDataProvider.php:293-304 | definition of the `array_filter` callback: the entry has 'name' and the option, and its name equals the field or matches it as a pattern; used by `SearchIndex.MatchingFields` |
| SearchIndex.IndexError.Message | src/Oro/Bundle/WebsiteSearchBundle/Engine/IndexDataProvider.php:315-317 | definition of the text of the thrown errors, `Missing option "<option>" for "<field>" field` |
| SearchIndex.ResolveAllTextNames | src/Oro/Bundle/WebsiteSearchBundle/Engine/IndexDataProvider.php:116-122 | definition of the two name lookups with their own names as truthy defaults; used by `SearchIndex.Prepared` and `IndexProperties.PreparedUntyped` |
| SearchIndex.Lookup | src/Oro/Bundle/WebsiteSearchBundle/Engine/IndexDataProvider.php:273 | definition of the entry at `[id][type][field]`, None where `isset` finds no key; used by `SearchIndex.GetIndexValue` and `SearchIndex.WithIndexValue` |
| SearchIndex.IsEmptyValue | src/Oro/Bundle/WebsiteSearchBundle/Engine/IndexDataProvider.php:222 | definition of `null`, `''` or `[]`; used by `SearchIndex.WithIndexValue` |
| SearchIndex.SquashedEntry | src/Oro/Bundle/WebsiteSearchBundle/Engine/IndexDataProvider.php:202-203 | definition of the rewrite of one text entry; used by `SearchIndex.Squashed` |
| SearchIndex.PlaceholdersOf | src/Oro/Bundle/WebsiteSearchBundle/Engine/IndexDataProvider.php:135-138 | definition: the placeholders of a placeholder value, none otherwise; used by `SearchIndex.RecordStep` |
| SearchIndex.AllTextTarget | src/Oro/Bundle/WebsiteSearchBundle/Engine/IndexDataProvider.php:131-144 | definition of the placeholder-replaced all-text target, localized for a placeholder value; used by `SearchIndex.RecordStep` |
| SearchIndex.SingleTarget | src/Oro/Bundle/WebsiteSearchBundle/Engine/IndexDataProvider.php:150 | definition of the placeholder-replaced own name of the field; used by `SearchIndex.RecordStep` |
| SearchIndex.EntityStep | src/Oro/Bundle/WebsiteSearchBundle/Engine/IndexDataProvider.php:125-165 | definition of one iteration of the entity loop; used by `SearchIndex.EntitiesFrom` and `IndexProperties.EntitiesFromMissingType` |
| Php.ToString | src/Oro/Bundle/WebsiteSearchBundle/Engine/IndexDataProvider.php:242 | definition of the `(string)` cast on the modelled values; used by `SearchIndex.AllTextSource` and `SearchIndex.Cleared` |
| Engine.IndexDataProvider.Valid | src/Oro/Bundle/WebsiteSearchBundle/Engine/IndexDataProvider.php:287-324 | definition of the cache invariant: every cached answer is what `ResolveFieldConfig` gives for its key; kept by `Engine.IndexDataProvider.GetFieldConfig` and `Engine.IndexDataProvider.PrepareIndexData` |

## Left out

- `collectContextForWebsite`, `getEntitiesData` and `getRestrictedEntitiesQueryBuilder` (lines 72-104 and 364-376) are left out. They dispatch events and build Doctrine queries, which is framework plumbing. `getEntitiesData` amounts to "dispatch, then `prepareIndexData`".
- The code of `PlaceholderInterface::replace`, `PlaceholderHelper::isNameMatch` and `HtmlTagHelper::stripTags`/`stripLongWords` is not part of this model. They are uninterpreted, deterministic function parameters.
- The cache key `md5(json_encode($entityConfig)) . $fieldName . $configName` is modelled as the tuple (config, field name, option name). Hashing and JSON are not modelled. Hash collisions are therefore not captured. The concatenation itself cannot collide: the hash has a fixed length, and the option name is always 'name' or 'type', four characters each.
- The entity config is modelled as its `'fields'` list. A config without a `'fields'` key, or with entries that are not arrays, is not representable.
- Input is typed: a field's entry is either one record or a list of records. The PHP arrays of `$indexData` and of each entity become sequences of pairs. Duplicate keys, which a PHP array cannot have, are therefore representable but meaningless. Iteration order is sequence order.
- SearchIndex.ToArray: this is weaker than the source. It only takes a record or a list of records, so the wrapping of a bare scalar is not modelled. A field literally named "value", which would make `toArray` mistake the whole field map for a record, is not modelled either.
- Scalars (strings and numbers) are held as strings. PHP's `is_string` is false for an integer, so the text join in `updateFieldValue` also applies to numbers in this model. Booleans and floats are not modelled.
- Values that are PHP arrays with string keys are not modelled: an array value is a list. `array_merge` at line 261 would let a later equal string key overwrite an earlier one, so `['a' => 'x']` merged with `['a' => 'y']` gives `['y']` in PHP, while `UpdateFieldValue` gives `[x, y]`; `clearValue` (line 341) would keep the keys.
- Php.Unique: this uses exact equality of values. PHP's `array_unique` compares their string forms, so null and '' would collapse, and so would any two nested arrays.
- `strpos` with an empty needle follows PHP 8, which returns 0: a configured all-text name of "" is a prefix of every field name.
- An entity that ends with no stored values makes PHP pass null to `squashAllTextFields(array ...)` at line 165, which is a TypeError. The model reports this as the error `EntityWithoutValues`.
- Exceptions thrown by the services, concurrency and output key order inside a PHP array are not modelled.
