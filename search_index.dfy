/**
 * The data model of the website-search index builder and the functions that say
 * what each of its steps computes. Listeners hand over, per entity, raw field values;
 * the builder turns them into the stored document
 *   entity id -> field type -> field name -> value,
 * collecting text flagged for full-text search into the `all_text` fields.
 */
module SearchIndex {
  import opened Php

  /** IndexDataProvider::ALL_TEXT_FIELD */
  const ALL_TEXT_FIELD: string := "all_text"
  /** IndexDataProvider::ALL_TEXT_L10N_FIELD */
  const ALL_TEXT_L10N_FIELD: string := "all_text_LOCALIZATION_ID"
  /** Query::TYPE_TEXT */
  const TYPE_TEXT: string := "text"

  datatype Option<T> = None | Some(value: T)
  datatype Result<T, E> = Ok(value: T) | Err(error: E)

  /** Placeholder name -> value, as carried by a PlaceholderValue. */
  type Placeholders = map<string, string>

  /** The injected services whose code is not part of this model. */
  datatype Collaborators = Collaborators(
    replace: (string, Placeholders) -> string,  // PlaceholderInterface::replace
    isNameMatch: (string, string) -> bool,      // PlaceholderHelper::isNameMatch(pattern, name)
    stripTags: string -> string,                // HtmlTagHelper::stripTags
    stripLongWords: string -> string)           // HtmlTagHelper::stripLongWords

  /** The 'value' of a record: a plain value, or a PlaceholderValue whose placeholders
      are substituted into the field name. */
  datatype RawValue = Plain(value: Value) | Localized(value: Value, placeholders: Placeholders)

  /** One record ['value' => ..., 'all_text' => ...] collected by a listener. */
  datatype ValueRecord = ValueRecord(value: RawValue, allText: bool)

  /** What a listener stores under a field name: one record (it has a 'value' key)
      or a list of records. */
  datatype FieldValues = Record(record: ValueRecord) | Records(records: seq<ValueRecord>)

  type EntityId = int
  /** Field name -> values, in the order the listeners added them. */
  type EntityFields = seq<(string, FieldValues)>
  /** Entity id -> fields, in the order of the batch. */
  type IndexData = seq<(EntityId, EntityFields)>

  /** One entry of the entity config's 'fields' list: option name -> option value. */
  type FieldConfig = map<string, string>
  type EntityConfig = seq<FieldConfig>

  type FieldMap = map<string, Value>
  /** Field type -> field name -> value. */
  type Document = map<string, FieldMap>
  type Index = map<EntityId, Document>

  datatype IndexError =
    | MissingOption(configName: string, fieldName: string)  // InvalidConfigurationException
    | EntityWithoutValues(entityId: EntityId)               // null passed to squashAllTextFields(array)
  {
    function Message(): string
      requires MissingOption?
    {
      "Missing option \"" + configName + "\" for \"" + fieldName + "\" field"
    }
  }

  // ---------------------------------------------------------------------------
  // Field configuration lookup (getFieldConfig without its cache)

  /** The filter of getFieldConfig: the entry has a 'name' and the requested option,
      and its name is the field name or a placeholder pattern matching it. */
  predicate FieldMatches(isNameMatch: (string, string) -> bool, fc: FieldConfig,
                         fieldName: string, configName: string)
  {
    "name" in fc && configName in fc &&
    (fc["name"] == fieldName || isNameMatch(fc["name"], fieldName))
  }

  /** array_filter over the config entries, keeping their order. */
  function MatchingFields(isNameMatch: (string, string) -> bool, fields: EntityConfig,
                          fieldName: string, configName: string): (r: EntityConfig)
    ensures forall i :: 0 <= i < |r| ==> FieldMatches(isNameMatch, r[i], fieldName, configName)
    ensures r == [] <==>
      forall i :: 0 <= i < |fields| ==> !FieldMatches(isNameMatch, fields[i], fieldName, configName)
    decreases |fields|
  {
    if fields == [] then []
    else
      var init, last := fields[..|fields| - 1], fields[|fields| - 1];
      assert forall i :: 0 <= i < |init| ==> init[i] == fields[i];
      if FieldMatches(isNameMatch, last, fieldName, configName)
      then MatchingFields(isNameMatch, init, fieldName, configName) + [last]
      else MatchingFields(isNameMatch, init, fieldName, configName)
  }

  /** Entry `i` is the last element of `r`, and no entry after it matches. */
  predicate LastAt(isNameMatch: (string, string) -> bool, fields: EntityConfig,
                   fieldName: string, configName: string, r: EntityConfig, i: int)
  {
    0 <= i < |fields| && r != [] && fields[i] == r[|r| - 1] &&
    forall j :: i < j < |fields| ==> !FieldMatches(isNameMatch, fields[j], fieldName, configName)
  }

  /** The last entry the filter keeps is a matching entry with no match after it. */
  lemma {:induction false} LastOfMatchingFields(isNameMatch: (string, string) -> bool, fields: EntityConfig,
                                                fieldName: string, configName: string)
    ensures var r := MatchingFields(isNameMatch, fields, fieldName, configName);
      r != [] ==> exists i :: LastAt(isNameMatch, fields, fieldName, configName, r, i)
    decreases |fields|
  {
    var r := MatchingFields(isNameMatch, fields, fieldName, configName);
    if r != [] {
      var n := |fields|;
      var init, last := fields[..n - 1], fields[n - 1];
      var kept := MatchingFields(isNameMatch, init, fieldName, configName);
      if FieldMatches(isNameMatch, last, fieldName, configName) {
        assert LastAt(isNameMatch, fields, fieldName, configName, r, n - 1) by {
          assert r == kept + [last];
        }
      } else {
        assert r == kept;
        assert kept != [];
        LastOfMatchingFields(isNameMatch, init, fieldName, configName);
        var i :| LastAt(isNameMatch, init, fieldName, configName, kept, i);
        assert LastAt(isNameMatch, fields, fieldName, configName, r, i) by {
          assert fields[i] == init[i];
          forall j | i < j < n
            ensures !FieldMatches(isNameMatch, fields[j], fieldName, configName)
          {
            if j < n - 1 {
              assert fields[j] == init[j];
            }
          }
        }
      }
    }
  }

  /** The requested option of the last matching entry (`end($fields)[$configName]`). */
  function LastMatch(isNameMatch: (string, string) -> bool, fields: EntityConfig,
                     fieldName: string, configName: string): (r: Option<string>)
    ensures r.None? <==>
      forall i :: 0 <= i < |fields| ==> !FieldMatches(isNameMatch, fields[i], fieldName, configName)
    ensures r.Some? ==> exists i :: (0 <= i < |fields| &&
      FieldMatches(isNameMatch, fields[i], fieldName, configName) &&
      r.value == fields[i][configName] &&
      forall j :: i < j < |fields| ==> !FieldMatches(isNameMatch, fields[j], fieldName, configName))
  {
    var matches := MatchingFields(isNameMatch, fields, fieldName, configName);
    LastOfMatchingFields(isNameMatch, fields, fieldName, configName);
    if matches == [] then None else Some(matches[|matches| - 1][configName])
  }

  /** getFieldConfig as a function of the config: the last matching entry's option;
      else a truthy default; else the built-in answer for the two all-text fields;
      else the "Missing option" error. */
  function ResolveFieldConfig(isNameMatch: (string, string) -> bool, fields: EntityConfig,
                              fieldName: string, configName: string,
                              defaultValue: Option<string>): (r: Result<string, IndexError>)
    ensures LastMatch(isNameMatch, fields, fieldName, configName).Some? ==>
      r == Ok(LastMatch(isNameMatch, fields, fieldName, configName).value)
    ensures r.Err? <==>
      (forall i :: 0 <= i < |fields| ==> !FieldMatches(isNameMatch, fields[i], fieldName, configName)) &&
      !(defaultValue.Some? && Truthy(Str(defaultValue.value))) &&
      fieldName != ALL_TEXT_FIELD && fieldName != ALL_TEXT_L10N_FIELD
    ensures r.Err? ==> r.error == MissingOption(configName, fieldName)
    // no match: a truthy default wins
    ensures LastMatch(isNameMatch, fields, fieldName, configName).None? &&
            defaultValue.Some? && Truthy(Str(defaultValue.value)) ==>
      r == Ok(defaultValue.value)
    // no match and no truthy default: the two all-text fields have a built-in answer
    ensures LastMatch(isNameMatch, fields, fieldName, configName).None? &&
            !(defaultValue.Some? && Truthy(Str(defaultValue.value))) &&
            (fieldName == ALL_TEXT_FIELD || fieldName == ALL_TEXT_L10N_FIELD) ==>
      r == Ok(if configName == "type" then TYPE_TEXT else fieldName)
  {
    match LastMatch(isNameMatch, fields, fieldName, configName)
    case Some(v) => Ok(v)
    case None =>
      if defaultValue.Some? && Truthy(Str(defaultValue.value)) then Ok(defaultValue.value)
      else if fieldName == ALL_TEXT_FIELD || fieldName == ALL_TEXT_L10N_FIELD then
        Ok(if configName == "type" then TYPE_TEXT else fieldName)
      else Err(MissingOption(configName, fieldName))
  }

  // ---------------------------------------------------------------------------
  // Pure helpers of prepareIndexData

  predicate IsAllTextCollected(fieldType: string, addToAllText: bool)
  {
    fieldType == TYPE_TEXT && addToAllText
  }

  /** toArray on a field's entry: a record is wrapped in a one-element list, a list of
      records comes back unchanged. */
  function ToArray(values: FieldValues): seq<ValueRecord>
  {
    match values
    case Record(rec) => [rec]
    case Records(recs) => recs
  }

  /** The stored value at [id][type][fieldName], if any. */
  function Lookup(index: Index, id: EntityId, fieldType: string, fieldName: string): Option<Value>
  {
    if id in index && fieldType in index[id] && fieldName in index[id][fieldType]
    then Some(index[id][fieldType][fieldName])
    else None
  }

  /** What getIndexValue makes of an entry: `isset` is false for a missing entry and
      for null, and then '' is returned. */
  function ValueOrEmpty(entry: Option<Value>): (r: Value)
    // never null, and anything but the empty string is the stored value itself
    ensures r != Null
    ensures r != Str("") ==> entry == Some(r)
  {
    if entry.Some? && entry.value != Null then entry.value else Str("")
  }

  function GetIndexValue(index: Index, id: EntityId, fieldName: string, fieldType: string): (r: Value)
    ensures Lookup(index, id, fieldType, fieldName) == None ==> r == Str("")
    ensures Lookup(index, id, fieldType, fieldName) == Some(Null) ==> r == Str("")
    ensures Lookup(index, id, fieldType, fieldName).Some? && Lookup(index, id, fieldType, fieldName).value != Null ==>
      r == Lookup(index, id, fieldType, fieldName).value
  {
    ValueOrEmpty(Lookup(index, id, fieldType, fieldName))
  }

  /** What clearValue computes: HTML is stripped only from text values of fields whose
      name starts with "all_text"; lists are cleared element by element. */
  function Cleared(h: Collaborators, fieldType: string, fieldName: string, v: Value): (r: Value)
    ensures v.Arr? ==> (r.Arr? && |r.items| == |v.items| &&
      forall i :: 0 <= i < |v.items| ==> r.items[i] == Cleared(h, fieldType, fieldName, v.items[i]))
    ensures !v.Arr? && fieldType == TYPE_TEXT && StartsWith(fieldName, ALL_TEXT_FIELD) ==>
      r == Str(h.stripLongWords(h.stripTags(ToString(v))))
    ensures !(fieldType == TYPE_TEXT && StartsWith(fieldName, ALL_TEXT_FIELD)) ==> r == v
    decreases v
  {
    match v
    case Arr(items) =>
      var cleared := seq(|items|, i requires 0 <= i < |items| => Cleared(h, fieldType, fieldName, items[i]));
      assert !(fieldType == TYPE_TEXT && StartsWith(fieldName, ALL_TEXT_FIELD)) ==> cleared == items;
      Arr(cleared)
    case _ =>
      if fieldType == TYPE_TEXT && StartsWith(fieldName, ALL_TEXT_FIELD)
      then Str(h.stripLongWords(h.stripTags(ToString(v))))
      else v
  }

  /** The values setIndexValue drops: null, '' and []. */
  predicate IsEmptyValue(v: Value)
  {
    v == Null || v == Str("") || v == Arr([])
  }

  /** updateFieldValue: two strings of a text field are joined with a space; anything
      else becomes the list of distinct elements, old ones first. */
  function UpdateFieldValue(existing: Value, v: Value, fieldType: string): Value
  {
    if fieldType == TYPE_TEXT && existing.Str? && v.Str? then Str(existing.s + " " + v.s)
    else Arr(Unique(AsArray(existing) + AsArray(v)))
  }

  /** The string updateAllTextFieldValue splits: a list is first joined with spaces. */
  function AllTextSource(v: Value): string
  {
    if v.Arr? then Implode(seq(|v.items|, i requires 0 <= i < |v.items| => ToString(v.items[i])))
    else ToString(v)
  }

  /** updateAllTextFieldValue: the words of the value, each kept once at its first place. */
  function UpdateAllTextFieldValue(v: Value): string
  {
    Implode(Unique(Explode(AllTextSource(v))))
  }

  /** The entry-level effect of setIndexValue: the value is cleared; an empty result
      leaves the entry alone; otherwise it is stored, merged with a truthy old value. */
  function Merged(h: Collaborators, entry: Option<Value>, fieldName: string, v: Value,
                  fieldType: string): Option<Value>
  {
    var c := Cleared(h, fieldType, fieldName, v);
    var existing := ValueOrEmpty(entry);
    if IsEmptyValue(c) then entry
    else if Truthy(existing) then Some(UpdateFieldValue(existing, c, fieldType))
    else Some(c)
  }

  /** What setIndexValue does to the index it updates by reference. */
  function WithIndexValue(h: Collaborators, index: Index, id: EntityId, fieldName: string,
                          v: Value, fieldType: string): (r: Index)
    ensures IsEmptyValue(Cleared(h, fieldType, fieldName, v)) ==> r == index
    ensures Lookup(r, id, fieldType, fieldName) ==
      Merged(h, Lookup(index, id, fieldType, fieldName), fieldName, v, fieldType)
    ensures forall id', t, f :: (id' != id || t != fieldType || f != fieldName) ==>
      Lookup(r, id', t, f) == Lookup(index, id', t, f)
    ensures r.Keys <= index.Keys + {id}
  {
    var c := Cleared(h, fieldType, fieldName, v);
    if IsEmptyValue(c) then index
    else
      var existing := GetIndexValue(index, id, fieldName, fieldType);
      var stored := if Truthy(existing) then UpdateFieldValue(existing, c, fieldType) else c;
      Stored(index, id, fieldType, fieldName, stored)
  }

  /** `$index[$id][$type][$fieldName] = $v`, creating the missing levels. */
  function Stored(index: Index, id: EntityId, fieldType: string, fieldName: string, v: Value): (r: Index)
    ensures Lookup(r, id, fieldType, fieldName) == Some(v)
    ensures forall id', t, f :: (id' != id || t != fieldType || f != fieldName) ==>
      Lookup(r, id', t, f) == Lookup(index, id', t, f)
    ensures r.Keys == index.Keys + {id}
  {
    var doc := if id in index then index[id] else map[];
    var fields := if fieldType in doc then doc[fieldType] else map[];
    index[id := doc[fieldType := fields[fieldName := v]]]
  }

  /** What squashAllTextFields does to one entity's document: every text field whose
      name starts with "all_text" keeps each of its words once. */
  function Squashed(doc: Document): (r: Document)
    ensures r.Keys == doc.Keys
    ensures forall t :: t in doc && t != TYPE_TEXT ==> r[t] == doc[t]
    ensures TYPE_TEXT in doc ==> (r[TYPE_TEXT].Keys == doc[TYPE_TEXT].Keys &&
      forall f :: f in doc[TYPE_TEXT] ==>
        r[TYPE_TEXT][f] == (if StartsWith(f, ALL_TEXT_FIELD)
                            then Str(UpdateAllTextFieldValue(doc[TYPE_TEXT][f]))
                            else doc[TYPE_TEXT][f]))
  {
    if TYPE_TEXT in doc && doc[TYPE_TEXT] != map[] then
      var text := doc[TYPE_TEXT];
      doc[TYPE_TEXT := map f | f in text :: SquashedEntry(f, text[f])]
    else doc
  }

  /** One entry of the text fields after squashAllTextFields. */
  function SquashedEntry(fieldName: string, v: Value): Value
  {
    if StartsWith(fieldName, ALL_TEXT_FIELD) then Str(UpdateAllTextFieldValue(v)) else v
  }

  // ---------------------------------------------------------------------------
  // prepareIndexData as a function

  /** `$allText` and `$allTextL10N`: the configured names of the two all-text fields. */
  datatype AllTextNames = AllTextNames(default: string, localized: string)

  /** The index under construction and `$allTextFieldNames`, an insertion-ordered set. */
  datatype Acc = Acc(index: Index, allTextFieldNames: seq<string>)

  /** `$set[$n] = $n` on an insertion-ordered set. */
  function Insert(ns: seq<string>, n: string): (r: seq<string>)
    ensures forall x :: x in r <==> x in ns || x == n
    ensures Distinct(ns) ==> Distinct(r)
  {
    if n in ns then ns else ns + [n]
  }

  /** `unset($set[$n])` on an insertion-ordered set. */
  function Remove(ns: seq<string>, n: string): (r: seq<string>)
    ensures forall x :: x in r <==> x in ns && x != n
    ensures Distinct(ns) ==> Distinct(r)
  {
    if ns == [] then []
    else
      var rest := Remove(ns[1..], n);
      assert ns == [ns[0]] + ns[1..];
      assert forall x :: x in ns <==> x == ns[0] || x in ns[1..];
      assert Distinct(ns) ==> Distinct(ns[1..]) && ns[0] !in ns[1..] by {
        if Distinct(ns) {
          assert forall i, j :: 0 <= i < j < |ns[1..]| ==> ns[1..][i] == ns[i + 1] && ns[1..][j] == ns[j + 1];
        }
      }
      if ns[0] == n then rest else
        assert forall i :: 0 < i < |rest| + 1 ==> ([ns[0]] + rest)[i] == rest[i - 1];
        [ns[0]] + rest
  }

  function PlaceholdersOf(rec: ValueRecord): Placeholders
  {
    if rec.value.Localized? then rec.value.placeholders else map[]
  }

  /** The all-text field a record is collected into: the localized one for a
      PlaceholderValue, the default one otherwise, after placeholder substitution. */
  function AllTextTarget(h: Collaborators, names: AllTextNames, rec: ValueRecord): string
  {
    h.replace(if rec.value.Localized? then names.localized else names.default, PlaceholdersOf(rec))
  }

  /** The name a record is stored under in its own field. */
  function SingleTarget(h: Collaborators, fieldName: string, rec: ValueRecord): string
  {
    h.replace(fieldName, PlaceholdersOf(rec))
  }

  /** The body of the innermost loop of prepareIndexData, for one record. */
  function RecordStep(h: Collaborators, names: AllTextNames, id: EntityId, fieldName: string,
                      fieldType: string, acc: Acc, rec: ValueRecord): (r: Acc)
    // only a collected record reaches an all-text field, and it is listed
    ensures IsAllTextCollected(fieldType, rec.allText) ==> AllTextTarget(h, names, rec) in r.allTextFieldNames
    ensures !IsAllTextCollected(fieldType, rec.allText) ==> r.allTextFieldNames == acc.allTextFieldNames
    ensures IsAllTextCollected(fieldType, rec.allText) &&
            (StartsWith(fieldName, names.default) || SingleTarget(h, fieldName, rec) != AllTextTarget(h, names, rec)) ==>
      Lookup(r.index, id, fieldType, AllTextTarget(h, names, rec)) ==
      Merged(h, Lookup(acc.index, id, fieldType, AllTextTarget(h, names, rec)), AllTextTarget(h, names, rec),
             rec.value.value, fieldType)
    // a field named after the configured all-text field is not stored under its own name
    ensures !StartsWith(fieldName, names.default) &&
            (!IsAllTextCollected(fieldType, rec.allText) || SingleTarget(h, fieldName, rec) != AllTextTarget(h, names, rec)) ==>
      Lookup(r.index, id, fieldType, SingleTarget(h, fieldName, rec)) ==
      Merged(h, Lookup(acc.index, id, fieldType, SingleTarget(h, fieldName, rec)), SingleTarget(h, fieldName, rec),
             rec.value.value, fieldType)
    ensures forall id', t, f :: (id' != id || t != fieldType ||
      !((IsAllTextCollected(fieldType, rec.allText) && f == AllTextTarget(h, names, rec)) ||
        (!StartsWith(fieldName, names.default) && f == SingleTarget(h, fieldName, rec)))) ==>
      Lookup(r.index, id', t, f) == Lookup(acc.index, id', t, f)
    // the list of all-text names stays free of duplicates
    ensures Distinct(acc.allTextFieldNames) ==> Distinct(r.allTextFieldNames)
  {
    var value := rec.value.value;
    var collected :=
      if IsAllTextCollected(fieldType, rec.allText) then
        var target := AllTextTarget(h, names, rec);
        Acc(WithIndexValue(h, acc.index, id, target, value, fieldType),
            Insert(acc.allTextFieldNames, target))
      else acc;
    if !StartsWith(fieldName, names.default) then
      Acc(WithIndexValue(h, collected.index, id, SingleTarget(h, fieldName, rec), value, fieldType),
          collected.allTextFieldNames)
    else collected
  }

  /** The records of one field, from `acc` on. */
  function RecordsFrom(h: Collaborators, names: AllTextNames, id: EntityId, fieldName: string,
                       fieldType: string, acc: Acc, recs: seq<ValueRecord>): Acc
    decreases |recs|
  {
    if recs == [] then acc
    else RecordsFrom(h, names, id, fieldName, fieldType,
                     RecordStep(h, names, id, fieldName, fieldType, acc, recs[0]), recs[1..])
  }

  /** The fields of one entity, from `acc` on; the first field without a type aborts. */
  function FieldsFrom(h: Collaborators, config: EntityConfig, names: AllTextNames, id: EntityId,
                      acc: Acc, fields: EntityFields): Result<Acc, IndexError>
    decreases |fields|
  {
    if fields == [] then Ok(acc)
    else
      match ResolveFieldConfig(h.isNameMatch, config, fields[0].0, "type", None)
      case Err(e) => Err(e)
      case Ok(fieldType) =>
        FieldsFrom(h, config, names, id,
                   RecordsFrom(h, names, id, fields[0].0, fieldType, acc, ToArray(fields[0].1)),
                   fields[1..])
  }

  /** The loop after the fields (lines 159-163): the default all-text field gets the
      current value of each localized one appended, and each localized one gets the
      value the default field had before the loop. */
  function CrossMerge(h: Collaborators, index: Index, id: EntityId, allText: string,
                      localized: seq<string>, allTextValue: Value): Index
    decreases |localized|
  {
    if localized == [] then index
    else
      var n := localized[0];
      var fieldsValue := GetIndexValue(index, id, n, TYPE_TEXT);
      var withDefault := WithIndexValue(h, index, id, allText, fieldsValue, TYPE_TEXT);
      CrossMerge(h, WithIndexValue(h, withDefault, id, n, allTextValue, TYPE_TEXT),
                 id, allText, localized[1..], allTextValue)
  }

  /** Lines 155-166, once an entity's fields are collected: the default all-text name
      leaves the list, the all-text fields are cross-merged, the text fields squashed. */
  function EntityEnd(h: Collaborators, names: AllTextNames, id: EntityId, acc: Acc): Result<Index, IndexError>
  {
    var localized := Remove(acc.allTextFieldNames, names.default);
    var allTextValue := GetIndexValue(acc.index, id, names.default, TYPE_TEXT);
    var merged := CrossMerge(h, acc.index, id, names.default, localized, allTextValue);
    if id in merged then Ok(merged[id := Squashed(merged[id])])
    else Err(EntityWithoutValues(id))
  }

  /** One iteration of the outer loop of prepareIndexData. */
  function EntityStep(h: Collaborators, config: EntityConfig, names: AllTextNames, index: Index,
                      id: EntityId, fields: EntityFields): Result<Index, IndexError>
  {
    match FieldsFrom(h, config, names, id, Acc(index, []), fields)
    case Err(e) => Err(e)
    case Ok(acc) => EntityEnd(h, names, id, acc)
  }

  /** The entities of the batch, from `index` on; the first error aborts. */
  function EntitiesFrom(h: Collaborators, config: EntityConfig, names: AllTextNames,
                        index: Index, data: IndexData): Result<Index, IndexError>
    decreases |data|
  {
    if data == [] then Ok(index)
    else
      match EntityStep(h, config, names, index, data[0].0, data[0].1)
      case Err(e) => Err(e)
      case Ok(next) => EntitiesFrom(h, config, names, next, data[1..])
  }

  /** The configured all-text names. Both lookups have a truthy default, so they
      never fail. */
  function ResolveAllTextNames(isNameMatch: (string, string) -> bool, config: EntityConfig): AllTextNames
  {
    var d := ResolveFieldConfig(isNameMatch, config, ALL_TEXT_FIELD, "name", Some(ALL_TEXT_FIELD));
    var l := ResolveFieldConfig(isNameMatch, config, ALL_TEXT_L10N_FIELD, "name", Some(ALL_TEXT_L10N_FIELD));
    AllTextNames(d.value, l.value)
  }

  /** prepareIndexData as a function of its inputs. */
  function Prepared(h: Collaborators, config: EntityConfig, data: IndexData): Result<Index, IndexError>
  {
    EntitiesFrom(h, config, ResolveAllTextNames(h.isNameMatch, config), map[], data)
  }
}
