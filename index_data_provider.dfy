/**
 * The IndexDataProvider object: its injected services, its memo cache of config
 * lookups, and the imperative steps of building the index documents. Every method
 * is proved to compute the corresponding function of module SearchIndex.
 */
module Engine {
  import opened Php
  import opened SearchIndex

  /** The cache key: the entity config, the field name and the option name. */
  type CacheKey = (EntityConfig, string, string)

  class IndexDataProvider {
    const helpers: Collaborators
    /** `$this->cache` */
    var cache: map<CacheKey, string>

    /** Every cached answer is the option of the last matching config entry, so a
        cached lookup gives what a fresh one would. */
    ghost predicate Valid()
      reads this
    {
      forall k | k in cache :: LastMatch(helpers.isNameMatch, k.0, k.1, k.2) == Some(cache[k])
    }

    constructor (helpers: Collaborators)
      ensures Valid()
      ensures this.helpers == helpers && cache == map[]
    {
      this.helpers := helpers;
      cache := map[];
    }

    /** getFieldConfig. Only answers taken from a matching entry are cached; a default
        or a built-in answer is recomputed each time. */
    method GetFieldConfig(config: EntityConfig, fieldName: string, configName: string,
                          defaultValue: Option<string>) returns (r: Result<string, IndexError>)
      requires Valid()
      modifies this
      ensures Valid()
      ensures r == ResolveFieldConfig(helpers.isNameMatch, config, fieldName, configName, defaultValue)
      ensures old(cache).Keys <= cache.Keys
      ensures cache ==
        if (config, fieldName, configName) !in old(cache) &&
           LastMatch(helpers.isNameMatch, config, fieldName, configName).Some?
        then old(cache)[(config, fieldName, configName) := r.value]
        else old(cache)
    {
      var key := (config, fieldName, configName);
      if key in cache {
        return Ok(cache[key]);
      }
      var found := LastMatch(helpers.isNameMatch, config, fieldName, configName);
      if found.None? {
        if defaultValue.Some? && Truthy(Str(defaultValue.value)) {
          return Ok(defaultValue.value);
        }
        if fieldName == ALL_TEXT_FIELD || fieldName == ALL_TEXT_L10N_FIELD {
          return Ok(if configName == "type" then TYPE_TEXT else fieldName);
        }
        return Err(MissingOption(configName, fieldName));
      }
      cache := cache[key := found.value];
      return Ok(found.value);
    }

    /** clearValue: a list is cleared entry by entry, in place. */
    method ClearValue(fieldType: string, fieldName: string, v: Value) returns (r: Value)
      ensures r == Cleared(helpers, fieldType, fieldName, v)
      decreases v
    {
      if v.Arr? {
        var items := v.items;
        var i := 0;
        while i < |items|
          invariant 0 <= i <= |items| == |v.items|
          invariant forall j :: 0 <= j < i ==> items[j] == Cleared(helpers, fieldType, fieldName, v.items[j])
          invariant forall j :: i <= j < |items| ==> items[j] == v.items[j]
        {
          var element := ClearValue(fieldType, fieldName, v.items[i]);
          items := items[i := element];
          i := i + 1;
        }
        return Arr(items);
      }
      r := v;
      if fieldType == TYPE_TEXT && StartsWith(fieldName, ALL_TEXT_FIELD) {
        r := Str(helpers.stripTags(ToString(v)));
        r := Str(helpers.stripLongWords(r.s));
      }
    }

    /** setIndexValue: `index` is the array it receives by reference, the result what
        that array holds afterwards. */
    method SetIndexValue(index: Index, id: EntityId, fieldName: string, v: Value, fieldType: string)
      returns (r: Index)
      ensures r == WithIndexValue(helpers, index, id, fieldName, v, fieldType)
    {
      var value := ClearValue(fieldType, fieldName, v);
      if value == Null || value == Str("") || value == Arr([]) {
        return index;
      }
      var existingValue := GetIndexValue(index, id, fieldName, fieldType);
      if Truthy(existingValue) {
        value := UpdateFieldValue(existingValue, value, fieldType);
      }
      var doc := if id in index then index[id] else map[];
      var fields := if fieldType in doc then doc[fieldType] else map[];
      r := index[id := doc[fieldType := fields[fieldName := value]]];
    }

    /** squashAllTextFields: rewrites the all-text entries of the text fields one by one. */
    method SquashAllTextFields(doc: Document) returns (r: Document)
      ensures r == Squashed(doc)
    {
      r := doc;
      if TYPE_TEXT in doc && doc[TYPE_TEXT] != map[] {
        var text := doc[TYPE_TEXT];
        var updated := text;
        var todo := text.Keys;
        while todo != {}
          invariant todo <= text.Keys
          invariant updated.Keys == text.Keys
          invariant forall f :: f in text ==> updated[f] == (if f in todo then text[f] else SquashedEntry(f, text[f]))
          decreases todo
        {
          var f :| f in todo;
          if StartsWith(f, ALL_TEXT_FIELD) {
            updated := updated[f := Str(UpdateAllTextFieldValue(updated[f]))];
          }
          todo := todo - {f};
        }
        assert updated == map f | f in text :: SquashedEntry(f, text[f]);
        r := doc[TYPE_TEXT := updated];
      }
    }

    /** The innermost loop body of prepareIndexData, for one record of a field. */
    method AddRecord(names: AllTextNames, id: EntityId, fieldName: string, fieldType: string,
                     prepared: Index, allTextFieldNames: seq<string>, rec: ValueRecord)
      returns (prepared': Index, allTextFieldNames': seq<string>)
      ensures Acc(prepared', allTextFieldNames') ==
        RecordStep(helpers, names, id, fieldName, fieldType, Acc(prepared, allTextFieldNames), rec)
    {
      prepared', allTextFieldNames' := prepared, allTextFieldNames;
      var allTextFieldName := names.default;
      var singleValueFieldName := fieldName;
      var addToAllText := rec.allText;
      var value := rec.value.value;
      var placeholders: Placeholders := map[];
      if rec.value.Localized? {
        placeholders := rec.value.placeholders;
        allTextFieldName := names.localized;
      }
      if IsAllTextCollected(fieldType, addToAllText) {
        allTextFieldName := helpers.replace(allTextFieldName, placeholders);
        allTextFieldNames' := Insert(allTextFieldNames', allTextFieldName);
        prepared' := SetIndexValue(prepared', id, allTextFieldName, value, fieldType);
      }
      if !StartsWith(fieldName, names.default) {
        singleValueFieldName := helpers.replace(singleValueFieldName, placeholders);
        prepared' := SetIndexValue(prepared', id, singleValueFieldName, value, fieldType);
      }
    }

    /** The loop of prepareIndexData over the records of one field (lines 130-153). */
    method CollectRecords(names: AllTextNames, entityId: EntityId, fieldName: string, fieldType: string,
                          start: Acc, values: seq<ValueRecord>) returns (r: Acc)
      ensures r == RecordsFrom(helpers, names, entityId, fieldName, fieldType, start, values)
    {
      var index, allTextFieldNames := start.index, start.allTextFieldNames;
      var v := 0;
      while v < |values|
        invariant 0 <= v <= |values|
        invariant RecordsFrom(helpers, names, entityId, fieldName, fieldType, Acc(index, allTextFieldNames), values[v..]) ==
                  RecordsFrom(helpers, names, entityId, fieldName, fieldType, start, values)
      {
        assert values[v..][1..] == values[v + 1..];
        index, allTextFieldNames := AddRecord(names, entityId, fieldName, fieldType, index, allTextFieldNames, values[v]);
        v := v + 1;
      }
      return Acc(index, allTextFieldNames);
    }

    /** The loop of prepareIndexData over one entity's fields (lines 127-154). A field
        without a type in the config aborts. */
    method CollectFields(names: AllTextNames, entityConfig: EntityConfig, prepared: Index,
                         entityId: EntityId, fieldsValues: EntityFields)
      returns (r: Result<Acc, IndexError>)
      requires Valid()
      modifies this
      ensures Valid()
      ensures old(cache).Keys <= cache.Keys
      ensures r == FieldsFrom(helpers, entityConfig, names, entityId, Acc(prepared, []), fieldsValues)
    {
      var index := prepared;
      var allTextFieldNames: seq<string> := [];
      var f := 0;
      while f < |fieldsValues|
        invariant 0 <= f <= |fieldsValues|
        invariant Valid() && old(cache).Keys <= cache.Keys
        invariant FieldsFrom(helpers, entityConfig, names, entityId, Acc(index, allTextFieldNames), fieldsValues[f..]) ==
                  FieldsFrom(helpers, entityConfig, names, entityId, Acc(prepared, []), fieldsValues)
      {
        var fieldName := fieldsValues[f].0;
        var typeR := GetFieldConfig(entityConfig, fieldName, "type", None);
        if typeR.Err? {
          return Err(typeR.error);
        }
        var fieldType := typeR.value;
        var acc := CollectRecords(names, entityId, fieldName, fieldType, Acc(index, allTextFieldNames),
                                  ToArray(fieldsValues[f].1));
        index, allTextFieldNames := acc.index, acc.allTextFieldNames;
        assert fieldsValues[f..][1..] == fieldsValues[f + 1..];
        f := f + 1;
      }
      return Ok(Acc(index, allTextFieldNames));
    }

    /** Lines 158-163: the default all-text field gets each localized all-text value
        appended, and each localized field the default value read before the loop. */
    method MergeAllTextFields(prepared: Index, entityId: EntityId, allText: string,
                              allTextFieldNames: seq<string>) returns (r: Index)
      ensures r == CrossMerge(helpers, prepared, entityId, allText, allTextFieldNames,
                              GetIndexValue(prepared, entityId, allText, TYPE_TEXT))
    {
      r := prepared;
      var allTextValue := GetIndexValue(prepared, entityId, allText, TYPE_TEXT);
      var k := 0;
      while k < |allTextFieldNames|
        invariant 0 <= k <= |allTextFieldNames|
        invariant CrossMerge(helpers, r, entityId, allText, allTextFieldNames[k..], allTextValue) ==
                  CrossMerge(helpers, prepared, entityId, allText, allTextFieldNames, allTextValue)
      {
        assert allTextFieldNames[k..][1..] == allTextFieldNames[k + 1..];
        var allTextFieldName := allTextFieldNames[k];
        var fieldsValue := GetIndexValue(r, entityId, allTextFieldName, TYPE_TEXT);
        r := SetIndexValue(r, entityId, allText, fieldsValue, TYPE_TEXT);
        r := SetIndexValue(r, entityId, allTextFieldName, allTextValue, TYPE_TEXT);
        k := k + 1;
      }
    }

    /** Lines 155-166 of prepareIndexData, once an entity's fields are collected: the
        default all-text field leaves the list, the all-text fields are cross-merged and
        the entity's text fields squashed. */
    method FinishEntity(names: AllTextNames, entityId: EntityId, collected: Acc)
      returns (r: Result<Index, IndexError>)
      ensures r == EntityEnd(helpers, names, entityId, collected)
    {
      var allText := names.default;
      var allTextFieldNames := Remove(collected.allTextFieldNames, allText);
      var prepared := MergeAllTextFields(collected.index, entityId, allText, allTextFieldNames);
      if entityId !in prepared {
        return Err(EntityWithoutValues(entityId));
      }
      var squashed := SquashAllTextFields(prepared[entityId]);
      return Ok(prepared[entityId := squashed]);
    }

    /** prepareIndexData. Its result depends only on the inputs and the services, not
        on what the cache already holds. */
    method PrepareIndexData(indexData: IndexData, entityConfig: EntityConfig)
      returns (r: Result<Index, IndexError>)
      requires Valid()
      modifies this
      ensures Valid()
      ensures old(cache).Keys <= cache.Keys
      ensures r == Prepared(helpers, entityConfig, indexData)
    {
      var allTextR := GetFieldConfig(entityConfig, ALL_TEXT_FIELD, "name", Some(ALL_TEXT_FIELD));
      var allTextL10NR := GetFieldConfig(entityConfig, ALL_TEXT_L10N_FIELD, "name", Some(ALL_TEXT_L10N_FIELD));
      var names := AllTextNames(allTextR.value, allTextL10NR.value);
      var allText := names.default;
      var prepared: Index := map[];
      var e := 0;
      while e < |indexData|
        invariant 0 <= e <= |indexData|
        invariant Valid() && old(cache).Keys <= cache.Keys
        invariant EntitiesFrom(helpers, entityConfig, names, prepared, indexData[e..]) ==
                  Prepared(helpers, entityConfig, indexData)
      {
        assert indexData[e..][1..] == indexData[e + 1..];
        var entityId, fieldsValues := indexData[e].0, indexData[e].1;
        var collected := CollectFields(names, entityConfig, prepared, entityId, fieldsValues);
        if collected.Err? {
          return Err(collected.error);
        }
        var finished := FinishEntity(names, entityId, collected.value);
        if finished.Err? {
          return finished;
        }
        prepared := finished.value;
        e := e + 1;
      }
      return Ok(prepared);
    }
  }
}
