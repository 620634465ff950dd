/**
 * Properties of the index builder that relate several of its steps: squashing is
 * idempotent, a field without a type aborts the batch, a field named after the
 * all-text field is only collected, and the all-text cross-merge appends (it is not
 * a swap).
 */
module IndexProperties {
  import opened Php
  import opened SearchIndex

  // ---------------------------------------------------------------------------
  // updateFieldValue

  /** Two strings of a text field are joined with a space. Anything else becomes the
      distinct old elements followed by the distinct new ones not already present. */
  lemma UpdateFieldValueMerges(existing: Value, v: Value, fieldType: string)
    ensures fieldType == TYPE_TEXT && existing.Str? && v.Str? ==>
      UpdateFieldValue(existing, v, fieldType) == Str(existing.s + " " + v.s)
    ensures !(fieldType == TYPE_TEXT && existing.Str? && v.Str?) ==>
      UpdateFieldValue(existing, v, fieldType) ==
      Arr(Unique(AsArray(existing)) + Unique(Absent(AsArray(v), AsArray(existing))))
  {
    if !(fieldType == TYPE_TEXT && existing.Str? && v.Str?) {
      UniqueAppend(AsArray(existing), AsArray(v));
    }
  }

  /** A merged list repeats no element and loses none of either side. */
  lemma UpdateFieldValueMembers(existing: Value, v: Value, fieldType: string)
    ensures !(fieldType == TYPE_TEXT && existing.Str? && v.Str?) ==>
      var r := UpdateFieldValue(existing, v, fieldType);
      r.Arr? && Distinct(r.items) && forall x :: x in r.items <==> x in AsArray(existing) || x in AsArray(v)
  {
    if !(fieldType == TYPE_TEXT && existing.Str? && v.Str?) {
      var a, b := AsArray(existing), AsArray(v);
      UniqueMembers(a + b);
      assert forall x :: x in a + b <==> x in a || x in b;
    }
  }

  // ---------------------------------------------------------------------------
  // updateAllTextFieldValue

  /** Splitting a squashed all-text value gives the de-duplicated words of the value. */
  lemma UpdateAllTextSplits(v: Value)
    ensures Explode(UpdateAllTextFieldValue(v)) == Unique(Explode(AllTextSource(v)))
  {
    var words := Unique(Explode(AllTextSource(v)));
    UniqueMembers(Explode(AllTextSource(v)));
    assert forall i :: 0 <= i < |words| ==> words[i] in Explode(AllTextSource(v));
    ExplodeImplode(words);
  }

  /** The words of a squashed all-text value: no word repeats, no word is lost or
      added, and each word keeps the place of its first occurrence. */
  lemma UpdateAllTextWords(v: Value)
    ensures Distinct(Explode(UpdateAllTextFieldValue(v)))
    ensures forall w :: w in Explode(UpdateAllTextFieldValue(v)) <==> w in Explode(AllTextSource(v))
    ensures forall i, j :: 0 <= i < j < |Explode(UpdateAllTextFieldValue(v))| ==>
      FirstIndex(Explode(AllTextSource(v)), Explode(UpdateAllTextFieldValue(v))[i]) <
      FirstIndex(Explode(AllTextSource(v)), Explode(UpdateAllTextFieldValue(v))[j])
  {
    UpdateAllTextSplits(v);
    UniqueMembers(Explode(AllTextSource(v)));
    UniqueKeepsFirstSeenOrder(Explode(AllTextSource(v)));
  }

  /** Squashing an all-text value a second time changes nothing. */
  lemma UpdateAllTextIdempotent(v: Value)
    ensures UpdateAllTextFieldValue(Str(UpdateAllTextFieldValue(v))) == UpdateAllTextFieldValue(v)
  {
    var r := UpdateAllTextFieldValue(v);
    UpdateAllTextSplits(v);
    assert AllTextSource(Str(r)) == r;
    UniqueOfDistinct(Explode(r));
    ImplodeExplode(r);
  }

  /** So squashAllTextFields is idempotent on a whole document. */
  lemma SquashedIdempotent(doc: Document)
    ensures Squashed(Squashed(doc)) == Squashed(doc)
  {
    var once := Squashed(doc);
    if TYPE_TEXT in doc {
      forall f | f in doc[TYPE_TEXT] && StartsWith(f, ALL_TEXT_FIELD)
        ensures Squashed(once)[TYPE_TEXT][f] == once[TYPE_TEXT][f]
      {
        UpdateAllTextIdempotent(doc[TYPE_TEXT][f]);
      }
      assert Squashed(once)[TYPE_TEXT] == once[TYPE_TEXT];
    }
  }

  /** A document whose all-text fields repeat no word is squashed to itself. */
  lemma SquashedUnchanged(doc: Document)
    requires TYPE_TEXT in doc ==> forall f :: f in doc[TYPE_TEXT] && StartsWith(f, ALL_TEXT_FIELD) ==>
      doc[TYPE_TEXT][f] == Str(UpdateAllTextFieldValue(doc[TYPE_TEXT][f]))
    ensures Squashed(doc) == doc
  {
    if TYPE_TEXT in doc {
      assert Squashed(doc)[TYPE_TEXT] == doc[TYPE_TEXT];
    }
  }

  // ---------------------------------------------------------------------------
  // Fields without a type

  /** getFieldConfig($entityConfig, $fieldName, 'type') throws. */
  predicate Untyped(h: Collaborators, config: EntityConfig, fieldName: string)
  {
    ResolveFieldConfig(h.isNameMatch, config, fieldName, "type", None).Err?
  }

  /** The fields of an entity fail exactly when one of them has no type. */
  lemma {:induction false} FieldsFromFailsIff(h: Collaborators, config: EntityConfig, names: AllTextNames,
                                              id: EntityId, acc: Acc, fields: EntityFields)
    ensures FieldsFrom(h, config, names, id, acc, fields).Err? <==>
      exists i :: 0 <= i < |fields| && Untyped(h, config, fields[i].0)
    decreases |fields|
  {
    if fields != [] {
      var resolved := ResolveFieldConfig(h.isNameMatch, config, fields[0].0, "type", None);
      if resolved.Ok? {
        var next := RecordsFrom(h, names, id, fields[0].0, resolved.value, acc, ToArray(fields[0].1));
        FieldsFromFailsIff(h, config, names, id, next, fields[1..]);
        assert forall i :: 1 <= i < |fields| ==> fields[i] == fields[1..][i - 1];
      } else {
        assert Untyped(h, config, fields[0].0);
      }
    }
  }

  /** Field `i` is the first field without a type. */
  predicate FirstUntyped(h: Collaborators, config: EntityConfig, fields: EntityFields, i: int)
  {
    0 <= i < |fields| && Untyped(h, config, fields[i].0) &&
    forall j :: 0 <= j < i ==> !Untyped(h, config, fields[j].0)
  }

  /** A failure of the fields of an entity is the "Missing option" error for 'type' of
      the first field without a type. */
  lemma {:induction false} FieldsFromFirstUntyped(h: Collaborators, config: EntityConfig, names: AllTextNames,
                                                  id: EntityId, acc: Acc, fields: EntityFields)
    ensures FieldsFrom(h, config, names, id, acc, fields).Err? ==>
      exists i :: FirstUntyped(h, config, fields, i) &&
        FieldsFrom(h, config, names, id, acc, fields).error == MissingOption("type", fields[i].0)
    decreases |fields|
  {
    if fields != [] {
      var resolved := ResolveFieldConfig(h.isNameMatch, config, fields[0].0, "type", None);
      if resolved.Ok? {
        var next := RecordsFrom(h, names, id, fields[0].0, resolved.value, acc, ToArray(fields[0].1));
        var later := FieldsFrom(h, config, names, id, next, fields[1..]);
        FieldsFromFirstUntyped(h, config, names, id, next, fields[1..]);
        if later.Err? {
          var i :| FirstUntyped(h, config, fields[1..], i) && later.error == MissingOption("type", fields[1..][i].0);
          assert forall j :: 1 <= j < |fields| ==> fields[j] == fields[1..][j - 1];
          assert FirstUntyped(h, config, fields, i + 1);
        }
      } else {
        assert FirstUntyped(h, config, fields, 0);
      }
    }
  }

  /** Field `i` of entity `e` of the batch has no type. */
  predicate UntypedAt(h: Collaborators, config: EntityConfig, data: IndexData, e: int, i: int)
  {
    0 <= e < |data| && 0 <= i < |data[e].1| && Untyped(h, config, data[e].1[i].0)
  }

  /** A field of any entity without a type makes the whole batch fail. */
  lemma {:induction false} EntitiesFromUntypedFails(h: Collaborators, config: EntityConfig, names: AllTextNames,
                                                    index: Index, data: IndexData)
    ensures (exists e, i :: UntypedAt(h, config, data, e, i)) ==> EntitiesFrom(h, config, names, index, data).Err?
    decreases |data|
  {
    if data != [] && exists e, i :: UntypedAt(h, config, data, e, i) {
      var id, fields := data[0].0, data[0].1;
      var step := EntityStep(h, config, names, index, id, fields);
      if step.Ok? {
        var e, i :| UntypedAt(h, config, data, e, i);
        assert FieldsFrom(h, config, names, id, Acc(index, []), fields).Ok?;
        assert e != 0 by {
          FieldsFromFailsIff(h, config, names, id, Acc(index, []), fields);
        }
        assert UntypedAt(h, config, data[1..], e - 1, i) by {
          assert data[e] == data[1..][e - 1];
        }
        EntitiesFromUntypedFails(h, config, names, step.value, data[1..]);
      }
    }
  }

  /** Every "Missing option" error of a batch is for the 'type' of one of its fields
      that has no type. */
  lemma {:induction false} EntitiesFromMissingType(h: Collaborators, config: EntityConfig, names: AllTextNames,
                                                   index: Index, data: IndexData)
    ensures var r := EntitiesFrom(h, config, names, index, data);
      r.Err? && r.error.MissingOption? ==>
      r.error.configName == "type" &&
      exists e, i :: UntypedAt(h, config, data, e, i) && data[e].1[i].0 == r.error.fieldName
    decreases |data|
  {
    var r := EntitiesFrom(h, config, names, index, data);
    if data != [] && r.Err? && r.error.MissingOption? {
      var id, fields := data[0].0, data[0].1;
      var step := EntityStep(h, config, names, index, id, fields);
      var fieldsResult := FieldsFrom(h, config, names, id, Acc(index, []), fields);
      if step.Ok? {
        assert r == EntitiesFrom(h, config, names, step.value, data[1..]);
        EntitiesFromMissingType(h, config, names, step.value, data[1..]);
        var e, i :| UntypedAt(h, config, data[1..], e, i) && data[1..][e].1[i].0 == r.error.fieldName;
        assert data[e + 1] == data[1..][e];
        assert UntypedAt(h, config, data, e + 1, i);
      } else {
        assert r == step;
        assert fieldsResult.Err?;
        assert step == Err(fieldsResult.error);
        var i :| FirstUntyped(h, config, fields, i) &&
          fieldsResult.error == MissingOption("type", fields[i].0) by {
          FieldsFromFirstUntyped(h, config, names, id, Acc(index, []), fields);
        }
        assert 0 <= i < |data[0].1| && Untyped(h, config, data[0].1[i].0) by {
          assert FirstUntyped(h, config, fields, i);
        }
        assert UntypedAt(h, config, data, 0, i);
      }
    }
  }

  /** prepareIndexData throws when any field of the batch has no type in the config,
      and its "Missing option" error is always about such a field's 'type'. */
  lemma PreparedUntyped(h: Collaborators, config: EntityConfig, data: IndexData)
    ensures (exists e, i :: UntypedAt(h, config, data, e, i)) ==> Prepared(h, config, data).Err?
    ensures var r := Prepared(h, config, data);
      r.Err? && r.error.MissingOption? ==>
      r.error.configName == "type" &&
      exists e, i :: UntypedAt(h, config, data, e, i) && data[e].1[i].0 == r.error.fieldName
  {
    EntitiesFromUntypedFails(h, config, ResolveAllTextNames(h.isNameMatch, config), map[], data);
    EntitiesFromMissingType(h, config, ResolveAllTextNames(h.isNameMatch, config), map[], data);
  }

  // ---------------------------------------------------------------------------
  // Fields named after the all-text field

  /** The all-text fields the records of one field are collected into. */
  function CollectedTargets(h: Collaborators, names: AllTextNames, fieldType: string,
                            recs: seq<ValueRecord>): set<string>
  {
    set i | 0 <= i < |recs| && IsAllTextCollected(fieldType, recs[i].allText) :: AllTextTarget(h, names, recs[i])
  }

  /** A field whose name starts with the configured all-text name is never stored under
      its own name: its records only reach the all-text fields they are collected into,
      and if they are not text they are dropped altogether. */
  lemma {:induction false} AllTextNamedFieldOnlyCollected(h: Collaborators, names: AllTextNames, id: EntityId,
                                                          fieldName: string, fieldType: string, acc: Acc,
                                                          recs: seq<ValueRecord>)
    requires StartsWith(fieldName, names.default)
    ensures forall id', t, f :: (id' != id || t != fieldType || f !in CollectedTargets(h, names, fieldType, recs)) ==>
      Lookup(RecordsFrom(h, names, id, fieldName, fieldType, acc, recs).index, id', t, f) == Lookup(acc.index, id', t, f)
    ensures fieldType != TYPE_TEXT ==> RecordsFrom(h, names, id, fieldName, fieldType, acc, recs) == acc
    decreases |recs|
  {
    if recs != [] {
      var next := RecordStep(h, names, id, fieldName, fieldType, acc, recs[0]);
      AllTextNamedFieldOnlyCollected(h, names, id, fieldName, fieldType, next, recs[1..]);
      assert forall i :: 1 <= i < |recs| ==> recs[i] == recs[1..][i - 1];
      assert CollectedTargets(h, names, fieldType, recs[1..]) <= CollectedTargets(h, names, fieldType, recs);
      if IsAllTextCollected(fieldType, recs[0].allText) {
        assert AllTextTarget(h, names, recs[0]) in CollectedTargets(h, names, fieldType, recs);
      }
    }
  }

  // ---------------------------------------------------------------------------
  // The all-text cross-merge (lines 156-163)

  /** The values of the named text fields of an entity, as getIndexValue reads them. */
  function ValuesOf(index: Index, id: EntityId, fieldNames: seq<string>): seq<Value>
  {
    seq(|fieldNames|, i requires 0 <= i < |fieldNames| => GetIndexValue(index, id, fieldNames[i], TYPE_TEXT))
  }

  /** Values read from entries that agree are the same. */
  lemma ValuesOfUnchanged(index: Index, index': Index, id: EntityId, fieldNames: seq<string>)
    requires forall f :: f in fieldNames ==> Lookup(index', id, TYPE_TEXT, f) == Lookup(index, id, TYPE_TEXT, f)
    ensures ValuesOf(index', id, fieldNames) == ValuesOf(index, id, fieldNames)
  {
    assert forall i :: 0 <= i < |fieldNames| ==> fieldNames[i] in fieldNames;
  }

  /** The first value read, then those of the other fields. */
  lemma ValuesOfCons(index: Index, id: EntityId, fieldNames: seq<string>)
    requires fieldNames != []
    ensures ValuesOf(index, id, fieldNames) ==
      [GetIndexValue(index, id, fieldNames[0], TYPE_TEXT)] + ValuesOf(index, id, fieldNames[1..])
  {
    var vs := ValuesOf(index, id, fieldNames);
    assert forall i :: 1 <= i < |vs| ==> vs[i] == ValuesOf(index, id, fieldNames[1..])[i - 1];
  }

  /** An entry after setIndexValue has stored the values one after the other. */
  function MergedAll(h: Collaborators, entry: Option<Value>, fieldName: string, vs: seq<Value>,
                     fieldType: string): Option<Value>
    decreases |vs|
  {
    if vs == [] then entry
    else MergedAll(h, Merged(h, entry, fieldName, vs[0], fieldType), fieldName, vs[1..], fieldType)
  }

  /** The cross-merge touches only the entity's default and localized text fields. */
  lemma {:induction false} CrossMergeFrame(h: Collaborators, index: Index, id: EntityId, allText: string,
                                           localized: seq<string>, allTextValue: Value)
    ensures forall id', t, f :: (id' != id || t != TYPE_TEXT || (f != allText && f !in localized)) ==>
      Lookup(CrossMerge(h, index, id, allText, localized, allTextValue), id', t, f) == Lookup(index, id', t, f)
    decreases |localized|
  {
    if localized != [] {
      var n, rest := localized[0], localized[1..];
      assert forall f :: f in rest ==> f in localized;
      var first := WithIndexValue(h, index, id, allText, GetIndexValue(index, id, n, TYPE_TEXT), TYPE_TEXT);
      var second := WithIndexValue(h, first, id, n, allTextValue, TYPE_TEXT);
      CrossMergeFrame(h, second, id, allText, rest, allTextValue);
    }
  }

  /** Each localized all-text field gets the default value from before the loop
      appended, once. */
  lemma {:induction false} CrossMergeLocalized(h: Collaborators, index: Index, id: EntityId, allText: string,
                                               localized: seq<string>, allTextValue: Value)
    requires Distinct(localized) && allText !in localized
    ensures forall i :: 0 <= i < |localized| ==>
      Lookup(CrossMerge(h, index, id, allText, localized, allTextValue), id, TYPE_TEXT, localized[i]) ==
      Merged(h, Lookup(index, id, TYPE_TEXT, localized[i]), localized[i], allTextValue, TYPE_TEXT)
    decreases |localized|
  {
    if localized != [] {
      var n, rest := localized[0], localized[1..];
      assert forall i :: 1 <= i < |localized| ==> localized[i] == rest[i - 1];
      assert n !in rest;
      var first := WithIndexValue(h, index, id, allText, GetIndexValue(index, id, n, TYPE_TEXT), TYPE_TEXT);
      var second := WithIndexValue(h, first, id, n, allTextValue, TYPE_TEXT);
      CrossMergeLocalized(h, second, id, allText, rest, allTextValue);
      CrossMergeFrame(h, second, id, allText, rest, allTextValue);
    }
  }

  /** The cross-merge is not a swap: the default all-text field gets the values of the
      localized ones appended in order, as they stood after the field loop. */
  lemma {:induction false} CrossMergeDefault(h: Collaborators, index: Index, id: EntityId, allText: string,
                                             localized: seq<string>, allTextValue: Value)
    requires Distinct(localized) && allText !in localized
    ensures Lookup(CrossMerge(h, index, id, allText, localized, allTextValue), id, TYPE_TEXT, allText) ==
      MergedAll(h, Lookup(index, id, TYPE_TEXT, allText), allText, ValuesOf(index, id, localized), TYPE_TEXT)
    decreases |localized|
  {
    if localized != [] {
      var n, rest := localized[0], localized[1..];
      assert forall i :: 1 <= i < |localized| ==> localized[i] == rest[i - 1];
      assert n !in rest;
      var first := WithIndexValue(h, index, id, allText, GetIndexValue(index, id, n, TYPE_TEXT), TYPE_TEXT);
      var second := WithIndexValue(h, first, id, n, allTextValue, TYPE_TEXT);
      var entry := Merged(h, Lookup(index, id, TYPE_TEXT, allText), allText, GetIndexValue(index, id, n, TYPE_TEXT), TYPE_TEXT);
      assert Lookup(second, id, TYPE_TEXT, allText) == entry by {
        assert Lookup(second, id, TYPE_TEXT, allText) == Lookup(first, id, TYPE_TEXT, allText);
      }
      assert ValuesOf(second, id, rest) == ValuesOf(index, id, rest) by {
        forall f | f in rest
          ensures Lookup(second, id, TYPE_TEXT, f) == Lookup(index, id, TYPE_TEXT, f)
        {
          assert f != n && f != allText;
        }
        ValuesOfUnchanged(index, second, id, rest);
      }
      assert Lookup(CrossMerge(h, index, id, allText, localized, allTextValue), id, TYPE_TEXT, allText) ==
             MergedAll(h, entry, allText, ValuesOf(index, id, rest), TYPE_TEXT) by {
        CrossMergeDefault(h, second, id, allText, rest, allTextValue);
      }
      ValuesOfCons(index, id, localized);
    }
  }

  /** The list of all-text names a field's records build has no duplicates. */
  lemma {:induction false} RecordsFromDistinct(h: Collaborators, names: AllTextNames, id: EntityId,
                                               fieldName: string, fieldType: string, acc: Acc,
                                               recs: seq<ValueRecord>)
    requires Distinct(acc.allTextFieldNames)
    ensures Distinct(RecordsFrom(h, names, id, fieldName, fieldType, acc, recs).allTextFieldNames)
    decreases |recs|
  {
    if recs != [] {
      RecordsFromDistinct(h, names, id, fieldName, fieldType,
                          RecordStep(h, names, id, fieldName, fieldType, acc, recs[0]), recs[1..]);
    }
  }

  /** The same over all the fields of an entity. */
  lemma {:induction false} FieldsFromDistinct(h: Collaborators, config: EntityConfig, names: AllTextNames,
                                              id: EntityId, acc: Acc, fields: EntityFields)
    requires Distinct(acc.allTextFieldNames)
    ensures FieldsFrom(h, config, names, id, acc, fields).Ok? ==>
      Distinct(FieldsFrom(h, config, names, id, acc, fields).value.allTextFieldNames)
    decreases |fields|
  {
    if fields != [] {
      var typed := ResolveFieldConfig(h.isNameMatch, config, fields[0].0, "type", None);
      if typed.Ok? {
        var next := RecordsFrom(h, names, id, fields[0].0, typed.value, acc, ToArray(fields[0].1));
        RecordsFromDistinct(h, names, id, fields[0].0, typed.value, acc, ToArray(fields[0].1));
        FieldsFromDistinct(h, config, names, id, next, fields[1..]);
      }
    }
  }

  /** At the end of an entity (lines 155-163) the cross-merge sees a list of localized
      names without duplicates and without the default name, so the default all-text
      field gets every localized value appended in order and each localized field gets
      the default value from before the loop appended once. */
  lemma EntityCrossMerge(h: Collaborators, config: EntityConfig, names: AllTextNames, index: Index,
                         id: EntityId, fields: EntityFields)
    requires FieldsFrom(h, config, names, id, Acc(index, []), fields).Ok?
    ensures var acc := FieldsFrom(h, config, names, id, Acc(index, []), fields).value;
            var localized := Remove(acc.allTextFieldNames, names.default);
            var allTextValue := GetIndexValue(acc.index, id, names.default, TYPE_TEXT);
            var merged := CrossMerge(h, acc.index, id, names.default, localized, allTextValue);
            Lookup(merged, id, TYPE_TEXT, names.default) ==
              MergedAll(h, Lookup(acc.index, id, TYPE_TEXT, names.default), names.default,
                        ValuesOf(acc.index, id, localized), TYPE_TEXT) &&
            (forall i :: 0 <= i < |localized| ==>
              Lookup(merged, id, TYPE_TEXT, localized[i]) ==
              Merged(h, Lookup(acc.index, id, TYPE_TEXT, localized[i]), localized[i], allTextValue, TYPE_TEXT))
  {
    var acc := FieldsFrom(h, config, names, id, Acc(index, []), fields).value;
    FieldsFromDistinct(h, config, names, id, Acc(index, []), fields);
    var localized := Remove(acc.allTextFieldNames, names.default);
    var allTextValue := GetIndexValue(acc.index, id, names.default, TYPE_TEXT);
    CrossMergeDefault(h, acc.index, id, names.default, localized, allTextValue);
    CrossMergeLocalized(h, acc.index, id, names.default, localized, allTextValue);
  }
}
