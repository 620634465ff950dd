/**
 * Worked instances of the index builder. The placeholder matcher never matches and
 * the HTML helpers leave text alone; placeholder replacement leaves every name as it
 * is, except that with non-empty placeholders `all_text_LOCALIZATION_ID` becomes
 * `all_text_1`.
 */
module IndexExamples {
  import opened Php
  import opened SearchIndex
  import opened IndexProperties

  /** Placeholder replacement that puts "1" for the localization id, HTML helpers that
      leave text alone, and no pattern matches. */
  function Plainly(): Collaborators
  {
    Collaborators(
      (name: string, p: Placeholders) => if name == ALL_TEXT_L10N_FIELD && p != map[] then "all_text_1" else name,
      (pattern: string, name: string) => false,
      (s: string) => s,
      (s: string) => s)
  }

  /** The config entry (name: "name", type: "text"). */
  function NameConfig(): EntityConfig
  {
    [map["name" := "name", "type" := "text"]]
  }

  /** A plain value `s` of field "name", collected into all_text. */
  function NameRecord(s: string): ValueRecord
  {
    ValueRecord(Plain(Str(s)), true)
  }

  function NameIndex(s: string): Index
  {
    map[1 := map["text" := map["all_text" := Str(s), "name" := Str(s)]]]
  }

  /** Neither all-text field is configured, so both keep their built-in names; "name"
      has type text. */
  lemma NameConfigLookups()
    ensures ResolveAllTextNames(Plainly().isNameMatch, NameConfig()) == AllTextNames(ALL_TEXT_FIELD, ALL_TEXT_L10N_FIELD)
    ensures ResolveFieldConfig(Plainly().isNameMatch, NameConfig(), "name", "type", None) == Ok(TYPE_TEXT)
  {
    var h, config := Plainly(), NameConfig();
    assert !FieldMatches(h.isNameMatch, config[0], ALL_TEXT_FIELD, "name");
    assert !FieldMatches(h.isNameMatch, config[0], ALL_TEXT_L10N_FIELD, "name");
    assert FieldMatches(h.isNameMatch, config[0], "name", "type");
  }

  /** The record is stored under "name" and collected into "all_text". */
  lemma NameRecordStep(s: string)
    requires s != ""
    ensures RecordStep(Plainly(), AllTextNames(ALL_TEXT_FIELD, ALL_TEXT_L10N_FIELD), 1, "name", TYPE_TEXT,
                       Acc(map[], []), NameRecord(s)) == Acc(NameIndex(s), [ALL_TEXT_FIELD])
  {
    var h, names, rec, stored := Plainly(), AllTextNames(ALL_TEXT_FIELD, ALL_TEXT_L10N_FIELD), NameRecord(s), NameIndex(s);
    assert !StartsWith("name", ALL_TEXT_FIELD);
    assert AllTextTarget(h, names, rec) == ALL_TEXT_FIELD && SingleTarget(h, "name", rec) == "name";
    assert StartsWith(ALL_TEXT_FIELD, ALL_TEXT_FIELD);
    assert Cleared(h, TYPE_TEXT, ALL_TEXT_FIELD, Str(s)) == Str(s);
    var collected := map[1 := map["text" := map["all_text" := Str(s)]]];
    assert WithIndexValue(h, map[], 1, ALL_TEXT_FIELD, Str(s), TYPE_TEXT) == collected;
    assert Cleared(h, TYPE_TEXT, "name", Str(s)) == Str(s);
    assert GetIndexValue(collected, 1, "name", TYPE_TEXT) == Str("");
    assert collected[1][TYPE_TEXT]["name" := Str(s)] == stored[1][TYPE_TEXT];
    assert collected[1][TYPE_TEXT := stored[1][TYPE_TEXT]] == stored[1];
    assert WithIndexValue(h, collected, 1, "name", Str(s), TYPE_TEXT) == stored;
  }

  /** A value that repeats no word is kept by squashing. */
  lemma NameSquashed(s: string)
    requires UpdateAllTextFieldValue(Str(s)) == s
    ensures Squashed(NameIndex(s)[1]) == NameIndex(s)[1]
  {
    var doc: Document := map["text" := map["all_text" := Str(s), "name" := Str(s)]];
    assert doc == NameIndex(s)[1];
    assert doc[TYPE_TEXT].Keys == {ALL_TEXT_FIELD, "name"};
    assert !StartsWith("name", ALL_TEXT_FIELD);
    forall f | f in doc[TYPE_TEXT] && StartsWith(f, ALL_TEXT_FIELD)
      ensures doc[TYPE_TEXT][f] == Str(UpdateAllTextFieldValue(doc[TYPE_TEXT][f]))
    {
      assert f == ALL_TEXT_FIELD;
    }
    SquashedUnchanged(doc);
  }

  /** With no localized values there is nothing to cross-merge. */
  lemma NameEnd(s: string)
    requires UpdateAllTextFieldValue(Str(s)) == s
    ensures EntityEnd(Plainly(), AllTextNames(ALL_TEXT_FIELD, ALL_TEXT_L10N_FIELD), 1,
                      Acc(NameIndex(s), [ALL_TEXT_FIELD])) == Ok(NameIndex(s))
  {
    NameSquashed(s);
    var h := Plainly();
    assert Remove([ALL_TEXT_FIELD], ALL_TEXT_FIELD) == [];
    assert CrossMerge(h, NameIndex(s), 1, ALL_TEXT_FIELD, [], GetIndexValue(NameIndex(s), 1, ALL_TEXT_FIELD, TYPE_TEXT)) == NameIndex(s);
    assert NameIndex(s)[1 := Squashed(NameIndex(s)[1])] == NameIndex(s);
  }

  /** The record loop of field "name" over its one record. */
  lemma NameRecords(s: string)
    requires s != ""
    ensures RecordsFrom(Plainly(), AllTextNames(ALL_TEXT_FIELD, ALL_TEXT_L10N_FIELD), 1, "name", TYPE_TEXT,
                        Acc(map[], []), [NameRecord(s)]) == Acc(NameIndex(s), [ALL_TEXT_FIELD])
  {
    NameRecordStep(s);
    assert [NameRecord(s)][1..] == [];
  }

  /** The field loop of the entity: the one record is stored under "name" and "all_text". */
  lemma NameFields(s: string)
    requires s != ""
    ensures FieldsFrom(Plainly(), NameConfig(), AllTextNames(ALL_TEXT_FIELD, ALL_TEXT_L10N_FIELD), 1, Acc(map[], []),
                       [("name", Records([NameRecord(s)]))]) == Ok(Acc(NameIndex(s), [ALL_TEXT_FIELD]))
  {
    var h, config, names := Plainly(), NameConfig(), AllTextNames(ALL_TEXT_FIELD, ALL_TEXT_L10N_FIELD);
    var fields := [("name", Records([NameRecord(s)]))];
    var acc0 := Acc(map[], []);
    NameRecords(s);
    assert FieldsFrom(h, config, names, 1, acc0, fields) ==
           FieldsFrom(h, config, names, 1, RecordsFrom(h, names, 1, "name", TYPE_TEXT, acc0, ToArray(fields[0].1)), fields[1..]) by {
      NameConfigLookups();
    }
    assert ToArray(fields[0].1) == [NameRecord(s)];
    assert fields[1..] == [];
  }

  /** The whole entity: fields, then the cross-merge and the squash, which change nothing. */
  lemma NameEntity(s: string)
    requires s != "" && UpdateAllTextFieldValue(Str(s)) == s
    ensures EntityStep(Plainly(), NameConfig(), AllTextNames(ALL_TEXT_FIELD, ALL_TEXT_L10N_FIELD), map[], 1,
                       [("name", Records([NameRecord(s)]))]) == Ok(NameIndex(s))
  {
    NameFields(s);
    NameEnd(s);
  }

  /** A text value of field "name" marked for all_text is stored under both names. */
  lemma NameCollected(s: string)
    requires s != "" && UpdateAllTextFieldValue(Str(s)) == s
    ensures Prepared(Plainly(), NameConfig(), [(1, [("name", Records([NameRecord(s)]))])]) == Ok(NameIndex(s))
  {
    var h, config, names := Plainly(), NameConfig(), AllTextNames(ALL_TEXT_FIELD, ALL_TEXT_L10N_FIELD);
    var data := [(1, [("name", Records([NameRecord(s)]))])];
    assert ResolveAllTextNames(h.isNameMatch, config) == names by {
      NameConfigLookups();
    }
    assert data[0].0 == 1 && data[0].1 == [("name", Records([NameRecord(s)]))];
    assert EntitiesFrom(h, config, names, map[], data) == EntitiesFrom(h, config, names, NameIndex(s), data[1..]) by {
      NameEntity(s);
    }
    assert data[1..] == [];
  }

  /** "Red Shirt" repeats no word. */
  lemma ShirtWords()
    ensures UpdateAllTextFieldValue(Str("Red Shirt")) == "Red Shirt"
  {
    ExplodeImplode(["Red", "Shirt"]);
    assert Implode(["Red", "Shirt"]) == "Red Shirt";
    UniqueOfDistinct(["Red", "Shirt"]);
  }

  /** The product whose name "Red Shirt" is also collected into all_text. */
  lemma RedShirt()
    ensures Prepared(Plainly(), NameConfig(), [(1, [("name", Records([ValueRecord(Plain(Str("Red Shirt")), true)]))])]) ==
            Ok(map[1 := map["text" := map["all_text" := Str("Red Shirt"), "name" := Str("Red Shirt")]]])
  {
    ShirtWords();
    NameCollected("Red Shirt");
  }

  /** The entity after its field loop: "Blue" in all_text, "Bleu" in all_text_1. */
  function BlueBleu(): Index
  {
    map[1 := map["text" := map["all_text" := Str("Blue"), "all_text_1" := Str("Bleu")]]]
  }

  /** The first update of the cross-merge appends "Bleu" to the default field. */
  lemma BleuAppended()
    ensures WithIndexValue(Plainly(), BlueBleu(), 1, ALL_TEXT_FIELD, Str("Bleu"), TYPE_TEXT) ==
            map[1 := map["text" := map["all_text" := Str("Blue Bleu"), "all_text_1" := Str("Bleu")]]]
  {
    var h, index := Plainly(), BlueBleu();
    assert Cleared(h, TYPE_TEXT, ALL_TEXT_FIELD, Str("Bleu")) == Str("Bleu");
    assert GetIndexValue(index, 1, ALL_TEXT_FIELD, TYPE_TEXT) == Str("Blue");
    assert Truthy(Str("Blue"));
    assert UpdateFieldValue(Str("Blue"), Str("Bleu"), TYPE_TEXT) == Str("Blue Bleu");
    var text := map["all_text" := Str("Blue Bleu"), "all_text_1" := Str("Bleu")];
    assert index[1][TYPE_TEXT][ALL_TEXT_FIELD := Str("Blue Bleu")] == text;
    assert index[1][TYPE_TEXT := text] == map["text" := text];
  }

  /** The second update appends the old default value "Blue" to the localized field. */
  lemma BlueAppended()
    ensures WithIndexValue(Plainly(), map[1 := map["text" := map["all_text" := Str("Blue Bleu"), "all_text_1" := Str("Bleu")]]],
                           1, "all_text_1", Str("Blue"), TYPE_TEXT) ==
            map[1 := map["text" := map["all_text" := Str("Blue Bleu"), "all_text_1" := Str("Bleu Blue")]]]
  {
    var h := Plainly();
    var index := map[1 := map["text" := map["all_text" := Str("Blue Bleu"), "all_text_1" := Str("Bleu")]]];
    assert StartsWith("all_text_1", ALL_TEXT_FIELD);
    assert Cleared(h, TYPE_TEXT, "all_text_1", Str("Blue")) == Str("Blue");
    assert GetIndexValue(index, 1, "all_text_1", TYPE_TEXT) == Str("Bleu");
    assert Truthy(Str("Bleu"));
    assert UpdateFieldValue(Str("Bleu"), Str("Blue"), TYPE_TEXT) == Str("Bleu Blue");
    var text := map["all_text" := Str("Blue Bleu"), "all_text_1" := Str("Bleu Blue")];
    assert index[1][TYPE_TEXT]["all_text_1" := Str("Bleu Blue")] == text;
    assert index[1][TYPE_TEXT := text] == map["text" := text];
  }

  /** After the field loop the default all-text field holds "Blue" and the localized one
      "Bleu". The cross-merge appends each to the other instead of exchanging them. */
  lemma CrossMergeAppends()
    ensures CrossMerge(Plainly(), BlueBleu(), 1, ALL_TEXT_FIELD, ["all_text_1"], Str("Blue")) ==
            map[1 := map["text" := map["all_text" := Str("Blue Bleu"), "all_text_1" := Str("Bleu Blue")]]]
  {
    assert GetIndexValue(BlueBleu(), 1, "all_text_1", TYPE_TEXT) == Str("Bleu");
    BleuAppended();
    BlueAppended();
    assert ["all_text_1"][1..] == [];
  }
}
