/**
 * Worked instances of the model on one small struct,
 *
 *   struct Person { 1: required string name; 2: optional i32 age; 3: list<string> tags }
 *
 * showing the spec tuple, the tables, the generated `read`, the `validate`
 * its generator would emit,
 * and the tiny protocol's string table on concrete values.
 */
module Scenarios {
  import opened Wrappers
  import opened ThriftTypes
  import opened WireDescriptor
  import opened SpecTable
  import opened SqlSchema
  import opened StructReader
  import opened TinyProtocol

  const Tags: ThriftType := TList(TString(false), false)

  const Person: StructDef := StructDef("Person", [
    Field(1, "name", TString(false), Required, None),
    Field(2, "age", TI32, Optional, None),
    Field(3, "tags", Tags, DefaultRequiredness, None)], false)

  const People: Env := map["Person" := Person]

  /** Slot 0 of the spec tuple is empty and each member sits at its own id. */
  lemma PersonSpec()
    ensures ThriftSpec(Person.fields) == Ok([
      None,
      Some(SpecEntry(1, STRING, "name", Utf8Args, None)),
      Some(SpecEntry(2, I32, "age", NoArgs, None)),
      Some(SpecEntry(3, LIST, "tags", ElemArgs(STRING, Utf8Args, false), None))])
  {
    var fs := Person.fields;
    PersonEntries();
    SpecIndexedById(fs);
    var spec := ThriftSpec(fs).value;
    assert 0 !in Ids(fs);
    var expected := [
      None,
      Some(SpecEntry(1, STRING, "name", Utf8Args, None)),
      Some(SpecEntry(2, I32, "age", NoArgs, None)),
      Some(SpecEntry(3, LIST, "tags", ElemArgs(STRING, Utf8Args, false), None))];
    assert |spec| == 4;
    assert spec[0] == None && spec[1] == expected[1] && spec[2] == expected[2] && spec[3] == expected[3];
    assert spec == expected;
  }

  lemma PersonEntries()
    ensures AllVoidFree(Person.fields)
    ensures EntryOf(Person.fields[0]) == Ok(SpecEntry(1, STRING, "name", Utf8Args, None))
    ensures EntryOf(Person.fields[1]) == Ok(SpecEntry(2, I32, "age", NoArgs, None))
    ensures EntryOf(Person.fields[2]) == Ok(SpecEntry(3, LIST, "tags", ElemArgs(STRING, Utf8Args, false), None))
  {
    assert SpecArgsOf(Tags) == Ok(ElemArgs(STRING, Utf8Args, false));
  }

  /** The relationship `Person` gains for `tags`. */
  const TagsRelation: Member := OneToMany("tags", "__Person_tags", "Person", ListCollection)

  /** The pivot table of `tags`. */
  const TagsTable: Table := Table("__Person_tags", [PrimaryKey("_id"), ForeignKey("Person_fk", "Person"), Column("Item", SqlString)], map[])

  /**
   * The struct's table holds `_id`, a column per scalar member and a
   * relationship for `tags`, whose pivot table `__Person_tags` holds `_id`,
   * the `Person_fk` key and the string `Item`.
   */
  lemma PersonTables()
    ensures SqlTables(Person) == Ok([
      Table("Person",
            [PrimaryKey("_id"), Column("name", SqlString), Column("age", SqlInteger),
             OneToMany("tags", "__Person_tags", "Person", ListCollection)],
            map["tags" := "__Person_tags"]),
      Table("__Person_tags",
            [PrimaryKey("_id"), ForeignKey("Person_fk", "Person"), Column("Item", SqlString)],
            map[])])
  {
    PersonFieldColumns();
    var members := [Column("name", SqlString), Column("age", SqlInteger), TagsRelation];
    var base := DefaultTable("Person");
    var head := base.(members := base.members + members, pivots := map["tags" := "__Person_tags"]);
    assert SqlTables(Person) == Ok([head] + [TagsTable]);
    assert [PrimaryKey("_id")] + members ==
      [PrimaryKey("_id"), Column("name", SqlString), Column("age", SqlInteger), TagsRelation];
    assert head == Table("Person", [PrimaryKey("_id")] + members, map["tags" := "__Person_tags"]);
    assert [head] + [TagsTable] == [head, TagsTable];
  }

  /** What `Person`'s members contribute, in declaration order. */
  lemma PersonFieldColumns()
    ensures FieldColumns(Person.fields, "Person") == Ok(ColumnOut(
      [Column("name", SqlString), Column("age", SqlInteger), TagsRelation], map["tags" := "__Person_tags"], [TagsTable]))
  {
    PersonColumns();
    PersonTailColumns();
    FieldColumnsCons(Person.fields, "Person");
    assert [Column("name", SqlString)] + [Column("age", SqlInteger), TagsRelation] ==
      [Column("name", SqlString), Column("age", SqlInteger), TagsRelation];
    assert map[] + map["tags" := "__Person_tags"] == map["tags" := "__Person_tags"];
  }

  /** What `age` and `tags` contribute. */
  lemma PersonTailColumns()
    ensures FieldColumns(Person.fields[1..], "Person") ==
      Ok(ColumnOut([Column("age", SqlInteger), TagsRelation], map["tags" := "__Person_tags"], [TagsTable]))
  {
    var fs := Person.fields;
    PersonColumns();
    assert fs[1..][1..] == [fs[2]] && [fs[2]][1..] == [] && fs[1..][0] == fs[1];
    assert FieldColumns([], "Person") == Ok(ColumnOut([], map[], []));
    FieldColumnsCons([fs[2]], "Person");
    assert [fs[2]][0].ftype == Tags && [fs[2]][0].name == "tags";
    assert [TagsRelation] + [] == [TagsRelation] && [TagsTable] + [] == [TagsTable];
    assert map["tags" := "__Person_tags"] + map[] == map["tags" := "__Person_tags"];
    assert FieldColumns([fs[2]], "Person") == Ok(ColumnOut([TagsRelation], map["tags" := "__Person_tags"], [TagsTable]));
    FieldColumnsCons(fs[1..], "Person");
    assert fs[1..][0].ftype == TI32 && fs[1..][0].name == "age";
    assert [Column("age", SqlInteger)] + [TagsRelation] == [Column("age", SqlInteger), TagsRelation];
    assert [] + [TagsTable] == [TagsTable];
    assert map[] + map["tags" := "__Person_tags"] == map["tags" := "__Person_tags"];
  }

  /** The column each member of `Person` derives. */
  lemma PersonColumns()
    ensures ColumnFor(TString(false), "Person", "name") == Ok(ColumnOut([Column("name", SqlString)], map[], []))
    ensures ColumnFor(TI32, "Person", "age") == Ok(ColumnOut([Column("age", SqlInteger)], map[], []))
    ensures ColumnFor(Tags, "Person", "tags") == Ok(ColumnOut([TagsRelation], map["tags" := "__Person_tags"], [TagsTable]))
  {
    PersonTagsPivot();
    var item := ColumnOut([Column("Item", SqlString)], map[], []);
    assert ColumnFor(TString(false), "__Person_tags", "Item") == Ok(item);
    assert "Person" + "_fk" == "Person_fk";
    var r := ColumnFor(Tags, "Person", "tags").value;
    assert r == ContainerColumn("Person", "tags", ListCollection, item);
    assert r.tables[0].members == [PrimaryKey("_id"), ForeignKey("Person_fk", "Person"), Column("Item", SqlString)];
    assert r.tables == [r.tables[0]];
  }

  lemma PersonTagsPivot()
    ensures PivotName("Person", "tags") == "__Person_tags"
  {
    var joined := "Person" + "_" + "tags";
    assert joined[..2][0] == 'P';
    assert !StartsWith(joined, "__");
  }

  lemma PeopleGenerated()
    ensures Generated(People)
  {
    assert AllMappable(Person.fields) by {
      forall i | 0 <= i < |Person.fields| ensures Mappable(Person.fields[i].ftype) {
      }
    }
  }

  lemma ReadAgeValue(s: seq<Token>)
    requires s == [FieldHeader(2, I32), Value(I32Val(30)), FieldStop]
    ensures ReadFieldValue(People, "Person", Person.fields, 2, I32, s, 1) == Ok((Some(("age", OInt(30))), 2))
  {
    assert FieldById(Person.fields, 2) == Some(Person.fields[1]);
    assert DecodeValue(People, TI32, "Person", "age", s, 1) == Ok((OInt(30), 2));
  }

  /** Only `age` on the wire: the object has that attribute and `validate` names the missing `name`. */
  lemma ReadAgeOnly()
    ensures Read(People, "Person", [FieldHeader(2, I32), Value(I32Val(30)), FieldStop])
         == Ok((OInstance("Person", map["age" := OInt(30)]), 3))
    ensures Validate(Person.fields, map["age" := OInt(30)]) == Some("name")
  {
    var s := [FieldHeader(2, I32), Value(I32Val(30)), FieldStop];
    var attrs := map["age" := OInt(30)];
    ReadAgeValue(s);
    assert ReadFields(People, "Person", Person.fields, attrs, s, 2) == Ok((OInstance("Person", attrs), 3));
    PeopleGenerated();
  }

  /**
   * A required list that never arrived does not fail `validate`: its
   * relationship reads as an empty list, not `None`. A required string that
   * never arrived does.
   */
  lemma RequiredListUnsetPasses()
    ensures Validate([Field(3, "tags", Tags, Required, None)], map[]) == None
    ensures Validate([Field(3, "tags", Tags, Required, None), Field(1, "name", TString(false), Required, None)], map[]) == Some("name")
  {
  }

  /** Id 3 arriving with a tag other than LIST is skipped, not decoded. */
  lemma MistypedHeaderSkipped()
    ensures Read(People, "Person", [FieldHeader(3, I32), Value(I32Val(7)), FieldStop])
         == Ok((OInstance("Person", map[]), 3))
  {
    var s := [FieldHeader(3, I32), Value(I32Val(7)), FieldStop];
    assert FieldById(Person.fields, 3) == Some(Person.fields[2]);
    assert WireTag(Tags) == Ok(LIST);
    assert ReadFieldValue(People, "Person", Person.fields, 3, I32, s, 1) == Ok((None, 2));
    PeopleGenerated();
  }

  /** A list of one string becomes one row of `__Person_tags` holding it as `Item`. */
  lemma ReadTagsList()
    ensures DecodeValue(People, Tags, "Person", "tags", [ListHeader(STRING, 1), Value(StringVal("x"))], 0)
         == Ok((OList([OInstance("__Person_tags", map["Item" := OStr("x")])]), 2))
  {
    var s := [ListHeader(STRING, 1), Value(StringVal("x"))];
    PersonTagsPivot();
    var row := OInstance("__Person_tags", map["Item" := OStr("x")]);
    ReadTagRow(s);
    assert DecodeContainer(People, Tags, "__Person_tags", s, 0) == Ok((OList([row]), 2));
  }

  lemma ReadTagRow(s: seq<Token>)
    requires s == [ListHeader(STRING, 1), Value(StringVal("x"))]
    ensures ReadElems(People, TString(false), "__Person_tags", 1, s, 1)
         == Ok(([OInstance("__Person_tags", map["Item" := OStr("x")])], 2))
  {
    assert DecodeValue(People, TString(false), "__Person_tags", "Item", s, 1) == Ok((OStr("x"), 2));
    assert ReadElems(People, TString(false), "__Person_tags", 0, s, 2) == Ok(([], 2));
    var row := OInstance("__Person_tags", map["Item" := OStr("x")]);
    assert [row] + [] == [row];
  }

  /** Interning "a", "b", "a" hands out slots 0, 1 and then 0 again. */
  lemma InternReusesSlot()
    ensures Intern(EmptyTable, "a").1 == 0
    ensures Intern(Intern(EmptyTable, "a").0, "b").1 == 1
    ensures Intern(Intern(Intern(EmptyTable, "a").0, "b").0, "a").1 == 0
  {
  }
}
