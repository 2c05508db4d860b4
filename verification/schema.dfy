/**
 * The relational schema synthesizer: one declarative table per struct, plus
 * a pivot (junction) table for every list, set and map, recursively for
 * nested containers. Tables are produced as data rather than class text.
 */
module SqlSchema {
  import opened Wrappers
  import opened ThriftTypes
  import opened WireDescriptor

  /** The SQLAlchemy column types of `base_type_to_sql_type`. */
  datatype SqlType =
    | SqlString         // db.String
    | SqlBoolean        // db.Boolean
    | SqlChar           // db.CHAR
    | SqlSmallInteger   // db.SmallInteger
    | SqlInteger        // db.Integer
    | SqlBigInteger     // db.BigInteger
    | SqlFloat          // db.Float
    | SqlEnum(enumName: string) // db.Enum(*Name())

  /**
   * `base_type_to_sql_type`. It does not look through typedefs itself; its
   * one caller passes a true type.
   */
  function BaseTypeToSql(t: ThriftType): (r: Result<SqlType, GenError>)
    ensures r.Ok? <==> IsScalar(t)
    ensures t == TVoid ==> r == Err(NoVoidConstruct)
    ensures !IsScalar(t) && t != TVoid ==> r == Err(InvalidSqlType(t))
    ensures r.Ok? ==> (r.value.SqlEnum? <==> t.TEnum?)
    ensures r.Ok? && t.TEnum? ==> r.value.enumName == t.enumName
  {
    match t
    case TVoid => Err(NoVoidConstruct)
    case TString(_) => Ok(SqlString)
    case TBool => Ok(SqlBoolean)
    case TByte => Ok(SqlChar)
    case TI16 => Ok(SqlSmallInteger)
    case TI32 => Ok(SqlInteger)
    case TI64 => Ok(SqlBigInteger)
    case TDouble => Ok(SqlFloat)
    case TEnum(name, _) => Ok(SqlEnum(name))
    case _ => Err(InvalidSqlType(t))
  }

  /**
   * On true types a column type exists exactly for the scalar wire tags, and
   * apart from enums (which get their own column type) two scalar types share
   * a column type exactly when they share a wire tag.
   */
  lemma SqlTypeFollowsWireTag(t1: ThriftType, t2: ThriftType)
    requires !t1.TTypedef? && !t2.TTypedef?
    ensures BaseTypeToSql(t1).Ok? <==> (WireTag(t1).Ok? && IsScalarTag(WireTag(t1).value))
    ensures IsScalar(t1) && IsScalar(t2) && !t1.TEnum? && !t2.TEnum? ==>
      (BaseTypeToSql(t1) == BaseTypeToSql(t2) <==> WireTag(t1) == WireTag(t2))
  {
  }

  /** How a one-to-many relationship exposes its rows. */
  datatype Collection =
    | ListCollection                  // the default list
    | SetCollection                   // collection_class=set
    | KeyedCollection(keyAttr: string) // collection_class=attribute_mapped_collection(key)

  /** One attribute of a table class. */
  datatype Member =
    | PrimaryKey(name: string)                        // db.Column(db.Integer, primary_key=True)
    | Column(name: string, sqlType: SqlType)          // db.Column(<type>)
    | ForeignKey(name: string, refTable: string)      // db.Column(db.Integer, db.ForeignKey('<ref>._id'))
    | ManyToOne(name: string, target: string, foreignKeys: string) // orm.relationship(target, foreign_keys=...)
    | OneToMany(name: string, target: string, backref: string, collection: Collection)

  /**
   * A table class: its `__tablename__`, its attributes in emission order, and
   * its `__pivottables__` map from field name to pivot table name.
   */
  datatype Table = Table(name: string, members: seq<Member>, pivots: map<string, string>)

  /**
   * What deriving one field contributes: attributes of the owning table,
   * entries of the owner's `__pivottables__`, and the pivot tables emitted
   * after the owner.
   */
  datatype ColumnOut = ColumnOut(members: seq<Member>, pivots: map<string, string>, tables: seq<Table>)

  predicate StartsWith(s: string, prefix: string) {
    |prefix| <= |s| && s[..|prefix|] == prefix
  }

  /** The name of the pivot table of `column` in `table`: `__` prefixed unless already present. */
  function PivotName(table: string, column: string): (r: string)
    ensures StartsWith(r, "__")
    ensures |r| >= |column| + 1 && r[|r| - |column| - 1..] == "_" + column
  {
    var joined := table + "_" + column;
    if StartsWith(joined, "__") then joined else "__" + joined
  }

  /** Pivot names of pivot tables never get a doubled prefix: nesting just appends `_column`. */
  lemma PivotNameNested(table: string, column: string)
    requires StartsWith(table, "__")
    ensures PivotName(table, column) == table + "_" + column
  {
    assert (table + "_" + column)[..2] == table[..2];
  }

  /** Outside the reserved namespace the prefix is always added. */
  lemma PivotNamePrefixed(table: string, column: string)
    requires |table| > 0 && table[0] != '_'
    ensures PivotName(table, column) == "__" + table + "_" + column
  {
    assert (table + "_" + column)[0] == table[0];
  }

  /** A table named with a single leading `_` is not in the reserved namespace either: it gets the prefix too. */
  lemma PivotNameSingleUnderscore(table: string, column: string)
    requires |table| >= 2 && table[0] == '_' && table[1] != '_'
    ensures PivotName(table, column) == "__" + table + "_" + column
  {
    assert (table + "_" + column)[1] == table[1];
  }

  /** A table named just `_` already yields a `__` start once joined, so it gets no prefix. */
  lemma PivotNameBareUnderscore(column: string)
    ensures PivotName("_", column) == "__" + column
  {
    assert ("_" + "_" + column)[..2] == "__";
  }

  /**
   * Pivot naming is plain concatenation, so distinct fields can be given the
   * same pivot table: in a struct `A`, the nested pivot of a field `x` of
   * type `list<list<..>>` and the pivot of a field `x_Item` are both named
   * `__A_x_Item`.
   */
  lemma PivotNamesCanCollide()
    ensures PivotName(PivotName("A", "x"), "Item") == PivotName("A", "x_Item")
  {
    PivotNamePrefixed("A", "x");
    PivotNameNested("__A_x", "Item");
    PivotNamePrefixed("A", "x_Item");
  }

  /** `default_table_fields`: a table with its name, an empty pivot map and an `_id` key. */
  function DefaultTable(name: string): (r: Table)
    ensures r.name == name && r.pivots == map[]
    ensures r.members == [PrimaryKey("_id")]
  {
    Table(name, [PrimaryKey("_id")], map[])
  }

  /**
   * `register_pivot_table`: the pivot table starts as a default table with a
   * `<parent>_fk` foreign key to the parent's `_id`; the parent records the
   * pivot under the column's name.
   */
  function RegisterPivot(parentTable: string, parentColumn: string, pivot: string): (r: (map<string, string>, Table))
    ensures r.0 == map[parentColumn := pivot]
    ensures r.1.name == pivot && r.1.pivots == map[]
    ensures r.1.members == DefaultTable(pivot).members + [ForeignKey(parentTable + "_fk", parentTable)]
  {
    var t := DefaultTable(pivot);
    (map[parentColumn := pivot], t.(members := t.members + [ForeignKey(parentTable + "_fk", parentTable)]))
  }

  /** Types the synthesizer can map: exceptions and void have no column, at any depth. */
  predicate Mappable(t: ThriftType) {
    match t
    case TTypedef(_, target) => Mappable(target)
    case TVoid => false
    case TException(_) => false
    case TList(e, _) => Mappable(e)
    case TSet(e, _) => Mappable(e)
    case TMap(k, v, _) => Mappable(k) && Mappable(v)
    case _ => true
  }

  /** The number of container nodes in a type: the number of pivot tables it needs. */
  function ContainerCount(t: ThriftType): nat {
    match t
    case TTypedef(_, target) => ContainerCount(target)
    case TList(e, _) => 1 + ContainerCount(e)
    case TSet(e, _) => 1 + ContainerCount(e)
    case TMap(k, v, _) => 1 + ContainerCount(k) + ContainerCount(v)
    case _ => 0
  }

  /** A pivot table linked to `parent`: `_id`, then the `<parent>_fk` key, and a name in the reserved namespace. */
  predicate LinkedTo(parent: string, parentPivots: map<string, string>, t: Table) {
    && |t.members| >= 2
    && t.members[0] == PrimaryKey("_id")
    && t.members[1] == ForeignKey(parent + "_fk", parent)
    && t.name in parentPivots.Values
    && StartsWith(t.name, "__")
  }

  /**
   * Every emitted pivot table hangs off the owner or off a pivot table
   * emitted before it, and that parent registers it in its pivot map.
   */
  predicate WellLinked(owner: string, ownerPivots: map<string, string>, tables: seq<Table>) {
    forall i :: 0 <= i < |tables| ==> LinkedTo(owner, ownerPivots, tables[i]) || LinkedToEarlier(tables, i)
  }

  /** `tables[i]` is linked to a table emitted before it. */
  predicate LinkedToEarlier(tables: seq<Table>, i: int)
    requires 0 <= i < |tables|
  {
    exists j :: 0 <= j < i && LinkedTo(tables[j].name, tables[j].pivots, tables[i])
  }

  /** The pivot table of a container: registration, then the element's own members and pivots. */
  function PivotTable(parentTable: string, column: string, pivot: string, inner: ColumnOut): (r: Table)
    ensures r.name == pivot && r.pivots == inner.pivots
    ensures r.members == [PrimaryKey("_id"), ForeignKey(parentTable + "_fk", parentTable)] + inner.members
  {
    var t := RegisterPivot(parentTable, column, pivot).1;
    t.(members := t.members + inner.members, pivots := inner.pivots)
  }

  /** A container column: the one-to-many relationship, its registration, then its pivot table and the tables under it. */
  function ContainerColumn(table: string, column: string, coll: Collection, inner: ColumnOut): (r: ColumnOut)
    ensures r.members == [OneToMany(column, PivotName(table, column), table, coll)]
    ensures r.pivots == map[column := PivotName(table, column)]
    ensures |r.tables| == 1 + |inner.tables| && r.tables[0].name == PivotName(table, column)
    ensures r.tables[0].members == [PrimaryKey("_id"), ForeignKey(table + "_fk", table)] + inner.members
    ensures r.tables[0].pivots == inner.pivots && r.tables[1..] == inner.tables
  {
    var pivot := PivotName(table, column);
    ColumnOut([OneToMany(column, pivot, table, coll)], map[column := pivot],
              [PivotTable(table, column, pivot, inner)] + inner.tables)
  }

  /** How the relationship of a container column exposes its rows: a list, a set, or a dict by `Key`. */
  function CollectionOf(t: ThriftType): Collection {
    if t.TSet? then SetCollection else if t.TMap? then KeyedCollection("Key") else ListCollection
  }

  /** What a map's pivot table holds: the `Key` contribution, then the `Value` contribution. */
  function MapInner(key: ColumnOut, val: ColumnOut): ColumnOut {
    ColumnOut(key.members + val.members, key.pivots + val.pivots, key.tables + val.tables)
  }

  /**
   * `type_to_sqlalchemy_column`. A struct field becomes a `_<col>_fk` key and a
   * relationship through it; a list, set or map becomes a one-to-many
   * relationship to its pivot table, whose `Item` (or `Key` and `Value`)
   * attributes are derived by the same rule; anything else is a scalar column.
   */
  function ColumnFor(t: ThriftType, table: string, column: string): (r: Result<ColumnOut, GenError>)
    ensures r.Ok? <==> Mappable(t)
  {
    match t
    case TTypedef(_, target) => ColumnFor(target, table, column)
    case TStruct(name) =>
      var fk := "_" + column + "_fk";
      Ok(ColumnOut([ForeignKey(fk, name), ManyToOne(column, name, table + "." + fk)], map[], []))
    case TList(e, _) =>
      var item :- ColumnFor(e, PivotName(table, column), "Item");
      Ok(ContainerColumn(table, column, ListCollection, item))
    case TSet(e, _) =>
      var item :- ColumnFor(e, PivotName(table, column), "Item");
      Ok(ContainerColumn(table, column, SetCollection, item))
    case TMap(k, v, _) =>
      var pivot := PivotName(table, column);
      var key :- ColumnFor(k, pivot, "Key");
      var val :- ColumnFor(v, pivot, "Value");
      Ok(ContainerColumn(table, column, KeyedCollection("Key"), MapInner(key, val)))
    case _ =>
      match BaseTypeToSql(t)
      case Ok(sqlType) => Ok(ColumnOut([Column(column, sqlType)], map[], []))
      case Err(e) => Err(e)
  }

  /**
   * What a field's own table gains: a struct gets a `_<col>_fk` key and a
   * many-to-one relationship through it, a scalar one typed column, and a
   * list, set or map one one-to-many relationship to its pivot table, with
   * the collection class of its kind.
   */
  lemma {:induction false} ColumnForMembers(t: ThriftType, table: string, column: string)
    requires ColumnFor(t, table, column).Ok?
    ensures TrueType(t).TStruct? ==>
      ColumnFor(t, table, column).value == ColumnOut([ForeignKey("_" + column + "_fk", TrueType(t).structName),
                            ManyToOne(column, TrueType(t).structName, table + "." + ("_" + column + "_fk"))], map[], [])
    ensures IsScalar(TrueType(t)) ==>
      ColumnFor(t, table, column).value == ColumnOut([Column(column, BaseTypeToSql(TrueType(t)).value)], map[], [])
    ensures IsContainer(TrueType(t)) ==>
      ColumnFor(t, table, column).value.members == [OneToMany(column, PivotName(table, column), table, CollectionOf(TrueType(t)))]
  {
    match t
    case TTypedef(_, target) =>
      ColumnForMembers(target, table, column);
    case _ =>
  }

  /** A typedef column is derived exactly as a column of the type it names. */
  lemma {:induction false} ColumnForTrueType(t: ThriftType, table: string, column: string)
    ensures ColumnFor(t, table, column) == ColumnFor(TrueType(t), table, column)
  {
    if t.TTypedef? {
      ColumnForTrueType(t.target, table, column);
    }
  }

  /**
   * The pivot table of a list or set column holds `_id`, the `<owner>_fk` key,
   * and what its element contributes as a column named `Item` of the pivot
   * table; the tables that element needs follow it.
   */
  lemma ListPivotTable(t: ThriftType, table: string, column: string)
    requires (t.TList? || t.TSet?) && ColumnFor(t, table, column).Ok?
    ensures var item := ColumnFor(t.elem, PivotName(table, column), "Item").value;
      var r := ColumnFor(t, table, column).value;
      && r.tables[0] == Table(PivotName(table, column), [PrimaryKey("_id"), ForeignKey(table + "_fk", table)] + item.members, item.pivots)
      && r.tables[1..] == item.tables
  {
  }

  /**
   * The pivot table of a map column holds `_id`, the `<owner>_fk` key, then
   * what the key type contributes as a column named `Key` and what the value
   * type contributes as a column named `Value`; the key's tables, then the
   * value's, follow it.
   */
  lemma MapPivotTable(t: ThriftType, table: string, column: string)
    requires t.TMap? && ColumnFor(t, table, column).Ok?
    ensures var key := ColumnFor(t.key, PivotName(table, column), "Key").value;
      var val := ColumnFor(t.val, PivotName(table, column), "Value").value;
      var r := ColumnFor(t, table, column).value;
      && r.tables[0] == Table(PivotName(table, column), [PrimaryKey("_id"), ForeignKey(table + "_fk", table)] + key.members + val.members,
                              key.pivots + val.pivots)
      && r.tables[1..] == key.tables + val.tables
  {
  }

  /**
   * A column contributes one pivot table per container node of its type, and
   * registers a pivot exactly when it is itself a list, set or map; that pivot
   * table comes first.
   */
  lemma {:induction false} ColumnForShape(t: ThriftType, table: string, column: string)
    requires ColumnFor(t, table, column).Ok?
    ensures |ColumnFor(t, table, column).value.tables| == ContainerCount(t)
    ensures ColumnFor(t, table, column).value.pivots ==
      (if IsContainer(TrueType(t)) then map[column := PivotName(table, column)] else map[])
    ensures IsContainer(TrueType(t)) ==>
      |ColumnFor(t, table, column).value.tables| > 0 && ColumnFor(t, table, column).value.tables[0].name == PivotName(table, column)
  {
    match t
    case TTypedef(_, target) =>
      ColumnForShape(target, table, column);
    case TList(e, _) =>
      ColumnForShape(e, PivotName(table, column), "Item");
    case TSet(e, _) =>
      ColumnForShape(e, PivotName(table, column), "Item");
    case TMap(k, v, _) =>
      ColumnForShape(k, PivotName(table, column), "Key");
      ColumnForShape(v, PivotName(table, column), "Value");
    case _ =>
  }

  /** Widening the parent's pivot map keeps every link. */
  lemma WellLinkedWiden(owner: string, p: map<string, string>, p2: map<string, string>, a: seq<Table>)
    requires WellLinked(owner, p, a)
    requires p.Values <= p2.Values
    ensures WellLinked(owner, p2, a)
  {
    forall i | 0 <= i < |a| && LinkedTo(owner, p, a[i]) ensures LinkedTo(owner, p2, a[i]) {
    }
  }

  /** Two well-linked runs of tables under the same owner concatenate. */
  lemma WellLinkedConcat(owner: string, p: map<string, string>, a: seq<Table>, b: seq<Table>)
    requires WellLinked(owner, p, a) && WellLinked(owner, p, b)
    ensures WellLinked(owner, p, a + b)
  {
    var ab := a + b;
    forall i | 0 <= i < |ab|
      ensures LinkedTo(owner, p, ab[i]) || LinkedToEarlier(ab, i)
    {
      if i >= |a| {
        var i' := i - |a|;
        assert ab[i] == b[i'];
        if !LinkedTo(owner, p, b[i']) {
          var j :| 0 <= j < i' && LinkedTo(b[j].name, b[j].pivots, b[i']);
          assert ab[j + |a|] == b[j];
        }
      } else {
        assert ab[i] == a[i];
        if !LinkedTo(owner, p, a[i]) {
          var j :| 0 <= j < i && LinkedTo(a[j].name, a[j].pivots, a[i]);
          assert ab[j] == a[j];
        }
      }
    }
  }

  /** A table linked to the owner, followed by tables well linked under it, is well linked. */
  lemma WellLinkedUnder(owner: string, p: map<string, string>, head: Table, inner: seq<Table>)
    requires LinkedTo(owner, p, head)
    requires WellLinked(head.name, head.pivots, inner)
    ensures WellLinked(owner, p, [head] + inner)
  {
    var all := [head] + inner;
    forall i | 0 <= i < |all|
      ensures LinkedTo(owner, p, all[i]) || LinkedToEarlier(all, i)
    {
      LinkedUnderAt(owner, p, head, inner, all, i);
    }
  }

  lemma LinkedUnderAt(owner: string, p: map<string, string>, head: Table, inner: seq<Table>, all: seq<Table>, i: int)
    requires LinkedTo(owner, p, head)
    requires WellLinked(head.name, head.pivots, inner)
    requires all == [head] + inner && 0 <= i < |all|
    ensures LinkedTo(owner, p, all[i]) || LinkedToEarlier(all, i)
  {
    if i > 0 {
      var t := inner[i - 1];
      assert all[i] == t && all[0] == head;
      if LinkedTo(head.name, head.pivots, t) {
        assert LinkedTo(all[0].name, all[0].pivots, all[i]);
      } else {
        assert LinkedToEarlier(inner, i - 1);
        var j :| 0 <= j < i - 1 && LinkedTo(inner[j].name, inner[j].pivots, t);
        assert all[j + 1] == inner[j];
      }
    }
  }

  /** The tables a map's `Key` and `Value` emit stay well linked under the map's pivot table. */
  lemma MapInnerLinked(pivot: string, key: ColumnOut, val: ColumnOut, inner: ColumnOut)
    requires key.pivots.Keys <= {"Key"} && val.pivots.Keys <= {"Value"}
    requires WellLinked(pivot, key.pivots, key.tables)
    requires WellLinked(pivot, val.pivots, val.tables)
    requires inner.pivots == key.pivots + val.pivots && inner.tables == key.tables + val.tables
    ensures WellLinked(pivot, inner.pivots, inner.tables)
  {
    assert key.pivots.Values <= inner.pivots.Values by {
      forall c | c in key.pivots ensures key.pivots[c] in inner.pivots.Values {
        assert c !in val.pivots;
        assert inner.pivots[c] == key.pivots[c];
      }
    }
    assert val.pivots.Values <= inner.pivots.Values by {
      forall c | c in val.pivots ensures val.pivots[c] in inner.pivots.Values {
        assert inner.pivots[c] == val.pivots[c];
      }
    }
    WellLinkedWiden(pivot, key.pivots, inner.pivots, key.tables);
    WellLinkedWiden(pivot, val.pivots, inner.pivots, val.tables);
    WellLinkedConcat(pivot, inner.pivots, key.tables, val.tables);
  }

  /**
   * A container's output is well linked: its pivot table hangs off the owner,
   * and the element's tables hang off the pivot table or each other.
   */
  lemma ContainerLinked(table: string, column: string, pivot: string, inner: ColumnOut, r: ColumnOut)
    requires pivot == PivotName(table, column)
    requires WellLinked(pivot, inner.pivots, inner.tables)
    requires r.pivots == map[column := pivot]
    requires r.tables == [PivotTable(table, column, pivot, inner)] + inner.tables
    ensures WellLinked(table, r.pivots, r.tables)
  {
    var head := PivotTable(table, column, pivot, inner);
    assert r.pivots[column] in r.pivots.Values;
    WellLinkedUnder(table, r.pivots, head, inner.tables);
  }

  /**
   * Every pivot table a field emits hangs off the owning table or off a pivot
   * table emitted before it, and its parent registers it by column name.
   */
  lemma {:induction false} ColumnForWellLinked(t: ThriftType, table: string, column: string)
    requires ColumnFor(t, table, column).Ok?
    ensures WellLinked(table, ColumnFor(t, table, column).value.pivots, ColumnFor(t, table, column).value.tables)
  {
    var r := ColumnFor(t, table, column).value;
    ColumnForShape(t, table, column);
    match t
    case TTypedef(_, target) =>
      ColumnForWellLinked(target, table, column);
    case TList(e, _) =>
      var pivot := PivotName(table, column);
      ColumnForWellLinked(e, pivot, "Item");
      ContainerLinked(table, column, pivot, ColumnFor(e, pivot, "Item").value, r);
    case TSet(e, _) =>
      var pivot := PivotName(table, column);
      ColumnForWellLinked(e, pivot, "Item");
      ContainerLinked(table, column, pivot, ColumnFor(e, pivot, "Item").value, r);
    case TMap(k, v, _) =>
      var pivot := PivotName(table, column);
      var key := ColumnFor(k, pivot, "Key").value;
      var val := ColumnFor(v, pivot, "Value").value;
      ColumnForWellLinked(k, pivot, "Key");
      ColumnForWellLinked(v, pivot, "Value");
      ColumnForShape(k, pivot, "Key");
      ColumnForShape(v, pivot, "Value");
      var inner := MapInner(key, val);
      MapInnerLinked(pivot, key, val, inner);
      ContainerLinked(table, column, pivot, inner, r);
    case _ =>
  }

  /** Every field type of `fields` is mappable. */
  predicate AllMappable(fields: seq<Field>) {
    forall i :: 0 <= i < |fields| ==> Mappable(fields[i].ftype)
  }

  /** The number of pivot tables the fields need, summed over declaration order. */
  function TotalContainers(fields: seq<Field>): nat {
    if |fields| == 0 then 0 else ContainerCount(fields[0].ftype) + TotalContainers(fields[1..])
  }

  /** `fields` declares a list, set or map field named `c`. */
  predicate HasContainerField(fields: seq<Field>, c: string) {
    exists i :: 0 <= i < |fields| && fields[i].name == c && IsContainer(TrueType(fields[i].ftype))
  }

  lemma HasContainerFieldCons(fields: seq<Field>)
    requires |fields| > 0
    ensures forall c :: HasContainerField(fields, c) <==>
      (c == fields[0].name && IsContainer(TrueType(fields[0].ftype))) || HasContainerField(fields[1..], c)
  {
    var tail := fields[1..];
    forall c | HasContainerField(tail, c) ensures HasContainerField(fields, c) {
      var i :| 0 <= i < |tail| && tail[i].name == c && IsContainer(TrueType(tail[i].ftype));
      assert fields[i + 1] == tail[i];
    }
    forall c | HasContainerField(fields, c) && c != fields[0].name ensures HasContainerField(tail, c) {
      var i :| 0 <= i < |fields| && fields[i].name == c && IsContainer(TrueType(fields[i].ftype));
      assert tail[i - 1] == fields[i];
    }
  }

  /** The columns of all fields, in declaration order; the first failing field aborts. */
  function FieldColumns(fields: seq<Field>, table: string): (r: Result<ColumnOut, GenError>)
    ensures r.Ok? <==> AllMappable(fields)
    ensures r.Ok? ==> |r.value.tables| == TotalContainers(fields)
    decreases |fields|
  {
    if |fields| == 0 then Ok(ColumnOut([], map[], []))
    else
      var c :- ColumnFor(fields[0].ftype, table, fields[0].name);
      var rest :- FieldColumns(fields[1..], table);
      ColumnForShape(fields[0].ftype, table, fields[0].name);
      Ok(ColumnOut(c.members + rest.members, c.pivots + rest.pivots, c.tables + rest.tables))
  }

  /** The members one field adds to its owner's table; nothing for an unmappable field. */
  function MembersOf(f: Field, table: string): seq<Member> {
    match ColumnFor(f.ftype, table, f.name)
    case Ok(c) => c.members
    case Err(_) => []
  }

  /** The pivot tables one field needs; none for an unmappable field. */
  function TablesOf(f: Field, table: string): seq<Table> {
    match ColumnFor(f.ftype, table, f.name)
    case Ok(c) => c.tables
    case Err(_) => []
  }

  /** Each field's contribution to its owner's table, in declaration order. */
  function MembersPerField(fields: seq<Field>, table: string): seq<seq<Member>> {
    seq(|fields|, i requires 0 <= i < |fields| => MembersOf(fields[i], table))
  }

  /** Each field's pivot tables, in declaration order. */
  function TablesPerField(fields: seq<Field>, table: string): seq<seq<Table>> {
    seq(|fields|, i requires 0 <= i < |fields| => TablesOf(fields[i], table))
  }

  function Concat<T>(ss: seq<seq<T>>): seq<T> {
    if |ss| == 0 then [] else ss[0] + Concat(ss[1..])
  }

  /**
   * The owner's attributes from its fields are the members of each field's
   * column, and the pivot tables are each field's tables, field by field in
   * declaration order.
   */
  lemma {:induction false} FieldColumnsPerField(fields: seq<Field>, table: string)
    requires FieldColumns(fields, table).Ok?
    ensures FieldColumns(fields, table).value.members == Concat(MembersPerField(fields, table))
    ensures FieldColumns(fields, table).value.tables == Concat(TablesPerField(fields, table))
    decreases |fields|
  {
    if |fields| > 0 {
      var tail := fields[1..];
      FieldColumnsPerField(tail, table);
      assert MembersPerField(fields, table)[1..] == MembersPerField(tail, table);
      assert TablesPerField(fields, table)[1..] == TablesPerField(tail, table);
    }
  }

  /**
   * The owner's `__pivottables__` names exactly its list, set and map fields,
   * each mapped to its pivot table.
   */
  lemma {:induction false} FieldColumnsPivots(fields: seq<Field>, table: string)
    requires FieldColumns(fields, table).Ok?
    ensures forall c :: c in FieldColumns(fields, table).value.pivots <==> HasContainerField(fields, c)
    ensures forall c :: c in FieldColumns(fields, table).value.pivots ==>
      FieldColumns(fields, table).value.pivots[c] == PivotName(table, c)
    decreases |fields|
  {
    if |fields| > 0 {
      var tail := fields[1..];
      FieldColumnsStep(fields, table);
      ColumnForShape(fields[0].ftype, table, fields[0].name);
      HasContainerFieldCons(fields);
      FieldColumnsPivots(tail, table);
    }
  }

  /** The columns of a non-empty field list: the first field's, then the others'. */
  lemma FieldColumnsCons(fields: seq<Field>, table: string)
    requires |fields| > 0
    requires ColumnFor(fields[0].ftype, table, fields[0].name).Ok? && FieldColumns(fields[1..], table).Ok?
    ensures var c := ColumnFor(fields[0].ftype, table, fields[0].name).value;
      var rest := FieldColumns(fields[1..], table).value;
      FieldColumns(fields, table) == Ok(ColumnOut(c.members + rest.members, c.pivots + rest.pivots, c.tables + rest.tables))
  {
  }

  /** One step of `FieldColumns`: the first field's contribution before the rest. */
  lemma FieldColumnsStep(fields: seq<Field>, table: string)
    requires |fields| > 0 && FieldColumns(fields, table).Ok?
    ensures ColumnFor(fields[0].ftype, table, fields[0].name).Ok? && FieldColumns(fields[1..], table).Ok?
    ensures FieldColumns(fields, table).value.pivots ==
      ColumnFor(fields[0].ftype, table, fields[0].name).value.pivots + FieldColumns(fields[1..], table).value.pivots
  {
  }

  /**
   * `generate_py_sqlalchemy_table`: the struct's own table (default
   * attributes, then one contribution per field in declaration order)
   * followed by every pivot table its fields need.
   */
  function SqlTables(s: StructDef): (r: Result<seq<Table>, GenError>)
    ensures r.Ok? <==> AllMappable(s.fields)
    ensures r.Ok? ==> |r.value| == 1 + TotalContainers(s.fields)
    ensures r.Ok? ==> r.value[0].name == s.name
    ensures r.Ok? ==> |r.value[0].members| > 0 && r.value[0].members[0] == PrimaryKey("_id")
    ensures r.Ok? ==> forall c :: c in r.value[0].pivots <==> HasContainerField(s.fields, c)
    ensures r.Ok? ==> forall c :: c in r.value[0].pivots ==> r.value[0].pivots[c] == PivotName(s.name, c)
    ensures r.Ok? ==> r.value[0].members == [PrimaryKey("_id")] + FieldColumns(s.fields, s.name).value.members
    ensures r.Ok? ==> r.value[1..] == FieldColumns(s.fields, s.name).value.tables
  {
    var cols :- FieldColumns(s.fields, s.name);
    FieldColumnsPivots(s.fields, s.name);
    var base := DefaultTable(s.name);
    Ok([base.(members := base.members + cols.members, pivots := cols.pivots)] + cols.tables)
  }

  /**
   * A struct's table holds `_id` and then, field by field in declaration
   * order, what each field's column adds to it; after it come, field by field,
   * the pivot tables each field needs.
   */
  lemma SqlTablesPerField(s: StructDef)
    requires SqlTables(s).Ok?
    ensures SqlTables(s).value[0].members ==
      [PrimaryKey("_id")] + Concat(MembersPerField(s.fields, s.name))
    ensures SqlTables(s).value[1..] ==
      Concat(TablesPerField(s.fields, s.name))
  {
    FieldColumnsPerField(s.fields, s.name);
  }

  /** Field names are distinct within a struct. */
  predicate DistinctNames(fields: seq<Field>) {
    forall i, j :: 0 <= i < j < |fields| ==> fields[i].name != fields[j].name
  }

  lemma {:induction false} FieldColumnsWellLinked(fields: seq<Field>, table: string)
    requires DistinctNames(fields)
    requires FieldColumns(fields, table).Ok?
    ensures WellLinked(table, FieldColumns(fields, table).value.pivots, FieldColumns(fields, table).value.tables)
    decreases |fields|
  {
    if |fields| > 0 {
      var f := fields[0];
      var c := ColumnFor(f.ftype, table, f.name).value;
      var rest := FieldColumns(fields[1..], table).value;
      var all := FieldColumns(fields, table).value;
      ColumnForWellLinked(f.ftype, table, f.name);
      ColumnForShape(f.ftype, table, f.name);
      FieldColumnsWellLinked(fields[1..], table);
      FieldColumnsPivots(fields[1..], table);
      assert f.name !in rest.pivots;
      assert c.pivots.Values <= all.pivots.Values by {
        forall x | x in c.pivots ensures c.pivots[x] in all.pivots.Values {
          assert all.pivots[x] == c.pivots[x];
        }
      }
      assert rest.pivots.Values <= all.pivots.Values by {
        forall x | x in rest.pivots ensures rest.pivots[x] in all.pivots.Values {
          assert all.pivots[x] == rest.pivots[x];
        }
      }
      WellLinkedWiden(table, c.pivots, all.pivots, c.tables);
      WellLinkedWiden(table, rest.pivots, all.pivots, rest.tables);
      WellLinkedConcat(table, all.pivots, c.tables, rest.tables);
    }
  }

  /**
   * Every pivot table of a struct (with distinct field names) hangs off the
   * struct's table or off an earlier pivot table, through a `<parent>_fk`
   * key, and is registered in its parent's `__pivottables__`.
   */
  lemma SqlTablesWellLinked(s: StructDef)
    requires DistinctNames(s.fields)
    requires SqlTables(s).Ok?
    ensures WellLinked(s.name, SqlTables(s).value[0].pivots, SqlTables(s).value[1..])
  {
    FieldColumnsWellLinked(s.fields, s.name);
    assert SqlTables(s).value[1..] == FieldColumns(s.fields, s.name).value.tables;
  }

  /** The index of the first `.` in `s`, if any. */
  function FirstDot(s: string): (r: Option<nat>)
    ensures r.Some? ==> r.value < |s| && s[r.value] == '.' && '.' !in s[..r.value]
    ensures r.None? ==> '.' !in s
  {
    if |s| == 0 then None
    else if s[0] == '.' then Some(0)
    else
      match FirstDot(s[1..])
      case Some(i) =>
        assert s[..i + 1] == [s[0]] + s[1..][..i];
        Some(i + 1)
      case None => None
  }

  /**
   * `instantiate_pivot_table`: the object and field named by a prefix
   * `obj.field`, split at the first `.`; a prefix without `.` is both.
   */
  function InstantiatePivot(prefix: string): (r: (string, string))
    ensures '.' in prefix ==> r.0 + "." + r.1 == prefix && '.' !in r.0
    ensures '.' !in prefix ==> r == (prefix, prefix)
  {
    match FirstDot(prefix)
    case Some(pos) =>
      assert prefix == prefix[..pos] + "." + prefix[pos + 1..];
      (prefix[..pos], prefix[pos + 1..])
    case None => (prefix, prefix)
  }

  /**
   * The prefixes the reader builds (`self.<field>`, `_elemN.Item`, ...) split
   * back into the object and the field whose pivot table is looked up.
   */
  lemma InstantiatePivotSplits(obj: string, field: string)
    requires '.' !in obj
    ensures InstantiatePivot(obj + "." + field) == (obj, field)
  {
    var prefix := obj + "." + field;
    assert prefix[|obj|] == '.';
    var r := InstantiatePivot(prefix);
    assert r.0 == prefix[..|r.0|] == obj;
    assert r.1 == prefix[|obj| + 1..] == field;
  }
}
