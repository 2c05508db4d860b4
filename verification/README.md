# Thrift SQL generator and tiny protocol, modelled in Dafny

This project models two parts of a Thrift fork.

The first is the core of the SQLAlchemy code generator (`t_sql_generator`).
For every Thrift struct it emits a Python class that is at once a Thrift
struct and an ORM table. The model covers:

- the wire tag of a type (`type_to_enum`) and its shape descriptor (`type_to_spec_args`);
- the id-indexed `thrift_spec` tuple that `generate_py_thrift_spec` would emit;
- the column type of a scalar (`base_type_to_sql_type`);
- the table and pivot-table layout derived from a struct's fields
  (`default_table_fields`, `register_pivot_table`, `type_to_sqlalchemy_column`,
  `generate_py_sqlalchemy_table`);
- the split of a reader prefix into object and field (`instantiate_pivot_table`);
- the semantics of the emitted `read` method, as a function over a token
  stream, and of the `validate` method that
  `generate_py_struct_required_validator` would emit.

The second is `TTinyProtocol`, a compact-protocol variant. It replaces each
string by a slot in a per-message string table. The writer buffers the body
of the outermost struct and, when that struct ends, sends the table in front
of the body. The reader loads the table when the outermost struct begins.

Files:

- `wrappers.dfy`: `Option` and `Result`.
- `types.dfy`: resolved Thrift types, fields and structs, and wire tags.
- `descriptor.dfy`: wire tags and spec descriptors.
- `spectable.dfy`: the spec tuple.
- `schema.dfy`: SQL types, tables and pivot tables.
- `reader.dfy`: the emitted `read`, the protocol's `skip`, and the `validate` the validator generator would emit.
- `tiny.dfy`: the tiny protocol's string table and sessions.
- `scenarios.dfy`: worked instances on a small struct.

Main results:

- **Descriptor round trip.** `WireDescriptor.DescriptorRoundTrip`: the tag and
  the descriptor together determine a field's wire shape.
- **Spec tuple.** `SpecTable.SpecIndexedById` and `SpecTable.SpecListsEveryField`:
  the tuple is a direct lookup table by id, and it lists each member once.
- **Tables.** `SqlSchema.SqlTables` and `SqlSchema.SqlTablesWellLinked`: a
  struct's tables register one pivot table per container field. That pivot
  table is named by `PivotName`. Every pivot table hangs off its parent through
  a `<parent>_fk` key.
- **Skip and decode agree.** `StructReader.SkipAgreesWithDecode`: skipping a
  value and decoding it end at the same place, so a skipped field never
  desynchronises `read`.
- **Rows match the schema.** `StructReader.ReadRowsMatchSchema`: the rows
  `read` builds for a container field are instances of the pivot table the
  schema registers for that field.
- **Tiny round trip.** `TinyProtocol.RoundTrip`: a reader making the writer's
  calls gets every written value back, consumes the output exactly, and both
  sides end at depth 0.

Behaviour of the code that is easy to miss, and which the model follows:

- **Two generators are never called.** A struct's class is emitted by
  `generate_py_struct_definition` (t_sql_generator.cc:565-578), which calls
  only `generate_py_sqlalchemy_table`, and that calls only
  `generate_py_struct_reader` (:691-707). Neither `generate_py_thrift_spec`
  (:522) nor `generate_py_struct_required_validator` (:654) is called
  anywhere, so no emitted class carries `thrift_spec` or `validate`. The
  emitted `read` still tests `self.thrift_spec` on its fast path (:593-596).
  Both functions are modelled as what they would emit (`SpecTable.ThriftSpec`,
  `StructReader.Validate`).
- **Spec position 0.** The example in the comment at :515-521 shows `None` at
  position 0, for a struct whose first id is 1. The gap loop starts at 0, so
  a field with id 0 is placed there instead (`SpecTable.ZeroSlot`).
- **Void in a descriptor.** `type_to_spec_args` treats a top-level void as a
  base type and yields `None` (`WireDescriptor.SpecArgsOf`). Only
  `type_to_enum` rejects void, so a void field still aborts the spec
  (`SpecTable.EntryOf`).
- **Exception fields in tables.** `type_to_sqlalchemy_column` only recognises
  structs, so an exception-typed field reaches `base_type_to_sql_type` and
  aborts generation (`SqlSchema.Mappable`, `SqlSchema.ColumnFor`). Columns are
  derived for every member before the reader is emitted, so no generated
  `read` ever decodes an exception-typed member. `StructReader.Read` fails
  unless generation succeeded for every class (`StructReader.Generated`).
- **Required containers in `validate`.** The test `validate` would emit is
  `self.<name> is None`, with the message "Required field ... is unset!"
  (:666-668). A list, set or map member is declared as a
  one-to-many `orm.relationship`, and SQLAlchemy gives an empty collection
  for such a relationship that was never set. So an unset required container
  passes (`StructReader.ReadsNone`, `StructReader.Validate`). This depends on
  the ORM's documented behaviour, which is not part of this model's sources.

## Model

| member | source | states |
|---|---|---|
| WireDescriptor.WireTag | compiler/cpp/src/thrift/generate/t_sql_generator.cc:979-1015 | Void, seen through any typedef, is the only type without a tag, and it fails with the no-void error. STRUCT is the tag of exactly structs and exceptions. I32 is the tag of exactly i32 and enums. STRING is the tag of exactly strings. Scalar tags go to exactly the scalar types. |
| WireDescriptor.SpecArgsOf | compiler/cpp/src/thrift/generate/t_sql_generator.cc:1018-1051 | Defined exactly when no container element, at any depth, is void; a top-level void yields `None`. Binary strings get 'BINARY' and text strings 'UTF8'. A struct or exception gets a reference by that struct's name. A list or set gets an element descriptor and a map a key/value descriptor, each keeping the immutability flag. |
| WireDescriptor.DescriptorRoundTrip | compiler/cpp/src/thrift/generate/t_sql_generator.cc:1018-1051 | For every void-free type, the wire tag and the descriptor are both defined. Read back together, they give the type's wire shape (typedefs resolved, enums as I32, structs by name), through any depth of nesting. |
| WireDescriptor.EraseDefinedIffVoidFree | compiler/cpp/src/thrift/generate/t_sql_generator.cc:979-1015 | A type has a wire shape exactly when void occurs nowhere in it. |
| WireDescriptor.TypedefTransparent | compiler/cpp/src/thrift/generate/t_sql_generator.cc:1018-1021 | A typedef has the same tag, descriptor and wire shape as the type it names. |
| SpecTable.EntryOf | compiler/cpp/src/thrift/generate/t_sql_generator.cc:542-548 | A member's spec row fails exactly when void occurs in its type. Otherwise it carries the member's id, name and default, and a tag and descriptor that decode to the member type's wire shape. |
| SpecTable.ThriftSpec | compiler/cpp/src/thrift/generate/t_sql_generator.cc:522-558 | A struct whose lowest id is negative gets the empty tuple. Otherwise the tuple has length max(id)+1, and it fails (no-void error) exactly when some member's type contains void. |
| SpecTable.RowsIndexing | compiler/cpp/src/thrift/generate/t_sql_generator.cc:535-551 | The gap-filling loop, started at any position up to the first id, places each member at offset id minus that position and a placeholder at every other offset. |
| SpecTable.SpecIndexedById | compiler/cpp/src/thrift/generate/t_sql_generator.cc:531-551 | Position `id` of the tuple holds the member with that id. A position is a placeholder exactly when no member declares that id. |
| SpecTable.SpecSelfIndexed | compiler/cpp/src/thrift/generate/t_sql_generator.cc:538-548 | Every filled position k describes the member whose id is k, also for the empty tuple of the negative-id rule. |
| SpecTable.ZeroSlot | compiler/cpp/src/thrift/generate/t_sql_generator.cc:535-540 | Position 0 is a placeholder exactly when no member has id 0. |
| SpecTable.RowsListEveryField | compiler/cpp/src/thrift/generate/t_sql_generator.cc:536-551 | Reading the rows in order with the placeholders dropped gives one row per member, in id order. |
| SpecTable.SpecListsEveryField | compiler/cpp/src/thrift/generate/t_sql_generator.cc:531-554 | The tuple of an indexable struct lists every member exactly once, in id order, and nothing else. |
| SqlSchema.BaseTypeToSql | compiler/cpp/src/thrift/generate/t_sql_generator.cc:1053-1080 | A column type exists exactly for scalar types. Void fails with the no-void error, and any other non-scalar type fails as invalid. An enum gets the enum column of its own name. |
| SqlSchema.SqlTypeFollowsWireTag | compiler/cpp/src/thrift/generate/t_sql_generator.cc:1053-1080 | A column type exists exactly when the wire tag is a scalar tag. Apart from enums, two scalar types share a column type exactly when they share a wire tag. |
| SqlSchema.PivotName | compiler/cpp/src/thrift/generate/t_sql_generator.cc:1160-1162 | A pivot table's name always starts with `__` and ends with `_` plus the column. |
| SqlSchema.PivotNameNested | compiler/cpp/src/thrift/generate/t_sql_generator.cc:1160-1162 | Under a pivot table, whose name is already `__`-prefixed, the nested pivot's name is just the parent name, `_` and the column. |
| SqlSchema.PivotNamePrefixed | compiler/cpp/src/thrift/generate/t_sql_generator.cc:1160-1162 | For a table whose name does not start with `_`, the prefix `__` is always added. |
| SqlSchema.PivotNameSingleUnderscore | compiler/cpp/src/thrift/generate/t_sql_generator.cc:1160-1162 | A table whose name starts with a single `_` still gets the `__` prefix, so `_A` and `x` give `___A_x`. |
| SqlSchema.PivotNameBareUnderscore | compiler/cpp/src/thrift/generate/t_sql_generator.cc:1160-1162 | A table named just `_` gets no prefix, since the joined name already starts with `__`: `_` and `x` give `__x`. |
| SqlSchema.PivotNamesCanCollide | compiler/cpp/src/thrift/generate/t_sql_generator.cc:1160-1162 | Naming is plain concatenation. The nested pivot of `x: list<list<..>>` and the pivot of a field `x_Item` in the same struct are both `__A_x_Item`. |
| SqlSchema.DefaultTable | compiler/cpp/src/thrift/generate/t_sql_generator.cc:1087-1093 | Every table class starts with its name, an empty `__pivottables__` and an integer primary key `_id`. |
| SqlSchema.RegisterPivot | compiler/cpp/src/thrift/generate/t_sql_generator.cc:1104-1113 | The parent records the pivot under the column name. The pivot table is a default table plus a `<parent>_fk` key to the parent's `_id`. |
| SqlSchema.PivotTable | compiler/cpp/src/thrift/generate/t_sql_generator.cc:1104-1113 | A container's pivot table is named by the pivot name. Its attributes are `_id`, then the `<parent>_fk` key to the parent's `_id`, then whatever the element's own columns add. Its `__pivottables__` is the element's own. |
| SqlSchema.ContainerColumn | compiler/cpp/src/thrift/generate/t_sql_generator.cc:1174-1215 | The owner gains exactly one one-to-many relationship to the pivot table `PivotName(owner, column)` and registers exactly that pivot under the column. The pivot table comes first, holding `_id`, `<owner>_fk` and the element's members, with the element's pivots. After it come exactly the tables nested under the element. |
| SqlSchema.ColumnFor | compiler/cpp/src/thrift/generate/t_sql_generator.cc:1155-1223 | A field's columns are derived exactly when neither void nor an exception occurs anywhere in its type, including container elements. What they are is stated per kind by `SqlSchema.ColumnForMembers`, `SqlSchema.ListPivotTable` and `SqlSchema.MapPivotTable`. |
| SqlSchema.ColumnForTrueType | compiler/cpp/src/thrift/generate/t_sql_generator.cc:1158 | A typedef column is derived exactly as a column of the type the typedef names. |
| SqlSchema.ListPivotTable | compiler/cpp/src/thrift/generate/t_sql_generator.cc:1174-1200 | The pivot table of a list or set column is exactly `_id`, `<owner>_fk`, and the members the element type contributes as `Item` of that pivot table, with the element's pivots. The tables the element needs follow it, in order. |
| SqlSchema.MapPivotTable | compiler/cpp/src/thrift/generate/t_sql_generator.cc:1201-1215 | The pivot table of a map column is exactly `_id`, `<owner>_fk`, the members the key type contributes as `Key`, then those the value type contributes as `Value`. Its pivots are the key's and the value's. The key's tables, then the value's, follow it. |
| SqlSchema.ColumnForMembers | compiler/cpp/src/thrift/generate/t_sql_generator.cc:1164-1219 | What the owner's table gains from a field. A struct adds a `_<col>_fk` key to the struct's table and a relationship through that key. A scalar adds one column of its SQL type. A list, set or map adds one one-to-many relationship to its pivot table, backed by the owner, with a list, a set or a by-`Key` dict as the collection. |
| SqlSchema.ColumnForShape | compiler/cpp/src/thrift/generate/t_sql_generator.cc:1174-1215 | A field emits one pivot table per container node of its type. It registers a pivot exactly when it is itself a list, set or map, and that pivot's table is the first one emitted. |
| SqlSchema.ColumnForWellLinked | compiler/cpp/src/thrift/generate/t_sql_generator.cc:1104-1113 | Every pivot table a field emits hangs, through `<parent>_fk`, off the owner or off a pivot table emitted before it, and that parent registers it. |
| SqlSchema.FieldColumns | compiler/cpp/src/thrift/generate/t_sql_generator.cc:698-701 | The field loop succeeds exactly when every field is mappable. It emits as many pivot tables as the fields' container nodes. |
| SqlSchema.FieldColumnsPerField | compiler/cpp/src/thrift/generate/t_sql_generator.cc:698-701 | The owner's attributes from the loop are the members each field's column adds, concatenated in declaration order. The pivot tables are each field's tables, concatenated in the same order. |
| SqlSchema.FieldColumnsPivots | compiler/cpp/src/thrift/generate/t_sql_generator.cc:698-701 | The owner's `__pivottables__` has an entry exactly for its list, set and map fields, each mapped to `PivotName(owner, field)`. |
| SqlSchema.SqlTables | compiler/cpp/src/thrift/generate/t_sql_generator.cc:691-707 | Generation succeeds exactly when every field is mappable. The struct's own table comes first, named after the struct. Its attributes are exactly `_id` followed by what the field loop adds, and the tables after it are exactly the field loop's pivot tables, one per container node. Its pivot map has an entry exactly for the container fields, each named by `PivotName`. |
| SqlSchema.SqlTablesPerField | compiler/cpp/src/thrift/generate/t_sql_generator.cc:691-707 | The struct's table holds `_id` and then, field by field in declaration order, the members each field's column adds. The remaining tables are each field's pivot tables, field by field. |
| SqlSchema.FieldColumnsWellLinked | compiler/cpp/src/thrift/generate/t_sql_generator.cc:698-701 | With distinct field names, all the pivot tables of the fields are well linked under the owner. |
| SqlSchema.SqlTablesWellLinked | compiler/cpp/src/thrift/generate/t_sql_generator.cc:691-707 | Every pivot table of a struct hangs off the struct's table or off an earlier pivot table, and is registered in its parent's `__pivottables__`. |
| SqlSchema.InstantiatePivot | compiler/cpp/src/thrift/generate/t_sql_generator.cc:1121-1129 | A prefix with a `.` splits at its first `.` into object and field. A prefix without one is both the object and the field. |
| SqlSchema.InstantiatePivotSplits | compiler/cpp/src/thrift/generate/t_sql_generator.cc:1123-1126 | The prefixes `read` builds (`self.f`, `_elemN.Item`) split back into exactly that object and field. |
| StructReader.Skip | compiler/cpp/src/thrift/generate/t_sql_generator.cc:636-641 | Skipping a value of a given tag consumes at least one token and never runs past the stream. |
| StructReader.FieldById | compiler/cpp/src/thrift/generate/t_sql_generator.cc:623-630 | The `if fid == ...: elif ...` chain picks a member with that id, or none exactly when no member has it. |
| StructReader.ReadScalar | compiler/cpp/src/thrift/generate/t_sql_generator.cc:728-763 | A scalar read succeeds only on a value of exactly the requested tag, which it returns. |
| StructReader.DecodeScalar | compiler/cpp/src/thrift/generate/t_sql_generator.cc:728-765 | A base or enum decode succeeds exactly on a scalar token of the type's wire tag and, for an enum, on one of its numbers. A base type yields the value read. An enum yields that number's label. An unknown enum number fails with an unknown-value error. |
| StructReader.DecodeValue | compiler/cpp/src/thrift/generate/t_sql_generator.cc:713-771 | A decoded value fits its declared type, seen through typedefs: an instance of the named class for a struct, a list for a list, a set for a set, a dict for a map, a value of the right kind for a scalar. It consumes at least one token and never runs past the stream. |
| StructReader.DecodeContainer | compiler/cpp/src/thrift/generate/t_sql_generator.cc:785-833 | A list decodes only from a list header, into a list of exactly the header's size. A set decodes only from a set header, into a set of exactly that many rows. A map decodes only from a map header, into a dict. Each consumes at least the header. |
| StructReader.ReadElems | compiler/cpp/src/thrift/generate/t_sql_generator.cc:857-884 | Exactly `size` elements are read. Each becomes a fresh pivot-table row holding it as `Item`. |
| StructReader.ReadElemsDecoded | compiler/cpp/src/thrift/generate/t_sql_generator.cc:857-884 | The rows hold, in stream order, the elements decoded one after another, each starting where the previous one ended. The first starts where the elements start, and the last ends where the loop stops. |
| StructReader.ReadEntries | compiler/cpp/src/thrift/generate/t_sql_generator.cc:838-852 | Exactly `size` entries are read. Each becomes a pivot-table row holding `Key` and `Value`, with `Key` equal to the key the entry is filed under. No filed key is a list, set or dict. |
| StructReader.ReadEntriesDecoded | compiler/cpp/src/thrift/generate/t_sql_generator.cc:838-852 | The entries hold, in stream order, keys and values decoded alternately. Each key is the one decoded at its position, and each row's `Value` is the value decoded right after that key. The first key starts where the entries start, and the last value ends where the loop stops. |
| StructReader.ReadEntryValue | compiler/cpp/src/thrift/generate/t_sql_generator.cc:838-852 | Given the first entry's key already read, yields exactly `size` entry rows, each holding the key it is filed under, none of them a list, set or dict. |
| StructReader.ReadEntryValueRow | compiler/cpp/src/thrift/generate/t_sql_generator.cc:838-852 | Once the value after a key has decoded, a list, set or dict key fails as unhashable. On success the first row files that key with a row holding it as `Key` and the decoded value as `Value`. |
| StructReader.FileByKeyKeys | compiler/cpp/src/thrift/generate/t_sql_generator.cc:851 | The dict built by `prefix[_elem.Key] = _elem` holds exactly the keys read. |
| StructReader.FileByKeyLastWins | compiler/cpp/src/thrift/generate/t_sql_generator.cc:851 | Of several entries with equal keys, the last one read is the one kept. |
| StructReader.FileByKeyRows | compiler/cpp/src/thrift/generate/t_sql_generator.cc:851 | Filing rows by key keeps each row under the key it carries. |
| StructReader.ReadFieldValue | compiler/cpp/src/thrift/generate/t_sql_generator.cc:630-641 | Handling one field value consumes at least one token and never runs past the stream. Any attribute it sets is a declared member. |
| StructReader.ReadFieldValueDispatch | compiler/cpp/src/thrift/generate/t_sql_generator.cc:630-641 | When the id names a member and the tag is that member's wire tag, handling succeeds exactly when decoding the member's type succeeds, and it sets that member to the decoded value and stops where decoding stops. An attribute is set only in that case. Otherwise the value is skipped exactly as the protocol's skip does, setting nothing. |
| StructReader.ReadFields | compiler/cpp/src/thrift/generate/t_sql_generator.cc:604-648 | The field loop stops right after a STOP marker. It yields an instance of the class that keeps every earlier attribute and adds only declared members. Which members it sets, and to what, is stated by `StructReader.ReadFieldsChain`. |
| StructReader.AppliedValue | compiler/cpp/src/thrift/generate/t_sql_generator.cc:630-641 | Storing updates one after another, as `self.<name> = ...` does, leaves each name some update sets with the value of the last such update. Every other name keeps its earlier value, or stays absent. |
| StructReader.ReadFieldsChain | compiler/cpp/src/thrift/generate/t_sql_generator.cc:604-648 | The loop dispatches a chain of top-level headers, each value ending right before the next header and the last header being STOP. A header naming a member with that member's wire tag updates exactly that member, to the value decoded right after the header. Any other header updates nothing. The instance the loop yields holds the starting attributes with every header's update applied in stream order. |
| StructReader.Read | compiler/cpp/src/thrift/generate/t_sql_generator.cc:583-652 | `read` fails with the not-generated error whenever generation aborts for some class. A successful `read` yields an instance of the requested class whose attributes are declared members, and ends right after a STOP marker. Which members are set, and to what, is stated by `StructReader.ReadAttrsDecoded`. |
| StructReader.ReadAttrsDecoded | compiler/cpp/src/thrift/generate/t_sql_generator.cc:583-652 | Along the chain of top-level headers a successful `read` dispatches, a member is set exactly when some header naming it with its wire tag arrives. It then holds the value decoded right after the last such header. Headers nested inside a member's value do not count. |
| StructReader.SkipAgreesWithDecode | compiler/cpp/src/thrift/generate/t_sql_generator.cc:632-641 | When skipping a value and decoding it both succeed at one position, they stop at the same position, through any nesting. |
| StructReader.ContainerRowsUsePivot | compiler/cpp/src/thrift/generate/t_sql_generator.cc:838-884 | Every element row of a decoded list or set, and every entry row of a dict, belongs to the pivot table named for the owner and attribute. A dict entry's row is filed under its own key. |
| StructReader.ReadRowsMatchSchema | compiler/cpp/src/thrift/generate/t_sql_generator.cc:1160-1178 | The rows `read` builds for a container member belong to exactly the pivot table the struct's table registers for that member. |
| StructReader.Validate | compiler/cpp/src/thrift/generate/t_sql_generator.cc:654-675 | `validate` passes exactly when no required member reads as `None`. A member reads as `None` when it was never set and is not a list, set or map. Otherwise `validate` names the first such required member in declaration order. |
| TinyProtocol.Intern | lib/py/src/protocol/TTinyProtocol.py:59-66 | A stored string reuses its slot and leaves the table alone. A new string is appended and gets the next slot. The array only grows, and a consistent dict/array pair stays consistent with the slot holding the string. |
| TinyProtocol.TableDistinct | lib/py/src/protocol/TTinyProtocol.py:60-63 | A consistent table never stores a string twice. |
| TinyProtocol.InternFirstOccurrence | lib/py/src/protocol/TTinyProtocol.py:59-66 | A string's slot is the index of its first occurrence since the table was reset. |
| TinyProtocol.TableToks | lib/py/src/protocol/TTinyProtocol.py:53-56 | The table is sent as a size and the bytes for each string, two items per string. |
| TinyProtocol.InitialWriterConsistent | lib/py/src/protocol/TTinyProtocol.py:30 | A fresh protocol, at depth 0 with no table, is in a consistent state. |
| TinyProtocol.Emit | lib/py/src/protocol/TTinyProtocol.py:37-38 | While a struct is open, writes go to the memory buffer and the real transport is untouched. Otherwise they go to the real transport. |
| TinyProtocol.WriteStructBegin | lib/py/src/protocol/TTinyProtocol.py:32-42 | The depth rises by one. Only at depth 0 is the table reset and the buffer started; a nested struct shares them. Consistency is preserved. |
| TinyProtocol.WriteStructEnd | lib/py/src/protocol/TTinyProtocol.py:44-57 | Away from depth 1 only the depth falls. Closing the outermost struct sends the string count, then the table, then the buffered body to the real transport, and leaves depth 0 with no buffer. |
| TinyProtocol.WriteString | lib/py/src/protocol/TTinyProtocol.py:59-66 | Fails (attribute error) exactly when no table exists yet. Otherwise it interns the string and writes only its slot. |
| TinyProtocol.WriteOther | lib/py/src/protocol/TTinyProtocol.py:37-38 | Everything else the compact protocol writes goes, unchanged, to the current transport, and consistency is kept. |
| TinyProtocol.ReadVarint | lib/py/src/protocol/TTinyProtocol.py:71 | Succeeds exactly on a varint, returning it and advancing one item. |
| TinyProtocol.ReadTable | lib/py/src/protocol/TTinyProtocol.py:71-75 | Reads exactly `count` strings, each a size followed by that many bytes, in slot order. |
| TinyProtocol.ReadStructBegin | lib/py/src/protocol/TTinyProtocol.py:68-79 | The depth rises by one. Only at depth 0 is the table read, replacing the array; nested structs read nothing. |
| TinyProtocol.ReadStructEnd | lib/py/src/protocol/TTinyProtocol.py:81-85 | Only the depth falls; the array and the input position stay. |
| TinyProtocol.ReadString | lib/py/src/protocol/TTinyProtocol.py:87-89 | Succeeds exactly on a slot inside a loaded array and returns the string stored there. A slot at or past the array's end is an index error, and no array at all is an attribute error. |
| TinyProtocol.ReadOther | lib/py/src/protocol/TTinyProtocol.py:78-79 | Anything else the compact protocol reads is taken unchanged from the input. |
| TinyProtocol.WellNestedNet | lib/py/src/protocol/TTinyProtocol.py:39 | In a properly nested call sequence, begins and ends cancel. |
| TinyProtocol.WriterDepth | lib/py/src/protocol/TTinyProtocol.py:32-49 | The writer's depth moves by exactly begins minus ends, from any starting depth. |
| TinyProtocol.ReaderDepth | lib/py/src/protocol/TTinyProtocol.py:68-82 | The reader's depth moves by exactly begins minus ends, from any starting depth. |
| TinyProtocol.BalancedDepth | lib/py/src/protocol/TTinyProtocol.py:30-85 | Properly nested begins and ends return both sides' depth to where it started. |
| TinyProtocol.WriteBody | lib/py/src/protocol/TTinyProtocol.py:59-66 | Inside an open outermost struct, the writer buffers one item per value, each string as a slot holding it in the final table. The table only grows. |
| TinyProtocol.ReadBody | lib/py/src/protocol/TTinyProtocol.py:87-89 | With the table loaded and those items ahead, the reader returns exactly the values written and consumes exactly those items. |
| TinyProtocol.ReadTableBack | lib/py/src/protocol/TTinyProtocol.py:71-75 | The table as the writer sends it is read back as the same array. |
| TinyProtocol.WriteSession | lib/py/src/protocol/TTinyProtocol.py:44-57 | A fresh writer sends one outermost struct as the count, the table, then the body. It ends at depth 0 with no buffer. |
| TinyProtocol.ReadHeader | lib/py/src/protocol/TTinyProtocol.py:68-76 | The outermost `readStructBegin` loads exactly the table the writer sent. |
| TinyProtocol.ReadSession | lib/py/src/protocol/TTinyProtocol.py:68-89 | On that output, a fresh reader returns every value in order, ends at depth 0 with the table loaded, and consumes the output exactly. |
| TinyProtocol.RoundTrip | lib/py/src/protocol/TTinyProtocol.py:32-89 | Writing one outermost struct and reading it back with the same calls returns the written values in order. The output is consumed exactly, and both sides end at depth 0. |
| Scenarios.PersonSpec | compiler/cpp/src/thrift/generate/t_sql_generator.cc:531-551 | For ids 1, 2 and 3, the tuple is a placeholder followed by the three rows at their ids. |
| Scenarios.PersonTables | compiler/cpp/src/thrift/generate/t_sql_generator.cc:1155-1215 | `Person { name: string; age: i32; tags: list<string> }` gets exactly two tables. `Person` holds `_id`, `name` as a string column, `age` as an integer column and a list relationship `tags` to `__Person_tags`, and registers that pivot. `__Person_tags` holds `_id`, `Person_fk` and the string column `Item`. |
| Scenarios.ReadAgeOnly | compiler/cpp/src/thrift/generate/t_sql_generator.cc:604-675 | A stream holding only the optional field sets only it, and `validate` names the missing required field. |
| Scenarios.RequiredListUnsetPasses | compiler/cpp/src/thrift/generate/t_sql_generator.cc:654-675 | A required list that never arrived passes `validate`, while a required string that never arrived is named. |
| Scenarios.MistypedHeaderSkipped | compiler/cpp/src/thrift/generate/t_sql_generator.cc:632-636 | A known id with the wrong tag is skipped and sets nothing. |
| Scenarios.ReadTagsList | compiler/cpp/src/thrift/generate/t_sql_generator.cc:872-884 | A one-element list becomes one `__Person_tags` row holding the element as `Item`. |
| Scenarios.InternReusesSlot | lib/py/src/protocol/TTinyProtocol.py:59-66 | Writing "a", "b", "a" emits slots 0, 1, 0. |

## Left out

- The fast path of `read`, which hands decoding to `iprot._fast_decode` (C extension), and `TTinyProtocolAccelerated`: these are foreign code.
- The byte encoding of the compact protocol. Varints, sizes, field headers and numbers are abstract items, and anything the compact superclass writes is one opaque item. `TCompactProtocol` is not part of this model.
- `TProtocol.skip` is not part of this model's source files. `StructReader.Skip` models the standard skip of one value of a given tag.
- `render_field_default_value`: defaults are carried as opaque text.
- `type_name`'s module qualification of types from other programs: struct references are by plain name.
- The emitted text itself (indentation, `all_structs`, docstrings, `__repr__`, enum classes, imports, generator options, file I/O): the model states what the emitted code means, not its characters.
- The ORM's runtime behaviour (sessions, back references, loading): tables are modelled as their declared attributes and pivot maps.
- Sorting members by id is done by the front end. `SpecTable.ThriftSpec` takes the sorted list and requires strictly ascending ids; with a repeated id the gap loop would never stop.
- Typedef cycles: a typedef holds its target structurally, so every typedef chain ends.
- StructReader.DecodeContainer: the dict's size is not stated, since equal keys collapse; `StructReader.FileByKeyKeys` states which keys it holds.
- StructReader.DecodeContainer: the element tags in a container header are read but not checked against the declared types, as in the emitted code. A mismatch surfaces only when an element is read.
- StructReader.DecodeScalar: binary and text strings both decode to a string value; UTF-8 decoding under Python 2 is not modelled.
- StructReader.Read: struct instances used as dict keys compare by value here, while Python hashes them by identity. Dict filing is therefore modelled only for value keys. List, set and dict keys are refused, as Python refuses them.
- StructReader.Validate: "unset" means the attribute was never assigned. An attribute explicitly assigned `None` is not modelled.
- TinyProtocol: one Python object holds both the writing and the reading state (`structDepth`, the array). The model keeps a separate writer and reader, as a protocol object is used for one direction at a time.
- TinyProtocol.WriteStructEnd: in a state where the body is not buffered at depth 1, the model reports an attribute error. `Consistent` holds from a fresh protocol and is kept by every operation, so that state is unreachable.
- StructReader.DecodeScalar: doubles are exact reals. NaN, the infinities, -0.0 and rounding are not modelled, so a dict keyed by doubles never holds two NaN keys, as Python's would.
- Integer widths: slots, sizes and ids are unbounded, because the source never relies on overflow.
