/**
 * The resolved schema graph the generator works on: Thrift types, fields and
 * struct definitions, together with typedef resolution and the wire tags of
 * the Thrift binary encodings.
 */
module ThriftTypes {
  import opened Wrappers

  /**
   * A Thrift type as the front end hands it over. Struct and exception types
   * refer to their definition by name, so self- and mutually-recursive structs
   * need no cyclic value. A typedef wraps the type it names, so every typedef
   * chain is finite by construction.
   */
  datatype ThriftType =
    | TVoid
    | TBool
    | TByte
    | TI16
    | TI32
    | TI64
    | TDouble
    | TString(binary: bool)
    | TEnum(enumName: string, labels: map<int, string>)
    | TStruct(structName: string)
    | TException(exceptionName: string)
    | TList(elem: ThriftType, immutable: bool)
    | TSet(elem: ThriftType, immutable: bool)
    | TMap(key: ThriftType, val: ThriftType, immutable: bool)
    | TTypedef(alias: string, target: ThriftType)

  datatype Requiredness = Required | Optional | DefaultRequiredness

  /**
   * A struct member. `defaultText` is the already rendered default value
   * literal, if the field declares one.
   */
  datatype Field = Field(id: int, name: string, ftype: ThriftType, req: Requiredness, defaultText: Option<string>)

  /** A struct or exception definition; `fields` is in declaration order. */
  datatype StructDef = StructDef(name: string, fields: seq<Field>, isException: bool)

  /** The wire tags the generated code names as `TType.<TAG>`. */
  datatype Tag = BOOL | BYTE | I16 | I32 | I64 | DOUBLE | STRING | STRUCT | MAP | SET | LIST

  /** The errors the generator throws, aborting the whole run. */
  datatype GenError =
    | NoVoidConstruct             // a void type where a value type is needed
    | InvalidSqlType(t: ThriftType) // a type with no scalar column type

  /** The true type: the type with every typedef indirection removed. */
  function TrueType(t: ThriftType): (r: ThriftType)
    ensures !r.TTypedef?
    ensures !t.TTypedef? ==> r == t
  {
    if t.TTypedef? then TrueType(t.target) else t
  }

  predicate IsContainer(t: ThriftType) {
    t.TList? || t.TSet? || t.TMap?
  }

  /** A type with one scalar value on the wire: a base type other than void, or an enum. */
  predicate IsScalar(t: ThriftType) {
    t.TBool? || t.TByte? || t.TI16? || t.TI32? || t.TI64? || t.TDouble? || t.TString? || t.TEnum?
  }

  predicate IsScalarTag(tag: Tag) {
    tag != STRUCT && tag != MAP && tag != SET && tag != LIST
  }

  predicate IsStructLike(t: ThriftType) {
    t.TStruct? || t.TException?
  }
}
