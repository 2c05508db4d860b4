/**
 * The wire descriptor compiler: the wire tag of a type (`type_to_enum`) and
 * its recursive shape descriptor (`type_to_spec_args`).
 */
module WireDescriptor {
  import opened Wrappers
  import opened ThriftTypes

  /**
   * The wire tag of a type. Enums travel as I32, structs and exceptions as
   * STRUCT; void has no tag and aborts generation.
   */
  function WireTag(t: ThriftType): (r: Result<Tag, GenError>)
    ensures r.Err? <==> TrueType(t) == TVoid
    ensures r.Err? ==> r.error == NoVoidConstruct
    ensures r.Ok? ==> (IsScalarTag(r.value) <==> IsScalar(TrueType(t)))
    ensures r == Ok(STRUCT) <==> IsStructLike(TrueType(t))
    ensures r == Ok(I32) <==> (TrueType(t).TI32? || TrueType(t).TEnum?)
    ensures r == Ok(STRING) <==> TrueType(t).TString?
  {
    match t
    case TTypedef(_, target) => WireTag(target)
    case TVoid => Err(NoVoidConstruct)
    case TString(_) => Ok(STRING)
    case TBool => Ok(BOOL)
    case TByte => Ok(BYTE)
    case TI16 => Ok(I16)
    case TI32 => Ok(I32)
    case TI64 => Ok(I64)
    case TDouble => Ok(DOUBLE)
    case TEnum(_, _) => Ok(I32)
    case TStruct(_) => Ok(STRUCT)
    case TException(_) => Ok(STRUCT)
    case TMap(_, _, _) => Ok(MAP)
    case TSet(_, _) => Ok(SET)
    case TList(_, _) => Ok(LIST)
  }

  /**
   * The shape descriptor of `thrift_spec`: strings say how their bytes are
   * decoded, a struct is a reference to that struct's own spec (by name, not a
   * copy), and containers describe their element types recursively.
   */
  datatype SpecArgs =
    | NoArgs                        // rendered `None`
    | BinaryArgs                    // rendered `'BINARY'`
    | Utf8Args                      // rendered `'UTF8'`
    | StructRefArgs(structName: string) // rendered `[Name, None]`
    | ElemArgs(elemTag: Tag, elemArgs: SpecArgs, immutable: bool)
    | MapArgs(keyTag: Tag, keyArgs: SpecArgs, valTag: Tag, valArgs: SpecArgs, immutable: bool)

  /** No void anywhere in `t`, looking through typedefs and container elements. */
  predicate VoidFree(t: ThriftType)
    decreases t, 1
  {
    TrueType(t) != TVoid && ElementsVoidFree(t)
  }

  /** No void among the (transitive) container element types of `t`; `t` itself may be void. */
  predicate ElementsVoidFree(t: ThriftType)
    decreases t, 0
  {
    match t
    case TTypedef(_, target) => ElementsVoidFree(target)
    case TList(e, _) => VoidFree(e)
    case TSet(e, _) => VoidFree(e)
    case TMap(k, v, _) => VoidFree(k) && VoidFree(v)
    case _ => true
  }

  /**
   * `type_to_spec_args`. Void is a base type that is not a string, so at the
   * top level it yields `None`; only a void element type fails, through the
   * wire tag of that element.
   */
  function SpecArgsOf(t: ThriftType): (r: Result<SpecArgs, GenError>)
    ensures r.Ok? <==> ElementsVoidFree(t)
    ensures r.Ok? ==> (r.value.StructRefArgs? <==> IsStructLike(TrueType(t)))
    ensures r.Ok? ==> (r.value.ElemArgs? <==> (TrueType(t).TList? || TrueType(t).TSet?))
    ensures r.Ok? ==> (r.value.MapArgs? <==> TrueType(t).TMap?)
    ensures r.Ok? && r.value.ElemArgs? ==> r.value.immutable == TrueType(t).immutable
    ensures r.Ok? && r.value.MapArgs? ==> r.value.immutable == TrueType(t).immutable
    ensures r.Ok? && r.value.StructRefArgs? ==>
      r.value.structName == (if TrueType(t).TStruct? then TrueType(t).structName else TrueType(t).exceptionName)
    ensures r == Ok(BinaryArgs) <==> TrueType(t) == TString(true)
    ensures r == Ok(Utf8Args) <==> TrueType(t) == TString(false)
  {
    match t
    case TTypedef(_, target) => SpecArgsOf(target)
    case TString(binary) => if binary then Ok(BinaryArgs) else Ok(Utf8Args)
    case TVoid => Ok(NoArgs)
    case TBool => Ok(NoArgs)
    case TByte => Ok(NoArgs)
    case TI16 => Ok(NoArgs)
    case TI32 => Ok(NoArgs)
    case TI64 => Ok(NoArgs)
    case TDouble => Ok(NoArgs)
    case TEnum(_, _) => Ok(NoArgs)
    case TStruct(name) => Ok(StructRefArgs(name))
    case TException(name) => Ok(StructRefArgs(name))
    case TMap(k, v, imm) =>
      var kTag :- WireTag(k);
      var kArgs :- SpecArgsOf(k);
      var vTag :- WireTag(v);
      var vArgs :- SpecArgsOf(v);
      Ok(MapArgs(kTag, kArgs, vTag, vArgs, imm))
    case TSet(e, imm) =>
      var eTag :- WireTag(e);
      var eArgs :- SpecArgsOf(e);
      Ok(ElemArgs(eTag, eArgs, imm))
    case TList(e, imm) =>
      var eTag :- WireTag(e);
      var eArgs :- SpecArgsOf(e);
      Ok(ElemArgs(eTag, eArgs, imm))
  }

  /**
   * What a (tag, descriptor) pair tells a decoder about a value: the type with
   * typedefs resolved, enums seen as I32 and struct types as a named reference.
   */
  datatype WireShape =
    | ScalarShape(tag: Tag)
    | TextShape
    | BinaryShape
    | StructShape(name: string)
    | ListShape(elem: WireShape, immutable: bool)
    | SetShape(elem: WireShape, immutable: bool)
    | MapShape(key: WireShape, val: WireShape, immutable: bool)

  /** The wire shape of a type, defined directly on the type; `None` when void occurs. */
  function Erase(t: ThriftType): Option<WireShape> {
    match t
    case TTypedef(_, target) => Erase(target)
    case TVoid => None
    case TBool => Some(ScalarShape(BOOL))
    case TByte => Some(ScalarShape(BYTE))
    case TI16 => Some(ScalarShape(I16))
    case TI32 => Some(ScalarShape(I32))
    case TI64 => Some(ScalarShape(I64))
    case TDouble => Some(ScalarShape(DOUBLE))
    case TString(binary) => Some(if binary then BinaryShape else TextShape)
    case TEnum(_, _) => Some(ScalarShape(I32))
    case TStruct(name) => Some(StructShape(name))
    case TException(name) => Some(StructShape(name))
    case TList(e, imm) =>
      var es :- Erase(e);
      Some(ListShape(es, imm))
    case TSet(e, imm) =>
      var es :- Erase(e);
      Some(SetShape(es, imm))
    case TMap(k, v, imm) =>
      var ks :- Erase(k);
      var vs :- Erase(v);
      Some(MapShape(ks, vs, imm))
  }

  /** Reads a (tag, descriptor) pair back as a wire shape; `None` if the two disagree. */
  function ShapeOf(tag: Tag, args: SpecArgs): Option<WireShape>
    decreases args
  {
    match args
    case NoArgs =>
      if IsScalarTag(tag) && tag != STRING then Some(ScalarShape(tag)) else None
    case BinaryArgs => if tag == STRING then Some(BinaryShape) else None
    case Utf8Args => if tag == STRING then Some(TextShape) else None
    case StructRefArgs(name) => if tag == STRUCT then Some(StructShape(name)) else None
    case ElemArgs(eTag, eArgs, imm) =>
      var es :- ShapeOf(eTag, eArgs);
      if tag == LIST then Some(ListShape(es, imm))
      else if tag == SET then Some(SetShape(es, imm))
      else None
    case MapArgs(kTag, kArgs, vTag, vArgs, imm) =>
      var ks :- ShapeOf(kTag, kArgs);
      var vs :- ShapeOf(vTag, vArgs);
      if tag == MAP then Some(MapShape(ks, vs, imm)) else None
  }

  /**
   * The wire tag and the shape descriptor together lose nothing a decoder
   * needs: for every void-free type both are defined and they decode back to
   * the type's wire shape, through any depth of container nesting.
   */
  lemma {:induction false} DescriptorRoundTrip(t: ThriftType)
    requires VoidFree(t)
    ensures WireTag(t).Ok? && SpecArgsOf(t).Ok?
    ensures ShapeOf(WireTag(t).value, SpecArgsOf(t).value) == Erase(t)
  {
    match t
    case TTypedef(_, target) =>
      DescriptorRoundTrip(target);
    case TList(e, _) =>
      DescriptorRoundTrip(e);
      ElemRoundTrip(t);
    case TSet(e, _) =>
      DescriptorRoundTrip(e);
      ElemRoundTrip(t);
    case TMap(k, v, _) =>
      DescriptorRoundTrip(k);
      DescriptorRoundTrip(v);
      MapRoundTrip(t);
    case _ =>
      ScalarRoundTrip(t);
  }

  /** The round trip holds for one type. */
  ghost predicate RoundTrips(t: ThriftType) {
    WireTag(t).Ok? && SpecArgsOf(t).Ok? && ShapeOf(WireTag(t).value, SpecArgsOf(t).value) == Erase(t)
  }

  lemma ScalarRoundTrip(t: ThriftType)
    requires !t.TTypedef? && t != TVoid && !IsContainer(t)
    ensures RoundTrips(t)
  {
  }

  lemma ElemRoundTrip(t: ThriftType)
    requires (t.TList? || t.TSet?) && RoundTrips(t.elem)
    ensures RoundTrips(t)
  {
    assert SpecArgsOf(t) == Ok(ElemArgs(WireTag(t.elem).value, SpecArgsOf(t.elem).value, t.immutable));
  }

  lemma MapRoundTrip(t: ThriftType)
    requires t.TMap? && RoundTrips(t.key) && RoundTrips(t.val)
    ensures RoundTrips(t)
  {
    assert SpecArgsOf(t) == Ok(MapArgs(WireTag(t.key).value, SpecArgsOf(t.key).value, WireTag(t.val).value, SpecArgsOf(t.val).value, t.immutable));
  }

  /** Exactly the void-free types have a wire shape. */
  lemma {:induction false} EraseDefinedIffVoidFree(t: ThriftType)
    ensures Erase(t).Some? <==> VoidFree(t)
  {
    match t
    case TTypedef(_, target) =>
      EraseDefinedIffVoidFree(target);
    case TList(e, _) =>
      EraseDefinedIffVoidFree(e);
    case TSet(e, _) =>
      EraseDefinedIffVoidFree(e);
    case TMap(k, v, _) =>
      EraseDefinedIffVoidFree(k);
      EraseDefinedIffVoidFree(v);
    case _ =>
  }

  /** No consumer can tell a typedef from the type it names. */
  lemma TypedefTransparent(alias: string, t: ThriftType)
    ensures WireTag(TTypedef(alias, t)) == WireTag(t)
    ensures SpecArgsOf(TTypedef(alias, t)) == SpecArgsOf(t)
    ensures Erase(TTypedef(alias, t)) == Erase(t)
  {
  }
}
