/**
 * The decode routine compiler: what the generated `read(self, iprot)` method
 * does, stated over an abstract protocol cursor, and the `validate(self)`
 * method the required-field validator generator would emit (no struct's
 * class calls that generator).
 */
module StructReader {
  import opened Wrappers
  import opened ThriftTypes
  import opened WireDescriptor
  import opened SqlSchema

  /** A scalar as a protocol read returns it. */
  datatype Scalar =
    | BoolVal(b: bool)
    | ByteVal(i: int)
    | I16Val(i: int)
    | I32Val(i: int)
    | I64Val(i: int)
    | DoubleVal(r: real)
    | StringVal(s: string)

  function ScalarTag(v: Scalar): Tag {
    match v
    case BoolVal(_) => BOOL
    case ByteVal(_) => BYTE
    case I16Val(_) => I16
    case I32Val(_) => I32
    case I64Val(_) => I64
    case DoubleVal(_) => DOUBLE
    case StringVal(_) => STRING
  }

  /**
   * One step of the protocol cursor: a field header as `readFieldBegin`
   * returns it (or the STOP marker), a scalar, or a container header.
   */
  datatype Token =
    | FieldHeader(id: int, tag: Tag)
    | FieldStop
    | Value(v: Scalar)
    | ListHeader(elemTag: Tag, size: nat)
    | SetHeader(elemTag: Tag, size: nat)
    | MapHeader(keyTag: Tag, valTag: Tag, size: nat)

  datatype DecodeError =
    | EndOfStream                         // the transport ran dry
    | UnexpectedToken(token: Token)      // the stream does not hold what is being read
    | UnknownEnumValue(enumName: string, value: int) // `Enum.name(v)` raises KeyError
    | UnknownStruct(structName: string)   // no generated class of that name
    | UnhashableKey                       // a list, set or dict used as a dict key
    | VoidValue                           // no reader exists for void
    | NotGenerated                        // generation of some struct aborted

  /**
   * A Python value built by the generated code. Struct instances and pivot
   * rows are `OInstance`s of their class; lists, sets and dicts hold pivot rows.
   * Every pivot row is a fresh object, so adding rows to a set never merges
   * two of them: a set of rows is a multiset here.
   */
  datatype Obj =
    | OBool(b: bool)
    | OInt(i: int)
    | ODouble(r: real)
    | OStr(s: string)
    | OInstance(cls: string, attrs: map<string, Obj>)
    | OList(items: seq<Obj>)
    | OSet(bag: multiset<Obj>)
    | ODict(entries: map<Obj, Obj>)

  // ---------------------------------------------------------------------
  // skip: the protocol's generic skipping of one value of a given wire tag
  // ---------------------------------------------------------------------
  // Every reader takes the token stream `s` and the cursor `p` (the index of
  // the next token to read) and returns the cursor after what it read.

  /** Skips one value of wire type `tag`. */
  function Skip(tag: Tag, s: seq<Token>, p: nat): (r: Result<nat, DecodeError>)
    requires p <= |s|
    ensures r.Ok? ==> p < r.value <= |s|
    decreases |s| - p, 1
  {
    if p == |s| then Err(EndOfStream)
    else if tag == STRUCT then SkipFields(s, p)
    else
      match s[p]
      case ListHeader(e, n) =>
        if tag == LIST then SkipElems(e, n, s, p + 1) else Err(UnexpectedToken(s[p]))
      case SetHeader(e, n) =>
        if tag == SET then SkipElems(e, n, s, p + 1) else Err(UnexpectedToken(s[p]))
      case MapHeader(k, v, n) =>
        if tag == MAP then SkipEntries(k, v, n, s, p + 1) else Err(UnexpectedToken(s[p]))
      case Value(x) =>
        if ScalarTag(x) == tag then Ok(p + 1) else Err(UnexpectedToken(s[p]))
      case _ => Err(UnexpectedToken(s[p]))
  }

  /** Skips the fields of a struct up to and including its STOP marker. */
  function SkipFields(s: seq<Token>, p: nat): (r: Result<nat, DecodeError>)
    requires p <= |s|
    ensures r.Ok? ==> p < r.value <= |s|
    decreases |s| - p, 0
  {
    if p == |s| then Err(EndOfStream)
    else
      match s[p]
      case FieldStop => Ok(p + 1)
      case FieldHeader(_, tag) =>
        var q :- Skip(tag, s, p + 1);
        SkipFields(s, q)
      case _ => Err(UnexpectedToken(s[p]))
  }

  /** Skips `n` values of wire type `tag`. */
  function SkipElems(tag: Tag, n: nat, s: seq<Token>, p: nat): (r: Result<nat, DecodeError>)
    requires p <= |s|
    ensures r.Ok? ==> p <= r.value <= |s|
    decreases |s| - p, 2
  {
    if n == 0 then Ok(p)
    else
      var q :- Skip(tag, s, p);
      SkipElems(tag, n - 1, s, q)
  }

  /** Skips `n` key/value pairs. */
  function SkipEntries(kTag: Tag, vTag: Tag, n: nat, s: seq<Token>, p: nat): (r: Result<nat, DecodeError>)
    requires p <= |s|
    ensures r.Ok? ==> p <= r.value <= |s|
    decreases |s| - p, 2
  {
    if n == 0 then Ok(p)
    else
      var q :- Skip(kTag, s, p);
      SkipEntryValue(kTag, vTag, n, s, q)
  }

  /** Skips the value of the first of `n` pairs, whose key is already skipped, then the other pairs. */
  function SkipEntryValue(kTag: Tag, vTag: Tag, n: nat, s: seq<Token>, p: nat): (r: Result<nat, DecodeError>)
    requires n > 0 && p <= |s|
    ensures r.Ok? ==> p < r.value <= |s|
    decreases |s| - p, 2
  {
    var q :- Skip(vTag, s, p);
    SkipEntries(kTag, vTag, n - 1, s, q)
  }

  // ---------------------------------------------------------------------
  // the generated read method
  // ---------------------------------------------------------------------

  /** The generated classes, by name. */
  type Env = map<string, StructDef>

  /** The member of `fields` the reader's `if fid == ...: elif ...` chain picks for `id`. */
  function FieldById(fields: seq<Field>, id: int): (r: Option<Field>)
    ensures r.Some? ==> r.value in fields && r.value.id == id
    ensures r.None? ==> forall i :: 0 <= i < |fields| ==> fields[i].id != id
  {
    if |fields| == 0 then None
    else if fields[0].id == id then Some(fields[0])
    else FieldById(fields[1..], id)
  }

  function FieldNames(fields: seq<Field>): set<string> {
    set i | 0 <= i < |fields| :: fields[i].name
  }

  /** The top-level shape of a decoded value agrees with the declared (true) type. */
  predicate Fits(t: ThriftType, v: Obj) {
    match t
    case TBool => v.OBool?
    case TByte => v.OInt?
    case TI16 => v.OInt?
    case TI32 => v.OInt?
    case TI64 => v.OInt?
    case TDouble => v.ODouble?
    case TString(_) => v.OStr?
    case TEnum(_, labels) => v.OStr? && v.s in labels.Values
    case TStruct(n) => v.OInstance? && v.cls == n
    case TException(n) => v.OInstance? && v.cls == n
    case TList(_, _) => v.OList?
    case TSet(_, _) => v.OSet?
    case TMap(_, _, _) => v.ODict?
    case _ => false
  }

  /** A dict key Python refuses: lists, sets and dicts are unhashable. */
  predicate Unhashable(v: Obj) {
    v.OList? || v.OSet? || v.ODict?
  }

  /** The pivot row a list or set element is stored in. */
  predicate ItemRow(v: Obj, pivot: string) {
    v.OInstance? && v.cls == pivot && v.attrs.Keys == {"Item"}
  }

  /** The pivot row a map entry is stored in, filed under its own `Key`. */
  predicate EntryRow(key: Obj, v: Obj, pivot: string) {
    v.OInstance? && v.cls == pivot && v.attrs.Keys == {"Key", "Value"} && v.attrs["Key"] == key
  }

  /** One scalar read of wire type `tag`. */
  function ReadScalar(tag: Tag, s: seq<Token>, p: nat): (r: Result<Scalar, DecodeError>)
    requires p <= |s|
    ensures r.Ok? ==> p < |s| && s[p] == Value(r.value) && ScalarTag(r.value) == tag
  {
    if p == |s| then Err(EndOfStream)
    else if s[p].Value? && ScalarTag(s[p].v) == tag then Ok(s[p].v)
    else Err(UnexpectedToken(s[p]))
  }

  /**
   * Decodes one value of declared type `t` into attribute `attr` of an object
   * of class `owner` (`self.<field>`, or `_elem.Item`/`Key`/`Value` of a pivot
   * row). A container's rows are instances of the owner's pivot table for
   * `attr`. The exception case is kept for a total decoder only: `Read`
   * reaches it under no environment for which `Generated` holds, since
   * generation aborts on an exception-typed member before any reader exists.
   */
  function DecodeValue(env: Env, t: ThriftType, owner: string, attr: string, s: seq<Token>, p: nat)
    : (r: Result<(Obj, nat), DecodeError>)
    requires p <= |s|
    ensures r.Ok? ==> p < r.value.1 <= |s|
    ensures r.Ok? ==> Fits(TrueType(t), r.value.0)
    decreases |s| - p, 1
  {
    var tt := TrueType(t);
    if IsStructLike(tt) then
      var n := if tt.TStruct? then tt.structName else tt.exceptionName;
      if n in env then ReadFields(env, n, env[n].fields, map[], s, p) else Err(UnknownStruct(n))
    else if IsContainer(tt) then
      DecodeContainer(env, tt, PivotName(owner, attr), s, p)
    else
      var v :- DecodeScalar(tt, s, p);
      Ok((v, p + 1))
  }

  /** The Python value a scalar read returns, before any enum label lookup. */
  function ObjOf(v: Scalar): Obj {
    match v
    case BoolVal(b) => OBool(b)
    case ByteVal(i) => OInt(i)
    case I16Val(i) => OInt(i)
    case I32Val(i) => OInt(i)
    case I64Val(i) => OInt(i)
    case DoubleVal(x) => ODouble(x)
    case StringVal(x) => OStr(x)
  }

  /**
   * Decodes a value of a base or enum type: one scalar read, and an enum's
   * label lookup. It succeeds exactly on a scalar of the type's wire tag (for
   * an enum, one of its values); a plain scalar keeps the value read, and an
   * enum value becomes its label.
   */
  function DecodeScalar(t: ThriftType, s: seq<Token>, p: nat): (r: Result<Obj, DecodeError>)
    requires p <= |s|
    ensures r.Ok? <==> IsScalar(t) && p < |s| && s[p].Value? && WireTag(t) == Ok(ScalarTag(s[p].v)) &&
                       (t.TEnum? ==> s[p].v.i in t.labels)
    ensures r.Ok? && !t.TEnum? ==> r.value == ObjOf(s[p].v)
    ensures r.Ok? && t.TEnum? ==> r.value == OStr(t.labels[s[p].v.i])
    ensures r.Ok? ==> p < |s| && Fits(t, r.value)
    ensures t.TEnum? && p < |s| && s[p].Value? && s[p].v.I32Val? && s[p].v.i !in t.labels ==>
      r == Err(UnknownEnumValue(t.enumName, s[p].v.i))
  {
    match t
    case TBool =>
      var x :- ReadScalar(BOOL, s, p);
      Ok(OBool(x.b))
    case TByte =>
      var x :- ReadScalar(BYTE, s, p);
      Ok(OInt(x.i))
    case TI16 =>
      var x :- ReadScalar(I16, s, p);
      Ok(OInt(x.i))
    case TI32 =>
      var x :- ReadScalar(I32, s, p);
      Ok(OInt(x.i))
    case TI64 =>
      var x :- ReadScalar(I64, s, p);
      Ok(OInt(x.i))
    case TDouble =>
      var x :- ReadScalar(DOUBLE, s, p);
      Ok(ODouble(x.r))
    case TString(_) =>
      var x :- ReadScalar(STRING, s, p);
      Ok(OStr(x.s))
    case TEnum(name, labels) =>
      var x :- ReadScalar(I32, s, p);
      if x.i in labels then Ok(OStr(labels[x.i])) else Err(UnknownEnumValue(name, x.i))
    case _ => Err(VoidValue)
  }

  /**
   * Decodes a list, set or map: the container header (whose element tags
   * are read but not checked), then its elements or entries into rows of
   * the pivot table `pivot`.
   */
  function DecodeContainer(env: Env, t: ThriftType, pivot: string, s: seq<Token>, p: nat)
    : (r: Result<(Obj, nat), DecodeError>)
    requires IsContainer(t) && p <= |s|
    ensures r.Ok? ==> p < r.value.1 <= |s|
    ensures r.Ok? ==> Fits(t, r.value.0)
    ensures r.Ok? && t.TList? ==> s[p].ListHeader? && |r.value.0.items| == s[p].size
    ensures r.Ok? && t.TSet? ==> s[p].SetHeader? && |r.value.0.bag| == s[p].size
    ensures r.Ok? && t.TMap? ==> s[p].MapHeader?
    decreases |s| - p, 0
  {
    if p == |s| then Err(EndOfStream)
    else
      match t
      case TList(e, _) =>
        if !s[p].ListHeader? then Err(UnexpectedToken(s[p]))
        else
          var (rows, q) :- ReadElems(env, e, pivot, s[p].size, s, p + 1);
          Ok((OList(rows), q))
      case TSet(e, _) =>
        if !s[p].SetHeader? then Err(UnexpectedToken(s[p]))
        else
          var (rows, q) :- ReadElems(env, e, pivot, s[p].size, s, p + 1);
          Ok((OSet(multiset(rows)), q))
      case TMap(k, v, _) =>
        if !s[p].MapHeader? then Err(UnexpectedToken(s[p]))
        else
          var (entries, q) :- ReadEntries(env, k, v, pivot, s[p].size, s, p + 1);
          Ok((ODict(FileByKey(entries)), q))
  }

  /**
   * Reads exactly `n` elements, each into the `Item` of a fresh row of the
   * pivot table, and appends the rows in stream order.
   */
  function ReadElems(env: Env, e: ThriftType, pivot: string, n: nat, s: seq<Token>, p: nat)
    : (r: Result<(seq<Obj>, nat), DecodeError>)
    requires p <= |s|
    ensures r.Ok? ==> p <= r.value.1 <= |s|
    ensures r.Ok? ==> |r.value.0| == n
    ensures r.Ok? ==> forall i :: 0 <= i < n ==> ItemRow(r.value.0[i], pivot)
    decreases |s| - p, 2
  {
    if n == 0 then Ok(([], p))
    else
      var (v, q) :- DecodeValue(env, e, pivot, "Item", s, p);
      var (rows, q') :- ReadElems(env, e, pivot, n - 1, s, q);
      Ok(([OInstance(pivot, map["Item" := v])] + rows, q'))
  }

  /**
   * `ps` cuts the stream into the runs of `rows`' elements: for each `i`,
   * decoding an element at `ps[i]` gives row `i`'s `Item` and ends at `ps[i + 1]`.
   */
  predicate ItemChain(env: Env, e: ThriftType, pivot: string, s: seq<Token>, ps: seq<nat>, rows: seq<Obj>) {
    && |ps| == |rows| + 1
    && (forall i :: 0 <= i < |ps| ==> ps[i] <= |s|)
    && forall i :: 0 <= i < |rows| ==>
         rows[i].OInstance? && "Item" in rows[i].attrs &&
         DecodeValue(env, e, pivot, "Item", s, ps[i]) == Ok((rows[i].attrs["Item"], ps[i + 1]))
  }

  /**
   * The rows of a list or set hold, in stream order, the elements decoded one
   * after another from where the container's elements start to where `ReadElems`
   * stops.
   */
  lemma {:induction false} ReadElemsDecoded(env: Env, e: ThriftType, pivot: string, n: nat, s: seq<Token>, p: nat)
      returns (ps: seq<nat>)
    requires p <= |s| && ReadElems(env, e, pivot, n, s, p).Ok?
    ensures ItemChain(env, e, pivot, s, ps, ReadElems(env, e, pivot, n, s, p).value.0)
    ensures ps[0] == p && ps[n] == ReadElems(env, e, pivot, n, s, p).value.1
    decreases n
  {
    var rows := ReadElems(env, e, pivot, n, s, p).value.0;
    if n == 0 {
      ps := [p];
      assert ItemChain(env, e, pivot, s, ps, rows);
    } else {
      ReadElemsStep(env, e, pivot, n, s, p);
      var q1 := DecodeValue(env, e, pivot, "Item", s, p).value.1;
      var ps' := ReadElemsDecoded(env, e, pivot, n - 1, s, q1);
      ItemChainStep(env, e, pivot, n, s, p, ps');
      ps := [p] + ps';
    }
  }

  /** One step of `ReadElems`: the first element, then the others. */
  lemma ReadElemsStep(env: Env, e: ThriftType, pivot: string, n: nat, s: seq<Token>, p: nat)
    requires n > 0 && p <= |s| && ReadElems(env, e, pivot, n, s, p).Ok?
    ensures DecodeValue(env, e, pivot, "Item", s, p).Ok?
    ensures var (v, q1) := DecodeValue(env, e, pivot, "Item", s, p).value;
      && ReadElems(env, e, pivot, n - 1, s, q1).Ok?
      && ReadElems(env, e, pivot, n, s, p).value ==
         ([OInstance(pivot, map["Item" := v])] + ReadElems(env, e, pivot, n - 1, s, q1).value.0,
          ReadElems(env, e, pivot, n - 1, s, q1).value.1)
  {
  }

  /** The chain of the first element, extended by the chain of the others. */
  lemma ItemChainStep(env: Env, e: ThriftType, pivot: string, n: nat, s: seq<Token>, p: nat, ps': seq<nat>)
    requires n > 0 && p <= |s| && ReadElems(env, e, pivot, n, s, p).Ok?
    requires DecodeValue(env, e, pivot, "Item", s, p).Ok?
    requires var q1 := DecodeValue(env, e, pivot, "Item", s, p).value.1;
      && ReadElems(env, e, pivot, n - 1, s, q1).Ok?
      && ItemChain(env, e, pivot, s, ps', ReadElems(env, e, pivot, n - 1, s, q1).value.0)
      && ps'[0] == q1 && ps'[n - 1] == ReadElems(env, e, pivot, n - 1, s, q1).value.1
    ensures ItemChain(env, e, pivot, s, [p] + ps', ReadElems(env, e, pivot, n, s, p).value.0)
    ensures ([p] + ps')[0] == p && ([p] + ps')[n] == ReadElems(env, e, pivot, n, s, p).value.1
  {
    ReadElemsStep(env, e, pivot, n, s, p);
    var q1 := DecodeValue(env, e, pivot, "Item", s, p).value.1;
    ItemChainCons(env, e, pivot, s, p, ps', ReadElems(env, e, pivot, n, s, p).value.0,
                  ReadElems(env, e, pivot, n - 1, s, q1).value.0);
  }

  lemma ItemChainCons(env: Env, e: ThriftType, pivot: string, s: seq<Token>, p: nat,
                      ps': seq<nat>, rows: seq<Obj>, tail: seq<Obj>)
    requires p <= |s| && ItemChain(env, e, pivot, s, ps', tail)
    requires |rows| == |tail| + 1 && rows[1..] == tail
    requires rows[0].OInstance? && "Item" in rows[0].attrs
    requires DecodeValue(env, e, pivot, "Item", s, p) == Ok((rows[0].attrs["Item"], ps'[0]))
    ensures ItemChain(env, e, pivot, s, [p] + ps', rows)
  {
    var ps := [p] + ps';
    forall i | 0 <= i < |rows|
      ensures rows[i].OInstance? && "Item" in rows[i].attrs &&
        DecodeValue(env, e, pivot, "Item", s, ps[i]) == Ok((rows[i].attrs["Item"], ps[i + 1]))
    {
      if i > 0 {
        assert rows[i] == tail[i - 1] && ps[i] == ps'[i - 1] && ps[i + 1] == ps'[i];
      }
    }
  }

  /** Reads exactly `n` entries, in stream order, as (key, pivot row) pairs. */
  function ReadEntries(env: Env, k: ThriftType, v: ThriftType, pivot: string, n: nat, s: seq<Token>, p: nat)
    : (r: Result<(seq<(Obj, Obj)>, nat), DecodeError>)
    requires p <= |s|
    ensures r.Ok? ==> p <= r.value.1 <= |s|
    ensures r.Ok? ==> |r.value.0| == n
    ensures r.Ok? ==> forall i :: 0 <= i < n ==> EntryRow(r.value.0[i].0, r.value.0[i].1, pivot)
    ensures r.Ok? ==> forall i :: 0 <= i < n ==> !Unhashable(r.value.0[i].0)
    decreases |s| - p, 2
  {
    if n == 0 then Ok(([], p))
    else
      var (key, q) :- DecodeValue(env, k, pivot, "Key", s, p);
      ReadEntryValue(env, k, v, pivot, key, n, s, q)
  }

  /**
   * Reads the `Value` of the first of `n` entries, whose key is already read,
   * into a fresh pivot row (refusing an unhashable key), then the other entries.
   */
  function ReadEntryValue(env: Env, k: ThriftType, v: ThriftType, pivot: string, key: Obj, n: nat, s: seq<Token>, p: nat)
    : (r: Result<(seq<(Obj, Obj)>, nat), DecodeError>)
    requires n > 0 && p <= |s|
    ensures r.Ok? ==> p < r.value.1 <= |s|
    ensures r.Ok? ==> |r.value.0| == n
    ensures r.Ok? ==> forall i :: 0 <= i < n ==> EntryRow(r.value.0[i].0, r.value.0[i].1, pivot)
    ensures r.Ok? ==> forall i :: 0 <= i < n ==> !Unhashable(r.value.0[i].0)
    decreases |s| - p, 2
  {
    var (val, q) :- DecodeValue(env, v, pivot, "Value", s, p);
    if Unhashable(key) then Err(UnhashableKey)
    else
      var (later, q') :- ReadEntries(env, k, v, pivot, n - 1, s, q);
      Ok(([(key, OInstance(pivot, map["Key" := key, "Value" := val]))] + later, q'))
  }

  /**
   * An entry's row files the key with the value decoded after it; once that
   * value is read, a list, set or dict key is refused, as Python refuses to
   * hash it.
   */
  lemma ReadEntryValueRow(env: Env, k: ThriftType, v: ThriftType, pivot: string, key: Obj, n: nat, s: seq<Token>, p: nat)
    requires n > 0 && p <= |s|
    ensures var r := ReadEntryValue(env, k, v, pivot, key, n, s, p);
      Unhashable(key) && DecodeValue(env, v, pivot, "Value", s, p).Ok? ==> r == Err(UnhashableKey)
    ensures var r := ReadEntryValue(env, k, v, pivot, key, n, s, p);
      r.Ok? ==>
        DecodeValue(env, v, pivot, "Value", s, p).Ok? &&
        r.value.0[0] == (key, OInstance(pivot, map["Key" := key, "Value" := DecodeValue(env, v, pivot, "Value", s, p).value.0]))
  {
  }

  /**
   * `ks` and `vs` cut the stream into the runs of `entries`' keys and values:
   * for each `i`, the key decoded at `ks[i]` is entry `i`'s key and ends at
   * `vs[i]`, and the value decoded there is its row's `Value` and ends at `ks[i + 1]`.
   */
  predicate EntryChain(env: Env, k: ThriftType, v: ThriftType, pivot: string, s: seq<Token>,
                       ks: seq<nat>, vs: seq<nat>, entries: seq<(Obj, Obj)>) {
    && |ks| == |entries| + 1 && |vs| == |entries|
    && (forall i :: 0 <= i < |ks| ==> ks[i] <= |s|)
    && (forall i :: 0 <= i < |vs| ==> vs[i] <= |s|)
    && forall i :: 0 <= i < |entries| ==>
         entries[i].1.OInstance? && "Value" in entries[i].1.attrs &&
         DecodeValue(env, k, pivot, "Key", s, ks[i]) == Ok((entries[i].0, vs[i])) &&
         DecodeValue(env, v, pivot, "Value", s, vs[i]) == Ok((entries[i].1.attrs["Value"], ks[i + 1]))
  }

  /**
   * The entries of a map are, in stream order, the keys and values decoded
   * alternately from where the map's entries start to where `ReadEntries` stops.
   */
  lemma {:induction false} ReadEntriesDecoded(env: Env, k: ThriftType, v: ThriftType, pivot: string, n: nat, s: seq<Token>, p: nat)
      returns (ks: seq<nat>, vs: seq<nat>)
    requires p <= |s| && ReadEntries(env, k, v, pivot, n, s, p).Ok?
    ensures EntryChain(env, k, v, pivot, s, ks, vs, ReadEntries(env, k, v, pivot, n, s, p).value.0)
    ensures ks[0] == p && ks[n] == ReadEntries(env, k, v, pivot, n, s, p).value.1
    decreases n
  {
    var entries := ReadEntries(env, k, v, pivot, n, s, p).value.0;
    if n == 0 {
      ks, vs := [p], [];
      assert EntryChain(env, k, v, pivot, s, ks, vs, entries);
    } else {
      ReadEntriesStep(env, k, v, pivot, n, s, p);
      var q1 := DecodeValue(env, k, pivot, "Key", s, p).value.1;
      var q2 := DecodeValue(env, v, pivot, "Value", s, q1).value.1;
      var ks', vs' := ReadEntriesDecoded(env, k, v, pivot, n - 1, s, q2);
      EntryChainStep(env, k, v, pivot, n, s, p, ks', vs');
      ks, vs := [p] + ks', [q1] + vs';
    }
  }

  /** One step of `ReadEntries`: the first key, then its value, then the other entries. */
  lemma ReadEntriesStep(env: Env, k: ThriftType, v: ThriftType, pivot: string, n: nat, s: seq<Token>, p: nat)
    requires n > 0 && p <= |s| && ReadEntries(env, k, v, pivot, n, s, p).Ok?
    ensures DecodeValue(env, k, pivot, "Key", s, p).Ok?
    ensures var (key, q1) := DecodeValue(env, k, pivot, "Key", s, p).value;
      && DecodeValue(env, v, pivot, "Value", s, q1).Ok?
      && var (val, q2) := DecodeValue(env, v, pivot, "Value", s, q1).value;
      && ReadEntries(env, k, v, pivot, n - 1, s, q2).Ok?
      && ReadEntries(env, k, v, pivot, n, s, p).value ==
         ([(key, OInstance(pivot, map["Key" := key, "Value" := val]))] + ReadEntries(env, k, v, pivot, n - 1, s, q2).value.0,
          ReadEntries(env, k, v, pivot, n - 1, s, q2).value.1)
  {
    var (key, q1) := DecodeValue(env, k, pivot, "Key", s, p).value;
    assert ReadEntries(env, k, v, pivot, n, s, p) == ReadEntryValue(env, k, v, pivot, key, n, s, q1);
  }

  /** The chain of the first entry, extended by the chain of the others. */
  lemma EntryChainStep(env: Env, k: ThriftType, v: ThriftType, pivot: string, n: nat, s: seq<Token>, p: nat,
                       ks': seq<nat>, vs': seq<nat>)
    requires n > 0 && p <= |s| && ReadEntries(env, k, v, pivot, n, s, p).Ok?
    requires DecodeValue(env, k, pivot, "Key", s, p).Ok?
    requires var q1 := DecodeValue(env, k, pivot, "Key", s, p).value.1;
      && DecodeValue(env, v, pivot, "Value", s, q1).Ok?
      && var q2 := DecodeValue(env, v, pivot, "Value", s, q1).value.1;
      && ReadEntries(env, k, v, pivot, n - 1, s, q2).Ok?
      && EntryChain(env, k, v, pivot, s, ks', vs', ReadEntries(env, k, v, pivot, n - 1, s, q2).value.0)
      && ks'[0] == q2 && ks'[n - 1] == ReadEntries(env, k, v, pivot, n - 1, s, q2).value.1
    ensures var q1 := DecodeValue(env, k, pivot, "Key", s, p).value.1;
      EntryChain(env, k, v, pivot, s, [p] + ks', [q1] + vs', ReadEntries(env, k, v, pivot, n, s, p).value.0)
    ensures ([p] + ks')[0] == p && ([p] + ks')[n] == ReadEntries(env, k, v, pivot, n, s, p).value.1
  {
    ReadEntriesStep(env, k, v, pivot, n, s, p);
    var q1 := DecodeValue(env, k, pivot, "Key", s, p).value.1;
    var q2 := DecodeValue(env, v, pivot, "Value", s, q1).value.1;
    EntryChainCons(env, k, v, pivot, s, p, q1, ks', vs', ReadEntries(env, k, v, pivot, n, s, p).value.0,
                   ReadEntries(env, k, v, pivot, n - 1, s, q2).value.0);
  }

  lemma EntryChainCons(env: Env, k: ThriftType, v: ThriftType, pivot: string, s: seq<Token>, p: nat, q1: nat,
                       ks': seq<nat>, vs': seq<nat>, entries: seq<(Obj, Obj)>, tail: seq<(Obj, Obj)>)
    requires p <= |s| && q1 <= |s| && EntryChain(env, k, v, pivot, s, ks', vs', tail)
    requires |entries| == |tail| + 1 && entries[1..] == tail
    requires entries[0].1.OInstance? && "Value" in entries[0].1.attrs
    requires DecodeValue(env, k, pivot, "Key", s, p) == Ok((entries[0].0, q1))
    requires DecodeValue(env, v, pivot, "Value", s, q1) == Ok((entries[0].1.attrs["Value"], ks'[0]))
    ensures EntryChain(env, k, v, pivot, s, [p] + ks', [q1] + vs', entries)
  {
    var ks := [p] + ks';
    var vs := [q1] + vs';
    forall i | 0 <= i < |entries|
      ensures entries[i].1.OInstance? && "Value" in entries[i].1.attrs &&
        DecodeValue(env, k, pivot, "Key", s, ks[i]) == Ok((entries[i].0, vs[i])) &&
        DecodeValue(env, v, pivot, "Value", s, vs[i]) == Ok((entries[i].1.attrs["Value"], ks[i + 1]))
    {
      if i > 0 {
        assert entries[i] == tail[i - 1] && ks[i] == ks'[i - 1] && vs[i] == vs'[i - 1] && ks[i + 1] == ks'[i];
      }
    }
  }

  /**
   * `prefix[_elem.Key] = _elem` for every entry in stream order: each row is
   * filed under its key, and a later entry with an equal key replaces an
   * earlier one.
   */
  function FileByKey(entries: seq<(Obj, Obj)>): map<Obj, Obj> {
    if |entries| == 0 then map[]
    else FileByKey(entries[..|entries| - 1])[entries[|entries| - 1].0 := entries[|entries| - 1].1]
  }

  /** The dict holds exactly the keys read. */
  lemma {:induction false} FileByKeyKeys(entries: seq<(Obj, Obj)>)
    ensures FileByKey(entries).Keys == set i | 0 <= i < |entries| :: entries[i].0
  {
    if |entries| > 0 {
      var init := entries[..|entries| - 1];
      FileByKeyKeys(init);
      assert forall i :: 0 <= i < |init| ==> init[i] == entries[i];
    }
  }

  /** Each key maps to the last row read with that key. */
  lemma {:induction false} FileByKeyLastWins(entries: seq<(Obj, Obj)>, i: int)
    requires 0 <= i < |entries| && LastWithKey(entries, entries[i].0, i)
    ensures entries[i].0 in FileByKey(entries) && FileByKey(entries)[entries[i].0] == entries[i].1
  {
    var last := |entries| - 1;
    if i < last {
      var init := entries[..last];
      assert init[i] == entries[i];
      forall j | i < j < |init| ensures init[j].0 != init[i].0 {
        assert init[j] == entries[j];
      }
      FileByKeyLastWins(init, i);
      assert entries[last].0 != entries[i].0;
    }
  }

  /** Entry `i` has key `key` and no later entry does. */
  predicate LastWithKey(entries: seq<(Obj, Obj)>, key: Obj, i: int) {
    0 <= i < |entries| && entries[i].0 == key &&
    forall j :: i < j < |entries| ==> entries[j].0 != key
  }

  /**
   * The value of one field header: decoded into the member when the id
   * names a member and the tag is that member's wire tag (the new attribute
   * is returned), skipped otherwise (`None`).
   */
  function ReadFieldValue(env: Env, cls: string, fields: seq<Field>, id: int, tag: Tag, s: seq<Token>, p: nat)
    : (r: Result<(Option<(string, Obj)>, nat), DecodeError>)
    requires p <= |s|
    ensures r.Ok? ==> p < r.value.1 <= |s|
    ensures r.Ok? && r.value.0.Some? ==> r.value.0.value.0 in FieldNames(fields)
    decreases |s| - p, 2
  {
    var f := FieldById(fields, id);
    if f.Some? && WireTag(f.value.ftype) == Ok(tag) then
      var (v, q) :- DecodeValue(env, f.value.ftype, cls, f.value.name, s, p);
      assert f.value.name in FieldNames(fields) by {
        var i :| 0 <= i < |fields| && fields[i] == f.value;
      }
      Ok((Some((f.value.name, v)), q))
    else
      var q :- Skip(tag, s, p);
      Ok((None, q))
  }

  /**
   * The dispatch of one field header: only a header whose id names a member
   * and whose tag is that member's wire tag sets an attribute, the member's
   * own, to the value decoded for that member; any other header's value is
   * skipped, and sets nothing.
   */
  lemma ReadFieldValueDispatch(env: Env, cls: string, fields: seq<Field>, id: int, tag: Tag, s: seq<Token>, p: nat)
    requires p <= |s|
    ensures var r := ReadFieldValue(env, cls, fields, id, tag, s, p);
      var f := FieldById(fields, id);
      f.Some? && WireTag(f.value.ftype) == Ok(tag) ==>
        var d := DecodeValue(env, f.value.ftype, cls, f.value.name, s, p);
        (r.Ok? <==> d.Ok?) && (r.Ok? ==> r.value == (Some((f.value.name, d.value.0)), d.value.1))
    ensures var r := ReadFieldValue(env, cls, fields, id, tag, s, p);
      r.Ok? && r.value.0.Some? ==>
        FieldById(fields, id).Some? && WireTag(FieldById(fields, id).value.ftype) == Ok(tag) &&
        r.value.0.value.0 == FieldById(fields, id).value.name
    ensures var r := ReadFieldValue(env, cls, fields, id, tag, s, p);
      FieldById(fields, id).None? || WireTag(FieldById(fields, id).value.ftype) != Ok(tag) ==>
        (r.Ok? <==> Skip(tag, s, p).Ok?) && (r.Ok? ==> r.value == (None, Skip(tag, s, p).value))
  {
  }

  function SetAttr(attrs: map<string, Obj>, update: Option<(string, Obj)>): map<string, Obj> {
    if update.Some? then attrs[update.value.0 := update.value.1] else attrs
  }

  /**
   * The field loop of the generated `read`: reads field headers until STOP,
   * handling each header's value by `ReadFieldValue`.
   */
  function ReadFields(env: Env, cls: string, fields: seq<Field>, attrs: map<string, Obj>, s: seq<Token>, p: nat)
    : (r: Result<(Obj, nat), DecodeError>)
    requires p <= |s|
    ensures r.Ok? ==> p < r.value.1 <= |s| && s[r.value.1 - 1] == FieldStop
    ensures r.Ok? ==> r.value.0.OInstance? && r.value.0.cls == cls
    ensures r.Ok? ==> attrs.Keys <= r.value.0.attrs.Keys <= attrs.Keys + FieldNames(fields)
    decreases |s| - p, 0
  {
    if p == |s| then Err(EndOfStream)
    else
      match s[p]
      case FieldStop => Ok((OInstance(cls, attrs), p + 1))
      case FieldHeader(id, tag) =>
        var (update, q) :- ReadFieldValue(env, cls, fields, id, tag, s, p + 1);
        ReadFields(env, cls, fields, SetAttr(attrs, update), s, q)
      case _ => Err(UnexpectedToken(s[p]))
  }

  /**
   * Attribute `k` gets the value `v` from the field header at `j`: the header
   * names the member called `k` with that member's wire tag, and decoding the
   * member's type right after the header gives `v`.
   */
  predicate DecodedAt(env: Env, cls: string, fields: seq<Field>, s: seq<Token>, j: int, k: string, v: Obj) {
    && 0 <= j < |s|
    && s[j].FieldHeader?
    && FieldById(fields, s[j].id).Some?
    && FieldById(fields, s[j].id).value.name == k
    && WireTag(FieldById(fields, s[j].id).value.ftype) == Ok(s[j].tag)
    && DecodeValue(env, FieldById(fields, s[j].id).value.ftype, cls, k, s, j + 1).Ok?
    && DecodeValue(env, FieldById(fields, s[j].id).value.ftype, cls, k, s, j + 1).value.0 == v
  }

  /** Header `t` names a member and carries that member's wire tag, so its value is decoded into the member. */
  predicate Dispatched(fields: seq<Field>, t: Token) {
    t.FieldHeader? && FieldById(fields, t.id).Some? && WireTag(FieldById(fields, t.id).value.ftype) == Ok(t.tag)
  }

  /** The attributes after the updates `us` are applied in order. */
  function Applied(attrs: map<string, Obj>, us: seq<Option<(string, Obj)>>): map<string, Obj>
    decreases |us|
  {
    if |us| == 0 then attrs else Applied(SetAttr(attrs, us[0]), us[1..])
  }

  /** The index of the last update in `us` that sets `k`, or -1 when none does. */
  function LastSet(us: seq<Option<(string, Obj)>>, k: string): (r: int)
    ensures -1 <= r < |us|
    ensures r >= 0 ==> us[r].Some? && us[r].value.0 == k
    ensures forall j :: r < j < |us| ==> !(us[j].Some? && us[j].value.0 == k)
    decreases |us|
  {
    if |us| == 0 then -1
    else
      var t := LastSet(us[1..], k);
      assert forall j :: 1 <= j < |us| ==> us[j] == us[1..][j - 1];
      if t >= 0 then t + 1
      else if us[0].Some? && us[0].value.0 == k then 0
      else -1
  }

  /**
   * Applying updates in order: a name some update sets ends with the value
   * of the last such update, and any other name keeps its starting value or
   * stays absent.
   */
  lemma {:induction false} AppliedValue(attrs: map<string, Obj>, us: seq<Option<(string, Obj)>>, k: string)
    ensures LastSet(us, k) >= 0 ==> k in Applied(attrs, us) && Applied(attrs, us)[k] == us[LastSet(us, k)].value.1
    ensures LastSet(us, k) < 0 ==>
      (k in Applied(attrs, us) <==> k in attrs) && (k in attrs ==> Applied(attrs, us)[k] == attrs[k])
    decreases |us|
  {
    if |us| > 0 {
      AppliedValue(SetAttr(attrs, us[0]), us[1..], k);
    }
  }

  /**
   * `hs` are the positions of the headers the field loop dispatches, in
   * order, the last being its STOP marker, and `us` the update each header
   * makes. The value after header `i` is handled by `ReadFieldValue` and
   * ends right before header `i + 1`. A header naming a member with that
   * member's wire tag sets the member to the value decoded for it, and any
   * other header sets nothing.
   */
  predicate FieldChain(env: Env, cls: string, fields: seq<Field>, s: seq<Token>,
                       hs: seq<nat>, us: seq<Option<(string, Obj)>>) {
    && |hs| == |us| + 1
    && (forall i :: 0 <= i < |hs| ==> hs[i] < |s|)
    && s[hs[|us|]] == FieldStop
    && forall i :: 0 <= i < |us| ==>
         && s[hs[i]].FieldHeader?
         && ReadFieldValue(env, cls, fields, s[hs[i]].id, s[hs[i]].tag, s, hs[i] + 1) == Ok((us[i], hs[i + 1]))
         && (us[i].Some? <==> Dispatched(fields, s[hs[i]]))
         && (us[i].Some? ==> DecodedAt(env, cls, fields, s, hs[i], us[i].value.0, us[i].value.1))
  }

  /**
   * The field loop walks a chain of top-level headers from `p` to its STOP
   * marker, and the instance it yields holds the starting attributes with
   * every header's update applied in stream order.
   */
  lemma {:induction false} ReadFieldsChain(env: Env, cls: string, fields: seq<Field>, attrs: map<string, Obj>, s: seq<Token>, p: nat)
      returns (hs: seq<nat>, us: seq<Option<(string, Obj)>>)
    requires p <= |s| && ReadFields(env, cls, fields, attrs, s, p).Ok?
    ensures FieldChain(env, cls, fields, s, hs, us)
    ensures hs[0] == p && hs[|us|] + 1 == ReadFields(env, cls, fields, attrs, s, p).value.1
    ensures ReadFields(env, cls, fields, attrs, s, p).value.0 == OInstance(cls, Applied(attrs, us))
    decreases |s| - p
  {
    match s[p]
    case FieldStop =>
      hs, us := [p], [];
    case FieldHeader(id, tag) =>
      var (update, q) := ReadFieldValue(env, cls, fields, id, tag, s, p + 1).value;
      FieldValueUpdate(env, cls, fields, s, p);
      var hs', us' := ReadFieldsChain(env, cls, fields, SetAttr(attrs, update), s, q);
      FieldChainCons(env, cls, fields, s, p, update, hs', us');
      hs, us := [p] + hs', [update] + us';
      assert us[1..] == us';
  }

  /** The update of one header: a member is set exactly when the header is dispatched, to its decoded value. */
  lemma FieldValueUpdate(env: Env, cls: string, fields: seq<Field>, s: seq<Token>, p: nat)
    requires p < |s| && s[p].FieldHeader?
    requires ReadFieldValue(env, cls, fields, s[p].id, s[p].tag, s, p + 1).Ok?
    ensures var u := ReadFieldValue(env, cls, fields, s[p].id, s[p].tag, s, p + 1).value.0;
      && (u.Some? <==> Dispatched(fields, s[p]))
      && (u.Some? ==> DecodedAt(env, cls, fields, s, p, u.value.0, u.value.1))
  {
    ReadFieldValueDispatch(env, cls, fields, s[p].id, s[p].tag, s, p + 1);
  }

  lemma FieldChainCons(env: Env, cls: string, fields: seq<Field>, s: seq<Token>, p: nat,
                       u: Option<(string, Obj)>, hs': seq<nat>, us': seq<Option<(string, Obj)>>)
    requires p < |s| && s[p].FieldHeader? && FieldChain(env, cls, fields, s, hs', us')
    requires ReadFieldValue(env, cls, fields, s[p].id, s[p].tag, s, p + 1) == Ok((u, hs'[0]))
    requires u.Some? <==> Dispatched(fields, s[p])
    requires u.Some? ==> DecodedAt(env, cls, fields, s, p, u.value.0, u.value.1)
    ensures FieldChain(env, cls, fields, s, [p] + hs', [u] + us')
  {
    var hs, us := [p] + hs', [u] + us';
    forall i | 0 <= i < |us|
      ensures && s[hs[i]].FieldHeader?
              && ReadFieldValue(env, cls, fields, s[hs[i]].id, s[hs[i]].tag, s, hs[i] + 1) == Ok((us[i], hs[i + 1]))
              && (us[i].Some? <==> Dispatched(fields, s[hs[i]]))
              && (us[i].Some? ==> DecodedAt(env, cls, fields, s, hs[i], us[i].value.0, us[i].value.1))
    {
      if i > 0 {
        assert us[i] == us'[i - 1] && hs[i] == hs'[i - 1] && hs[i + 1] == hs'[i];
      }
    }
    assert hs[|us|] == hs'[|us'|];
  }

  /**
   * What `read` sets on a fresh instance, along the chain of top-level
   * headers it dispatches: a member is set exactly when some header naming
   * it with its wire tag arrives, and it holds the value decoded right after
   * the last such header.
   */
  lemma ReadAttrsDecoded(env: Env, name: string, s: seq<Token>) returns (hs: seq<nat>, us: seq<Option<(string, Obj)>>)
    requires Read(env, name, s).Ok?
    ensures FieldChain(env, name, env[name].fields, s, hs, us)
    ensures hs[0] == 0 && hs[|us|] + 1 == Read(env, name, s).value.1
    ensures forall k :: k in Read(env, name, s).value.0.attrs <==> LastSet(us, k) >= 0
    ensures forall k :: k in Read(env, name, s).value.0.attrs ==>
      DecodedAt(env, name, env[name].fields, s, hs[LastSet(us, k)], k, Read(env, name, s).value.0.attrs[k])
  {
    hs, us := ReadFieldsChain(env, name, env[name].fields, map[], s, 0);
    var o := Read(env, name, s).value.0;
    assert o.attrs == Applied(map[], us);
    forall k
      ensures (k in o.attrs <==> LastSet(us, k) >= 0)
      ensures k in o.attrs ==> DecodedAt(env, name, env[name].fields, s, hs[LastSet(us, k)], k, o.attrs[k])
    {
      AppliedValue(map[], us, k);
    }
  }

  /**
   * Generation succeeds for every class. A class's reader is emitted only
   * after a column was derived for each of its members, and that derivation
   * aborts on void and on an exception type, at any depth.
   */
  predicate Generated(env: Env) {
    forall n :: n in env ==> AllMappable(env[n].fields)
  }

  /**
   * `StructName().read(iprot)` on a fresh instance, from the start of the
   * stream: the object with the attributes the stream sets, and the number
   * of tokens consumed, the last of which is the STOP marker.
   */
  function Read(env: Env, name: string, s: seq<Token>): (r: Result<(Obj, nat), DecodeError>)
    ensures !Generated(env) ==> r == Err(NotGenerated)
    ensures r.Ok? ==> name in env && r.value.0.OInstance? && r.value.0.cls == name
    ensures r.Ok? ==> r.value.0.attrs.Keys <= FieldNames(env[name].fields)
    ensures r.Ok? ==> 0 < r.value.1 <= |s| && s[r.value.1 - 1] == FieldStop
  {
    if !Generated(env) then Err(NotGenerated)
    else if name !in env then Err(UnknownStruct(name))
    else ReadFields(env, name, env[name].fields, map[], s, 0)
  }

  // ---------------------------------------------------------------------
  // decoding and skipping agree on where a value ends
  // ---------------------------------------------------------------------

  /**
   * Whenever the protocol's skip of a value and the generated decoding of a
   * value both succeed at the same position, they stop at the same position:
   * skipping an unknown or mistyped field never desynchronises the reader,
   * through any nesting of structs and containers.
   */
  lemma {:induction false} SkipAgreesWithDecode(env: Env, tag: Tag, t: ThriftType, owner: string, attr: string, s: seq<Token>, p: nat)
    requires p <= |s|
    requires Skip(tag, s, p).Ok? && DecodeValue(env, t, owner, attr, s, p).Ok?
    ensures Skip(tag, s, p).value == DecodeValue(env, t, owner, attr, s, p).value.1
    decreases |s| - p, 1
  {
    match TrueType(t)
    case TStruct(n) =>
      if tag == STRUCT {
        FieldsAgree(env, n, env[n].fields, map[], s, p);
      }
    case TException(n) =>
      if tag == STRUCT {
        FieldsAgree(env, n, env[n].fields, map[], s, p);
      }
    case TList(_, _) =>
      ContainerAgrees(env, tag, TrueType(t), PivotName(owner, attr), s, p);
    case TSet(_, _) =>
      ContainerAgrees(env, tag, TrueType(t), PivotName(owner, attr), s, p);
    case TMap(_, _, _) =>
      ContainerAgrees(env, tag, TrueType(t), PivotName(owner, attr), s, p);
    case _ =>
  }

  lemma {:induction false} ContainerAgrees(env: Env, tag: Tag, t: ThriftType, pivot: string, s: seq<Token>, p: nat)
    requires IsContainer(t) && p <= |s|
    requires Skip(tag, s, p).Ok? && DecodeContainer(env, t, pivot, s, p).Ok?
    ensures Skip(tag, s, p).value == DecodeContainer(env, t, pivot, s, p).value.1
    decreases |s| - p, 0
  {
    match t
    case TList(e, _) =>
      if tag == LIST {
        ElemsAgree(env, s[p].elemTag, e, pivot, s[p].size, s, p + 1);
      }
    case TSet(e, _) =>
      if tag == SET {
        ElemsAgree(env, s[p].elemTag, e, pivot, s[p].size, s, p + 1);
      }
    case TMap(k, v, _) =>
      if tag == MAP {
        EntriesAgree(env, s[p].keyTag, s[p].valTag, k, v, pivot, s[p].size, s, p + 1);
      }
  }

  lemma {:induction false} FieldsAgree(env: Env, cls: string, fields: seq<Field>, attrs: map<string, Obj>, s: seq<Token>, p: nat)
    requires p <= |s|
    requires SkipFields(s, p).Ok? && ReadFields(env, cls, fields, attrs, s, p).Ok?
    ensures SkipFields(s, p).value == ReadFields(env, cls, fields, attrs, s, p).value.1
    decreases |s| - p, 0
  {
    match s[p]
    case FieldStop =>
    case FieldHeader(id, tag) =>
      var (update, q) := ReadFieldValue(env, cls, fields, id, tag, s, p + 1).value;
      FieldValueAgrees(env, cls, fields, id, tag, s, p + 1);
      FieldsAgree(env, cls, fields, SetAttr(attrs, update), s, q);
  }

  lemma {:induction false} FieldValueAgrees(env: Env, cls: string, fields: seq<Field>, id: int, tag: Tag, s: seq<Token>, p: nat)
    requires p <= |s|
    requires Skip(tag, s, p).Ok? && ReadFieldValue(env, cls, fields, id, tag, s, p).Ok?
    ensures Skip(tag, s, p).value == ReadFieldValue(env, cls, fields, id, tag, s, p).value.1
    decreases |s| - p, 2
  {
    var f := FieldById(fields, id);
    if f.Some? && WireTag(f.value.ftype) == Ok(tag) {
      SkipAgreesWithDecode(env, tag, f.value.ftype, cls, f.value.name, s, p);
    }
  }

  lemma {:induction false} ElemsAgree(env: Env, tag: Tag, e: ThriftType, pivot: string, n: nat, s: seq<Token>, p: nat)
    requires p <= |s|
    requires SkipElems(tag, n, s, p).Ok? && ReadElems(env, e, pivot, n, s, p).Ok?
    ensures SkipElems(tag, n, s, p).value == ReadElems(env, e, pivot, n, s, p).value.1
    decreases |s| - p, 2
  {
    if n > 0 {
      SkipAgreesWithDecode(env, tag, e, pivot, "Item", s, p);
      ElemsAgree(env, tag, e, pivot, n - 1, s, Skip(tag, s, p).value);
    }
  }

  lemma {:induction false} EntriesAgree(env: Env, kTag: Tag, vTag: Tag, k: ThriftType, v: ThriftType, pivot: string, n: nat, s: seq<Token>, p: nat)
    requires p <= |s|
    requires SkipEntries(kTag, vTag, n, s, p).Ok? && ReadEntries(env, k, v, pivot, n, s, p).Ok?
    ensures SkipEntries(kTag, vTag, n, s, p).value == ReadEntries(env, k, v, pivot, n, s, p).value.1
    decreases |s| - p, 2
  {
    if n > 0 {
      var (key, q) := DecodeValue(env, k, pivot, "Key", s, p).value;
      SkipAgreesWithDecode(env, kTag, k, pivot, "Key", s, p);
      EntryValueParts(env, kTag, vTag, k, v, pivot, key, n, s, q);
      SkipAgreesWithDecode(env, vTag, v, pivot, "Value", s, q);
      EntryValueAgrees(env, kTag, vTag, k, v, pivot, key, n, s, q);
    }
  }

  lemma {:induction false} EntryValueAgrees(env: Env, kTag: Tag, vTag: Tag, k: ThriftType, v: ThriftType, pivot: string, key: Obj, n: nat, s: seq<Token>, p: nat)
    requires n > 0 && p <= |s|
    requires SkipEntryValue(kTag, vTag, n, s, p).Ok? && ReadEntryValue(env, k, v, pivot, key, n, s, p).Ok?
    requires Skip(vTag, s, p).Ok? && DecodeValue(env, v, pivot, "Value", s, p).Ok?
    requires Skip(vTag, s, p).value == DecodeValue(env, v, pivot, "Value", s, p).value.1
    ensures SkipEntryValue(kTag, vTag, n, s, p).value == ReadEntryValue(env, k, v, pivot, key, n, s, p).value.1
    decreases |s| - p, 2
  {
    var q := DecodeValue(env, v, pivot, "Value", s, p).value.1;
    EntryValueHandoff(env, kTag, vTag, k, v, pivot, key, n, s, p, q);
    EntriesAgree(env, kTag, vTag, k, v, pivot, n - 1, s, q);
  }

  /** Both the skip and the read of an entry's value start with one value of the value type. */
  lemma EntryValueParts(env: Env, kTag: Tag, vTag: Tag, k: ThriftType, v: ThriftType, pivot: string, key: Obj, n: nat, s: seq<Token>, p: nat)
    requires n > 0 && p <= |s|
    requires SkipEntryValue(kTag, vTag, n, s, p).Ok? && ReadEntryValue(env, k, v, pivot, key, n, s, p).Ok?
    ensures Skip(vTag, s, p).Ok? && DecodeValue(env, v, pivot, "Value", s, p).Ok?
  {
  }

  /**
   * Once the entry's value is skipped and read to the same place `q`, both
   * go on with the other entries from `q`.
   */
  lemma EntryValueHandoff(env: Env, kTag: Tag, vTag: Tag, k: ThriftType, v: ThriftType, pivot: string, key: Obj, n: nat, s: seq<Token>, p: nat, q: nat)
    requires n > 0 && p <= |s|
    requires SkipEntryValue(kTag, vTag, n, s, p).Ok? && ReadEntryValue(env, k, v, pivot, key, n, s, p).Ok?
    requires Skip(vTag, s, p).Ok? && DecodeValue(env, v, pivot, "Value", s, p).Ok?
    requires Skip(vTag, s, p).value == DecodeValue(env, v, pivot, "Value", s, p).value.1
    requires q == DecodeValue(env, v, pivot, "Value", s, p).value.1
    ensures p < q <= |s|
    ensures SkipEntries(kTag, vTag, n - 1, s, q).Ok? && ReadEntries(env, k, v, pivot, n - 1, s, q).Ok?
    ensures SkipEntryValue(kTag, vTag, n, s, p).value == SkipEntries(kTag, vTag, n - 1, s, q).value
    ensures ReadEntryValue(env, k, v, pivot, key, n, s, p).value.1 == ReadEntries(env, k, v, pivot, n - 1, s, q).value.1
  {
  }

  // ---------------------------------------------------------------------
  // decoded containers are rows of the schema's pivot tables
  // ---------------------------------------------------------------------

  /** Every element of a decoded list or set, and every entry of a decoded dict, is a row of `pivot`. */
  predicate RowsIn(v: Obj, pivot: string) {
    match v
    case OList(items) => forall i :: 0 <= i < |items| ==> ItemRow(items[i], pivot)
    case OSet(bag) => forall x :: x in bag ==> ItemRow(x, pivot)
    case ODict(entries) => forall k :: k in entries ==> EntryRow(k, entries[k], pivot)
    case _ => false
  }

  /** Filing rows by key keeps each row under the key it carries. */
  lemma {:induction false} FileByKeyRows(entries: seq<(Obj, Obj)>, pivot: string)
    requires forall i :: 0 <= i < |entries| ==> EntryRow(entries[i].0, entries[i].1, pivot)
    ensures forall k :: k in FileByKey(entries) ==> EntryRow(k, FileByKey(entries)[k], pivot)
    decreases |entries|
  {
    if |entries| > 0 {
      var init := entries[..|entries| - 1];
      assert forall i :: 0 <= i < |init| ==> init[i] == entries[i];
      FileByKeyRows(init, pivot);
    }
  }

  lemma DecodeContainerRows(env: Env, t: ThriftType, pivot: string, s: seq<Token>, p: nat)
    requires IsContainer(t) && p <= |s|
    requires DecodeContainer(env, t, pivot, s, p).Ok?
    ensures RowsIn(DecodeContainer(env, t, pivot, s, p).value.0, pivot)
  {
    match t
    case TList(e, _) =>
    case TSet(e, _) =>
      var rows := ReadElems(env, e, pivot, s[p].size, s, p + 1).value.0;
      forall x | x in multiset(rows) ensures ItemRow(x, pivot) {
        assert x in rows;
      }
    case TMap(k, v, _) =>
      var entries := ReadEntries(env, k, v, pivot, s[p].size, s, p + 1).value.0;
      FileByKeyRows(entries, pivot);
  }

  /**
   * A decoded list, set or map field of an object of class `owner` consists
   * of rows of the pivot table named for `owner` and the attribute.
   */
  lemma ContainerRowsUsePivot(env: Env, t: ThriftType, owner: string, attr: string, s: seq<Token>, p: nat)
    requires p <= |s| && IsContainer(TrueType(t))
    requires DecodeValue(env, t, owner, attr, s, p).Ok?
    ensures RowsIn(DecodeValue(env, t, owner, attr, s, p).value.0, PivotName(owner, attr))
  {
    assert DecodeValue(env, t, owner, attr, s, p) == DecodeContainer(env, TrueType(t), PivotName(owner, attr), s, p);
    DecodeContainerRows(env, TrueType(t), PivotName(owner, attr), s, p);
  }

  /**
   * The reader and the schema agree: the rows the generated `read` builds
   * for a container member are instances of exactly the pivot table the
   * struct's table registers for that member.
   */
  lemma ReadRowsMatchSchema(env: Env, sd: StructDef, i: int, s: seq<Token>, p: nat)
    requires 0 <= i < |sd.fields| && AllMappable(sd.fields)
    requires IsContainer(TrueType(sd.fields[i].ftype)) && p <= |s|
    ensures SqlTables(sd).Ok? && sd.fields[i].name in SqlTables(sd).value[0].pivots
    ensures DecodeValue(env, sd.fields[i].ftype, sd.name, sd.fields[i].name, s, p).Ok? ==>
      RowsIn(DecodeValue(env, sd.fields[i].ftype, sd.name, sd.fields[i].name, s, p).value.0,
             SqlTables(sd).value[0].pivots[sd.fields[i].name])
  {
    assert HasContainerField(sd.fields, sd.fields[i].name);
    if DecodeValue(env, sd.fields[i].ftype, sd.name, sd.fields[i].name, s, p).Ok? {
      ContainerRowsUsePivot(env, sd.fields[i].ftype, sd.name, sd.fields[i].name, s, p);
    }
  }

  // ---------------------------------------------------------------------
  // the validate method the required-field validator generator would emit
  // ---------------------------------------------------------------------

  /**
   * Reading member `f` of an instance gives `None`: it was never set, and it
   * is not a list, set or map. Those are one-to-many relationships of the
   * table, which read as an empty collection when never set.
   */
  predicate ReadsNone(f: Field, attrs: map<string, Obj>) {
    f.name !in attrs && !IsContainer(TrueType(f.ftype))
  }

  /** Member `i` is required and reads as `None`, and no required member before it does. */
  predicate FirstUnset(fields: seq<Field>, attrs: map<string, Obj>, i: int) {
    0 <= i < |fields| && fields[i].req == Required && ReadsNone(fields[i], attrs) &&
    forall j :: 0 <= j < i && fields[j].req == Required ==> !ReadsNone(fields[j], attrs)
  }

  /**
   * `validate()`: the name of the first required member, in declaration
   * order, whose `self.<name> is None` test holds, which it raises as
   * "Required field ... is unset!"; `None` when it returns normally.
   */
  function Validate(fields: seq<Field>, attrs: map<string, Obj>): (r: Option<string>)
    ensures r.None? <==> forall i :: 0 <= i < |fields| && fields[i].req == Required ==> !ReadsNone(fields[i], attrs)
    ensures r.Some? ==> r.value !in attrs
    ensures r.Some? ==> exists i :: FirstUnset(fields, attrs, i) && fields[i].name == r.value
  {
    if |fields| == 0 then None
    else if fields[0].req == Required && ReadsNone(fields[0], attrs) then Some(fields[0].name)
    else
      var r := Validate(fields[1..], attrs);
      if r.Some? then
        var i :| FirstUnset(fields[1..], attrs, i) && fields[1..][i].name == r.value;
        assert fields[i + 1] == fields[1..][i];
        assert forall j :: 1 <= j < i + 1 ==> fields[j] == fields[1..][j - 1];
        assert FirstUnset(fields, attrs, i + 1);
        r
      else
        assert forall i :: 1 <= i < |fields| ==> fields[i] == fields[1..][i - 1];
        r
  }
}
