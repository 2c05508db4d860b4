/**
 * The struct wire-spec assembler (`generate_py_thrift_spec`): the
 * id-indexed `thrift_spec` tuple it would emit for a struct, with `None` for
 * the ids no field declares. No struct's class calls this assembler, so the
 * tuple is modelled on its own.
 */
module SpecTable {
  import opened Wrappers
  import opened ThriftTypes
  import opened WireDescriptor

  /** One `(id, TType.TAG, 'name', spec_args, default, )` row. */
  datatype SpecEntry = SpecEntry(id: int, tag: Tag, name: string, args: SpecArgs, defaultText: Option<string>)

  type Spec = seq<Option<SpecEntry>>

  /**
   * Members as the front end's sorted member list delivers them. With a
   * repeated id the gap-filling loop would count past that id and never stop,
   * so the ids must be strictly ascending.
   */
  predicate StrictlyAscending(fields: seq<Field>) {
    forall i, j :: 0 <= i < j < |fields| ==> fields[i].id < fields[j].id
  }

  /** The spec row of one field; it fails exactly when a void occurs in the field's type. */
  function EntryOf(f: Field): (r: Result<SpecEntry, GenError>)
    ensures r.Ok? <==> VoidFree(f.ftype)
    ensures r.Ok? ==> r.value.id == f.id && r.value.name == f.name && r.value.defaultText == f.defaultText
    ensures r.Ok? ==> ShapeOf(r.value.tag, r.value.args) == Erase(f.ftype)
  {
    var tag :- WireTag(f.ftype);
    var args :- SpecArgsOf(f.ftype);
    DescriptorRoundTrip(f.ftype);
    Ok(SpecEntry(f.id, tag, f.name, args, f.defaultText))
  }

  function Placeholders(n: nat): (r: Spec)
    ensures |r| == n
    ensures forall k :: 0 <= k < n ==> r[k] == None
  {
    seq(n, _ => None)
  }

  /** Every field of `fields` has a void-free type. */
  predicate AllVoidFree(fields: seq<Field>) {
    forall i :: 0 <= i < |fields| ==> VoidFree(fields[i].ftype)
  }

  lemma AllVoidFreeTail(fields: seq<Field>)
    requires |fields| > 0 && AllVoidFree(fields)
    ensures AllVoidFree(fields[1..])
  {
    forall i | 0 <= i < |fields| - 1 ensures VoidFree(fields[1..][i].ftype) {
      assert fields[1..][i] == fields[i + 1];
    }
  }

  lemma AscendingTail(fields: seq<Field>)
    requires |fields| > 0 && StrictlyAscending(fields)
    ensures StrictlyAscending(fields[1..])
    ensures |fields| > 1 ==> fields[0].id < fields[1..][0].id
  {
    var tail := fields[1..];
    forall i, j | 0 <= i < j < |tail| ensures tail[i].id < tail[j].id {
      assert tail[i] == fields[i + 1] && tail[j] == fields[j + 1];
    }
  }

  /**
   * The rows emitted from position `pos` on: placeholders up to each field's
   * id, then its entry. Only a void type can make a row fail, so the rows are
   * laid out for void-free members and the failure is decided once, in
   * `ThriftSpec`.
   */
  function Rows(fields: seq<Field>, pos: int): (r: Spec)
    requires StrictlyAscending(fields)
    requires AllVoidFree(fields)
    requires |fields| > 0 ==> pos <= fields[0].id
    ensures |r| == (if |fields| == 0 then 0 else fields[|fields| - 1].id + 1 - pos)
    decreases |fields|
  {
    if |fields| == 0 then []
    else
      AllVoidFreeTail(fields);
      Placeholders(fields[0].id - pos) + [Some(EntryOf(fields[0]).value)] + Rows(fields[1..], fields[0].id + 1)
  }

  /** True when the spec is laid out by id: the members are empty or start at a non-negative id. */
  predicate Indexable(sorted: seq<Field>) {
    |sorted| == 0 || sorted[0].id >= 0
  }

  /** `max(id) + 1`, the length of the spec tuple of an indexable struct. */
  function SpecLength(sorted: seq<Field>): int {
    if |sorted| == 0 then 0 else sorted[|sorted| - 1].id + 1
  }

  /**
   * `generate_py_thrift_spec`. A struct whose lowest id is negative gets the
   * empty tuple; otherwise the tuple is indexed by field id.
   */
  function ThriftSpec(sorted: seq<Field>): (r: Result<Spec, GenError>)
    requires StrictlyAscending(sorted)
    ensures !Indexable(sorted) ==> r == Ok([])
    ensures Indexable(sorted) ==> (r.Ok? <==> AllVoidFree(sorted))
    ensures Indexable(sorted) && r.Err? ==> r.error == NoVoidConstruct
    ensures r.Ok? && Indexable(sorted) ==> |r.value| == SpecLength(sorted)
  {
    if !Indexable(sorted) then Ok([])
    else if AllVoidFree(sorted) then Ok(Rows(sorted, 0))
    else Err(NoVoidConstruct)
  }

  /** The ids declared by `fields`. */
  function Ids(fields: seq<Field>): set<int> {
    set i | 0 <= i < |fields| :: fields[i].id
  }

  /** Each field of `fields` sits at offset `id - pos` of `rows`. */
  predicate Placed(fields: seq<Field>, pos: int, rows: Spec)
    requires AllVoidFree(fields)
  {
    forall i :: 0 <= i < |fields| ==>
      0 <= fields[i].id - pos < |rows| && rows[fields[i].id - pos] == Some(EntryOf(fields[i]).value)
  }

  /** Every offset of `rows` that no field's id lands on holds a placeholder. */
  predicate GapsEmpty(fields: seq<Field>, pos: int, rows: Spec) {
    forall k :: 0 <= k < |rows| && pos + k !in Ids(fields) ==> rows[k] == None
  }

  /**
   * Rows from `pos` place each field at offset `id - pos`, and every other
   * offset holds a placeholder.
   */
  lemma {:induction false} RowsIndexing(fields: seq<Field>, pos: int)
    requires StrictlyAscending(fields)
    requires |fields| > 0 ==> pos <= fields[0].id
    requires AllVoidFree(fields)
    ensures Placed(fields, pos, Rows(fields, pos))
    ensures GapsEmpty(fields, pos, Rows(fields, pos))
    decreases |fields|
  {
    if |fields| > 0 {
      var f := fields[0];
      var tail := fields[1..];
      AllVoidFreeTail(fields);
      AscendingTail(fields);
      var e := EntryOf(f).value;
      var gap := Placeholders(f.id - pos);
      var rest := Rows(tail, f.id + 1);
      var rows := Rows(fields, pos);
      assert rows == gap + [Some(e)] + rest;
      RowsIndexing(tail, f.id + 1);
      RowsPlaced(fields, pos, gap, e, rest, rows);
      RowsGaps(fields, pos, gap, e, rest, rows);
    }
  }

  lemma RowsPlaced(fields: seq<Field>, pos: int, gap: Spec, e: SpecEntry, rest: Spec, rows: Spec)
    requires StrictlyAscending(fields) && |fields| > 0 && AllVoidFree(fields)
    requires |gap| == fields[0].id - pos && e == EntryOf(fields[0]).value
    requires rows == gap + [Some(e)] + rest
    requires AllVoidFree(fields[1..]) && Placed(fields[1..], fields[0].id + 1, rest)
    ensures Placed(fields, pos, rows)
  {
    var tail := fields[1..];
    forall i | 0 <= i < |fields|
      ensures 0 <= fields[i].id - pos < |rows| && rows[fields[i].id - pos] == Some(EntryOf(fields[i]).value)
    {
      if i > 0 {
        assert fields[i] == tail[i - 1];
        assert rows[fields[i].id - pos] == rest[fields[i].id - (fields[0].id + 1)];
      }
    }
  }

  lemma RowsGaps(fields: seq<Field>, pos: int, gap: Spec, e: SpecEntry, rest: Spec, rows: Spec)
    requires StrictlyAscending(fields) && |fields| > 0
    requires |gap| == fields[0].id - pos && forall k :: 0 <= k < |gap| ==> gap[k] == None
    requires rows == gap + [Some(e)] + rest
    requires GapsEmpty(fields[1..], fields[0].id + 1, rest)
    ensures GapsEmpty(fields, pos, rows)
  {
    var f := fields[0];
    var tail := fields[1..];
    forall k | 0 <= k < |rows| && pos + k !in Ids(fields)
      ensures rows[k] == None
    {
      assert f.id in Ids(fields);
      if k > f.id - pos {
        var j := k - (f.id - pos) - 1;
        assert rows[k] == rest[j];
      }
    }
  }

  /**
   * The spec tuple of an indexable struct is a direct lookup table: position
   * `k` holds the entry of the field whose id is `k`, and exactly the
   * undeclared positions below `max(id) + 1` hold `None`.
   */
  lemma SpecIndexedById(sorted: seq<Field>)
    requires StrictlyAscending(sorted)
    requires Indexable(sorted)
    requires AllVoidFree(sorted)
    ensures ThriftSpec(sorted).Ok?
    ensures forall i :: 0 <= i < |sorted| ==>
      0 <= sorted[i].id < |ThriftSpec(sorted).value| &&
      ThriftSpec(sorted).value[sorted[i].id] == Some(EntryOf(sorted[i]).value)
    ensures forall k :: 0 <= k < |ThriftSpec(sorted).value| ==>
      (ThriftSpec(sorted).value[k] == None <==> k !in Ids(sorted))
  {
    RowsIndexing(sorted, 0);
    var spec := ThriftSpec(sorted).value;
    forall k | 0 <= k < |spec| && k in Ids(sorted)
      ensures spec[k] != None
    {
      var i :| 0 <= i < |sorted| && sorted[i].id == k;
    }
  }

  /**
   * Every filled position `k` of the tuple describes the field with id `k`,
   * which is what makes decoding by `thrift_spec[fid]` correct.
   */
  lemma SpecSelfIndexed(sorted: seq<Field>)
    requires StrictlyAscending(sorted)
    requires ThriftSpec(sorted).Ok?
    ensures forall k :: 0 <= k < |ThriftSpec(sorted).value| && ThriftSpec(sorted).value[k].Some? ==>
      ThriftSpec(sorted).value[k].value.id == k
  {
    if Indexable(sorted) {
      SpecIndexedById(sorted);
      var spec := ThriftSpec(sorted).value;
      forall k | 0 <= k < |spec| && spec[k].Some?
        ensures spec[k].value.id == k
      {
        var i :| 0 <= i < |sorted| && sorted[i].id == k;
      }
    }
  }

  /**
   * Position 0 is a placeholder exactly when no field has id 0, so a field
   * declared with id 0 occupies it.
   */
  lemma ZeroSlot(sorted: seq<Field>)
    requires StrictlyAscending(sorted)
    requires |sorted| > 0 && sorted[0].id >= 0
    requires AllVoidFree(sorted)
    ensures ThriftSpec(sorted).Ok? && |ThriftSpec(sorted).value| > 0
    ensures ThriftSpec(sorted).value[0] == None <==> sorted[0].id != 0
  {
    SpecIndexedById(sorted);
    if sorted[0].id == 0 {
      assert 0 in Ids(sorted);
    }
  }

  /** The entries of a spec, in order, with the placeholders dropped. */
  function Present(spec: Spec): seq<SpecEntry> {
    if |spec| == 0 then []
    else (if spec[0].Some? then [spec[0].value] else []) + Present(spec[1..])
  }

  lemma {:induction false} PresentAppend(a: Spec, b: Spec)
    ensures Present(a + b) == Present(a) + Present(b)
    decreases |a|
  {
    if |a| > 0 {
      assert (a + b)[0] == a[0];
      assert (a + b)[1..] == a[1..] + b;
      PresentAppend(a[1..], b);
    } else {
      assert a + b == b;
    }
  }

  lemma {:induction false} PresentPlaceholders(n: nat)
    ensures Present(Placeholders(n)) == []
    decreases n
  {
    if n > 0 {
      assert Placeholders(n)[1..] == Placeholders(n - 1);
      PresentPlaceholders(n - 1);
    }
  }

  /** The entries of the fields, in member order. */
  function Entries(fields: seq<Field>): seq<SpecEntry>
    requires AllVoidFree(fields)
  {
    seq(|fields|, i requires 0 <= i < |fields| => EntryOf(fields[i]).value)
  }

  lemma EntriesCons(fields: seq<Field>)
    requires |fields| > 0 && AllVoidFree(fields)
    ensures AllVoidFree(fields[1..])
    ensures Entries(fields) == [EntryOf(fields[0]).value] + Entries(fields[1..])
  {
    AllVoidFreeTail(fields);
    var tail := fields[1..];
    assert forall i :: 0 <= i < |tail| ==> tail[i] == fields[i + 1];
  }

  /**
   * Reading the tuple in order and dropping the placeholders gives back one
   * entry per member, in id order: no member is lost or duplicated.
   */
  lemma {:induction false} RowsListEveryField(fields: seq<Field>, pos: int)
    requires StrictlyAscending(fields)
    requires |fields| > 0 ==> pos <= fields[0].id
    requires AllVoidFree(fields)
    ensures Present(Rows(fields, pos)) == Entries(fields)
    decreases |fields|
  {
    if |fields| > 0 {
      var f := fields[0];
      var tail := fields[1..];
      AllVoidFreeTail(fields);
      AscendingTail(fields);
      var gap := Placeholders(f.id - pos);
      var row := [Some(EntryOf(f).value)];
      var rest := Rows(tail, f.id + 1);
      assert Rows(fields, pos) == gap + row + rest;
      RowsListEveryField(tail, f.id + 1);
      PresentAppend(gap + row, rest);
      PresentAppend(gap, row);
      PresentPlaceholders(f.id - pos);
      assert Present(row) == [EntryOf(f).value];
      EntriesCons(fields);
    }
  }

  /** The spec of an indexable struct lists every member exactly once, in id order. */
  lemma SpecListsEveryField(sorted: seq<Field>)
    requires StrictlyAscending(sorted)
    requires Indexable(sorted)
    requires AllVoidFree(sorted)
    ensures ThriftSpec(sorted).Ok?
    ensures Present(ThriftSpec(sorted).value) == Entries(sorted)
  {
    RowsListEveryField(sorted, 0);
  }
}
