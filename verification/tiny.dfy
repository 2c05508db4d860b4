/**
 * The tiny protocol: the compact protocol with every string replaced by a
 * slot in a per-message string table. The writer interns strings while it
 * buffers the body of the outermost struct, and when that struct ends it
 * sends the table first and the buffered body after it; the reader loads the
 * table when the outermost struct begins and resolves each slot through it.
 *
 * What the compact protocol itself puts on the transport is abstracted to
 * tokens: a varint, the raw bytes of a string, or any other item.
 */
module TinyProtocol {
  import opened Wrappers

  datatype Tok =
    | Varint(n: nat)     // a varint: a table count, a string length or a slot index
    | Data(s: string)    // the raw bytes of one table string
    | Opaque(code: nat)  // anything else the compact protocol writes: field headers, numbers, ...

  datatype TinyError =
    | MissingAttribute          // `AttributeError`: no string table or saved transport exists yet
    | SlotOutOfRange(slot: nat) // `IndexError` on the string array
    | TransportError            // end of input, or the input holds something else there

  // ---------------------------------------------------------------------
  // the string table
  // ---------------------------------------------------------------------

  /** `__strings_array` and `__strings_dict`. */
  datatype Interned = Interned(strings: seq<string>, slots: map<string, nat>)

  const EmptyTable := Interned([], map[])

  /**
   * The dictionary and the array agree: each stored string's slot is its
   * index in the array, and the dictionary knows nothing else.
   */
  predicate TableOk(t: Interned) {
    && (forall i :: 0 <= i < |t.strings| ==> t.strings[i] in t.slots && t.slots[t.strings[i]] == i)
    && (forall s :: s in t.slots ==> t.slots[s] < |t.strings| && t.strings[t.slots[s]] == s)
  }

  /** A consistent table never stores a string twice. */
  lemma TableDistinct(t: Interned)
    requires TableOk(t)
    ensures forall i, j :: 0 <= i < j < |t.strings| ==> t.strings[i] != t.strings[j]
  {
  }

  /**
   * The slot `writeString` emits for `s`: its existing slot if it is stored,
   * otherwise the next free slot, with `s` appended to the array.
   */
  function Intern(t: Interned, s: string): (r: (Interned, nat))
    ensures s in t.slots ==> r.0 == t && r.1 == t.slots[s]
    ensures s !in t.slots ==> r.0.strings == t.strings + [s] && r.1 == |t.strings|
    ensures t.strings <= r.0.strings
    ensures TableOk(t) ==> TableOk(r.0) && r.1 < |r.0.strings| && r.0.strings[r.1] == s
  {
    if s in t.slots then (t, t.slots[s])
    else (Interned(t.strings + [s], t.slots[s := |t.strings|]), |t.strings|)
  }

  /**
   * Under a consistent table, the slot of a string is the index of its first
   * occurrence among the strings interned since the table was reset.
   */
  lemma InternFirstOccurrence(t: Interned, s: string)
    requires TableOk(t)
    ensures var (t', slot) := Intern(t, s);
      slot < |t'.strings| && t'.strings[slot] == s &&
      forall k :: 0 <= k < slot ==> t'.strings[k] != s
  {
    TableDistinct(Intern(t, s).0);
  }

  /** The table as the outermost `writeStructEnd` sends it: each string as its size, then its bytes, in slot order. */
  function TableToks(strings: seq<string>): (r: seq<Tok>)
    ensures |r| == 2 * |strings|
  {
    if |strings| == 0 then []
    else [Varint(|strings[0]|), Data(strings[0])] + TableToks(strings[1..])
  }

  // ---------------------------------------------------------------------
  // the writing side
  // ---------------------------------------------------------------------

  /**
   * The writing state: `structDepth`, the string table (absent until the
   * first outermost struct begins), what the real transport has received,
   * and the memory buffer's contents while `self.trans` is that buffer.
   */
  datatype Writer = Writer(depth: int, table: Option<Interned>, out: seq<Tok>, buffer: Option<seq<Tok>>)

  const InitialWriter := Writer(0, None, [], None)

  /**
   * The states the operations keep: the body is buffered exactly while a
   * struct is open, an open struct has a table, and the table is consistent.
   * Hence the transport saved by the outermost begin is always the real one.
   */
  predicate Consistent(w: Writer) {
    && (w.buffer.Some? <==> w.depth >= 1)
    && (w.depth >= 1 ==> w.table.Some?)
    && (w.table.Some? ==> TableOk(w.table.value))
  }

  lemma InitialWriterConsistent()
    ensures Consistent(InitialWriter)
  {
  }

  /** Appends to whichever transport `self.trans` currently is. */
  function Emit(w: Writer, toks: seq<Tok>): (r: Writer)
    ensures r.depth == w.depth && r.table == w.table && r.buffer.Some? == w.buffer.Some?
    ensures w.buffer.Some? ==> r.out == w.out && r.buffer.value == w.buffer.value + toks
    ensures w.buffer.None? ==> r.out == w.out + toks
  {
    if w.buffer.Some? then w.(buffer := Some(w.buffer.value + toks)) else w.(out := w.out + toks)
  }

  /**
   * `writeStructBegin`: only at depth 0 is the table reset and the real
   * transport swapped for an empty memory buffer; a nested struct shares the
   * outer one's table and buffer.
   */
  function WriteStructBegin(w: Writer): (r: Writer)
    ensures r.depth == w.depth + 1 && r.out == w.out
    ensures w.depth == 0 ==> r.table == Some(EmptyTable) && r.buffer == Some([])
    ensures w.depth != 0 ==> r.table == w.table && r.buffer == w.buffer
    ensures Consistent(w) ==> Consistent(r)
  {
    var w' := if w.depth == 0 then w.(table := Some(EmptyTable), buffer := Some([])) else w;
    w'.(depth := w'.depth + 1)
  }

  /**
   * `writeStructEnd`: when the outermost struct closes, the real transport
   * is restored and receives the string count, the table, then the buffered
   * body. Closing a nested struct only lowers the depth.
   */
  function WriteStructEnd(w: Writer): (r: Result<Writer, TinyError>)
    ensures w.depth != 1 ==> r == Ok(w.(depth := w.depth - 1))
    ensures w.depth == 1 && Consistent(w) ==> r.Ok? && r.value.depth == 0 && r.value.buffer.None?
    ensures w.depth == 1 && Consistent(w) ==>
      r.value.out == w.out + [Varint(|w.table.value.strings|)] + TableToks(w.table.value.strings) + w.buffer.value
    ensures r.Ok? ==> r.value.table == w.table
    ensures r.Ok? && Consistent(w) ==> Consistent(r.value)
  {
    var depth := w.depth - 1;
    if depth != 0 then Ok(w.(depth := depth))
    else if w.buffer.None? || w.table.None? then Err(MissingAttribute)
    else
      var strings := w.table.value.strings;
      Ok(Writer(0, w.table, w.out + [Varint(|strings|)] + TableToks(strings) + w.buffer.value, None))
  }

  /** `writeString`: the string is interned and only its slot is written. */
  function WriteString(w: Writer, s: string): (r: Result<Writer, TinyError>)
    ensures r.Err? <==> w.table.None?
    ensures r.Err? ==> r.error == MissingAttribute
    ensures r.Ok? ==> r.value.depth == w.depth && r.value.table == Some(Intern(w.table.value, s).0)
    ensures r.Ok? ==> r.value == Emit(w.(table := r.value.table), [Varint(Intern(w.table.value, s).1)])
    ensures r.Ok? && Consistent(w) ==> Consistent(r.value)
  {
    if w.table.None? then Err(MissingAttribute)
    else
      var (t', slot) := Intern(w.table.value, s);
      Ok(Emit(w.(table := Some(t')), [Varint(slot)]))
  }

  /** Anything else the compact protocol writes goes to the current transport unchanged. */
  function WriteOther(w: Writer, code: nat): (r: Writer)
    ensures r == Emit(w, [Opaque(code)])
    ensures Consistent(w) ==> Consistent(r)
  {
    Emit(w, [Opaque(code)])
  }

  // ---------------------------------------------------------------------
  // the reading side
  // ---------------------------------------------------------------------

  /** The reading state: `structDepth`, the string array (absent until loaded), and the input with a cursor. */
  datatype Reader = Reader(depth: int, strings: Option<seq<string>>, input: seq<Tok>, pos: nat)

  function InitialReader(input: seq<Tok>): Reader {
    Reader(0, None, input, 0)
  }

  function ReadVarint(r: Reader): (res: Result<(nat, Reader), TinyError>)
    ensures res.Ok? <==> r.pos < |r.input| && r.input[r.pos].Varint?
    ensures res.Ok? ==> res.value.0 == r.input[r.pos].n && res.value.1 == r.(pos := r.pos + 1)
  {
    if r.pos < |r.input| && r.input[r.pos].Varint? then Ok((r.input[r.pos].n, r.(pos := r.pos + 1)))
    else Err(TransportError)
  }

  /** Reads `count` table strings, each a size and then exactly that many bytes, in slot order. */
  function ReadTable(r: Reader, count: nat): (res: Result<(seq<string>, Reader), TinyError>)
    ensures res.Ok? ==> |res.value.0| == count
    ensures res.Ok? ==> res.value.1 == r.(pos := r.pos + 2 * count)
    decreases count
  {
    if count == 0 then Ok(([], r))
    else
      var (size, r1) :- ReadVarint(r);
      if r1.pos < |r1.input| && r1.input[r1.pos].Data? && |r1.input[r1.pos].s| == size then
        var (rest, r2) :- ReadTable(r1.(pos := r1.pos + 1), count - 1);
        Ok(([r1.input[r1.pos].s] + rest, r2))
      else Err(TransportError)
  }

  /** `readStructBegin`: only at depth 0 is the table read, replacing the array. */
  function ReadStructBegin(r: Reader): (res: Result<Reader, TinyError>)
    ensures res.Ok? ==> res.value.depth == r.depth + 1 && res.value.input == r.input
    ensures r.depth != 0 ==> res == Ok(r.(depth := r.depth + 1))
    ensures r.depth == 0 && res.Ok? ==> res.value.strings.Some? && res.value.pos == r.pos + 1 + 2 * |res.value.strings.value|
  {
    if r.depth == 0 then
      var (count, r1) :- ReadVarint(r);
      var (strings, r2) :- ReadTable(r1, count);
      Ok(r2.(strings := Some(strings), depth := 1))
    else Ok(r.(depth := r.depth + 1))
  }

  /** `readStructEnd`: only the depth changes; the array stays. */
  function ReadStructEnd(r: Reader): (res: Reader)
    ensures res.depth == r.depth - 1
    ensures res.(depth := r.depth) == r
  {
    r.(depth := r.depth - 1)
  }

  /**
   * `readString`: a slot, resolved through the array. A slot at or beyond the
   * array's length is an `IndexError`; no array at all is an `AttributeError`.
   */
  function ReadString(r: Reader): (res: Result<(string, Reader), TinyError>)
    ensures res.Ok? <==>
      r.pos < |r.input| && r.input[r.pos].Varint? && r.strings.Some? && r.input[r.pos].n < |r.strings.value|
    ensures r.pos < |r.input| && r.input[r.pos].Varint? && r.strings.Some? && r.input[r.pos].n >= |r.strings.value| ==>
      res == Err(SlotOutOfRange(r.input[r.pos].n))
    ensures r.pos < |r.input| && r.input[r.pos].Varint? && r.strings.None? ==> res == Err(MissingAttribute)
    ensures res.Ok? ==> res.value.0 == r.strings.value[r.input[r.pos].n] && res.value.1 == r.(pos := r.pos + 1)
  {
    var (slot, r1) :- ReadVarint(r);
    if r1.strings.None? then Err(MissingAttribute)
    else if slot >= |r1.strings.value| then Err(SlotOutOfRange(slot))
    else Ok((r1.strings.value[slot], r1))
  }

  /** Reads one item of anything else the compact protocol wrote. */
  function ReadOther(r: Reader): (res: Result<(nat, Reader), TinyError>)
    ensures res.Ok? <==> r.pos < |r.input| && r.input[r.pos].Opaque?
    ensures res.Ok? ==> res.value.0 == r.input[r.pos].code && res.value.1 == r.(pos := r.pos + 1)
  {
    if r.pos < |r.input| && r.input[r.pos].Opaque? then Ok((r.input[r.pos].code, r.(pos := r.pos + 1)))
    else Err(TransportError)
  }

  // ---------------------------------------------------------------------
  // sessions: the calls generated code makes, on both sides
  // ---------------------------------------------------------------------

  /** One protocol call of a struct's `write` or `read`. */
  datatype Event = Begin | End | Str(s: string) | Other(code: nat)

  /** A value as the reading side hands it back. */
  datatype Val = VStr(s: string) | VOther(code: nat)

  function WriteEvent(w: Writer, e: Event): Result<Writer, TinyError> {
    match e
    case Begin => Ok(WriteStructBegin(w))
    case End => WriteStructEnd(w)
    case Str(s) => WriteString(w, s)
    case Other(code) => Ok(WriteOther(w, code))
  }

  function RunWriter(w: Writer, evs: seq<Event>): Result<Writer, TinyError>
    decreases |evs|
  {
    if |evs| == 0 then Ok(w)
    else
      var w1 :- WriteEvent(w, evs[0]);
      RunWriter(w1, evs[1..])
  }

  function ReadEvent(r: Reader, e: Event): Result<(seq<Val>, Reader), TinyError> {
    match e
    case Begin =>
      var r1 :- ReadStructBegin(r);
      Ok(([], r1))
    case End => Ok(([], ReadStructEnd(r)))
    case Str(_) =>
      var (s, r1) :- ReadString(r);
      Ok(([VStr(s)], r1))
    case Other(_) =>
      var (code, r1) :- ReadOther(r);
      Ok(([VOther(code)], r1))
  }

  function RunReader(r: Reader, evs: seq<Event>): Result<(seq<Val>, Reader), TinyError>
    decreases |evs|
  {
    if |evs| == 0 then Ok(([], r))
    else
      var (vals, r1) :- ReadEvent(r, evs[0]);
      var (rest, r2) :- RunReader(r1, evs[1..]);
      Ok((vals + rest, r2))
  }

  /** The values a session writes, in order. */
  function Values(evs: seq<Event>): seq<Val>
    decreases |evs|
  {
    if |evs| == 0 then []
    else
      match evs[0]
      case Str(s) => [VStr(s)] + Values(evs[1..])
      case Other(code) => [VOther(code)] + Values(evs[1..])
      case _ => Values(evs[1..])
  }

  /** Begins minus ends. */
  function Net(evs: seq<Event>): int
    decreases |evs|
  {
    if |evs| == 0 then 0
    else (if evs[0] == Begin then 1 else if evs[0] == End then -1 else 0) + Net(evs[1..])
  }

  /**
   * Starting `open` levels deep, the session never closes a struct it did not
   * open and ends with every struct closed.
   */
  predicate WellNested(evs: seq<Event>, open: nat)
    decreases |evs|
  {
    if |evs| == 0 then open == 0
    else
      match evs[0]
      case Begin => WellNested(evs[1..], open + 1)
      case End => open > 0 && WellNested(evs[1..], open - 1)
      case _ => WellNested(evs[1..], open)
  }

  lemma {:induction false} WellNestedNet(evs: seq<Event>, open: nat)
    requires WellNested(evs, open)
    ensures Net(evs) + open == 0
    decreases |evs|
  {
    if |evs| > 0 {
      match evs[0]
      case Begin => WellNestedNet(evs[1..], open + 1);
      case End => WellNestedNet(evs[1..], open - 1);
      case Str(_) => WellNestedNet(evs[1..], open);
      case Other(_) => WellNestedNet(evs[1..], open);
    }
  }

  /** The writer's depth moves by exactly the begins minus the ends, from any depth. */
  lemma {:induction false} WriterDepth(w: Writer, evs: seq<Event>)
    ensures RunWriter(w, evs).Ok? ==> RunWriter(w, evs).value.depth == w.depth + Net(evs)
    decreases |evs|
  {
    if |evs| > 0 && WriteEvent(w, evs[0]).Ok? {
      WriterDepth(WriteEvent(w, evs[0]).value, evs[1..]);
    }
  }

  /** The reader's depth moves by exactly the begins minus the ends, from any depth. */
  lemma {:induction false} ReaderDepth(r: Reader, evs: seq<Event>)
    ensures RunReader(r, evs).Ok? ==> RunReader(r, evs).value.1.depth == r.depth + Net(evs)
    decreases |evs|
  {
    if |evs| > 0 && ReadEvent(r, evs[0]).Ok? {
      ReaderDepth(ReadEvent(r, evs[0]).value.1, evs[1..]);
    }
  }

  /** Matched begins and ends return both sides' `structDepth` to where it started. */
  lemma BalancedDepth(w: Writer, r: Reader, evs: seq<Event>)
    requires WellNested(evs, 0)
    ensures RunWriter(w, evs).Ok? ==> RunWriter(w, evs).value.depth == w.depth
    ensures RunReader(r, evs).Ok? ==> RunReader(r, evs).value.1.depth == r.depth
  {
    WellNestedNet(evs, 0);
    WriterDepth(w, evs);
    ReaderDepth(r, evs);
  }

  // ---------------------------------------------------------------------
  // the round trip
  // ---------------------------------------------------------------------

  /** How one value travels: a string as a slot holding it in `strings`, anything else as itself. */
  predicate Carries(v: Val, t: Tok, strings: seq<string>) {
    match v
    case VStr(s) => t.Varint? && t.n < |strings| && strings[t.n] == s
    case VOther(code) => t == Opaque(code)
  }

  predicate Encodes(vals: seq<Val>, toks: seq<Tok>, strings: seq<string>) {
    |vals| == |toks| && forall i :: 0 <= i < |vals| ==> Carries(vals[i], toks[i], strings)
  }

  lemma EncodesCons(v: Val, t: Tok, vals: seq<Val>, toks: seq<Tok>, strings: seq<string>, longer: seq<string>)
    requires Carries(v, t, strings) && strings <= longer && Encodes(vals, toks, longer)
    ensures Encodes([v] + vals, [t] + toks, longer)
  {
    assert Carries(v, t, longer);
    forall i | 0 <= i < |vals| + 1 ensures Carries(([v] + vals)[i], ([t] + toks)[i], longer) {
      if i > 0 {
        assert ([v] + vals)[i] == vals[i - 1] && ([t] + toks)[i] == toks[i - 1];
      }
    }
  }

  lemma EncodesTail(vals: seq<Val>, toks: seq<Tok>, strings: seq<string>)
    requires |vals| > 0 && Encodes(vals, toks, strings)
    ensures Carries(vals[0], toks[0], strings) && Encodes(vals[1..], toks[1..], strings)
  {
    assert forall i :: 0 <= i < |vals| - 1 ==> vals[1..][i] == vals[i + 1] && toks[1..][i] == toks[i + 1];
  }

  /**
   * Inside an open outermost struct, the writer buffers exactly one token per
   * value, each string as a slot that holds it in the final table, and the
   * table only grows.
   */
  lemma {:induction false} WriteBody(w: Writer, evs: seq<Event>, open: nat) returns (toks: seq<Tok>)
    requires Consistent(w) && w.depth >= 1 + open
    requires WellNested(evs, open)
    ensures RunWriter(w, evs).Ok?
    ensures var w' := RunWriter(w, evs).value;
      && Consistent(w') && w'.depth == w.depth - open && w'.out == w.out
      && w.table.value.strings <= w'.table.value.strings
      && w'.buffer == Some(w.buffer.value + toks)
      && Encodes(Values(evs), toks, w'.table.value.strings)
    decreases |evs|
  {
    if |evs| == 0 {
      toks := [];
      assert w.buffer.value + toks == w.buffer.value;
    } else {
      var w1 := WriteEvent(w, evs[0]).value;
      match evs[0]
      case Begin =>
        toks := WriteBody(w1, evs[1..], open + 1);
      case End =>
        toks := WriteBody(w1, evs[1..], open - 1);
      case Str(_) =>
        toks := WriteBodyStep(w, evs, open);
      case Other(_) =>
        toks := WriteBodyStep(w, evs, open);
    }
  }

  /** A value event buffers one token that carries it, then the rest of the body follows. */
  lemma {:induction false} WriteBodyStep(w: Writer, evs: seq<Event>, open: nat) returns (toks: seq<Tok>)
    requires |evs| > 0 && (evs[0].Str? || evs[0].Other?)
    requires Consistent(w) && w.depth >= 1 + open
    requires WellNested(evs, open)
    ensures RunWriter(w, evs).Ok?
    ensures var w' := RunWriter(w, evs).value;
      && Consistent(w') && w'.depth == w.depth - open && w'.out == w.out
      && w.table.value.strings <= w'.table.value.strings
      && w'.buffer == Some(w.buffer.value + toks)
      && Encodes(Values(evs), toks, w'.table.value.strings)
    decreases |evs|, 0
  {
    var w1 := WriteEvent(w, evs[0]).value;
    var t := w1.buffer.value[|w.buffer.value|];
    var v := if evs[0].Str? then VStr(evs[0].s) else VOther(evs[0].code);
    assert w1.buffer.value == w.buffer.value + [t];
    assert Carries(v, t, w1.table.value.strings);
    var rest := WriteBody(w1, evs[1..], open);
    var w' := RunWriter(w1, evs[1..]).value;
    EncodesCons(v, t, Values(evs[1..]), rest, w1.table.value.strings, w'.table.value.strings);
    toks := [t] + rest;
    assert w1.buffer.value + rest == w.buffer.value + toks;
  }

  /**
   * Inside an open outermost struct, with the table loaded and the buffered
   * tokens ahead in the input, the reader hands back exactly the values
   * written and consumes exactly those tokens.
   */
  lemma {:induction false} ReadBody(r: Reader, evs: seq<Event>, open: nat, pre: seq<Tok>, toks: seq<Tok>, post: seq<Tok>, strings: seq<string>)
    requires r.strings == Some(strings) && r.depth >= 1 + open
    requires WellNested(evs, open)
    requires Encodes(Values(evs), toks, strings)
    requires r.input == pre + toks + post && r.pos == |pre|
    ensures RunReader(r, evs).Ok?
    ensures RunReader(r, evs).value.0 == Values(evs)
    ensures RunReader(r, evs).value.1 == r.(pos := r.pos + |toks|, depth := r.depth - open)
    decreases |evs|
  {
    if |evs| > 0 {
      match evs[0]
      case Begin =>
        ReadBody(r.(depth := r.depth + 1), evs[1..], open + 1, pre, toks, post, strings);
      case End =>
        ReadBody(r.(depth := r.depth - 1), evs[1..], open - 1, pre, toks, post, strings);
      case Str(_) =>
        ReadBodyStep(r, evs, open, pre, toks, post, strings);
      case Other(_) =>
        ReadBodyStep(r, evs, open, pre, toks, post, strings);
    }
  }

  /** A value event consumes one token and leaves the rest of the body ahead. */
  lemma {:induction false} ReadBodyStep(r: Reader, evs: seq<Event>, open: nat, pre: seq<Tok>, toks: seq<Tok>, post: seq<Tok>, strings: seq<string>)
    requires |evs| > 0 && (evs[0].Str? || evs[0].Other?)
    requires r.strings == Some(strings) && r.depth >= 1 + open
    requires WellNested(evs, open)
    requires Encodes(Values(evs), toks, strings)
    requires r.input == pre + toks + post && r.pos == |pre|
    ensures RunReader(r, evs).Ok?
    ensures RunReader(r, evs).value.0 == Values(evs)
    ensures RunReader(r, evs).value.1 == r.(pos := r.pos + |toks|, depth := r.depth - open)
    decreases |evs|, 0
  {
    EncodesTail(Values(evs), toks, strings);
    assert r.input[r.pos] == toks[0];
    assert r.input == (pre + [toks[0]]) + toks[1..] + post;
    ReadBody(r.(pos := r.pos + 1), evs[1..], open, pre + [toks[0]], toks[1..], post, strings);
  }

  /** The table as the writer sends it is read back as the same array. */
  lemma {:induction false} ReadTableBack(r: Reader, pre: seq<Tok>, strings: seq<string>, post: seq<Tok>)
    requires r.input == pre + TableToks(strings) + post && r.pos == |pre|
    ensures ReadTable(r, |strings|) == Ok((strings, r.(pos := r.pos + 2 * |strings|)))
    decreases |strings|
  {
    if |strings| > 0 {
      var head := [Varint(|strings[0]|), Data(strings[0])];
      assert TableToks(strings) == head + TableToks(strings[1..]);
      assert r.input[r.pos] == head[0] && r.input[r.pos + 1] == head[1];
      assert r.input == (pre + head) + TableToks(strings[1..]) + post;
      ReadTableBack(r.(pos := r.pos + 2), pre + head, strings[1..], post);
      assert [strings[0]] + strings[1..] == strings;
    }
  }

  lemma {:induction false} RunWriterAppend(w: Writer, a: seq<Event>, b: seq<Event>)
    ensures RunWriter(w, a + b) ==
      (if RunWriter(w, a).Ok? then RunWriter(RunWriter(w, a).value, b) else Err(RunWriter(w, a).error))
    decreases |a|
  {
    if |a| == 0 {
      assert a + b == b;
    } else {
      assert (a + b)[0] == a[0] && (a + b)[1..] == a[1..] + b;
      if WriteEvent(w, a[0]).Ok? {
        RunWriterAppend(WriteEvent(w, a[0]).value, a[1..], b);
      }
    }
  }

  lemma {:induction false} RunReaderAppend(r: Reader, a: seq<Event>, b: seq<Event>)
    requires RunReader(r, a).Ok?
    ensures RunReader(r, a + b) ==
      (var (va, ra) := RunReader(r, a).value;
       if RunReader(ra, b).Ok? then Ok((va + RunReader(ra, b).value.0, RunReader(ra, b).value.1))
       else Err(RunReader(ra, b).error))
    decreases |a|
  {
    if |a| == 0 {
      assert a + b == b;
      if RunReader(r, b).Ok? {
        assert [] + RunReader(r, b).value.0 == RunReader(r, b).value.0;
      }
    } else {
      assert (a + b)[0] == a[0] && (a + b)[1..] == a[1..] + b;
      var (v1, r1) := ReadEvent(r, a[0]).value;
      RunReaderAppend(r1, a[1..], b);
      var (va, ra) := RunReader(r1, a[1..]).value;
      if RunReader(ra, b).Ok? {
        assert v1 + (va + RunReader(ra, b).value.0) == (v1 + va) + RunReader(ra, b).value.0;
      }
    }
  }

  /** What the writer sends for one outermost struct whose body makes the calls `body`. */
  function Session(body: seq<Event>): seq<Event> {
    [Begin] + body + [End]
  }

  /** The writer's side of one outermost struct: the count, the table, then one token per value. */
  lemma WriteSession(body: seq<Event>) returns (toks: seq<Tok>, strings: seq<string>)
    requires WellNested(body, 0)
    ensures RunWriter(InitialWriter, Session(body)).Ok?
    ensures var w := RunWriter(InitialWriter, Session(body)).value;
      w.depth == 0 && w.buffer.None? && w.out == [Varint(|strings|)] + TableToks(strings) + toks
    ensures Encodes(Values(body), toks, strings)
  {
    var w1 := WriteStructBegin(InitialWriter);
    RunWriterSingle(InitialWriter, Begin);
    toks := WriteBody(w1, body, 0);
    var w2 := RunWriter(w1, body).value;
    strings := w2.table.value.strings;
    var w3 := WriteStructEnd(w2).value;
    RunWriterSingle(w2, End);
    RunWriterAppend(InitialWriter, [Begin], body);
    RunWriterAppend(InitialWriter, [Begin] + body, [End]);
    assert RunWriter(InitialWriter, Session(body)) == Ok(w3);
  }

  /** The reader's side of one outermost struct, on what `WriteSession` sends. */
  lemma ReadSession(body: seq<Event>, toks: seq<Tok>, strings: seq<string>)
    requires WellNested(body, 0) && Encodes(Values(body), toks, strings)
    ensures var out := [Varint(|strings|)] + TableToks(strings) + toks;
      RunReader(InitialReader(out), Session(body)) == Ok((Values(body), Reader(0, Some(strings), out, |out|)))
  {
    var out := [Varint(|strings|)] + TableToks(strings) + toks;
    var r0 := InitialReader(out);
    ReadHeader(strings, toks);
    var r1 := ReadStructBegin(r0).value;
    RunReaderSingle(r0, Begin);
    ReadBody(r1, body, 0, [Varint(|strings|)] + TableToks(strings), toks, [], strings);
    var r2 := RunReader(r1, body).value.1;
    assert r2 == Reader(1, Some(strings), out, |out|);
    RunReaderSingle(r2, End);
    RunReaderAppend(r0, [Begin], body);
    assert RunReader(r0, [Begin] + body) == Ok((Values(body), r2)) by {
      assert [] + Values(body) == Values(body);
    }
    RunReaderAppend(r0, [Begin] + body, [End]);
    assert Values(body) + [] == Values(body);
    assert ReadStructEnd(r2) == Reader(0, Some(strings), out, |out|);
  }

  /** The outermost `readStructBegin` loads the table the writer sent in front of the body. */
  lemma ReadHeader(strings: seq<string>, toks: seq<Tok>)
    ensures var out := [Varint(|strings|)] + TableToks(strings) + toks;
      && ReadStructBegin(InitialReader(out)).Ok?
      && ReadStructBegin(InitialReader(out)).value.strings == Some(strings)
  {
    var out := [Varint(|strings|)] + TableToks(strings) + toks;
    var r0 := InitialReader(out);
    assert out[0] == Varint(|strings|);
    var r1 := ReadVarint(r0).value.1;
    ReadTableBack(r1, [Varint(|strings|)], strings, toks);
    ReadStructBeginLoads(r0, strings);
  }

  lemma ReadStructBeginLoads(r: Reader, strings: seq<string>)
    requires r.depth == 0 && ReadVarint(r).Ok? && ReadVarint(r).value.0 == |strings|
    requires ReadTable(ReadVarint(r).value.1, |strings|).Ok?
    requires ReadTable(ReadVarint(r).value.1, |strings|).value.0 == strings
    ensures ReadStructBegin(r).Ok? && ReadStructBegin(r).value.strings == Some(strings)
  {
  }

  lemma RunReaderSingle(r: Reader, e: Event)
    ensures ReadEvent(r, e).Ok? ==> RunReader(r, [e]) == ReadEvent(r, e)
  {
    if ReadEvent(r, e).Ok? {
      var (vals, r1) := ReadEvent(r, e).value;
      assert [e][1..] == [];
      assert RunReader(r1, []) == Ok(([], r1));
      assert vals + [] == vals;
    }
  }

  lemma RunWriterSingle(w: Writer, e: Event)
    ensures RunWriter(w, [e]) == WriteEvent(w, e)
  {
    assert [e][1..] == [];
  }

  /**
   * The round trip: a fresh writer sends one outermost struct as the string
   * count, the table and the body; a fresh reader making the same calls on
   * that output gets back every written value in order, consumes the output
   * exactly, and both sides end at depth 0.
   */
  lemma RoundTrip(body: seq<Event>)
    requires WellNested(body, 0)
    ensures RunWriter(InitialWriter, Session(body)).Ok?
    ensures var w := RunWriter(InitialWriter, Session(body)).value;
      && w.depth == 0 && w.buffer.None?
      && RunReader(InitialReader(w.out), Session(body)).Ok?
      && RunReader(InitialReader(w.out), Session(body)).value.0 == Values(body)
      && RunReader(InitialReader(w.out), Session(body)).value.1.pos == |w.out|
      && RunReader(InitialReader(w.out), Session(body)).value.1.depth == 0
  {
    var toks, strings := WriteSession(body);
    ReadSession(body, toks, strings);
  }
}
