/** A reference encoder for structured frames, and the proof that the decoder
    inverts it. The production encoder is a Java class outside the repository;
    this one fixes the format that the decoder reads. */
module StructuredWriter {

  import opened Results
  import opened LittleEndian
  import opened PathHash
  import opened Schemas
  import opened Messages
  import opened StructuredReader

  // ----- encodings -----

  /** One value appended to the column of a tag. */
  datatype Cell = Cell(tag: int, kind: Kind, value: Value)

  /** The words appended to the control streams and the cells appended to columns. */
  datatype Encoded = Encoded(types: seq<nat>, ids: seq<nat>, lens: seq<nat>, cells: seq<Cell>)

  function Join(a: Encoded, b: Encoded): Encoded {
    Encoded(a.types + b.types, a.ids + b.ids, a.lens + b.lens, a.cells + b.cells)
  }

  const STOP_MARK: Encoded := Encoded([STOP], [], [], [])

  function Count(n: nat): Encoded {
    Encoded([], [], [n], [])
  }

  function ShredValue(tag: int, kind: Kind, v: Value): Encoded {
    Encoded([], [], if v.Text? then [|v.bytes|] else [], [Cell(tag, kind, v)])
  }

  function ShredValues(tag: int, kind: Kind, vs: seq<Value>): Encoded {
    if vs == [] then Encoded([], [], [], [])
    else Join(ShredValue(tag, kind, vs[0]), ShredValues(tag, kind, vs[1..]))
  }

  /** A message: its fields in order, closed by the stop word. */
  function Shred(schema: Schema, typeName: string, pathHash: U32, m: Message): Encoded
    decreases m, 1
  {
    ShredEntries(schema, typeName, pathHash, m.entries)
  }

  function ShredEntries(schema: Schema, typeName: string, pathHash: U32, es: seq<Entry>): Encoded
    decreases es, 0
  {
    if es == [] then STOP_MARK
    else Join(ShredEntry(schema, typeName, pathHash, es[0]), ShredEntries(schema, typeName, pathHash, es[1..]))
  }

  function ShredEntry(schema: Schema, typeName: string, pathHash: U32, e: Entry): Encoded
    decreases e, 1
  {
    match FindFieldByNumber(Fields(schema, typeName), e.number)
    case None => Encoded([], [], [], [])
    case Some(field) => Join(Encoded([field.kind], [e.number], [], []), Payload(schema, field, pathHash, e.value))
  }

  function Payload(schema: Schema, field: FieldDescriptor, pathHash: U32, value: FieldValue): Encoded
    decreases value, 0
  {
    match value
    case One(v) => ShredValue(FieldTag(pathHash, field.number), field.kind, v)
    case Many(vs) => Join(Count(|vs|), ShredValues(FieldTag(pathHash, field.number), field.kind, vs))
    case Sub(m) => Shred(schema, field.messageType, ExtendPathHash(pathHash, field.number), m)
    case Subs(ms) =>
      Join(Count(|ms|), ShredAll(schema, field.messageType, ExtendPathHash(pathHash, field.number), ms))
  }

  function ShredAll(schema: Schema, typeName: string, pathHash: U32, ms: seq<Message>): Encoded
    decreases ms, 0
  {
    if ms == [] then Encoded([], [], [], [])
    else Join(Shred(schema, typeName, pathHash, ms[0]), ShredAll(schema, typeName, pathHash, ms[1..]))
  }

  // ----- messages of a schema -----

  ghost predicate ValidValue(kind: Kind, v: Value) {
    if kind == STRING then v.Text? && |v.bytes| < U32_LIMIT
    else kind != MESSAGE && v.Scalar? && v.bits < Pow256(Width(kind))
  }

  /** The message is one that the type can hold: each field is known, set once
      and of its declared shape. An empty repeated field is an absent one. */
  ghost predicate Conforms(schema: Schema, typeName: string, m: Message)
    decreases m, 1
  {
    EntriesConform(schema, typeName, m.entries)
  }

  ghost predicate EntriesConform(schema: Schema, typeName: string, es: seq<Entry>)
    decreases es, 0
  {
    es != [] ==>
      && EntryConforms(schema, typeName, es[0])
      && Absent(es[1..], es[0].number)
      && EntriesConform(schema, typeName, es[1..])
  }

  ghost predicate EntryConforms(schema: Schema, typeName: string, e: Entry)
    decreases e, 1
  {
    match FindFieldByNumber(Fields(schema, typeName), e.number)
    case None => false
    case Some(field) => PayloadConforms(schema, field, e.value)
  }

  ghost predicate PayloadConforms(schema: Schema, field: FieldDescriptor, value: FieldValue)
    decreases value, 0
  {
    match value
    case One(v) => field.kind != MESSAGE && !field.repeated && ValidValue(field.kind, v)
    case Many(vs) =>
      && field.kind != MESSAGE && field.repeated && 0 < |vs| < U32_LIMIT
      && forall v :: v in vs ==> ValidValue(field.kind, v)
    case Sub(m) => field.kind == MESSAGE && !field.repeated && Conforms(schema, field.messageType, m)
    case Subs(ms) =>
      && field.kind == MESSAGE && field.repeated && 0 < |ms| < U32_LIMIT
      && AllConform(schema, field.messageType, ms)
  }

  ghost predicate AllConform(schema: Schema, typeName: string, ms: seq<Message>)
    decreases ms, 0
  {
    ms != [] ==> Conforms(schema, typeName, ms[0]) && AllConform(schema, typeName, ms[1..])
  }

  // ----- an encoding in front of a frame -----

  function PutCell(cell: Cell, c: Cursor): Cursor {
    match cell.value
    case Text(bytes) => c.(data := bytes + c.data, lengths := [|bytes|] + c.lengths)
    case Scalar(bits) => c.(data := ToLE(bits, Width(cell.kind)) + c.data)
  }

  function PutCells(cells: seq<Cell>, tag: int, c: Cursor): (r: Cursor)
    ensures r.text == c.text
  {
    if cells == [] then c
    else
      var rest := PutCells(cells[1..], tag, c);
      if cells[0].tag == tag then PutCell(cells[0], rest) else rest
  }

  function PutColumns(cells: seq<Cell>, values: map<int, Cursor>): map<int, Cursor> {
    map tag | tag in values :: PutCells(cells, tag, values[tag])
  }

  /** The frame whose streams hold the encoding and, after it, the streams of g. */
  function Prepend(e: Encoded, g: Frame): Frame {
    Frame(Pack(e.types, 4) + g.types, Pack(e.ids, 4) + g.ids, Pack(e.lens, 4) + g.lens,
          PutColumns(e.cells, g.values), g.ordered)
  }

  /** Each cell has a column, and a string goes to a string column. The columns
      need nothing else for the decoder to invert the encoder. */
  ghost predicate Ready(cells: seq<Cell>, g: Frame) {
    forall c :: c in cells ==> c.tag in g.values && (c.kind == STRING ==> g.values[c.tag].text)
  }

  lemma {:induction false} PutCellsJoin(a: seq<Cell>, b: seq<Cell>, tag: int, c: Cursor)
    ensures PutCells(a + b, tag, c) == PutCells(a, tag, PutCells(b, tag, c))
  {
    if a == [] {
      assert a + b == b;
    } else {
      assert (a + b)[1..] == a[1..] + b;
      PutCellsJoin(a[1..], b, tag, c);
    }
  }

  lemma PutColumnsJoin(a: seq<Cell>, b: seq<Cell>, values: map<int, Cursor>)
    ensures PutColumns(a + b, values) == PutColumns(a, PutColumns(b, values))
  {
    forall tag | tag in values
      ensures PutColumns(a + b, values)[tag] == PutColumns(a, PutColumns(b, values))[tag]
    {
      PutCellsJoin(a, b, tag, values[tag]);
    }
  }

  lemma PackJoin(a: seq<nat>, b: seq<nat>, rest: seq<Byte>)
    ensures Pack(a + b, 4) + rest == Pack(a, 4) + (Pack(b, 4) + rest)
  {
    PackConcat(a, b, 4);
  }

  lemma PrependJoin(a: Encoded, b: Encoded, g: Frame)
    ensures Prepend(Join(a, b), g) == Prepend(a, Prepend(b, g))
  {
    PackJoin(a.types, b.types, g.types);
    PackJoin(a.ids, b.ids, g.ids);
    PackJoin(a.lens, b.lens, g.lens);
    PutColumnsJoin(a.cells, b.cells, g.values);
  }

  lemma {:induction false} PutOtherCells(cells: seq<Cell>, tag: int, c: Cursor)
    requires forall x :: x in cells ==> x.tag != tag
    ensures PutCells(cells, tag, c) == c
  {
    if cells != [] {
      PutOtherCells(cells[1..], tag, c);
    }
  }

  lemma PackOne(n: nat)
    ensures Pack([n], 4) == ToLE(n, 4)
  {
    assert [n][1..] == [];
  }

  lemma ReadPacked(n: nat, rest: seq<Byte>)
    requires n < U32_LIMIT
    ensures ReadU32(Pack([n], 4) + rest) == Ok((n, rest))
  {
    PackOne(n);
    Pow256Widths();
    ReadWritten(n, 4, rest);
  }

  // ----- the decoder inverts the encoder -----

  /** A successful read with this message and this frame left over. */
  ghost predicate Reads(r: Result<Read>, m: Message, g: Frame) {
    r.Ok? && r.value.message == m && r.value.frame == g
  }

  lemma ReadsValue(kind: Kind, tag: int, v: Value, g: Frame)
    requires ValidValue(kind, v)
    requires Ready([Cell(tag, kind, v)], g)
    ensures tag in g.values
    ensures var f := Prepend(ShredValue(tag, kind, v), g);
            var r := ReadValue(kind, f.values[tag], f.lens);
            r.Ok? && r.value.value == v && r.value.cursor == g.values[tag] && r.value.lens == g.lens
  {
    var cell := Cell(tag, kind, v);
    assert cell in [cell];
    var f := Prepend(ShredValue(tag, kind, v), g);
    var c := g.values[tag];
    assert PutCells([cell], tag, c) == PutCell(cell, PutCells([], tag, c));
    if kind == STRING {
      ReadPacked(|v.bytes|, g.lens);
      assert (v.bytes + c.data)[..|v.bytes|] == v.bytes && (v.bytes + c.data)[|v.bytes|..] == c.data;
      assert ([|v.bytes|] + c.lengths)[1..] == c.lengths;
    } else {
      ReadWritten(v.bits, Width(kind), c.data);
      assert f.lens == g.lens;
    }
  }

  /** The message while a repeated field is being filled. */
  function Partial(done: seq<Entry>, number: U32, vs: seq<Value>): Message {
    if vs == [] then Message(done) else Message(done + [Entry(number, Many(vs))])
  }

  lemma AddPartial(done: seq<Entry>, number: U32, vs: seq<Value>, v: Value)
    requires Absent(done, number)
    ensures AddValue(Partial(done, number, vs), number, v) == Partial(done, number, vs + [v])
  {
    if vs == [] {
      PutAbsent(done, number, Many([v]));
      assert vs + [v] == [v];
    } else {
      PutLast(done, number, Many(vs), Many(vs + [v]));
    }
  }

  lemma MoveOver<T>(done: seq<T>, rest: seq<T>)
    requires rest != []
    ensures done + rest == (done + [rest[0]]) + rest[1..]
  {
  }

  lemma {:induction false} ReadsRepeated(field: FieldDescriptor, done: seq<Entry>, before: seq<Value>, vs: seq<Value>,
                                         tag: int, g: Frame)
    requires Absent(done, field.number)
    requires forall v :: v in vs ==> ValidValue(field.kind, v)
    requires tag in g.values && (field.kind == STRING ==> g.values[tag].text)
    ensures var f := Prepend(ShredValues(tag, field.kind, vs), g);
            var r := ReadRepeated(field, Partial(done, field.number, before), f.values[tag], f.lens, |vs|);
            && r.Ok? && r.value.message == Partial(done, field.number, before + vs)
            && r.value.cursor == g.values[tag] && r.value.lens == g.lens
    decreases |vs|
  {
    hide ReadValue, AddValue, ShredValue;
    if vs == [] {
      assert before + vs == before;
      assert Prepend(Encoded([], [], [], []), g).values[tag] == g.values[tag];
      assert Prepend(Encoded([], [], [], []), g).lens == g.lens;
    } else {
      var rest := ShredValues(tag, field.kind, vs[1..]);
      PrependJoin(ShredValue(tag, field.kind, vs[0]), rest, g);
      ReadsValue(field.kind, tag, vs[0], Prepend(rest, g));
      AddPartial(done, field.number, before, vs[0]);
      MoveOver(before, vs);
      ReadsRepeated(field, done, before + [vs[0]], vs[1..], tag, g);
    }
  }

  lemma {:induction false} ShredValuesCells(tag: int, kind: Kind, vs: seq<Value>)
    ensures var e := ShredValues(tag, kind, vs);
            e.types == [] && e.ids == [] && forall c :: c in e.cells ==> c.tag == tag && c.kind == kind
    ensures vs != [] ==> Cell(tag, kind, vs[0]) in ShredValues(tag, kind, vs).cells
  {
    if vs != [] {
      ShredValuesCells(tag, kind, vs[1..]);
    }
  }

  /** Once a leaf has read its own cells, the frame is the one behind them. */
  lemma LeafRestores(e: Encoded, tag: int, g: Frame)
    requires e.types == [] && e.ids == []
    requires forall c :: c in e.cells ==> c.tag == tag
    requires tag in g.values
    ensures var f := Prepend(e, g);
            f.(values := f.values[tag := g.values[tag]], lens := g.lens) == g
  {
    var f := Prepend(e, g);
    var back := f.values[tag := g.values[tag]];
    forall t | t in g.values ensures back[t] == g.values[t] {
      if t != tag {
        PutOtherCells(e.cells, t, g.values[t]);
      }
    }
    assert back.Keys == g.values.Keys;
    assert back == g.values;
  }

  lemma LeafOfField(field: FieldDescriptor, pathHash: U32, m: Message, f: Frame)
    requires FieldTag(pathHash, field.number) in f.values
    requires ReadField(field, m, f.values[FieldTag(pathHash, field.number)], f.lens).Ok?
    ensures var tag := FieldTag(pathHash, field.number);
            var leaf := ReadField(field, m, f.values[tag], f.lens).value;
            Reads(ReadLeaf(field, pathHash, m, f), leaf.message, f.(values := f.values[tag := leaf.cursor], lens := leaf.lens))
  {
    hide FieldTag, ReadField;
  }

  lemma ReadsOne(field: FieldDescriptor, pathHash: U32, done: seq<Entry>, v: Value, g: Frame)
    requires field.kind != MESSAGE && !field.repeated && ValidValue(field.kind, v)
    requires Absent(done, field.number)
    requires Ready(ShredValue(FieldTag(pathHash, field.number), field.kind, v).cells, g)
    ensures Reads(ReadLeaf(field, pathHash, Message(done), Prepend(ShredValue(FieldTag(pathHash, field.number), field.kind, v), g)),
                  Message(done + [Entry(field.number, One(v))]), g)
  {
    hide FieldTag, ReadValue, ReadRepeated, ReadLeaf, Put, Get, ValidValue, PutCells;
    var tag := FieldTag(pathHash, field.number);
    var f := Prepend(ShredValue(tag, field.kind, v), g);
    var cell := Cell(tag, field.kind, v);
    assert cell in [cell];
    ReadsValue(field.kind, tag, v, g);
    LeafRestores(ShredValue(tag, field.kind, v), tag, g);
    PutAbsent(done, field.number, One(v));
    assert tag in f.values;
    LeafOfField(field, pathHash, Message(done), f);
  }

  lemma ReadsManyField(field: FieldDescriptor, done: seq<Entry>, vs: seq<Value>, tag: int, f: Frame, g: Frame)
    requires field.repeated && |vs| < U32_LIMIT && tag in g.values
    requires f == Prepend(ShredValues(tag, field.kind, vs), g)
    requires Absent(done, field.number) && (forall v :: v in vs ==> ValidValue(field.kind, v))
    requires field.kind == STRING ==> g.values[tag].text
    ensures var c := Prepend(Count(|vs|), f);
            && tag in c.values
            && var r := ReadField(field, Message(done), c.values[tag], c.lens);
            && r.Ok? && r.value.message == Partial(done, field.number, vs)
            && r.value.cursor == g.values[tag] && r.value.lens == g.lens
  {
    CountInFront(|vs|, f);
    ReadsRepeated(field, done, [], vs, tag, g);
    assert [] + vs == vs;
    hide ReadValue, ReadRepeated, ValidValue, ShredValues, PutCells, Absent;
  }

  lemma ReadsMany(field: FieldDescriptor, pathHash: U32, done: seq<Entry>, vs: seq<Value>, g: Frame)
    requires field.kind != MESSAGE && field.repeated && 0 < |vs| < U32_LIMIT
    requires forall v :: v in vs ==> ValidValue(field.kind, v)
    requires Absent(done, field.number)
    requires Ready(ShredValues(FieldTag(pathHash, field.number), field.kind, vs).cells, g)
    ensures Reads(ReadLeaf(field, pathHash, Message(done),
                           Prepend(Join(Count(|vs|), ShredValues(FieldTag(pathHash, field.number), field.kind, vs)), g)),
                  Message(done + [Entry(field.number, Many(vs))]), g)
  {
    var tag := FieldTag(pathHash, field.number);
    var cells := ShredValues(tag, field.kind, vs);
    ShredValuesCells(tag, field.kind, vs);
    assert tag in g.values && (field.kind == STRING ==> g.values[tag].text);
    hide FieldTag, ReadField, ReadLeaf, ValidValue, ShredValues, Ready, Prepend, Absent;
    var f := Prepend(cells, g);
    PrependJoin(Count(|vs|), cells, g);
    CountInFront(|vs|, f);
    ReadsManyField(field, done, vs, tag, f, g);
    LeafOfField(field, pathHash, Message(done), Prepend(Count(|vs|), f));
    LeafRestores(cells, tag, g);
  }

  /** A count word in front of a frame. */
  lemma CountInFront(n: nat, f: Frame)
    requires n < U32_LIMIT
    ensures var c := Prepend(Count(n), f);
            ReadU32(c.lens) == Ok((n, f.lens)) && c.values == f.values && c.(lens := f.lens) == f
  {
    ReadPacked(n, f.lens);
    var c := Prepend(Count(n), f);
    forall tag | tag in f.values ensures c.values[tag] == f.values[tag] {
    }
    assert c.values == f.values;
    assert Pack([], 4) + f.types == f.types && Pack([], 4) + f.ids == f.ids;
  }

  lemma ReadsLeaf(schema: Schema, field: FieldDescriptor, pathHash: U32, done: seq<Entry>, value: FieldValue, g: Frame)
    requires field.kind != MESSAGE && PayloadConforms(schema, field, value)
    requires Absent(done, field.number)
    requires Ready(Payload(schema, field, pathHash, value).cells, g)
    ensures Reads(ReadLeaf(field, pathHash, Message(done), Prepend(Payload(schema, field, pathHash, value), g)),
                  Message(done + [Entry(field.number, value)]), g)
  {
    hide ReadLeaf, FieldTag, ShredValue, ShredValues, Prepend, Ready, ValidValue;
    match value {
      case One(v) => ReadsOne(field, pathHash, done, v, g);
      case Many(vs) =>
        var cells := ShredValues(FieldTag(pathHash, field.number), field.kind, vs);
        assert Payload(schema, field, pathHash, value) == Join(Count(|vs|), cells);
        assert [] + cells.cells == cells.cells;
        ReadsMany(field, pathHash, done, vs, g);
    }
  }

  /** The message while a repeated submessage field is being filled. */
  function PartialSubs(done: seq<Entry>, number: U32, ms: seq<Message>): Message {
    if ms == [] then Message(done) else Message(done + [Entry(number, Subs(ms))])
  }

  lemma AddPartialSub(done: seq<Entry>, number: U32, ms: seq<Message>, m: Message)
    requires Absent(done, number)
    ensures AddSubMessage(PartialSubs(done, number, ms), number, m) == PartialSubs(done, number, ms + [m])
  {
    if ms == [] {
      PutAbsent(done, number, Subs([m]));
      assert ms + [m] == [m];
    } else {
      PutLast(done, number, Subs(ms), Subs(ms + [m]));
    }
  }

  /** Putting other cells in front of a frame does not change which cells it is ready for. */
  lemma ReadyBehind(cells: seq<Cell>, e: Encoded, g: Frame)
    requires Ready(cells, g)
    ensures Ready(cells, Prepend(e, g))
  {
  }

  lemma ReadyParts(a: seq<Cell>, b: seq<Cell>, g: Frame)
    requires Ready(a + b, g)
    ensures Ready(a, g) && Ready(b, g)
  {
    assert forall c :: c in a ==> c in a + b;
    assert forall c :: c in b ==> c in a + b;
  }

  lemma ReadsStop(schema: Schema, typeName: string, pathHash: U32, m: Message, g: Frame)
    ensures Reads(ReadMessage(schema, typeName, pathHash, m, Prepend(STOP_MARK, g)), m, g)
  {
    ReadPacked(STOP, g.types);
    assert PutColumns([], g.values) == g.values;
    assert Prepend(STOP_MARK, g).(types := g.types) == g;
  }

  /** What is left after the type and the id of a field have been read. */
  lemma ReadsHeader(kind: Kind, number: U32, g: Frame)
    ensures var f := Prepend(Encoded([kind], [number], [], []), g);
            && f.types != []
            && ReadU32(f.types) == Ok((kind, g.types)) && ReadU32(f.ids) == Ok((number, g.ids))
            && f.(types := g.types, ids := g.ids) == g
  {
    ReadPacked(kind, g.types);
    ReadPacked(number, g.ids);
    assert PutColumns([], g.values) == g.values;
  }

  // One unfolding of the decoder each, on arbitrary frames.

  lemma MessageStep(schema: Schema, typeName: string, pathHash: U32, m: Message, f: Frame, kind: Kind, number: U32,
                    f1: Frame, m1: Message, g1: Frame, m2: Message, g: Frame)
    requires f.types != [] && ReadU32(f.types) == Ok((kind, f1.types)) && ReadU32(f.ids) == Ok((number, f1.ids))
    requires f.(types := f1.types, ids := f1.ids) == f1
    requires Reads(ReadEntry(schema, typeName, pathHash, kind, number, m, f1), m1, g1)
    requires Reads(ReadMessage(schema, typeName, pathHash, m1, g1), m2, g)
    ensures Reads(ReadMessage(schema, typeName, pathHash, m, f), m2, g)
  {
  }

  lemma SubStep(schema: Schema, typeName: string, field: FieldDescriptor, pathHash: U32, m: Message, f: Frame,
                sub: Message, g: Frame)
    requires FindFieldByNumber(Fields(schema, typeName), field.number) == Some(field)
    requires field.kind == MESSAGE && !field.repeated
    requires Reads(ReadMessage(schema, field.messageType, ExtendPathHash(pathHash, field.number),
                               SubMessage(m, field.number), f), sub, g)
    ensures Reads(ReadEntry(schema, typeName, pathHash, field.kind, field.number, m, f),
                  SetSubMessage(m, field.number, sub), g)
  {
  }

  lemma SubsStep(schema: Schema, typeName: string, field: FieldDescriptor, pathHash: U32, m: Message, f: Frame,
                 count: U32, f1: Frame, m1: Message, g: Frame)
    requires FindFieldByNumber(Fields(schema, typeName), field.number) == Some(field)
    requires field.kind == MESSAGE && field.repeated
    requires ReadU32(f.lens) == Ok((count, f1.lens)) && f.(lens := f1.lens) == f1
    requires Reads(ReadSubMessages(schema, field.messageType, ExtendPathHash(pathHash, field.number),
                                   field.number, m, f1, count), m1, g)
    ensures Reads(ReadEntry(schema, typeName, pathHash, field.kind, field.number, m, f), m1, g)
  {
  }

  lemma ElementStep(schema: Schema, typeName: string, pathHash: U32, number: U32, m: Message, f: Frame, count: nat,
                    sub: Message, g1: Frame, m2: Message, g: Frame)
    requires count > 0
    requires Reads(ReadMessage(schema, typeName, pathHash, EMPTY, f), sub, g1)
    requires Reads(ReadSubMessages(schema, typeName, pathHash, number, AddSubMessage(m, number, sub), g1, count - 1), m2, g)
    ensures Reads(ReadSubMessages(schema, typeName, pathHash, number, m, f, count), m2, g)
  {
  }

  lemma {:induction false} ReadsEntries(schema: Schema, typeName: string, pathHash: U32, done: seq<Entry>, es: seq<Entry>, g: Frame)
    requires EntriesConform(schema, typeName, es)
    requires forall e :: e in es ==> Absent(done, e.number)
    requires Ready(ShredEntries(schema, typeName, pathHash, es).cells, g)
    ensures Reads(ReadMessage(schema, typeName, pathHash, Message(done), Prepend(ShredEntries(schema, typeName, pathHash, es), g)),
                  Message(done + es), g)
    decreases es, 0
  {
    if es == [] {
      ReadsStop(schema, typeName, pathHash, Message(done), g);
      assert done + es == done;
    } else {
      var e := es[0];
      var field := FindFieldByNumber(Fields(schema, typeName), e.number).value;
      var payload := Payload(schema, field, pathHash, e.value);
      var header := Encoded([field.kind], [e.number], [], []);
      var rest := ShredEntries(schema, typeName, pathHash, es[1..]);
      var g1 := Prepend(rest, g);
      assert ShredEntry(schema, typeName, pathHash, e) == Join(header, payload);
      assert ShredEntries(schema, typeName, pathHash, es) == Join(Join(header, payload), rest);
      FirstEntry(header, payload, rest, g);
      ReadsHeader(field.kind, e.number, Prepend(payload, g1));
      ReadsPayload(schema, typeName, field, pathHash, done, e, g1);
      StillAbsent(done, es);
      ReadsEntries(schema, typeName, pathHash, done + [e], es[1..], g);
      MoveOver(done, es);
      MessageStep(schema, typeName, pathHash, Message(done), Prepend(header, Prepend(payload, g1)), field.kind, e.number,
                  Prepend(payload, g1), Message(done + [e]), g1, Message(done + es), g);
    }
  }

  /** The encoding of a first field, split into what is read in turn. */
  lemma FirstEntry(header: Encoded, payload: Encoded, rest: Encoded, g: Frame)
    requires header.cells == []
    requires Ready(Join(Join(header, payload), rest).cells, g)
    ensures Prepend(Join(Join(header, payload), rest), g) == Prepend(header, Prepend(payload, Prepend(rest, g)))
    ensures Ready(payload.cells, Prepend(rest, g)) && Ready(rest.cells, g)
  {
    PrependJoin(Join(header, payload), rest, g);
    PrependJoin(header, payload, Prepend(rest, g));
    assert [] + payload.cells == payload.cells;
    ReadyParts(payload.cells, rest.cells, g);
    ReadyBehind(payload.cells, rest, g);
  }

  lemma StillAbsent(done: seq<Entry>, es: seq<Entry>)
    requires es != [] && Absent(es[1..], es[0].number)
    requires forall e :: e in es ==> Absent(done, e.number)
    ensures forall e :: e in es[1..] ==> Absent(done + [es[0]], e.number)
  {
    forall e | e in es[1..] ensures Absent(done + [es[0]], e.number) {
      assert e in es;
    }
  }

  lemma {:induction false} ReadsPayload(schema: Schema, typeName: string, field: FieldDescriptor, pathHash: U32,
                                        done: seq<Entry>, e: Entry, g: Frame)
    requires FindFieldByNumber(Fields(schema, typeName), field.number) == Some(field)
    requires e.number == field.number && PayloadConforms(schema, field, e.value)
    requires Absent(done, field.number)
    requires Ready(Payload(schema, field, pathHash, e.value).cells, g)
    ensures Reads(ReadEntry(schema, typeName, pathHash, field.kind, field.number, Message(done),
                            Prepend(Payload(schema, field, pathHash, e.value), g)),
                  Message(done + [e]), g)
    decreases e, 0
  {
    if field.kind != MESSAGE {
      ReadsLeaf(schema, field, pathHash, done, e.value, g);
    } else {
      var childHash := ExtendPathHash(pathHash, field.number);
      PutAbsent(done, field.number, e.value);
      match e.value
      case Sub(m) =>
        assert Payload(schema, field, pathHash, e.value) == ShredEntries(schema, field.messageType, childHash, m.entries);
        assert EntriesConform(schema, field.messageType, m.entries);
        ReadsEntries(schema, field.messageType, childHash, [], m.entries, g);
        assert [] + m.entries == m.entries;
        SubStep(schema, typeName, field, pathHash, Message(done), Prepend(Shred(schema, field.messageType, childHash, m), g), m, g);
      case Subs(ms) =>
        var subs := ShredAll(schema, field.messageType, childHash, ms);
        assert Payload(schema, field, pathHash, e.value).cells == subs.cells;
        PrependJoin(Count(|ms|), subs, g);
        var f := Prepend(subs, g);
        ReadPacked(|ms|, f.lens);
        assert PutColumns([], f.values) == f.values;
        assert Prepend(Count(|ms|), f).(lens := f.lens) == f;
        ReadsAll(schema, field.messageType, childHash, field.number, done, [], ms, g);
        assert [] + ms == ms;
        SubsStep(schema, typeName, field, pathHash, Message(done), Prepend(Count(|ms|), f), |ms|, f,
                 Message(done + [e]), g);
    }
  }

  lemma {:induction false} ReadsAll(schema: Schema, typeName: string, pathHash: U32, number: U32, done: seq<Entry>,
                                    before: seq<Message>, ms: seq<Message>, g: Frame)
    requires Absent(done, number)
    requires AllConform(schema, typeName, ms)
    requires Ready(ShredAll(schema, typeName, pathHash, ms).cells, g)
    ensures Reads(ReadSubMessages(schema, typeName, pathHash, number, PartialSubs(done, number, before),
                                  Prepend(ShredAll(schema, typeName, pathHash, ms), g), |ms|),
                  PartialSubs(done, number, before + ms), g)
    decreases ms, 0
  {
    hide ReadMessage, AddSubMessage, EntriesConform, ShredEntries;
    if ms == [] {
      assert PutColumns([], g.values) == g.values;
      assert Prepend(Encoded([], [], [], []), g) == g;
      assert before + ms == before;
    } else {
      var first := Shred(schema, typeName, pathHash, ms[0]);
      var rest := ShredAll(schema, typeName, pathHash, ms[1..]);
      PrependJoin(first, rest, g);
      ReadyParts(first.cells, rest.cells, g);
      ReadyBehind(first.cells, rest, g);
      ReadsEntries(schema, typeName, pathHash, [], ms[0].entries, Prepend(rest, g));
      assert [] + ms[0].entries == ms[0].entries;
      AddPartialSub(done, number, before, ms[0]);
      ReadsAll(schema, typeName, pathHash, number, done, before + [ms[0]], ms[1..], g);
      MoveOver(before, ms);
      ElementStep(schema, typeName, pathHash, number, PartialSubs(done, number, before), Prepend(first, Prepend(rest, g)),
                  |ms|, ms[0], Prepend(rest, g), PartialSubs(done, number, before + ms), g);
    }
  }

  /** Main result. Reading the encoding of a message in front of any other
      streams gives the message back and leaves exactly those streams, through
      nested and repeated messages that share columns. */
  lemma DecoderInvertsEncoder(schema: Schema, typeName: string, pathHash: U32, m: Message, g: Frame)
    requires Conforms(schema, typeName, m)
    requires Ready(Shred(schema, typeName, pathHash, m).cells, g)
    ensures Reads(ReadMessage(schema, typeName, pathHash, EMPTY, Prepend(Shred(schema, typeName, pathHash, m), g)), m, g)
  {
    ReadsEntries(schema, typeName, pathHash, [], m.entries, g);
    assert [] + m.entries == m.entries;
  }
}
