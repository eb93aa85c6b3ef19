/** The other direction of the frame codec: when encoding what a frame decoded to
    gives back the streams that were read, and when it does not. */
module StructuredReencoding {

  import opened Results
  import opened LittleEndian
  import opened PathHash
  import opened Schemas
  import opened Messages
  import opened StructuredReader
  import opened StructuredWriter

  // ----- frames that an encoder can have written -----

  /** The message is closed by its stop word, names no field twice, repeats none
      zero times, and so do the messages in it. */
  ghost predicate Canonical(schema: Schema, typeName: string, pathHash: U32, m: Message, f: Frame)
    decreases |f.types|, 0, 0
  {
    var front := ReadFront(f);
    front.Ok? && f.types != [] &&
    (front.value.Next? ==>
       var g, fieldType, fieldId := front.value.frame, front.value.fieldType, front.value.fieldId;
       var step := ReadEntry(schema, typeName, pathHash, fieldType, fieldId, m, g);
       && EntryCanonical(schema, typeName, pathHash, fieldId, m, g)
       && (step.Ok? ==> Canonical(schema, typeName, pathHash, step.value.message, step.value.frame)))
  }

  ghost predicate EntryCanonical(schema: Schema, typeName: string, pathHash: U32, fieldId: U32, m: Message, f: Frame)
    decreases |f.types|, 2, 0
  {
    match FindFieldByNumber(Fields(schema, typeName), fieldId)
    case None => true
    case Some(field) =>
      && Absent(m.entries, fieldId)
      && (field.repeated && |f.lens| >= 4 ==> ReadU32(f.lens).value.0 > 0)
      && (field.kind == MESSAGE ==>
            var childHash := ExtendPathHash(pathHash, fieldId);
            if !field.repeated then Canonical(schema, field.messageType, childHash, EMPTY, f)
            else |f.lens| >= 4 ==>
              var (count, lens) := ReadU32(f.lens).value;
              ElementsCanonical(schema, field.messageType, childHash, f.(lens := lens), count))
  }

  ghost predicate ElementsCanonical(schema: Schema, typeName: string, pathHash: U32, f: Frame, count: nat)
    decreases |f.types|, 1, count
  {
    count > 0 ==>
      var sub := ReadMessage(schema, typeName, pathHash, EMPTY, f);
      && Canonical(schema, typeName, pathHash, EMPTY, f)
      && (sub.Ok? ==> ElementsCanonical(schema, typeName, pathHash, sub.value.frame, count - 1))
  }

  // ----- what is read, encoded again -----

  /** The columns and length words behind a value. */
  ghost predicate Wrote(e: Encoded, tag: int, c: Cursor, lens: seq<Byte>, c1: Cursor, lens1: seq<Byte>) {
    c == PutCells(e.cells, tag, c1) && lens == Pack(e.lens, 4) + lens1
  }

  lemma PackWord(s: seq<Byte>)
    requires |s| >= 4
    ensures Pack([ReadU32(s).value.0], 4) + ReadU32(s).value.1 == s
  {
    ToFromLE(s[..4]);
    PackOne(ReadU32(s).value.0);
  }

  lemma WritesValue(kind: Kind, tag: int, c: Cursor, lens: seq<Byte>)
    requires kind != MESSAGE && ReadValue(kind, c, lens).Ok?
    ensures var r := ReadValue(kind, c, lens).value;
            && ValidValue(kind, r.value) && r.cursor.text == c.text && (kind == STRING ==> c.text)
            && Wrote(ShredValue(tag, kind, r.value), tag, c, lens, r.cursor, r.lens)
  {
    var r := ReadValue(kind, c, lens).value;
    var cell := Cell(tag, kind, r.value);
    assert PutCells([cell], tag, r.cursor) == PutCell(cell, PutCells([], tag, r.cursor));
    if kind == STRING {
      PackWord(lens);
      var n := ReadU32(lens).value.0;
      assert c.data[..n] + c.data[n..] == c.data;
      assert [c.lengths[0]] + c.lengths[1..] == c.lengths;
    } else {
      ToFromLE(c.data[..Width(kind)]);
      assert c.data[..Width(kind)] + c.data[Width(kind)..] == c.data;
      assert Pack([], 4) + lens == lens;
    }
  }

  lemma WroteJoin(a: Encoded, b: Encoded, tag: int, c: Cursor, lens: seq<Byte>, c1: Cursor, lens1: seq<Byte>, c2: Cursor, lens2: seq<Byte>)
    requires Wrote(a, tag, c, lens, c1, lens1) && Wrote(b, tag, c1, lens1, c2, lens2)
    ensures Wrote(Join(a, b), tag, c, lens, c2, lens2)
  {
    PutCellsJoin(a.cells, b.cells, tag, c2);
    PackJoin(a.lens, b.lens, lens2);
  }

  lemma {:induction false} WritesRepeated(field: FieldDescriptor, done: seq<Entry>, before: seq<Value>, tag: int,
                                          c: Cursor, lens: seq<Byte>, count: nat)
    returns (vs: seq<Value>)
    requires field.kind != MESSAGE && Absent(done, field.number)
    requires ReadRepeated(field, Partial(done, field.number, before), c, lens, count).Ok?
    ensures var r := ReadRepeated(field, Partial(done, field.number, before), c, lens, count).value;
            && |vs| == count && r.message == Partial(done, field.number, before + vs)
            && r.cursor.text == c.text && (count > 0 && field.kind == STRING ==> c.text)
            && Wrote(ShredValues(tag, field.kind, vs), tag, c, lens, r.cursor, r.lens)
    ensures forall v :: v in vs ==> ValidValue(field.kind, v)
    decreases count
  {
    hide ReadValue, AddValue, ShredValue, ValidValue, Wrote;
    if count == 0 {
      vs := [];
      assert before + vs == before;
      WroteNothing(tag, c, lens);
    } else {
      var v := ReadValue(field.kind, c, lens).value;
      WritesValue(field.kind, tag, c, lens);
      AddPartial(done, field.number, before, v.value);
      var rest := WritesRepeated(field, done, before + [v.value], tag, v.cursor, v.lens, count - 1);
      vs := [v.value] + rest;
      assert vs[1..] == rest;
      assert before + vs == before + [v.value] + rest;
      var r := ReadRepeated(field, Partial(done, field.number, before + [v.value]), v.cursor, v.lens, count - 1).value;
      WroteJoin(ShredValue(tag, field.kind, v.value), ShredValues(tag, field.kind, rest), tag,
                c, lens, v.cursor, v.lens, r.cursor, r.lens);
    }
  }

  lemma WroteNothing(tag: int, c: Cursor, lens: seq<Byte>)
    ensures Wrote(Encoded([], [], [], []), tag, c, lens, c, lens)
  {
    assert Pack([], 4) + lens == lens;
  }

  /** A leaf's encoding in front of the frame that it left. */
  lemma WroteFrame(e: Encoded, tag: int, f: Frame, c1: Cursor, lens1: seq<Byte>)
    requires e.types == [] && e.ids == [] && (forall c :: c in e.cells ==> c.tag == tag)
    requires tag in f.values && Wrote(e, tag, f.values[tag], f.lens, c1, lens1)
    ensures f == Prepend(e, f.(values := f.values[tag := c1], lens := lens1))
  {
    var g := f.(values := f.values[tag := c1], lens := lens1);
    forall t | t in f.values ensures PutCells(e.cells, t, g.values[t]) == f.values[t] {
      if t != tag {
        PutOtherCells(e.cells, t, g.values[t]);
      }
    }
    assert PutColumns(e.cells, g.values) == f.values;
    assert Pack([], 4) + f.types == f.types && Pack([], 4) + f.ids == f.ids;
  }

  /** The same columns, by tag and type, and none unbound. */
  ghost predicate SameColumns(f: Frame, g: Frame) {
    && f.ordered == [] && g.ordered == [] && g.values.Keys == f.values.Keys
    && forall tag :: tag in f.values ==> g.values[tag].text == f.values[tag].text
  }

  lemma SameColumnsTrans(f: Frame, g: Frame, h: Frame)
    requires SameColumns(f, g) && SameColumns(g, h)
    ensures SameColumns(f, h)
  {
  }

  lemma ReadyAlong(cells: seq<Cell>, f: Frame, g: Frame)
    requires Ready(cells, f) && SameColumns(f, g)
    ensures Ready(cells, g)
  {
  }

  lemma ReadyBefore(cells: seq<Cell>, f: Frame, g: Frame)
    requires Ready(cells, g) && SameColumns(f, g)
    ensures Ready(cells, f)
  {
  }

  /** One value, or a count and so many values. */
  lemma WritesField(schema: Schema, field: FieldDescriptor, pathHash: U32, done: seq<Entry>, tag: int, c: Cursor, lens: seq<Byte>)
    returns (value: FieldValue, e: Encoded)
    requires field.kind != MESSAGE && Absent(done, field.number) && tag == FieldTag(pathHash, field.number)
    requires field.repeated && |lens| >= 4 ==> ReadU32(lens).value.0 > 0
    requires ReadField(field, Message(done), c, lens).Ok?
    ensures var r := ReadField(field, Message(done), c, lens).value;
            && PayloadConforms(schema, field, value) && r.message == Message(done + [Entry(field.number, value)])
            && r.cursor.text == c.text && (field.kind == STRING ==> c.text)
            && e == Payload(schema, field, pathHash, value) && e.types == [] && e.ids == []
            && (forall cell :: cell in e.cells ==> cell.tag == tag && cell.kind == field.kind)
            && Wrote(e, tag, c, lens, r.cursor, r.lens)
  {
    hide FieldTag, ReadValue, ReadRepeated, ValidValue, Put, Get, ShredValues, Wrote;
    if field.repeated {
      var count := ReadU32(lens).value;
      var vs := WritesRepeated(field, done, [], tag, c, count.1, count.0);
      value := Many(vs);
      e := Join(Count(|vs|), ShredValues(tag, field.kind, vs));
      assert [] + vs == vs;
      ShredValuesCells(tag, field.kind, vs);
      WroteCount(lens, tag, c);
      var r := ReadRepeated(field, Message(done), c, count.1, count.0).value;
      WroteJoin(Count(|vs|), ShredValues(tag, field.kind, vs), tag, c, lens, c, count.1, r.cursor, r.lens);
    } else {
      var v := ReadValue(field.kind, c, lens).value;
      WritesValue(field.kind, tag, c, lens);
      value := One(v.value);
      e := ShredValue(tag, field.kind, v.value);
      PutAbsent(done, field.number, value);
    }
  }

  lemma WroteCount(lens: seq<Byte>, tag: int, c: Cursor)
    requires |lens| >= 4
    ensures Wrote(Count(ReadU32(lens).value.0), tag, c, lens, c, ReadU32(lens).value.1)
  {
    PackWord(lens);
  }

  lemma WritesLeaf(schema: Schema, field: FieldDescriptor, pathHash: U32, done: seq<Entry>, f: Frame) returns (value: FieldValue)
    requires f.ordered == [] && field.kind != MESSAGE && Absent(done, field.number)
    requires field.repeated && |f.lens| >= 4 ==> ReadU32(f.lens).value.0 > 0
    requires ReadLeaf(field, pathHash, Message(done), f).Ok?
    ensures var r := ReadLeaf(field, pathHash, Message(done), f).value;
            && PayloadConforms(schema, field, value) && r.message == Message(done + [Entry(field.number, value)])
            && SameColumns(f, r.frame) && r.frame.ordered == [] && Ready(Payload(schema, field, pathHash, value).cells, f)
            && f == Prepend(Payload(schema, field, pathHash, value), r.frame)
  {
    hide FieldTag, ReadField, Wrote, Prepend, PayloadConforms, Payload;
    var tag := FieldTag(pathHash, field.number);
    var e;
    value, e := WritesField(schema, field, pathHash, done, tag, f.values[tag], f.lens);
    var r := ReadField(field, Message(done), f.values[tag], f.lens).value;
    WroteFrame(e, tag, f, r.cursor, r.lens);
  }

  /** The type and id of a field, in front of the rest. */
  lemma WroteHeader(f: Frame)
    requires ReadFront(f).Ok? && ReadFront(f).value.Next?
    ensures var n := ReadFront(f).value;
            && n.fieldType != STOP && n.frame.ordered == f.ordered
            && SameColumns(f, n.frame) == (f.ordered == []) && f == Prepend(Encoded([n.fieldType], [n.fieldId], [], []), n.frame)
  {
    PackWord(f.types);
    PackWord(f.ids);
    var n := ReadFront(f).value;
    assert Pack([], 4) + f.lens == f.lens;
    assert PutColumns([], f.values) == f.values;
  }

  lemma WroteStop(f: Frame)
    requires ReadFront(f).Ok? && ReadFront(f).value.End? && f.types != []
    ensures var g := ReadFront(f).value.frame;
            SameColumns(f, g) == (f.ordered == []) && g.ordered == f.ordered && f == Prepend(STOP_MARK, g)
  {
    PackWord(f.types);
    assert Pack([], 4) + f.ids == f.ids && Pack([], 4) + f.lens == f.lens;
    assert PutColumns([], f.values) == f.values;
  }

  /** A count word of the length stream, in front of the rest. */
  lemma WroteCountFrame(f: Frame)
    requires |f.lens| >= 4 && f.ordered == []
    ensures var (count, lens) := ReadU32(f.lens).value;
            SameColumns(f, f.(lens := lens)) && f == Prepend(Count(count), f.(lens := lens))
  {
    PackWord(f.lens);
    assert Pack([], 4) + f.types == f.types && Pack([], 4) + f.ids == f.ids;
    assert PutColumns([], f.values) == f.values;
  }

  /** A first part in front of a second one. */
  lemma WroteBoth(a: Encoded, b: Encoded, f: Frame, g: Frame, h: Frame)
    requires f == Prepend(a, g) && g == Prepend(b, h) && SameColumns(f, g) && SameColumns(g, h)
    requires Ready(a.cells, f) && Ready(b.cells, g)
    ensures f == Prepend(Join(a, b), h) && SameColumns(f, h) && Ready(Join(a, b).cells, f)
  {
    ReadyBefore(b.cells, f, g);
    SameColumnsTrans(f, g, h);
    hide Prepend, PutColumns, SameColumns;
    PrependJoin(a, b, h);
  }

  /** The message behind the readers, after the entries that are done. */
  ghost predicate Rewrites(schema: Schema, typeName: string, pathHash: U32, done: seq<Entry>, es: seq<Entry>, f: Frame, r: Read) {
    var e := ShredEntries(schema, typeName, pathHash, es);
    && r.message == Message(done + es) && EntriesConform(schema, typeName, es)
    && (forall x :: x in es ==> Absent(done, x.number))
    && SameColumns(f, r.frame) && r.frame.ordered == [] && Ready(e.cells, f) && f == Prepend(e, r.frame)
  }

  lemma {:induction false} WritesEntries(schema: Schema, typeName: string, pathHash: U32, done: seq<Entry>, f: Frame)
    returns (es: seq<Entry>)
    requires f.ordered == [] && ReadMessage(schema, typeName, pathHash, Message(done), f).Ok?
    requires Canonical(schema, typeName, pathHash, Message(done), f)
    ensures Rewrites(schema, typeName, pathHash, done, es, f, ReadMessage(schema, typeName, pathHash, Message(done), f).value)
    decreases |f.types|, 0, 0
  {
    hide ReadFront, ReadEntry, EntryCanonical, Prepend, SameColumns, ShredEntry, EntryConforms, Ready, Payload;
    var front := ReadFront(f).value;
    if front.End? {
      es := [];
      WroteStop(f);
      NothingReady(f);
      assert done + es == done;
    } else {
      var g := front.frame;
      WroteHeader(f);
      var value := WritesEntry(schema, typeName, pathHash, front.fieldType, front.fieldId, done, g);
      var entry := Entry(front.fieldId, value);
      var step := ReadEntry(schema, typeName, pathHash, front.fieldType, front.fieldId, Message(done), g).value;
      var rest := WritesEntries(schema, typeName, pathHash, done + [entry], step.frame);
      var r := ReadMessage(schema, typeName, pathHash, step.message, step.frame).value;
      es := [entry] + rest;
      hide ReadMessage;
      MoreEntries(schema, typeName, pathHash, done, entry, rest, f, g, step.frame, r);
    }
  }

  /** The frames of a first entry and of those behind it. */
  lemma FramesJoin(header: Encoded, payload: Encoded, rest: Encoded, f: Frame, g: Frame, h: Frame, k: Frame)
    requires header.cells == []
    requires f == Prepend(header, g) && SameColumns(f, g)
    requires g == Prepend(payload, h) && SameColumns(g, h) && Ready(payload.cells, g)
    requires h == Prepend(rest, k) && SameColumns(h, k) && Ready(rest.cells, h)
    ensures var e := Join(Join(header, payload), rest);
            f == Prepend(e, k) && SameColumns(f, k) && Ready(e.cells, f)
  {
    NothingReady(f);
    hide Prepend, SameColumns, Join, Ready;
    WroteBoth(header, payload, f, g, h);
    WroteBoth(Join(header, payload), rest, f, h, k);
  }

  lemma EntriesJoin(schema: Schema, typeName: string, pathHash: U32, entry: Entry, rest: seq<Entry>)
    requires FindFieldByNumber(Fields(schema, typeName), entry.number).Some?
    requires EntryConforms(schema, typeName, entry) && EntriesConform(schema, typeName, rest) && Absent(rest, entry.number)
    ensures EntriesConform(schema, typeName, [entry] + rest)
    ensures var field := FindFieldByNumber(Fields(schema, typeName), entry.number).value;
            ShredEntries(schema, typeName, pathHash, [entry] + rest)
            == Join(Join(Encoded([field.kind], [entry.number], [], []), Payload(schema, field, pathHash, entry.value)),
                    ShredEntries(schema, typeName, pathHash, rest))
  {
    hide EntryConforms, Payload, Join;
    var es := [entry] + rest;
    assert es[1..] == rest && es[0] == entry;
  }

  lemma MoreEntries(schema: Schema, typeName: string, pathHash: U32, done: seq<Entry>, entry: Entry, rest: seq<Entry>,
                    f: Frame, g: Frame, h: Frame, r: Read)
    requires Rewrites(schema, typeName, pathHash, done + [entry], rest, h, r)
    requires Absent(done, entry.number) && EntryConforms(schema, typeName, entry)
    requires FindFieldByNumber(Fields(schema, typeName), entry.number).Some?
    requires var field := FindFieldByNumber(Fields(schema, typeName), entry.number).value;
             var header, payload := Encoded([field.kind], [entry.number], [], []), Payload(schema, field, pathHash, entry.value);
             && f == Prepend(header, g) && SameColumns(f, g)
             && g == Prepend(payload, h) && SameColumns(g, h) && Ready(payload.cells, g)
    ensures Rewrites(schema, typeName, pathHash, done, [entry] + rest, f, r)
  {
    hide Prepend, SameColumns, Payload, EntryConforms, EntriesConform, ShredEntries, Ready, Absent, Join;
    var field := FindFieldByNumber(Fields(schema, typeName), entry.number).value;
    StillAbsentBehind(done, entry, rest);
    EntriesJoin(schema, typeName, pathHash, entry, rest);
    FramesJoin(Encoded([field.kind], [entry.number], [], []), Payload(schema, field, pathHash, entry.value),
               ShredEntries(schema, typeName, pathHash, rest), f, g, h, r.frame);
    assert done + ([entry] + rest) == done + [entry] + rest;
  }

  lemma NothingReady(f: Frame)
    ensures Ready([], f)
  {
  }

  lemma StillAbsentBehind(done: seq<Entry>, entry: Entry, rest: seq<Entry>)
    requires forall x :: x in rest ==> Absent(done + [entry], x.number)
    requires Absent(done, entry.number)
    ensures Absent(rest, entry.number) && forall x :: x in [entry] + rest ==> Absent(done, x.number)
  {
    forall x | x in rest ensures x.number != entry.number && Absent(done, x.number) {
      assert entry in done + [entry];
      forall y | y in done ensures y.number != x.number {
        assert y in done + [entry];
      }
    }
  }

  lemma {:induction false} WritesEntry(schema: Schema, typeName: string, pathHash: U32, fieldType: U32, fieldId: U32,
                                       done: seq<Entry>, f: Frame)
    returns (value: FieldValue)
    requires f.ordered == [] && ReadEntry(schema, typeName, pathHash, fieldType, fieldId, Message(done), f).Ok?
    requires EntryCanonical(schema, typeName, pathHash, fieldId, Message(done), f)
    ensures var step := ReadEntry(schema, typeName, pathHash, fieldType, fieldId, Message(done), f).value;
            var found := FindFieldByNumber(Fields(schema, typeName), fieldId);
            && found.Some? && fieldType == found.value.kind && Absent(done, fieldId)
            && EntryConforms(schema, typeName, Entry(fieldId, value)) && step.message == Message(done + [Entry(fieldId, value)])
            && var e := Payload(schema, found.value, pathHash, value);
            SameColumns(f, step.frame) && step.frame.ordered == [] && Ready(e.cells, f) && f == Prepend(e, step.frame)
    decreases |f.types|, 2, 0
  {
    hide FieldTag, ExtendPathHash, ReadLeaf, ReadMessage, ReadSubMessages, Canonical, ElementsCanonical, SameColumns, Prepend,
         Put, Get, ValidValue, ShredEntries, EntriesConform;
    var field, childHash := FindFieldByNumber(Fields(schema, typeName), fieldId).value, ExtendPathHash(pathHash, fieldId);
    if field.kind != MESSAGE {
      value := WritesLeaf(schema, field, pathHash, done, f);
    } else if !field.repeated {
      AbsentSub(done, fieldId);
      var es := WritesEntries(schema, field.messageType, childHash, [], f);
      value := Sub(Message(es));
      assert [] + es == es;
      assert Payload(schema, field, pathHash, value) == Shred(schema, field.messageType, childHash, Message(es));
      assert Payload(schema, field, pathHash, value) == ShredEntries(schema, field.messageType, childHash, es);
      PutAbsent(done, fieldId, value);
      assert Conforms(schema, field.messageType, Message(es));
      assert PayloadConforms(schema, field, value);
    } else {
      var count := ReadU32(f.lens).value;
      var g := f.(lens := count.1);
      WroteCountFrame(f);
      var ms := WritesElements(schema, field.messageType, childHash, fieldId, done, [], g, count.0);
      value := Subs(ms);
      assert [] + ms == ms;
      assert PayloadConforms(schema, field, value);
      NothingReady(f);
      WroteBoth(Count(count.0), ShredAll(schema, field.messageType, childHash, ms), f, g,
                ReadSubMessages(schema, field.messageType, childHash, fieldId, Message(done), g, count.0).value.frame);
    }
  }

  lemma AbsentSub(done: seq<Entry>, number: U32)
    requires Absent(done, number)
    ensures SubMessage(Message(done), number) == EMPTY
  {
    PutAbsent(done, number, Sub(EMPTY));
  }

  lemma {:induction false} WritesElements(schema: Schema, typeName: string, pathHash: U32, number: U32, done: seq<Entry>,
                                          before: seq<Message>, f: Frame, count: nat)
    returns (ms: seq<Message>)
    requires f.ordered == [] && Absent(done, number)
    requires ReadSubMessages(schema, typeName, pathHash, number, PartialSubs(done, number, before), f, count).Ok?
    requires ElementsCanonical(schema, typeName, pathHash, f, count)
    ensures var r := ReadSubMessages(schema, typeName, pathHash, number, PartialSubs(done, number, before), f, count).value;
            var e := ShredAll(schema, typeName, pathHash, ms);
            && |ms| == count && AllConform(schema, typeName, ms) && r.message == PartialSubs(done, number, before + ms)
            && SameColumns(f, r.frame) && r.frame.ordered == [] && Ready(e.cells, f) && f == Prepend(e, r.frame)
    decreases |f.types|, 1, count
  {
    hide ReadMessage, Canonical, SameColumns, Prepend, AddSubMessage, ShredEntries, EntriesConform;
    if count == 0 {
      ms := [];
      assert before + ms == before;
      WroteNoFrame(f);
    } else {
      var sub := ReadMessage(schema, typeName, pathHash, EMPTY, f).value;
      var es := WritesEntries(schema, typeName, pathHash, [], f);
      assert [] + es == es;
      AddPartialSub(done, number, before, sub.message);
      var rest := WritesElements(schema, typeName, pathHash, number, done, before + [sub.message], sub.frame, count - 1);
      ms := [sub.message] + rest;
      assert ms[1..] == rest && before + ms == before + [sub.message] + rest;
      var r := ReadSubMessages(schema, typeName, pathHash, number, PartialSubs(done, number, before + [sub.message]),
                               sub.frame, count - 1).value;
      WroteBoth(Shred(schema, typeName, pathHash, sub.message), ShredAll(schema, typeName, pathHash, rest), f, sub.frame, r.frame);
    }
  }

  lemma WroteNoFrame(f: Frame)
    requires f.ordered == []
    ensures SameColumns(f, f) && f == Prepend(Encoded([], [], [], []), f)
  {
    assert PutColumns([], f.values) == f.values;
    assert Pack([], 4) + f.types == f.types && Pack([], 4) + f.ids == f.ids && Pack([], 4) + f.lens == f.lens;
  }

  // ----- an encoding is canonical -----

  lemma {:induction false} EncodedCanonical(schema: Schema, typeName: string, pathHash: U32, done: seq<Entry>, es: seq<Entry>, g: Frame)
    requires EntriesConform(schema, typeName, es)
    requires forall e :: e in es ==> Absent(done, e.number)
    requires Ready(ShredEntries(schema, typeName, pathHash, es).cells, g)
    ensures Canonical(schema, typeName, pathHash, Message(done), Prepend(ShredEntries(schema, typeName, pathHash, es), g))
    decreases es, 0
  {
    hide ReadLeaf, ReadSubMessages, FieldTag, ExtendPathHash, Payload, ReadMessage, ReadEntry, EntryCanonical, PayloadConforms;
    if es == [] {
      ReadPacked(STOP, g.types);
      PackOne(STOP);
    } else {
      var e, rest := es[0], ShredEntries(schema, typeName, pathHash, es[1..]);
      var field := FindFieldByNumber(Fields(schema, typeName), e.number).value;
      var payload := Payload(schema, field, pathHash, e.value);
      var header := Encoded([field.kind], [e.number], [], []);
      var g2 := Prepend(rest, g);
      var g1 := Prepend(payload, g2);
      FirstEntry(header, payload, rest, g);
      ReadsHeader(field.kind, e.number, g1);
      var f := Prepend(header, g1);
      assert f.(types := g1.types, ids := g1.ids) == g1;
      ReadsPayload(schema, typeName, field, pathHash, done, e, g2);
      PayloadCanonical(schema, typeName, field, pathHash, done, e, g2);
      StillAbsent(done, es);
      EncodedCanonical(schema, typeName, pathHash, done + [e], es[1..], g);
      hide Prepend, Join, Ready;
      CanonicalStep(schema, typeName, pathHash, done, e, field.kind, f, g1, g2);
    }
  }

  lemma CanonicalStep(schema: Schema, typeName: string, pathHash: U32, done: seq<Entry>, e: Entry, kind: Kind,
                      f: Frame, g1: Frame, g2: Frame)
    requires f.types != [] && ReadFront(f) == Ok(Next(g1, kind, e.number))
    requires EntryCanonical(schema, typeName, pathHash, e.number, Message(done), g1)
    requires Reads(ReadEntry(schema, typeName, pathHash, kind, e.number, Message(done), g1), Message(done + [e]), g2)
    requires Canonical(schema, typeName, pathHash, Message(done + [e]), g2)
    ensures Canonical(schema, typeName, pathHash, Message(done), f)
  {
    hide ReadFront, ReadEntry, EntryCanonical;
  }

  lemma {:induction false} PayloadCanonical(schema: Schema, typeName: string, field: FieldDescriptor, pathHash: U32,
                                            done: seq<Entry>, e: Entry, g: Frame)
    requires FindFieldByNumber(Fields(schema, typeName), field.number) == Some(field)
    requires e.number == field.number && PayloadConforms(schema, field, e.value)
    requires Absent(done, field.number)
    requires Ready(Payload(schema, field, pathHash, e.value).cells, g)
    ensures EntryCanonical(schema, typeName, pathHash, field.number, Message(done),
                           Prepend(Payload(schema, field, pathHash, e.value), g))
    decreases e, 0
  {
    hide ExtendPathHash, FieldTag, ReadLeaf, Canonical, ElementsCanonical, ShredEntries, ShredAll, ShredValues, ValidValue, Prepend, Ready;
    var childHash := ExtendPathHash(pathHash, field.number);
    match e.value {
      case One(_) =>
      case Many(vs) =>
        var cells := ShredValues(FieldTag(pathHash, field.number), field.kind, vs);
        PrependJoin(Count(|vs|), cells, g);
        CountInFront(|vs|, Prepend(cells, g));
      case Sub(m) =>
        assert Payload(schema, field, pathHash, e.value) == Shred(schema, field.messageType, childHash, m);
        assert Payload(schema, field, pathHash, e.value) == ShredEntries(schema, field.messageType, childHash, m.entries);
        EncodedCanonical(schema, field.messageType, childHash, [], m.entries, g);
      case Subs(ms) =>
        var subs := ShredAll(schema, field.messageType, childHash, ms);
        PrependJoin(Count(|ms|), subs, g);
        CountInFront(|ms|, Prepend(subs, g));
        CountCells(|ms|, subs, g);
        AllCanonical(schema, field.messageType, childHash, ms, g);
    }
  }

  lemma CountCells(n: nat, e: Encoded, g: Frame)
    requires Ready(Join(Count(n), e).cells, g)
    ensures Ready(e.cells, g)
  {
    assert Join(Count(n), e).cells == e.cells;
  }

  lemma {:induction false} AllCanonical(schema: Schema, typeName: string, pathHash: U32, ms: seq<Message>, g: Frame)
    requires AllConform(schema, typeName, ms)
    requires Ready(ShredAll(schema, typeName, pathHash, ms).cells, g)
    ensures ElementsCanonical(schema, typeName, pathHash, Prepend(ShredAll(schema, typeName, pathHash, ms), g), |ms|)
    decreases ms, 0
  {
    hide ReadMessage, Canonical, ShredEntries, EntriesConform;
    if ms != [] {
      var m, rest := ms[0], ShredAll(schema, typeName, pathHash, ms[1..]);
      var first := Shred(schema, typeName, pathHash, m);
      PrependJoin(first, rest, g);
      ReadyParts(first.cells, rest.cells, g);
      ReadyBehind(first.cells, rest, g);
      hide Prepend, Ready, Join;
      EncodedCanonical(schema, typeName, pathHash, [], m.entries, Prepend(rest, g));
      DecoderInvertsEncoder(schema, typeName, pathHash, m, Prepend(rest, g));
      AllCanonical(schema, typeName, pathHash, ms[1..], g);
    }
  }

  // ----- both directions -----

  /** The streams of f are the encoding of the message in front of those of g. */
  ghost predicate EncodingOf(schema: Schema, typeName: string, pathHash: U32, m: Message, f: Frame, g: Frame) {
    var e := Shred(schema, typeName, pathHash, m);
    Conforms(schema, typeName, m) && Ready(e.cells, g) && f == Prepend(e, g)
  }

  /** Main result. What a tagged frame decoded to, encoded again, is exactly what
      was read, if and only if every message in it was closed by its stop word,
      named no field twice and repeated none zero times. */
  lemma EncoderInvertsDecoder(schema: Schema, typeName: string, pathHash: U32, f: Frame)
    requires f.ordered == [] && ReadMessage(schema, typeName, pathHash, EMPTY, f).Ok?
    ensures var r := ReadMessage(schema, typeName, pathHash, EMPTY, f).value;
            EncodingOf(schema, typeName, pathHash, r.message, f, r.frame) <==> Canonical(schema, typeName, pathHash, EMPTY, f)
  {
    hide ReadMessage, Canonical, ShredEntries, EntriesConform, Prepend, Ready, SameColumns;
    var r := ReadMessage(schema, typeName, pathHash, EMPTY, f).value;
    if Canonical(schema, typeName, pathHash, EMPTY, f) {
      var es := WritesEntries(schema, typeName, pathHash, [], f);
      assert [] + es == es;
      ReadyAlong(ShredEntries(schema, typeName, pathHash, es).cells, f, r.frame);
    }
    if EncodingOf(schema, typeName, pathHash, r.message, f, r.frame) {
      EncodedCanonical(schema, typeName, pathHash, [], r.message.entries, r.frame);
    }
  }
}
