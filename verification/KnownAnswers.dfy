/** The formats byte by byte, on one example each: a frame, a printed sample and
    the control streams of compressor inputs. */
module KnownAnswers {

  import opened Results
  import opened LittleEndian
  import opened PathHash
  import opened SchemaPaths
  import opened Schemas
  import opened Messages
  import opened StructuredReader
  import opened StructuredWriter
  import opened SampleFormat
  import opened FrameAssembly

  lemma SmallWord(n: Byte)
    ensures ToLE(n, 4) == [n, 0, 0, 0]
  {
    WordBytes(n);
  }

  // ----- a frame -----

  /** A message with a nested message of repeated strings, and a number. */
  const EXAMPLE: Schema := map[
    "A" := [FieldDescriptor(1, MESSAGE, false, "B"), FieldDescriptor(2, INT32, false, "")],
    "B" := [FieldDescriptor(2, STRING, true, "")]]

  const STRINGS: seq<Value> := [Text([0x61, 0x62]), Text([])]
  const INNER: seq<Entry> := [Entry(2, Many(STRINGS))]
  const OUTER: seq<Entry> := [Entry(1, Sub(Message(INNER))), Entry(2, One(Scalar(5)))]

  const STRING_CELLS: seq<Cell> := [Cell(1591251046, 9, Text([0x61, 0x62])), Cell(1591251046, 9, Text([]))]
  const NUMBER_CELL: Cell := Cell(1810789175, 1, Scalar(5))

  lemma ShredsStrings()
    ensures ShredValues(1591251046, 9, STRINGS) == Encoded([], [], [2, 0], STRING_CELLS)
  {
    assert STRINGS[1..] == [Text([])] && [Text([])][1..] == [];
    assert ShredValues(1591251046, 9, []) == Encoded([], [], [], []);
    assert ShredValues(1591251046, 9, [Text([])]) == Encoded([], [], [0], [Cell(1591251046, 9, Text([]))]);
  }

  const NESTED_FIELD := FieldDescriptor(1, MESSAGE, false, "B")
  const NUMBER_FIELD := FieldDescriptor(2, INT32, false, "")
  const STRINGS_FIELD := FieldDescriptor(2, STRING, true, "")

  lemma Lookups()
    ensures FindFieldByNumber(Fields(EXAMPLE, "A"), 1) == Some(NESTED_FIELD)
    ensures FindFieldByNumber(Fields(EXAMPLE, "A"), 2) == Some(NUMBER_FIELD)
    ensures FindFieldByNumber(Fields(EXAMPLE, "B"), 2) == Some(STRINGS_FIELD)
  {
    assert Fields(EXAMPLE, "A")[1..] == [NUMBER_FIELD];
  }

  lemma EntriesUnfold(typeName: string, hash: U32, es: seq<Entry>)
    requires es != []
    ensures ShredEntries(EXAMPLE, typeName, hash, es)
         == Join(ShredEntry(EXAMPLE, typeName, hash, es[0]), ShredEntries(EXAMPLE, typeName, hash, es[1..]))
    ensures ShredEntries(EXAMPLE, typeName, hash, []) == STOP_MARK
  {
    hide ShredEntry;
  }

  lemma ShredsStringField()
    ensures ShredEntry(EXAMPLE, "B", ExtendPathHash(ROOT_PATH_HASH, 1), INNER[0]) == Encoded([9], [2], [2, 2, 0], STRING_CELLS)
  {
    hide ExtendPathHash, FieldTag, FindFieldByNumber, ShredValues, ShredEntries;
    KnownTags();
    Lookups();
    ShredsStrings();
    assert Payload(EXAMPLE, STRINGS_FIELD, ExtendPathHash(ROOT_PATH_HASH, 1), Many(STRINGS))
        == Encoded([], [], [2, 2, 0], STRING_CELLS);
  }

  lemma ShredsInner()
    ensures ShredEntries(EXAMPLE, "B", ExtendPathHash(ROOT_PATH_HASH, 1), INNER)
         == Encoded([9, STOP], [2], [2, 2, 0], STRING_CELLS)
  {
    hide ExtendPathHash, ShredEntry, ShredEntries;
    ShredsStringField();
    assert INNER[1..] == [];
    EntriesUnfold("B", ExtendPathHash(ROOT_PATH_HASH, 1), INNER);
  }

  lemma ShredsNumber()
    ensures ShredEntries(EXAMPLE, "A", ROOT_PATH_HASH, [Entry(2, One(Scalar(5)))]) == Encoded([1, STOP], [2], [], [NUMBER_CELL])
  {
    KnownTags();
    Lookups();
    hide ExtendPathHash, FieldTag, FindFieldByNumber;
    assert [Entry(2, One(Scalar(5)))][1..] == [];
    assert Payload(EXAMPLE, NUMBER_FIELD, ROOT_PATH_HASH, One(Scalar(5))) == Encoded([], [], [], [NUMBER_CELL]);
  }

  lemma ShredsNested()
    ensures ShredEntry(EXAMPLE, "A", ROOT_PATH_HASH, OUTER[0]) == Encoded([10, 9, STOP], [1, 2], [2, 2, 0], STRING_CELLS)
  {
    hide ExtendPathHash, FindFieldByNumber, ShredEntries;
    Lookups();
    ShredsInner();
    assert Payload(EXAMPLE, NESTED_FIELD, ROOT_PATH_HASH, Sub(Message(INNER)))
        == ShredEntries(EXAMPLE, "B", ExtendPathHash(ROOT_PATH_HASH, 1), INNER);
  }

  lemma ShredsOuter()
    ensures ShredEntries(EXAMPLE, "A", ROOT_PATH_HASH, OUTER)
         == Encoded([10, 9, STOP, 1, STOP], [1, 2, 2], [2, 2, 0], STRING_CELLS + [NUMBER_CELL])
  {
    hide ShredEntry, ShredEntries;
    ShredsNested();
    ShredsNumber();
    assert OUTER[1..] == [Entry(2, One(Scalar(5)))];
    EntriesUnfold("A", ROOT_PATH_HASH, OUTER);
  }

  lemma InnerConforms()
    ensures EntriesConform(EXAMPLE, "B", INNER)
  {
    Lookups();
    hide FindFieldByNumber;
    assert INNER[1..] == [];
    assert PayloadConforms(EXAMPLE, STRINGS_FIELD, Many(STRINGS));
  }

  lemma OuterConforms()
    ensures EntriesConform(EXAMPLE, "A", OUTER)
  {
    Lookups();
    hide FindFieldByNumber;
    InnerConforms();
    Pow256Widths();
    assert OUTER[1..] == [Entry(2, One(Scalar(5)))] && OUTER[1..][1..] == [];
    assert EntryConforms(EXAMPLE, "A", OUTER[1]);
    assert EntriesConform(EXAMPLE, "A", OUTER[1..]);
    assert PayloadConforms(EXAMPLE, NESTED_FIELD, Sub(Message(INNER)));
  }

  /** Its frame: type words and stop words, the numbers of the fields, the count
      and the two lengths of the strings, and a column for each leaf. */
  const FRAME: Frame := Frame(
    [10, 0, 0, 0, 9, 0, 0, 0] + ToLE(STOP, 4) + [1, 0, 0, 0] + ToLE(STOP, 4),
    [1, 0, 0, 0, 2, 0, 0, 0, 2, 0, 0, 0],
    [2, 0, 0, 0, 2, 0, 0, 0, 0, 0, 0, 0],
    map[1591251046 := Cursor(true, [0x61, 0x62], [2, 0]), 1810789175 := Cursor(false, [5, 0, 0, 0], [])],
    [])

  const READ_FRAME: Frame :=
    Frame([], [], [], map[1591251046 := Cursor(true, [], []), 1810789175 := Cursor(false, [], [])], [])

  lemma PackCons(n: nat, ws: seq<nat>)
    ensures Pack([n] + ws, 4) == ToLE(n, 4) + Pack(ws, 4)
  {
    assert ([n] + ws)[1..] == ws;
  }

  lemma PackSmall(a: Byte, b: Byte, c: Byte)
    ensures Pack([a, b, c], 4) == [a, 0, 0, 0, b, 0, 0, 0, c, 0, 0, 0]
  {
    SmallWord(a);
    SmallWord(b);
    SmallWord(c);
    assert Pack([], 4) == [];
    hide Pack, ToLE;
    PackCons(c, []);
    PackCons(b, [c]);
    PackCons(a, [b, c]);
    assert [c] + [] == [c] && [b] + [c] == [b, c] && [a] + [b, c] == [a, b, c];
  }

  lemma PackTypes()
    ensures Pack([10, 9, STOP, 1, STOP], 4) == FRAME.types
  {
    hide Pack, ToLE;
    PackPair(10, 9);
    PackSingle(1);
    PackSingle(STOP);
    SmallWord(1);
    PackConcat([10, 9], [STOP], 4);
    PackConcat([10, 9] + [STOP], [1], 4);
    PackConcat([10, 9] + [STOP] + [1], [STOP], 4);
    assert [10, 9] + [STOP] + [1] + [STOP] == [10, 9, STOP, 1, STOP];
  }

  lemma PackSingle(n: nat)
    ensures Pack([n], 4) == ToLE(n, 4)
  {
    hide ToLE;
    assert [n][1..] == [];
  }

  lemma PackPair(a: Byte, b: Byte)
    ensures Pack([a, b], 4) == [a, 0, 0, 0, b, 0, 0, 0]
  {
    hide Pack, ToLE;
    SmallWord(a);
    SmallWord(b);
    PackSingle(b);
    PackCons(a, [b]);
    assert [a] + [b] == [a, b];
  }

  lemma PutFirst(cell: Cell, rest: seq<Cell>, tag: int, c: Cursor)
    ensures PutCells([cell] + rest, tag, c) ==
              if cell.tag == tag then PutCell(cell, PutCells(rest, tag, c)) else PutCells(rest, tag, c)
  {
    hide PutCell;
    assert ([cell] + rest)[1..] == rest;
  }

  lemma PutExample(c: Cursor)
    requires c.data == [] && c.lengths == []
    ensures PutCells(STRING_CELLS + [NUMBER_CELL], 1591251046, c) == Cursor(c.text, [0x61, 0x62], [2, 0])
    ensures PutCells(STRING_CELLS + [NUMBER_CELL], 1810789175, c) == Cursor(c.text, [5, 0, 0, 0], [])
  {
    SmallWord(5);
    assert PutCells([], 1591251046, c) == c && PutCells([], 1810789175, c) == c;
    hide ToLE, PutCells;
    var s, t := STRING_CELLS[0], STRING_CELLS[1];
    PutFirst(NUMBER_CELL, [], 1591251046, c);
    PutFirst(NUMBER_CELL, [], 1810789175, c);
    PutFirst(t, [NUMBER_CELL], 1591251046, c);
    PutFirst(t, [NUMBER_CELL], 1810789175, c);
    PutFirst(s, [t, NUMBER_CELL], 1591251046, c);
    PutFirst(s, [t, NUMBER_CELL], 1810789175, c);
    assert [NUMBER_CELL] + [] == [NUMBER_CELL] && [t] + [NUMBER_CELL] == [t, NUMBER_CELL];
    assert [s] + [t, NUMBER_CELL] == STRING_CELLS + [NUMBER_CELL];
  }

  lemma FrameIsPrepended()
    ensures Prepend(Encoded([10, 9, STOP, 1, STOP], [1, 2, 2], [2, 2, 0], STRING_CELLS + [NUMBER_CELL]), READ_FRAME) == FRAME
  {
    hide Pack, PutCells, ToLE;
    var cells := STRING_CELLS + [NUMBER_CELL];
    PackTypes();
    PackSmall(1, 2, 2);
    PackSmall(2, 2, 0);
    PutExample(Cursor(true, [], []));
    PutExample(Cursor(false, [], []));
    assert PutColumns(cells, READ_FRAME.values) == FRAME.values;
  }

  /** The frame holds the message and nothing else. */
  lemma KnownFrame()
    ensures Reads(ReadMessage(EXAMPLE, "A", ROOT_PATH_HASH, EMPTY, FRAME), Message(OUTER), READ_FRAME)
  {
    hide ReadMessage, ShredEntries, EntriesConform, Pack, PutCells, ToLE, Prepend;
    OuterConforms();
    ShredsOuter();
    FrameIsPrepended();
    DecoderInvertsEncoder(EXAMPLE, "A", ROOT_PATH_HASH, Message(OUTER), READ_FRAME);
  }

  // ----- a sample -----

  /** Two control words of ids, one of types, no lengths, and two fields. */
  const SAMPLE: Sample := Sample([7, 258], [9], [], [
    SampleField(-2, STRING, [], [], [0x61, 0x62], [2]),
    SampleField(1591251046, INT64, [], [4294967298], [], [])])

  const SAMPLE_BYTES: seq<Byte> :=
    [8, 0, 0, 0, 4, 0, 0, 0, 0, 0, 0, 0, 2, 0, 0, 0]
    + ([7, 0, 0, 0, 2, 1, 0, 0] + ([9, 0, 0, 0]
    + ([0xFE, 0xFF, 0xFF, 0xFF, 9, 0, 0, 0, 2, 0, 0, 0, 4, 0, 0, 0, 0x61, 0x62, 2, 0, 0, 0]
    + [0x66, 0x90, 0xD8, 0x5E, 2, 0, 0, 0, 8, 0, 0, 0, 0, 0, 0, 0, 2, 0, 0, 0, 1, 0, 0, 0])))

  lemma Words()
    ensures ToLE(258, 4) == [2, 1, 0, 0] && ToLE(4294967294, 4) == [0xFE, 0xFF, 0xFF, 0xFF]
    ensures ToLE(1591251046, 4) == [0x66, 0x90, 0xD8, 0x5E]
  {
    WordBytes(258);
    WordBytes(4294967294);
    WordBytes(1591251046);
    hide ToLE;
  }

  lemma LongWord()
    ensures ToLE(4294967298, 8) == [2, 0, 0, 0, 1, 0, 0, 0]
  {
    SmallWord(1);
    NextByte(256, 5);
    NextByte(65536, 6);
    NextByte(16777216, 7);
    NextByte(4294967298, 8);
    hide ToLE;
  }

  lemma NextByte(n: nat, w: nat)
    requires w > 0
    ensures ToLE(n, w) == [n % 256] + ToLE(n / 256, w - 1)
  {
  }

  lemma PrintsText()
    ensures PrintField(SAMPLE.fields[0]) ==
              [0xFE, 0xFF, 0xFF, 0xFF, 9, 0, 0, 0, 2, 0, 0, 0, 4, 0, 0, 0, 0x61, 0x62, 2, 0, 0, 0]
  {
    hide ToLE, Pack;
    Words();
    SmallWord(9);
    SmallWord(2);
    SmallWord(4);
    PackSingle(2);
  }

  lemma PrintsLong()
    ensures PrintField(SAMPLE.fields[1]) ==
              [0x66, 0x90, 0xD8, 0x5E, 2, 0, 0, 0, 8, 0, 0, 0, 0, 0, 0, 0, 2, 0, 0, 0, 1, 0, 0, 0]
  {
    hide ToLE, Pack;
    Words();
    LongWord();
    SmallWord(2);
    SmallWord(8);
    SmallWord(0);
    PackLong(4294967298);
    PackNothing();
  }

  lemma PackNothing()
    ensures Pack([], 4) == []
  {
  }

  lemma PackLong(n: nat)
    ensures Pack([n], 8) == ToLE(n, 8)
  {
    hide ToLE;
    assert [n][1..] == [];
  }

  lemma PrintsControls()
    ensures Pack(SAMPLE.fieldIds, 4) == [7, 0, 0, 0, 2, 1, 0, 0] && Pack(SAMPLE.fieldTypes, 4) == [9, 0, 0, 0]
    ensures Pack(SAMPLE.fieldLengths, 4) == []
  {
    hide ToLE, Pack;
    Words();
    SmallWord(7);
    SmallWord(9);
    PackSingle(258);
    PackSingle(9);
    PackCons(7, [258]);
    PackNothing();
    assert [7] + [258] == [7, 258];
  }

  lemma SampleFits()
    ensures Valid(SAMPLE)
  {
    Pow256Widths();
    hide Pow256;
  }

  lemma PrintParts(s: Sample, ids: seq<Byte>, types: seq<Byte>, lengths: seq<Byte>, fields: seq<Byte>)
    requires Valid(s) && Pack(s.fieldIds, 4) == ids && Pack(s.fieldTypes, 4) == types && Pack(s.fieldLengths, 4) == lengths
    requires PrintFields(s.fields) == fields && |s.fields| < 256 && |ids| < 256 && |types| < 256 && |lengths| < 256
    ensures Print(s) == [|ids|, 0, 0, 0, |types|, 0, 0, 0, |lengths|, 0, 0, 0, |s.fields|, 0, 0, 0]
                        + (ids + (types + (lengths + fields)))
  {
    hide ToLE, Pack, PrintFields, Valid;
    SmallWord(|ids|);
    SmallWord(|types|);
    SmallWord(|lengths|);
    SmallWord(|s.fields|);
  }

  lemma PrintsSample()
    requires Valid(SAMPLE)
    ensures Print(SAMPLE) == SAMPLE_BYTES
  {
    hide ToLE, Pack, PrintField, PrintFields, Print;
    PrintsControls();
    PrintsText();
    PrintsLong();
    PrintsTwo(SAMPLE.fields);
    var fields := PrintField(SAMPLE.fields[0]) + PrintField(SAMPLE.fields[1]);
    PrintParts(SAMPLE, [7, 0, 0, 0, 2, 1, 0, 0], [9, 0, 0, 0], [], fields);
    assert [] + fields == fields;
  }

  lemma PrintsTwo(fields: seq<SampleField>)
    requires ValidFields(fields) && |fields| == 2
    ensures PrintFields(fields) == PrintField(fields[0]) + PrintField(fields[1])
  {
    hide PrintField;
    assert fields[1..][1..] == [] && PrintFields([]) == [];
    assert PrintFields(fields[1..]) == PrintField(fields[1]);
  }

  /** Sizes, words, tags and values are little-endian, the sizes count bytes and
      the low word of a long value comes first. */
  lemma KnownSample()
    ensures Parse(SAMPLE_BYTES) == Ok(SAMPLE)
  {
    hide Parse, Print, Valid;
    SampleFits();
    PrintsSample();
    ParseInvertsPrint(SAMPLE, []);
  }

  // ----- inputs -----

  /** The control streams come first, each with its header of two words. */
  lemma KnownInputs()
    ensures Inputs(Sample([7], [9], [], [])) == Ok([
              Stream(NumericStream, 4, [0x53, 0x50, 0x4C, 0x5A, 1, 0, 0, 0, 7, 0, 0, 0], [], Some(-1)),
              Stream(NumericStream, 4, [0x53, 0x50, 0x4C, 0x5A, 2, 0, 0, 0, 9, 0, 0, 0], [], Some(-2)),
              Stream(NumericStream, 4, [0x53, 0x50, 0x4C, 0x5A, 3, 0, 0, 0], [], Some(-3))])
  {
    hide ControlStream;
    KnownControl([7], -1, 1, [7, 0, 0, 0]);
    KnownControl([9], -2, 2, [9, 0, 0, 0]);
    KnownControl([], -3, 3, []);
    var header: seq<Byte> := [0x53, 0x50, 0x4C, 0x5A];
    assert header + [1, 0, 0, 0] + [7, 0, 0, 0] == [0x53, 0x50, 0x4C, 0x5A, 1, 0, 0, 0, 7, 0, 0, 0];
    assert header + [2, 0, 0, 0] + [9, 0, 0, 0] == [0x53, 0x50, 0x4C, 0x5A, 2, 0, 0, 0, 9, 0, 0, 0];
    assert header + [3, 0, 0, 0] + [] == [0x53, 0x50, 0x4C, 0x5A, 3, 0, 0, 0];
    assert FieldStreams([]) == Ok([]);
    var controls := [ControlStream([7], Some(-1), 1), ControlStream([9], Some(-2), 2), ControlStream([], Some(-3), 3)];
    assert controls + [] == controls;
    assert Inputs(Sample([7], [9], [], [])) == Ok(controls);
  }

  lemma KnownControl(words: seq<Byte>, tag: int, control: Byte, packed: seq<Byte>)
    requires |words| <= 1 && packed == if words == [] then [] else [words[0], 0, 0, 0]
    ensures ControlStream(words, Some(tag), control)
         == Stream(NumericStream, 4, [0x53, 0x50, 0x4C, 0x5A] + [control, 0, 0, 0] + packed, [], Some(tag))
  {
    hide ToLE, Pack;
    WordBytes(CONTROL_MAGIC);
    SmallWord(control);
    PackTwo(CONTROL_MAGIC, control, words);
    PackNothing();
    if words != [] {
      SmallWord(words[0]);
      PackSingle(words[0]);
      assert words == [words[0]];
    }
  }
}