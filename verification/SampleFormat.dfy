/** The binary form of a structured sample: its parser, a printer, and the proof
    that each inverts the other. */
module SampleFormat {

  import opened Results
  import opened LittleEndian
  import opened PathHash
  import opened Schemas

  datatype SampleField = SampleField(tag: int, kind: int, values32: seq<nat>, values64: seq<nat>,
                                     bytes: seq<Byte>, lengths: seq<nat>)

  datatype Sample = Sample(fieldIds: seq<nat>, fieldTypes: seq<nat>, fieldLengths: seq<nat>, fields: seq<SampleField>)

  /** static_cast<int> of an unsigned word, and back. */
  function ToInt32(u: U32): (i: int)
    ensures -0x8000_0000 <= i < 0x8000_0000
  {
    if u < 0x8000_0000 then u else u - U32_LIMIT
  }

  function ToUInt32(i: int): (u: U32)
    requires -0x8000_0000 <= i < 0x8000_0000
    ensures ToInt32(u) == i
  {
    if i >= 0 then i else i + U32_LIMIT
  }

  const KINDS32: set<int> := {1, 3, 6, 8}
  const KINDS64: set<int> := {2, 4, 5}

  // ----- parser -----

  function Unpack(s: seq<Byte>, w: nat): (ws: seq<nat>)
    requires w > 0
    ensures Fit(ws, w)
    decreases |s|
  {
    if |s| < w then []
    else
      ToFromLE(s[..w]);
      [FromLE(s[..w])] + Unpack(s[w..], w)
  }

  /** Four bytes at a time, all checked to be there. */
  function TakeWords(s: seq<Byte>, byteSize: nat): Result<(seq<nat>, seq<Byte>)> {
    if byteSize % 4 != 0 then Err(Misaligned)
    else if byteSize > |s| then Err(Truncated)
    else Ok((Unpack(s[..byteSize], 4), s[byteSize..]))
  }

  function TakeLongWords(s: seq<Byte>, byteSize: nat): Result<(seq<nat>, seq<Byte>)> {
    if byteSize % 8 != 0 then Err(Misaligned)
    else if byteSize > |s| then Err(Truncated)
    else Ok((Unpack(s[..byteSize], 8), s[byteSize..]))
  }

  /** A plain copy: nothing but the earlier check of the sizes guards it. */
  function TakeBytes(s: seq<Byte>, byteSize: nat): Result<(seq<Byte>, seq<Byte>)> {
    if byteSize > |s| then Err(OutOfBounds) else Ok((s[..byteSize], s[byteSize..]))
  }

  datatype FieldHeader = FieldHeader(tag: U32, kind: U32, dataSize: U32, lengthsSize: U32)

  function TakeWord(s: seq<Byte>): (r: Result<(U32, seq<Byte>)>)
    ensures r.Ok? <==> |s| >= 4
    ensures r.Ok? ==> s == ToLE(r.value.0, 4) + r.value.1
  {
    if |s| < 4 then Err(Truncated)
    else
      ToFromLE(s[..4]);
      Pow256Widths();
      assert s == s[..4] + s[4..];
      Ok((FromLE(s[..4]), s[4..]))
  }

  function TakeHeader(s: seq<Byte>): Result<(FieldHeader, seq<Byte>)> {
    var (tag, s1) :- TakeWord(s);
    var (kind, s2) :- TakeWord(s1);
    var (dataSize, s3) :- TakeWord(s2);
    var (lengthsSize, s4) :- TakeWord(s3);
    Ok((FieldHeader(tag, kind, dataSize, lengthsSize), s4))
  }

  /** The payload of a field. The size check adds two 32-bit sizes in 32 bits. */
  function TakePayload(h: FieldHeader, s: seq<Byte>): Result<(SampleField, seq<Byte>)> {
    var tag, kind := ToInt32(h.tag), ToInt32(h.kind);
    if (h.dataSize + h.lengthsSize) % U32_LIMIT > |s| then Err(Truncated)
    else if kind in KINDS32 then
      var (values, rest) :- TakeWords(s, h.dataSize);
      if h.lengthsSize != 0 then Err(UnexpectedLengths) else Ok((SampleField(tag, kind, values, [], [], []), rest))
    else if kind in KINDS64 then
      var (values, rest) :- TakeLongWords(s, h.dataSize);
      if h.lengthsSize != 0 then Err(UnexpectedLengths) else Ok((SampleField(tag, kind, [], values, [], []), rest))
    else if kind == BOOL then
      var (bytes, rest) :- TakeBytes(s, h.dataSize);
      if h.lengthsSize != 0 then Err(UnexpectedLengths) else Ok((SampleField(tag, kind, [], [], bytes, []), rest))
    else if kind == STRING then
      var (bytes, s1) :- TakeBytes(s, h.dataSize);
      var (lengths, rest) :- TakeWords(s1, h.lengthsSize);
      Ok((SampleField(tag, kind, [], [], bytes, lengths), rest))
    else Err(UnsupportedKind)
  }

  function TakeField(s: seq<Byte>): Result<(SampleField, seq<Byte>)> {
    var (h, rest) :- TakeHeader(s);
    TakePayload(h, rest)
  }

  function TakeFields(s: seq<Byte>, count: nat): Result<(seq<SampleField>, seq<Byte>)>
    decreases count
  {
    if count == 0 then Ok(([], s))
    else
      var (field, s1) :- TakeField(s);
      var (fields, rest) :- TakeFields(s1, count - 1);
      Ok(([field] + fields, rest))
  }

  function Parse(s: seq<Byte>): Result<Sample> {
    var (idsSize, s1) :- TakeWord(s);
    var (typesSize, s2) :- TakeWord(s1);
    var (lengthsSize, s3) :- TakeWord(s2);
    var (count, s4) :- TakeWord(s3);
    var (ids, s5) :- TakeWords(s4, idsSize);
    var (types, s6) :- TakeWords(s5, typesSize);
    var (lengths, s7) :- TakeWords(s6, lengthsSize);
    var (fields, rest) :- TakeFields(s7, count);
    if rest != [] then Err(TrailingBytes) else Ok(Sample(ids, types, lengths, fields))
  }

  // ----- printer -----

  function Data(f: SampleField): seq<Byte> {
    if f.kind in KINDS32 then Pack(f.values32, 4)
    else if f.kind in KINDS64 then Pack(f.values64, 8)
    else f.bytes
  }

  function Word(n: nat): seq<Byte> {
    ToLE(n, 4)
  }

  function PrintField(f: SampleField): seq<Byte>
    requires ValidField(f)
  {
    var data, lengths := Data(f), Pack(f.lengths, 4);
    Word(ToUInt32(f.tag)) + (Word(f.kind) + (Word(|data|) + (Word(|lengths|) + (data + lengths))))
  }

  function PrintFields(fs: seq<SampleField>): seq<Byte>
    requires ValidFields(fs)
  {
    if fs == [] then [] else PrintField(fs[0]) + PrintFields(fs[1..])
  }

  function Print(s: Sample): seq<Byte>
    requires Valid(s)
  {
    var ids, types, lengths := Pack(s.fieldIds, 4), Pack(s.fieldTypes, 4), Pack(s.fieldLengths, 4);
    Word(|ids|) + (Word(|types|) + (Word(|lengths|) + (Word(|s.fields|)
    + (ids + (types + (lengths + PrintFields(s.fields)))))))
  }

  /** A field as the parser builds it: only the members of its kind are filled,
      with values of their width. */
  ghost predicate ValidField(f: SampleField) {
    && -0x8000_0000 <= f.tag < 0x8000_0000 && 1 <= f.kind <= 9
    && Fit(f.values32, 4) && Fit(f.values64, 8) && Fit(f.lengths, 4)
    && (f.kind !in KINDS32 ==> f.values32 == [])
    && (f.kind !in KINDS64 ==> f.values64 == [])
    && (f.kind != BOOL && f.kind != STRING ==> f.bytes == [])
    && (f.kind != STRING ==> f.lengths == [])
  }

  ghost predicate ValidFields(fs: seq<SampleField>) {
    forall i :: 0 <= i < |fs| ==> ValidField(fs[i])
  }

  ghost predicate Valid(s: Sample) {
    && Fit(s.fieldIds, 4) && Fit(s.fieldTypes, 4) && Fit(s.fieldLengths, 4)
    && ValidFields(s.fields)
  }

  // ----- the parser reads what the printer wrote -----

  lemma {:induction false} UnpackPacked(ws: seq<nat>, w: nat)
    requires w > 0 && Fit(ws, w)
    ensures Unpack(Pack(ws, w), w) == ws
  {
    hide ToLE, FromLE, Pow256;
    if ws != [] {
      var s := Pack(ws, w);
      assert s[..w] == ToLE(ws[0], w) && s[w..] == Pack(ws[1..], w);
      FromToLE(ws[0], w);
      UnpackPacked(ws[1..], w);
    }
  }

  lemma TakePrintedWord(n: nat, rest: seq<Byte>)
    requires n < U32_LIMIT
    ensures TakeWord(Word(n) + rest) == Ok((n, rest))
  {
    Pow256Widths();
    FromToLE(n, 4);
    assert (Word(n) + rest)[..4] == Word(n) && (Word(n) + rest)[4..] == rest;
  }

  lemma TakePrintedWords(ws: seq<nat>, rest: seq<Byte>)
    requires Fit(ws, 4)
    ensures TakeWords(Pack(ws, 4) + rest, |Pack(ws, 4)|) == Ok((ws, rest))
  {
    hide Unpack, Pack;
    var s := Pack(ws, 4);
    assert (s + rest)[..|s|] == s && (s + rest)[|s|..] == rest;
    UnpackPacked(ws, 4);
  }

  lemma TakePrintedLongWords(ws: seq<nat>, rest: seq<Byte>)
    requires Fit(ws, 8)
    ensures TakeLongWords(Pack(ws, 8) + rest, |Pack(ws, 8)|) == Ok((ws, rest))
  {
    hide Unpack, Pack;
    var s := Pack(ws, 8);
    assert (s + rest)[..|s|] == s && (s + rest)[|s|..] == rest;
    UnpackPacked(ws, 8);
  }

  lemma TakePrintedBytes(s: seq<Byte>, rest: seq<Byte>)
    ensures TakeBytes(s + rest, |s|) == Ok((s, rest))
  {
    assert (s + rest)[..|s|] == s && (s + rest)[|s|..] == rest;
  }

  lemma TakePrintedHeader(h: FieldHeader, rest: seq<Byte>)
    ensures TakeHeader(Word(h.tag) + (Word(h.kind) + (Word(h.dataSize) + (Word(h.lengthsSize) + rest)))) == Ok((h, rest))
  {
    hide TakeWord, Word;
    TakePrintedWord(h.lengthsSize, rest);
    TakePrintedWord(h.dataSize, Word(h.lengthsSize) + rest);
    TakePrintedWord(h.kind, Word(h.dataSize) + (Word(h.lengthsSize) + rest));
    TakePrintedWord(h.tag, Word(h.kind) + (Word(h.dataSize) + (Word(h.lengthsSize) + rest)));
  }

  lemma TakePrintedPayload(f: SampleField, rest: seq<Byte>)
    requires ValidField(f)
    requires |Data(f)| + |Pack(f.lengths, 4)| < U32_LIMIT
    ensures var h := FieldHeader(ToUInt32(f.tag), f.kind, |Data(f)|, |Pack(f.lengths, 4)|);
            TakePayload(h, Data(f) + (Pack(f.lengths, 4) + rest)) == Ok((f, rest))
  {
    hide TakeWords, TakeLongWords, TakeBytes, Unpack, ToUInt32;
    var lengths := Pack(f.lengths, 4);
    if f.kind in KINDS32 {
      TakePrintedWords(f.values32, lengths + rest);
      assert lengths + rest == rest;
    } else if f.kind in KINDS64 {
      TakePrintedLongWords(f.values64, lengths + rest);
      assert lengths + rest == rest;
    } else {
      TakePrintedBytes(f.bytes, lengths + rest);
      if f.kind == STRING {
        TakePrintedWords(f.lengths, rest);
      } else {
        assert lengths + rest == rest;
      }
    }
  }

  lemma TakePrintedField(f: SampleField, rest: seq<Byte>)
    requires ValidField(f) && |PrintField(f)| < U32_LIMIT
    ensures TakeField(PrintField(f) + rest) == Ok((f, rest))
  {
    hide TakePayload, TakeHeader, Data, Word, ToUInt32;
    var data, lengths := Data(f), Pack(f.lengths, 4);
    var h := FieldHeader(ToUInt32(f.tag), f.kind, |data|, |lengths|);
    TakePrintedPayload(f, rest);
    TakePrintedHeader(h, data + (lengths + rest));
    assert PrintField(f) + rest
        == Word(h.tag) + (Word(h.kind) + (Word(h.dataSize) + (Word(h.lengthsSize) + (data + (lengths + rest)))));
  }

  lemma {:induction false} TakePrintedFields(fs: seq<SampleField>, rest: seq<Byte>)
    requires ValidFields(fs) && |PrintFields(fs)| < U32_LIMIT
    ensures TakeFields(PrintFields(fs) + rest, |fs|) == Ok((fs, rest))
    ensures |fs| <= |PrintFields(fs)|
  {
    hide TakeField, PrintField;
    if fs == [] {
      assert [] + rest == rest;
    } else {
      PrintFieldNotEmpty(fs[0]);
      TakePrintedField(fs[0], PrintFields(fs[1..]) + rest);
      TakePrintedFields(fs[1..], rest);
      assert PrintFields(fs) + rest == PrintField(fs[0]) + (PrintFields(fs[1..]) + rest);
      assert fs == [fs[0]] + fs[1..];
    }
  }

  lemma PrintFieldNotEmpty(f: SampleField)
    requires ValidField(f)
    ensures |PrintField(f)| >= 16
  {
  }

  lemma PrintFollowed(s: Sample, rest: seq<Byte>)
    requires Valid(s)
    ensures var ids, types, lengths := Pack(s.fieldIds, 4), Pack(s.fieldTypes, 4), Pack(s.fieldLengths, 4);
            Print(s) + rest == Word(|ids|) + (Word(|types|) + (Word(|lengths|) + (Word(|s.fields|)
                               + (ids + (types + (lengths + (PrintFields(s.fields) + rest)))))))
  {
    hide Word, Pack, PrintFields;
    var ids, types, lengths := Pack(s.fieldIds, 4), Pack(s.fieldTypes, 4), Pack(s.fieldLengths, 4);
    var fields := PrintFields(s.fields);
    Regroup(lengths, fields, rest);
    Regroup(types, lengths + fields, rest);
    Regroup(ids, types + (lengths + fields), rest);
    var body := ids + (types + (lengths + fields));
    Regroup(Word(|s.fields|), body, rest);
    Regroup(Word(|lengths|), Word(|s.fields|) + body, rest);
    Regroup(Word(|types|), Word(|lengths|) + (Word(|s.fields|) + body), rest);
    Regroup(Word(|ids|), Word(|types|) + (Word(|lengths|) + (Word(|s.fields|) + body)), rest);
  }

  lemma Regroup(a: seq<Byte>, b: seq<Byte>, c: seq<Byte>)
    ensures (a + b) + c == a + (b + c)
  {
  }

  /** Main result. Parsing a printed sample gives the sample back, and nothing
      may follow it. */
  lemma ParseInvertsPrint(s: Sample, rest: seq<Byte>)
    requires Valid(s) && |Print(s)| < U32_LIMIT
    ensures Parse(Print(s) + rest) == if rest == [] then Ok(s) else Err(TrailingBytes)
    ensures Parse(Print(s)) == Ok(s)
  {
    PrintedThenMore(s, rest);
    PrintedThenMore(s, []);
    hide Parse, Print;
    assert Print(s) + [] == Print(s);
  }

  lemma PrintedThenMore(s: Sample, rest: seq<Byte>)
    requires Valid(s) && |Print(s)| < U32_LIMIT
    ensures Parse(Print(s) + rest) == if rest == [] then Ok(s) else Err(TrailingBytes)
  {
    hide TakeWord, TakeWords, TakeFields, Word, PrintFields;
    var ids, types, lengths := Pack(s.fieldIds, 4), Pack(s.fieldTypes, 4), Pack(s.fieldLengths, 4);
    TakePrintedFields(s.fields, rest);
    PrintFollowed(s, rest);
    var fields := PrintFields(s.fields) + rest;
    TakePrintedWords(s.fieldLengths, fields);
    TakePrintedWords(s.fieldTypes, lengths + fields);
    TakePrintedWords(s.fieldIds, types + (lengths + fields));
    var body := ids + (types + (lengths + fields));
    TakePrintedWord(|s.fields|, body);
    TakePrintedWord(|lengths|, Word(|s.fields|) + body);
    TakePrintedWord(|types|, Word(|lengths|) + (Word(|s.fields|) + body));
    TakePrintedWord(|ids|, Word(|types|) + (Word(|lengths|) + (Word(|s.fields|) + body)));
  }

  /** Which payloads are refused, and with which of the errors. */
  lemma PayloadRefused(h: FieldHeader, s: seq<Byte>)
    ensures var r, kind := TakePayload(h, s), ToInt32(h.kind);
            var width := if kind in {1, 3, 6, 8} then 4 else if kind in {2, 4, 5} then 8 else 1;
            if (h.dataSize + h.lengthsSize) % 0x1_0000_0000 > |s| then r == Err(Truncated)
            else if kind < 1 || kind > 9 then r == Err(UnsupportedKind)
            else if h.dataSize % width != 0 then r == Err(Misaligned)
            else if h.dataSize > |s| then r == Err(if kind in {7, 9} then OutOfBounds else Truncated)
            else if kind != 9 then r.Err? == (h.lengthsSize != 0) && (r.Err? ==> r == Err(UnexpectedLengths))
            else if h.lengthsSize % 4 != 0 then r == Err(Misaligned)
            else r.Ok? == (h.dataSize + h.lengthsSize <= |s|) && (r.Err? ==> r == Err(Truncated))
  {
    hide Unpack, ToInt32;
    assert h.dataSize <= |s| ==> |s[h.dataSize..]| == |s| - h.dataSize;
  }

  // ----- whatever the parser accepts is printed as it was -----

  lemma {:induction false} PackUnpacked(s: seq<Byte>, w: nat)
    requires w in {4, 8} && |s| % w == 0
    ensures Pack(Unpack(s, w), w) == s
    decreases |s|
  {
    hide ToLE, FromLE;
    if |s| >= w {
      ToFromLE(s[..w]);
      PackUnpacked(s[w..], w);
      assert s == s[..w] + s[w..];
    }
  }

  lemma TakenWords(s: seq<Byte>, byteSize: nat)
    requires TakeWords(s, byteSize).Ok?
    ensures var (ws, rest) := TakeWords(s, byteSize).value;
            Fit(ws, 4) && s == Pack(ws, 4) + rest && |Pack(ws, 4)| == byteSize
  {
    hide Pack, Unpack;
    PackUnpacked(s[..byteSize], 4);
    assert s == s[..byteSize] + s[byteSize..];
  }

  lemma TakenLongWords(s: seq<Byte>, byteSize: nat)
    requires TakeLongWords(s, byteSize).Ok?
    ensures var (ws, rest) := TakeLongWords(s, byteSize).value;
            Fit(ws, 8) && s == Pack(ws, 8) + rest && |Pack(ws, 8)| == byteSize
  {
    hide Pack, Unpack;
    PackUnpacked(s[..byteSize], 8);
    assert s == s[..byteSize] + s[byteSize..];
  }

  lemma TakenBytes(s: seq<Byte>, byteSize: nat)
    requires TakeBytes(s, byteSize).Ok?
    ensures var (bytes, rest) := TakeBytes(s, byteSize).value; s == bytes + rest && |bytes| == byteSize
  {
    assert s == s[..byteSize] + s[byteSize..];
  }

  lemma TakenPayload(h: FieldHeader, s: seq<Byte>)
    requires TakePayload(h, s).Ok?
    ensures var (f, rest) := TakePayload(h, s).value;
            && ValidField(f) && f.tag == ToInt32(h.tag) && f.kind == h.kind
            && |Data(f)| == h.dataSize && |Pack(f.lengths, 4)| == h.lengthsSize
            && s == Data(f) + (Pack(f.lengths, 4) + rest)
  {
    hide TakeWords, TakeLongWords, TakeBytes, Unpack;
    var kind := ToInt32(h.kind);
    var (f, rest) := TakePayload(h, s).value;
    if kind in KINDS32 {
      TakenWords(s, h.dataSize);
      assert Pack(f.lengths, 4) + rest == rest;
    } else if kind in KINDS64 {
      TakenLongWords(s, h.dataSize);
      assert Pack(f.lengths, 4) + rest == rest;
    } else {
      TakenBytes(s, h.dataSize);
      if kind == STRING {
        TakenWords(TakeBytes(s, h.dataSize).value.1, h.lengthsSize);
      } else {
        assert Pack(f.lengths, 4) + rest == rest;
      }
    }
  }

  lemma TakenHeader(s: seq<Byte>)
    requires TakeHeader(s).Ok?
    ensures var (h, rest) := TakeHeader(s).value;
            s == Word(h.tag) + (Word(h.kind) + (Word(h.dataSize) + (Word(h.lengthsSize) + rest)))
  {
  }

  lemma SameWord(u: U32)
    ensures ToUInt32(ToInt32(u)) == u
  {
  }

  lemma TakenField(s: seq<Byte>)
    requires TakeField(s).Ok?
    ensures var (f, rest) := TakeField(s).value; ValidField(f) && s == PrintField(f) + rest
  {
    hide TakePayload, TakeHeader, Data, Word, ToInt32;
    TakenHeader(s);
    var (h, s4) := TakeHeader(s).value;
    TakenPayload(h, s4);
    SameWord(h.tag);
    var (f, rest) := TakeField(s).value;
    var data, lengths := Data(f), Pack(f.lengths, 4);
    assert PrintField(f) + rest
        == Word(h.tag) + (Word(h.kind) + (Word(h.dataSize) + (Word(h.lengthsSize) + (data + (lengths + rest)))));
  }

  lemma {:induction false} TakenFields(s: seq<Byte>, count: nat)
    requires TakeFields(s, count).Ok?
    ensures var (fs, rest) := TakeFields(s, count).value;
            |fs| == count && ValidFields(fs) && s == PrintFields(fs) + rest
    decreases count
  {
    hide TakeField, PrintField, ValidField;
    if count > 0 {
      TakenField(s);
      var (f, s1) := TakeField(s).value;
      TakenFields(s1, count - 1);
      var (fs, rest) := TakeFields(s1, count - 1).value;
      assert ([f] + fs)[1..] == fs;
      assert PrintFields([f] + fs) == PrintField(f) + PrintFields(fs);
      assert PrintField(f) + (PrintFields(fs) + rest) == (PrintField(f) + PrintFields(fs)) + rest;
    }
  }

  /** Main result. Any byte string that the parser accepts is the printed form
      of the sample it returns. */
  lemma PrintInvertsParse(b: seq<Byte>)
    requires Parse(b).Ok?
    ensures Valid(Parse(b).value) && Print(Parse(b).value) == b
  {
    hide TakeWord, TakeWords, TakeFields, Word, PrintFields, ValidFields;
    var idsSize := TakeWord(b).value;
    var typesSize := TakeWord(idsSize.1).value;
    var lengthsSize := TakeWord(typesSize.1).value;
    var count := TakeWord(lengthsSize.1).value;
    var ids := TakeWords(count.1, idsSize.0).value;
    var types := TakeWords(ids.1, typesSize.0).value;
    var lengths := TakeWords(types.1, lengthsSize.0).value;
    TakenWords(count.1, idsSize.0);
    TakenWords(ids.1, typesSize.0);
    TakenWords(types.1, lengthsSize.0);
    TakenFields(lengths.1, count.0);
    var fields := TakeFields(lengths.1, count.0).value;
    assert lengths.1 == PrintFields(fields.0);
    WordsTaken(b);
    WordsTaken(idsSize.1);
    WordsTaken(typesSize.1);
    WordsTaken(lengthsSize.1);
  }

  lemma WordsTaken(s: seq<Byte>)
    ensures TakeWord(s).Ok? ==> s == Word(TakeWord(s).value.0) + TakeWord(s).value.1
  {
  }

  // ----- which samples are accepted, and which are read past their end -----

  /** The payload of a field of these sizes is accepted when n bytes are left. */
  predicate Fits(h: FieldHeader, n: nat) {
    && (h.kind in KINDS32 || h.kind in KINDS64 || h.kind == BOOL || h.kind == STRING)
    && (h.kind in KINDS32 ==> h.dataSize % 4 == 0)
    && (h.kind in KINDS64 ==> h.dataSize % 8 == 0)
    && (if h.kind == STRING then h.lengthsSize % 4 == 0 else h.lengthsSize == 0)
    && h.dataSize + h.lengthsSize <= n
  }

  /** A byte or string field that is larger than what is left, and whose sizes
      add up to no more than that in 32 bits. */
  predicate Overruns(h: FieldHeader, n: nat) {
    h.kind in {BOOL, STRING} && h.dataSize > n && (h.dataSize + h.lengthsSize) % U32_LIMIT <= n
  }

  lemma SmallSum(x: nat, n: nat)
    requires x <= n
    ensures x % U32_LIMIT <= n
  {
  }

  lemma PayloadExactly(h: FieldHeader, s: seq<Byte>)
    ensures TakePayload(h, s).Ok? <==> Fits(h, |s|)
    ensures TakePayload(h, s).Ok? ==> TakePayload(h, s).value.1 == s[h.dataSize + h.lengthsSize..]
    ensures TakePayload(h, s) == Err(OutOfBounds) <==> Overruns(h, |s|)
  {
    hide Unpack;
    SmallKind(h.kind);
    if h.dataSize + h.lengthsSize <= |s| {
      SmallSum(h.dataSize + h.lengthsSize, |s|);
    }
  }

  lemma SmallKind(kind: U32)
    ensures ToInt32(kind) == kind || (ToInt32(kind) < 0 && kind >= 10)
  {
  }

  /** Walking over the headers of fields by their sizes alone: every field on
      the way is accepted, and the last one ends the bytes. */
  predicate FieldsFit(s: seq<Byte>, count: nat)
    decreases count
  {
    if count == 0 then s == []
    else
      TakeHeader(s).Ok? &&
      var (h, rest) := TakeHeader(s).value;
      Fits(h, |rest|) && FieldsFit(rest[h.dataSize + h.lengthsSize..], count - 1)
  }

  /** The same walk meets a field that overruns. */
  predicate FieldsOverrun(s: seq<Byte>, count: nat)
    decreases count
  {
    count > 0 && TakeHeader(s).Ok? &&
    var (h, rest) := TakeHeader(s).value;
    Overruns(h, |rest|) || (Fits(h, |rest|) && FieldsOverrun(rest[h.dataSize + h.lengthsSize..], count - 1))
  }

  lemma {:induction false} FieldsExactly(s: seq<Byte>, count: nat)
    ensures TakeFields(s, count) == Err(OutOfBounds) <==> FieldsOverrun(s, count)
    ensures TakeFields(s, count).Ok? && TakeFields(s, count).value.1 == [] <==> FieldsFit(s, count)
    decreases count
  {
    hide TakePayload, TakeWord, Fits, Overruns;
    if count > 0 {
      HeaderTruncated(s);
      if TakeHeader(s).Ok? {
        var header := TakeHeader(s).value;
        PayloadExactly(header.0, header.1);
        if TakeField(s).Ok? {
          FieldsExactly(TakeField(s).value.1, count - 1);
        }
      }
    }
  }

  lemma HeaderTruncated(s: seq<Byte>)
    ensures TakeHeader(s).Err? ==> TakeHeader(s) == Err(Truncated)
  {
  }

  /** The four words in front of a sample: the sizes of the control streams and
      the number of fields. */
  datatype Sizes = Sizes(ids: U32, types: U32, lengths: U32, count: U32)

  function TakeSizes(b: seq<Byte>): Result<(Sizes, seq<Byte>)> {
    var (h, rest) :- TakeHeader(b);
    Ok((Sizes(h.tag, h.kind, h.dataSize, h.lengthsSize), rest))
  }

  predicate ControlsFit(z: Sizes, n: nat) {
    z.ids % 4 == 0 && z.types % 4 == 0 && z.lengths % 4 == 0 && z.ids + z.types + z.lengths <= n
  }

  lemma ControlsExactly(z: Sizes, s: seq<Byte>)
    ensures var ids := TakeWords(s, z.ids);
            var types := if ids.Ok? then TakeWords(ids.value.1, z.types) else Err(Truncated);
            var lengths := if types.Ok? then TakeWords(types.value.1, z.lengths) else Err(Truncated);
            && (lengths.Ok? <==> ControlsFit(z, |s|))
            && (lengths.Ok? ==> lengths.value.1 == s[z.ids + z.types + z.lengths..])
  {
    hide Unpack;
  }

  ghost predicate SampleFits(b: seq<Byte>) {
    TakeSizes(b).Ok? &&
    var (z, s) := TakeSizes(b).value;
    ControlsFit(z, |s|) && FieldsFit(s[z.ids + z.types + z.lengths..], z.count)
  }

  ghost predicate SampleOverruns(b: seq<Byte>) {
    TakeSizes(b).Ok? &&
    var (z, s) := TakeSizes(b).value;
    ControlsFit(z, |s|) && FieldsOverrun(s[z.ids + z.types + z.lengths..], z.count)
  }

  lemma ParseOfSizes(b: seq<Byte>)
    ensures TakeSizes(b).Err? ==> Parse(b) == Err(Truncated)
    ensures TakeSizes(b).Ok? ==>
              var (z, s) := TakeSizes(b).value;
              && (!ControlsFit(z, |s|) ==> Parse(b) in {Err(Truncated), Err(Misaligned)})
              && (ControlsFit(z, |s|) ==>
                    var fields := TakeFields(s[z.ids + z.types + z.lengths..], z.count);
                    && (fields.Err? ==> Parse(b) == Err(fields.error))
                    && (fields.Ok? ==> (Parse(b).Ok? <==> fields.value.1 == [])
                                       && (Parse(b).Err? ==> Parse(b).error == TrailingBytes)))
  {
    hide TakeWord, TakeFields;
    if TakeSizes(b).Ok? {
      ControlsExactly(TakeSizes(b).value.0, TakeSizes(b).value.1);
    }
    HeaderTruncated(b);
  }

  /** Main result. A sample is read past its end exactly if walking over its
      headers by their sizes meets a byte or string field that is larger than
      what is left although the 32-bit sum of its sizes is not; on every other
      input, accepted or not, no copy leaves the sample. */
  lemma ParseOverrunsExactly(b: seq<Byte>)
    ensures Parse(b) == Err(OutOfBounds) <==> SampleOverruns(b)
  {
    hide Parse, TakeSizes, TakeFields, FieldsOverrun;
    ParseOfSizes(b);
    if TakeSizes(b).Ok? {
      var z, s := TakeSizes(b).value.0, TakeSizes(b).value.1;
      if ControlsFit(z, |s|) {
        FieldsExactly(s[z.ids + z.types + z.lengths..], z.count);
      }
    }
  }

  /** Main result. A sample is accepted exactly if that walk ends with the last
      byte: its sizes alone decide. */
  lemma ParseAcceptsExactly(b: seq<Byte>)
    ensures Parse(b).Ok? <==> SampleFits(b)
  {
    hide Parse, TakeSizes, TakeFields, FieldsFit;
    ParseOfSizes(b);
    if TakeSizes(b).Ok? {
      var z, s := TakeSizes(b).value.0, TakeSizes(b).value.1;
      if ControlsFit(z, |s|) {
        FieldsExactly(s[z.ids + z.types + z.lengths..], z.count);
      }
    }
  }

  /** A sample of one string field whose sizes are 2^32 - 4 and 4. */
  function WrappingSample(): seq<Byte> {
    Word(0) + (Word(0) + (Word(0) + (Word(1) + WrappingField())))
  }

  function WrappingField(): seq<Byte> {
    Word(1) + (Word(9) + (Word(0xFFFF_FFFC) + (Word(4) + [])))
  }

  lemma WrappingFieldOverruns()
    ensures FieldsOverrun(WrappingField(), 1)
  {
    hide Word, TakeHeader;
    TakePrintedHeader(FieldHeader(1, 9, 0xFFFF_FFFC, 4), []);
  }

  lemma WrappingSizes()
    ensures |WrappingSample()| == 32
  {
  }

  /** The sum of its sizes wraps to zero, so its bytes are copied although none
      are left. */
  lemma WrappingSampleOverruns()
    ensures |WrappingSample()| == 32 && Parse(WrappingSample()) == Err(OutOfBounds)
  {
    WrappingSizes();
    WrappingFieldOverruns();
    hide Word, Parse, TakeHeader, FieldsOverrun, WrappingField;
    TakePrintedHeader(FieldHeader(0, 0, 0, 1), WrappingField());
    assert WrappingField()[0..] == WrappingField();
    ParseOverrunsExactly(WrappingSample());
  }

  // ----- the parser as it runs -----

  method ReadStructuredSampleUInt32Vector(s: seq<Byte>, byteSize: nat) returns (r: Result<(seq<nat>, seq<Byte>)>)
    ensures r == TakeWords(s, byteSize)
  {
    if byteSize % 4 != 0 {
      return Err(Misaligned);
    }
    if byteSize > |s| {
      return Err(Truncated);
    }
    var out: seq<nat>, cursor, i := [], s, 0;
    while i < byteSize
      invariant Taken(s, byteSize, 4, out, cursor, i)
    {
      TakeStep(s, byteSize, 4, out, cursor, i);
      var word := TakeWord(cursor).value;
      out := out + [word.0];
      cursor := word.1;
      i := i + 4;
    }
    TakenAll(s, byteSize, 4, out, cursor, i);
    r := Ok((out, cursor));
  }

  /** What a loop over words of w bytes has read when it stands at an offset. */
  ghost predicate Taken(s: seq<Byte>, byteSize: nat, w: nat, out: seq<nat>, cursor: seq<Byte>, i: nat) {
    && w in {4, 8} && i <= byteSize && i <= |s| && (byteSize - i) % w == 0
    && cursor == s[i..]
    && (byteSize <= |s| ==> out + Unpack(s[i..byteSize], w) == Unpack(s[..byteSize], w))
  }

  lemma TakeStep(s: seq<Byte>, byteSize: nat, w: nat, out: seq<nat>, cursor: seq<Byte>, i: nat)
    requires Taken(s, byteSize, w, out, cursor, i) && i < byteSize
    ensures |cursor| < w ==> byteSize > |s|
    ensures |cursor| >= w ==> Taken(s, byteSize, w, out + [FromLE(cursor[..w])], cursor[w..], i + w)
  {
    hide FromLE, Unpack;
    if |cursor| >= w {
      var word := FromLE(cursor[..w]);
      assert cursor[w..] == s[i + w..];
      if byteSize <= |s| {
        UnpackOne(s, i, byteSize, w);
        assert out + ([word] + Unpack(s[i + w..byteSize], w)) == (out + [word]) + Unpack(s[i + w..byteSize], w);
      }
    }
  }

  lemma TakenAll(s: seq<Byte>, byteSize: nat, w: nat, out: seq<nat>, cursor: seq<Byte>, i: nat)
    requires Taken(s, byteSize, w, out, cursor, i) && i >= byteSize
    ensures byteSize <= |s| && out == Unpack(s[..byteSize], w) && cursor == s[byteSize..]
  {
    assert s[i..byteSize] == [];
    assert out + [] == out;
  }

  function TakeLongWord(s: seq<Byte>): Result<(nat, seq<Byte>)> {
    if |s| < 8 then Err(Truncated) else Ok((FromLE(s[..8]), s[8..]))
  }

  /** Two words, the low one first. */
  method ReadStructuredSampleUInt64(s: seq<Byte>) returns (r: Result<(nat, seq<Byte>)>)
    ensures r == TakeLongWord(s)
  {
    var low :- TakeWord(s);
    var high :- TakeWord(low.1);
    LongWord(s);
    r := Ok((low.0 + U32_LIMIT * high.0, high.1));
  }

  method ReadStructuredSampleUInt64Vector(s: seq<Byte>, byteSize: nat) returns (r: Result<(seq<nat>, seq<Byte>)>)
    ensures r == TakeLongWords(s, byteSize)
  {
    if byteSize % 8 != 0 {
      return Err(Misaligned);
    }
    var out: seq<nat>, cursor, consumed := [], s, 0;
    while consumed < byteSize
      invariant Taken(s, byteSize, 8, out, cursor, consumed)
    {
      TakeStep(s, byteSize, 8, out, cursor, consumed);
      var word :- ReadStructuredSampleUInt64(cursor);
      out := out + [word.0];
      cursor := word.1;
      consumed := consumed + 8;
    }
    TakenAll(s, byteSize, 8, out, cursor, consumed);
    r := Ok((out, cursor));
  }

  lemma UnpackOne(s: seq<Byte>, i: nat, byteSize: nat, w: nat)
    requires w in {4, 8} && i + w <= byteSize <= |s|
    ensures Unpack(s[i..byteSize], w) == [FromLE(s[i..][..w])] + Unpack(s[i + w..byteSize], w)
    ensures s[i..][w..] == s[i + w..]
  {
    hide FromLE;
    var t := s[i..byteSize];
    assert t[..w] == s[i..][..w] && t[w..] == s[i + w..byteSize];
  }

  /** A long word is its low word and its high word. */
  lemma LongWord(s: seq<Byte>)
    requires |s| >= 8
    ensures FromLE(s[..8]) == FromLE(s[..4]) + U32_LIMIT * FromLE(s[4..][..4])
    ensures s[4..][4..] == s[8..]
  {
    hide FromLE;
    assert s[..8] == s[..4] + s[4..][..4];
    FromLESplit(s[..4], s[4..][..4]);
    Pow256Widths();
  }

  lemma {:induction false} FromLESplit(a: seq<Byte>, b: seq<Byte>)
    ensures FromLE(a + b) == FromLE(a) + Pow256(|a|) * FromLE(b)
  {
    if a == [] {
      assert a + b == b;
    } else {
      assert (a + b)[1..] == a[1..] + b;
      FromLESplit(a[1..], b);
      assert 256 * (Pow256(|a| - 1) * FromLE(b)) == Pow256(|a|) * FromLE(b);
    }
  }

  /** The payload of one field, by kind. */
  method ReadPayload(h: FieldHeader, s: seq<Byte>) returns (r: Result<(SampleField, seq<Byte>)>)
    ensures r == TakePayload(h, s)
  {
    hide TakeWords, TakeLongWords;
    var field := SampleField(ToInt32(h.tag), ToInt32(h.kind), [], [], [], []);
    if (h.dataSize + h.lengthsSize) % U32_LIMIT > |s| {
      return Err(Truncated);
    }
    var cursor := s;
    if field.kind in KINDS32 {
      var words :- ReadStructuredSampleUInt32Vector(cursor, h.dataSize);
      field, cursor := field.(values32 := words.0), words.1;
    } else if field.kind in KINDS64 {
      var words :- ReadStructuredSampleUInt64Vector(cursor, h.dataSize);
      field, cursor := field.(values64 := words.0), words.1;
    } else if field.kind == BOOL {
      var bytes :- TakeBytes(cursor, h.dataSize);
      field, cursor := field.(bytes := bytes.0), bytes.1;
    } else if field.kind == STRING {
      var bytes :- TakeBytes(cursor, h.dataSize);
      field, cursor := field.(bytes := bytes.0), bytes.1;
      var words :- ReadStructuredSampleUInt32Vector(cursor, h.lengthsSize);
      field, cursor := field.(lengths := words.0), words.1;
    } else {
      return Err(UnsupportedKind);
    }
    if field.kind != STRING && h.lengthsSize != 0 {
      return Err(UnexpectedLengths);
    }
    r := Ok((field, cursor));
  }

  method ParseStructuredSample(sample: seq<Byte>) returns (r: Result<Sample>)
    ensures r == Parse(sample)
  {
    hide TakeWord, TakeWords, TakeField;
    var idsSize :- TakeWord(sample);
    var typesSize :- TakeWord(idsSize.1);
    var lengthsSize :- TakeWord(typesSize.1);
    var fieldCount :- TakeWord(lengthsSize.1);
    var ids :- ReadStructuredSampleUInt32Vector(fieldCount.1, idsSize.0);
    var types :- ReadStructuredSampleUInt32Vector(ids.1, typesSize.0);
    var lengths :- ReadStructuredSampleUInt32Vector(types.1, lengthsSize.0);
    var fields, cursor := [], lengths.1;
    ghost var whole := TakeFields(cursor, fieldCount.0);
    assert whole.Ok? ==> [] + whole.value.0 == whole.value.0;
    for i := 0 to fieldCount.0
      invariant AfterFields(whole, fields, TakeFields(cursor, fieldCount.0 - i))
    {
      FieldsStep(whole, fields, cursor, fieldCount.0 - i);
      var field :- ReadField(cursor);
      fields, cursor := fields + [field.0], field.1;
    }
    assert fields + [] == fields;
    if cursor != [] {
      return Err(TrailingBytes);
    }
    r := Ok(Sample(ids.0, types.0, lengths.0, fields));
  }

  method ReadField(s: seq<Byte>) returns (r: Result<(SampleField, seq<Byte>)>)
    ensures r == TakeField(s)
  {
    hide TakePayload, TakeHeader;
    var header :- TakeHeader(s);
    r := ReadPayload(header.0, header.1);
  }

  /** The whole run of the field loop is the fields so far and the rest. */
  ghost predicate AfterFields(whole: Result<(seq<SampleField>, seq<Byte>)>, fields: seq<SampleField>,
                              rest: Result<(seq<SampleField>, seq<Byte>)>)
  {
    whole == if rest.Err? then rest else Ok((fields + rest.value.0, rest.value.1))
  }

  lemma FieldsStep(whole: Result<(seq<SampleField>, seq<Byte>)>, fields: seq<SampleField>, s: seq<Byte>, count: nat)
    requires count > 0 && AfterFields(whole, fields, TakeFields(s, count))
    ensures TakeField(s).Err? ==> whole == Err(TakeField(s).error)
    ensures TakeField(s).Ok? ==>
              AfterFields(whole, fields + [TakeField(s).value.0], TakeFields(TakeField(s).value.1, count - 1))
  {
    hide TakeField;
    if TakeField(s).Ok? {
      var rest := TakeFields(TakeField(s).value.1, count - 1);
      if rest.Ok? {
        assert fields + ([TakeField(s).value.0] + rest.value.0) == (fields + [TakeField(s).value.0]) + rest.value.0;
      }
    }
  }
}
