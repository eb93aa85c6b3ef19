/** From samples to compressor inputs, and from decompressed outputs to a frame.
    Compression itself is taken to return its typed, tagged inputs. */
module FrameAssembly {

  import opened Results
  import opened LittleEndian
  import opened Schemas
  import opened StructuredReader
  import opened SampleFormat

  const FIELD_ID_TAG: int := -1
  const FIELD_TYPE_TAG: int := -2
  const FIELD_LENGTH_TAG: int := -3

  const CONTROL_MAGIC: nat := 0x5A4C5053
  const CONTROL_FIELD_IDS: nat := 1
  const CONTROL_FIELD_TYPES: nat := 2
  const CONTROL_FIELD_LENGTHS: nat := 3

  /** One typed stream with its clustering tag: an input of the compressor and,
      after decompression, an output. */
  datatype Stream = Stream(streamType: StreamType, eltWidth: nat, bytes: seq<Byte>, stringLengths: seq<nat>, tag: Option<int>)

  // ----- inputs -----

  function ControlStream(words: seq<nat>, tag: Option<int>, control: nat): Stream {
    Stream(NumericStream, 4, Pack([CONTROL_MAGIC, control] + words, 4), [], tag)
  }

  function FieldStream(f: SampleField): Result<Stream> {
    if f.kind in KINDS32 then Ok(Stream(NumericStream, 4, Pack(f.values32, 4), [], Some(f.tag)))
    else if f.kind in KINDS64 then Ok(Stream(NumericStream, 8, Pack(f.values64, 8), [], Some(f.tag)))
    else if f.kind == BOOL then Ok(Stream(NumericStream, 1, f.bytes, [], Some(f.tag)))
    else if f.kind == STRING then Ok(Stream(StringStream, 0, f.bytes, f.lengths, Some(f.tag)))
    else Err(UnsupportedKind)
  }

  function FieldStreams(fs: seq<SampleField>): Result<seq<Stream>> {
    if fs == [] then Ok([])
    else
      var first :- FieldStream(fs[0]);
      var rest :- FieldStreams(fs[1..]);
      Ok([first] + rest)
  }

  function Inputs(s: Sample): Result<seq<Stream>> {
    var fields :- FieldStreams(s.fields);
    Ok([ControlStream(s.fieldIds, Some(FIELD_ID_TAG), CONTROL_FIELD_IDS),
        ControlStream(s.fieldTypes, Some(FIELD_TYPE_TAG), CONTROL_FIELD_TYPES),
        ControlStream(s.fieldLengths, Some(FIELD_LENGTH_TAG), CONTROL_FIELD_LENGTHS)] + fields)
  }

  /** Field streams of a prefix, an error of the next one, or both of them. */
  lemma {:induction false} FieldStreamsSnoc(fs: seq<SampleField>, last: SampleField)
    ensures FieldStreams(fs + [last]) ==
              if FieldStreams(fs).Err? then FieldStreams(fs)
              else if FieldStream(last).Err? then Err(FieldStream(last).error)
              else Ok(FieldStreams(fs).value + [FieldStream(last).value])
  {
    hide FieldStream;
    if fs == [] {
      assert fs + [last] == [last] && [last][1..] == [];
      if FieldStream(last).Ok? {
        assert [FieldStream(last).value] + [] == [] + [FieldStream(last).value];
      }
    } else {
      assert (fs + [last])[1..] == fs[1..] + [last];
      FieldStreamsSnoc(fs[1..], last);
      if FieldStreams(fs + [last]).Ok? {
        var first, rest := FieldStream(fs[0]).value, FieldStreams(fs[1..]).value;
        assert [first] + (rest + [FieldStream(last).value]) == ([first] + rest) + [FieldStream(last).value];
      }
    }
  }

  lemma {:induction false} FieldStreamsFail(fs: seq<SampleField>, i: nat)
    requires i < |fs| && FieldStreams(fs[..i]).Ok? && FieldStream(fs[i]).Err?
    ensures FieldStreams(fs) == Err(FieldStream(fs[i]).error)
  {
    hide FieldStream;
    if i > 0 {
      assert fs[..i][0] == fs[0] && fs[..i][1..] == fs[1..][..i - 1];
      FieldStreamsFail(fs[1..], i - 1);
    }
  }

  method BuildStructuredInputs(s: Sample) returns (r: Result<seq<Stream>>)
    ensures r == Inputs(s)
  {
    hide FieldStream, ControlStream;
    var inputs := [ControlStream(s.fieldIds, Some(FIELD_ID_TAG), CONTROL_FIELD_IDS)];
    inputs := inputs + [ControlStream(s.fieldTypes, Some(FIELD_TYPE_TAG), CONTROL_FIELD_TYPES)];
    inputs := inputs + [ControlStream(s.fieldLengths, Some(FIELD_LENGTH_TAG), CONTROL_FIELD_LENGTHS)];
    ghost var controls := inputs;
    assert controls == [ControlStream(s.fieldIds, Some(FIELD_ID_TAG), CONTROL_FIELD_IDS),
                        ControlStream(s.fieldTypes, Some(FIELD_TYPE_TAG), CONTROL_FIELD_TYPES),
                        ControlStream(s.fieldLengths, Some(FIELD_LENGTH_TAG), CONTROL_FIELD_LENGTHS)];
    for i := 0 to |s.fields|
      invariant FieldStreams(s.fields[..i]).Ok?
      invariant inputs == controls + FieldStreams(s.fields[..i]).value
    {
      if FieldStream(s.fields[i]).Err? {
        FieldStreamsFail(s.fields, i);
      }
      var input :- FieldStream(s.fields[i]);
      FieldStreamsSnoc(s.fields[..i], s.fields[i]);
      assert s.fields[..i + 1] == s.fields[..i] + [s.fields[i]];
      inputs := inputs + [input];
    }
    assert s.fields[..|s.fields|] == s.fields;
    r := Ok(inputs);
  }

  // ----- inputs from pinned buffers -----

  datatype PinnedField = PinnedField(tag: int, kind: int, data: seq<Byte>, lengths: seq<Byte>)

  datatype PinnedBuffers = PinnedBuffers(fieldIds: seq<Byte>, fieldTypes: seq<Byte>, fieldLengths: seq<Byte>,
                                         fields: seq<PinnedField>)

  /** Whole elements only: the builder divides the size by the width. */
  function WholeElements(s: seq<Byte>, w: nat): (whole: seq<Byte>)
    requires w in {4, 8}
    ensures whole <= s && |whole| % w == 0 && |s| - |whole| < w
  {
    s[..|s| - |s| % w]
  }

  function PinnedFieldStream(f: PinnedField): Result<Stream> {
    if f.kind in KINDS32 then Ok(Stream(NumericStream, 4, WholeElements(f.data, 4), [], Some(f.tag)))
    else if f.kind in KINDS64 then Ok(Stream(NumericStream, 8, WholeElements(f.data, 8), [], Some(f.tag)))
    else if f.kind == BOOL then Ok(Stream(NumericStream, 1, f.data, [], Some(f.tag)))
    else if f.kind == STRING then Ok(Stream(StringStream, 0, f.data, Unpack(WholeElements(f.lengths, 4), 4), Some(f.tag)))
    else Err(UnsupportedKind)
  }

  method BuildPinnedInputs(b: PinnedBuffers) returns (r: Result<seq<Stream>>)
    ensures r.Ok? ==>
              && |r.value| == 3 + |b.fields|
              && r.value[0] == ControlStream(Unpack(WholeElements(b.fieldIds, 4), 4), Some(FIELD_ID_TAG), CONTROL_FIELD_IDS)
              && r.value[1] == ControlStream(Unpack(WholeElements(b.fieldTypes, 4), 4), Some(FIELD_TYPE_TAG), CONTROL_FIELD_TYPES)
              && r.value[2] == ControlStream(Unpack(WholeElements(b.fieldLengths, 4), 4), Some(FIELD_LENGTH_TAG), CONTROL_FIELD_LENGTHS)
              && forall i :: 0 <= i < |b.fields| ==> PinnedFieldStream(b.fields[i]) == Ok(r.value[3 + i])
    ensures r.Err? ==> r == Err(UnsupportedKind) && exists i :: 0 <= i < |b.fields| && PinnedFieldStream(b.fields[i]).Err?
  {
    hide PinnedFieldStream, ControlStream, Unpack, WholeElements;
    var inputs := [ControlStream(Unpack(WholeElements(b.fieldIds, 4), 4), Some(FIELD_ID_TAG), CONTROL_FIELD_IDS),
                   ControlStream(Unpack(WholeElements(b.fieldTypes, 4), 4), Some(FIELD_TYPE_TAG), CONTROL_FIELD_TYPES),
                   ControlStream(Unpack(WholeElements(b.fieldLengths, 4), 4), Some(FIELD_LENGTH_TAG), CONTROL_FIELD_LENGTHS)];
    ghost var controls := inputs;
    for i := 0 to |b.fields|
      invariant |inputs| == 3 + i && inputs[..3] == controls
      invariant forall j :: 0 <= j < i ==> PinnedFieldStream(b.fields[j]) == Ok(inputs[3 + j])
    {
      PinnedError(b.fields[i]);
      var input :- PinnedFieldStream(b.fields[i]);
      inputs := inputs + [input];
    }
    r := Ok(inputs);
  }

  lemma PinnedError(f: PinnedField)
    ensures PinnedFieldStream(f).Err? ==> PinnedFieldStream(f) == Err(UnsupportedKind)
  {
  }

  /** The buffers that hold a sample's content: what a field's accumulators
      contain when their sizes are whole numbers of elements. */
  function PinnedFieldOf(f: SampleField): PinnedField {
    PinnedField(f.tag, f.kind, Data(f), Pack(f.lengths, 4))
  }

  function PinnedOf(s: Sample): PinnedBuffers {
    PinnedBuffers(Pack(s.fieldIds, 4), Pack(s.fieldTypes, 4), Pack(s.fieldLengths, 4),
                  seq(|s.fields|, i requires 0 <= i < |s.fields| => PinnedFieldOf(s.fields[i])))
  }

  lemma AllElements(ws: seq<nat>, w: nat)
    requires w in {4, 8} && Fit(ws, w)
    ensures WholeElements(Pack(ws, w), w) == Pack(ws, w) && Unpack(Pack(ws, w), w) == ws
  {
    hide Pack, Unpack;
    UnpackPacked(ws, w);
    assert |Pack(ws, w)| % w == 0;
  }

  lemma PinnedFieldSame(f: SampleField)
    requires ValidField(f)
    ensures PinnedFieldStream(PinnedFieldOf(f)) == FieldStream(f)
  {
    hide Pack, Unpack, WholeElements;
    AllElements(f.values32, 4);
    AllElements(f.values64, 8);
    AllElements(f.lengths, 4);
  }

  lemma {:induction false} FieldStreamsEach(fs: seq<SampleField>)
    requires ValidFields(fs)
    ensures FieldStreams(fs).Ok? && |FieldStreams(fs).value| == |fs|
    ensures forall i :: 0 <= i < |fs| ==> FieldStream(fs[i]) == Ok(FieldStreams(fs).value[i])
  {
    if fs != [] {
      FieldStreamsEach(fs[1..]);
    }
  }

  /** Both builders make the same inputs of the same aligned content. */
  method BuildersAgree(s: Sample) returns (fromSample: Result<seq<Stream>>, fromBuffers: Result<seq<Stream>>)
    requires Valid(s)
    ensures fromSample.Ok? && fromBuffers == fromSample == Inputs(s)
  {
    hide FieldStream, PinnedFieldStream, ControlStream, Pack, Unpack, WholeElements;
    fromSample := BuildStructuredInputs(s);
    fromBuffers := BuildPinnedInputs(PinnedOf(s));
    AllElements(s.fieldIds, 4);
    AllElements(s.fieldTypes, 4);
    AllElements(s.fieldLengths, 4);
    FieldStreamsEach(s.fields);
    forall i | 0 <= i < |s.fields| ensures PinnedFieldStream(PinnedOf(s).fields[i]) == Ok(FieldStreams(s.fields).value[i]) {
      PinnedFieldSame(s.fields[i]);
    }
    assert fromBuffers.value == fromSample.value;
  }

  // ----- outputs -----

  /** The frame while its streams are being found. */
  datatype Assembly = Assembly(ids: Option<seq<Byte>>, types: Option<seq<Byte>>, lens: Option<seq<Byte>>,
                               values: map<int, Cursor>, ordered: seq<Cursor>)

  const NOTHING: Assembly := Assembly(None, None, None, map[], [])

  function NewCursor(o: Stream): Cursor {
    Cursor(o.streamType == StringStream, o.bytes, if o.streamType == StringStream then o.stringLengths else [])
  }

  function StripControlHeader(data: seq<Byte>): Result<seq<Byte>> {
    var (magic, s1) :- ReadU32(data);
    var (control, rest) :- ReadU32(s1);
    if magic != CONTROL_MAGIC then Err(MissingMagic) else Ok(rest)
  }

  predicate LooksLikeControl(bytes: seq<Byte>) {
    |bytes| >= 8 && FromLE(bytes[..4]) == CONTROL_MAGIC
  }

  function AssignControl(a: Assembly, control: nat, data: seq<Byte>): Result<Assembly> {
    if control == CONTROL_FIELD_IDS then Ok(a.(ids := Some(data)))
    else if control == CONTROL_FIELD_TYPES then Ok(a.(types := Some(data)))
    else if control == CONTROL_FIELD_LENGTHS then Ok(a.(lens := Some(data)))
    else Err(UnknownControl)
  }

  /** Whether a column without a tag was a control stream, and what came of it. */
  function TryAssignControl(a: Assembly, c: Cursor): Result<(bool, Assembly)> {
    if !LooksLikeControl(c.data) then Ok((false, a))
    else
      var data :- StripControlHeader(c.data);
      var matched :- AssignControl(a, FromLE(c.data[4..8]), data);
      Ok((true, matched))
  }

  function AddOutput(a: Assembly, o: Stream): Result<Assembly> {
    match o.tag
    case None =>
      if LooksLikeControl(o.bytes) then
        var data :- StripControlHeader(o.bytes);
        AssignControl(a, FromLE(o.bytes[4..8]), data)
      else
        var (matched, a1) :- TryAssignControl(a, NewCursor(o));
        Ok(if matched then a1 else a1.(ordered := a1.ordered + [NewCursor(o)]))
    case Some(tag) =>
      if tag == FIELD_ID_TAG then
        var data :- StripControlHeader(o.bytes);
        Ok(a.(ids := Some(data)))
      else if tag == FIELD_TYPE_TAG then
        var data :- StripControlHeader(o.bytes);
        Ok(a.(types := Some(data)))
      else if tag == FIELD_LENGTH_TAG then
        var data :- StripControlHeader(o.bytes);
        Ok(a.(lens := Some(data)))
      else Ok(a.(values := Emplace(a.values, tag, NewCursor(o))))
  }

  /** unordered_map::emplace keeps what is there. */
  function Emplace(values: map<int, Cursor>, tag: int, c: Cursor): map<int, Cursor> {
    if tag in values then values else values[tag := c]
  }

  function AddOutputs(a: Assembly, outputs: seq<Stream>): Result<Assembly>
    decreases |outputs|
  {
    if outputs == [] then Ok(a)
    else
      var a1 :- AddOutput(a, outputs[0]);
      AddOutputs(a1, outputs[1..])
  }

  /** The pass over the columns that came without a tag. */
  function SecondPass(a: Assembly, kept: seq<Cursor>, pending: seq<Cursor>): Result<Assembly>
    decreases |pending|
  {
    if pending == [] then Ok(a.(ordered := kept))
    else
      var (matched, a1) :- TryAssignControl(a, pending[0]);
      SecondPass(a1, if matched then kept else kept + [pending[0]], pending[1..])
  }

  function Finish(a: Assembly): Result<Frame> {
    if a.ids == None || a.types == None || a.lens == None then Err(MissingControls)
    else Ok(Frame(a.types.value, a.ids.value, a.lens.value, a.values, a.ordered))
  }

  function Assemble(outputs: seq<Stream>): Result<Frame> {
    var first :- AddOutputs(NOTHING, outputs);
    var second :- SecondPass(first, [], first.ordered);
    Finish(second)
  }

  method DecodeStructuredFrame(outputs: seq<Stream>) returns (r: Result<Frame>)
    ensures r == Assemble(outputs)
  {
    hide AddOutput, TryAssignControl;
    var a := NOTHING;
    for i := 0 to |outputs|
      invariant AddOutputs(NOTHING, outputs) == AddOutputs(a, outputs[i..])
    {
      assert outputs[i..][0] == outputs[i] && outputs[i..][1..] == outputs[i + 1..];
      a :- AddOutput(a, outputs[i]);
    }
    var pending, kept := a.ordered, [];
    ghost var first := a;
    while pending != []
      invariant SecondPass(first, [], first.ordered) == SecondPass(a, kept, pending)
      decreases |pending|
    {
      var tried :- TryAssignControl(a, pending[0]);
      a := tried.1;
      if !tried.0 {
        kept := kept + [pending[0]];
      }
      pending := pending[1..];
    }
    a := a.(ordered := kept);
    r := Finish(a);
  }

  // ----- the second pass finds nothing -----

  ghost predicate NoneLooksLikeControl(cs: seq<Cursor>) {
    forall i :: 0 <= i < |cs| ==> !LooksLikeControl(cs[i].data)
  }

  lemma {:induction false} OrderedAreNoControls(a: Assembly, outputs: seq<Stream>)
    requires NoneLooksLikeControl(a.ordered)
    requires AddOutputs(a, outputs).Ok?
    ensures NoneLooksLikeControl(AddOutputs(a, outputs).value.ordered)
    decreases |outputs|
  {
    hide StripControlHeader, LooksLikeControl;
    if outputs != [] {
      OrderedAreNoControls(AddOutput(a, outputs[0]).value, outputs[1..]);
    }
  }

  lemma {:induction false} SecondPassKeeps(a: Assembly, kept: seq<Cursor>, pending: seq<Cursor>)
    requires NoneLooksLikeControl(pending)
    ensures SecondPass(a, kept, pending) == Ok(a.(ordered := kept + pending))
    decreases |pending|
  {
    hide LooksLikeControl;
    if pending == [] {
      assert kept + pending == kept;
    } else {
      SecondPassKeeps(a, kept + [pending[0]], pending[1..]);
      assert kept + pending == (kept + [pending[0]]) + pending[1..];
    }
  }

  /** Main result. Whatever the outputs, the second pass over the untagged
      columns assigns nothing and removes nothing. */
  lemma SecondPassIdle(outputs: seq<Stream>)
    requires AddOutputs(NOTHING, outputs).Ok?
    ensures var first := AddOutputs(NOTHING, outputs).value;
            SecondPass(first, [], first.ordered) == Ok(first) && Assemble(outputs) == Finish(first)
  {
    hide AddOutputs, SecondPass;
    var first := AddOutputs(NOTHING, outputs).value;
    OrderedAreNoControls(NOTHING, outputs);
    SecondPassKeeps(first, [], first.ordered);
    assert [] + first.ordered == first.ordered;
  }

  // ----- the frame of a sample -----

  lemma StripControl(words: seq<nat>, tag: Option<int>, control: nat)
    requires control < U32_LIMIT
    ensures var s := ControlStream(words, tag, control);
            && s.tag == tag
            && StripControlHeader(s.bytes) == Ok(Pack(words, 4))
            && LooksLikeControl(s.bytes) && FromLE(s.bytes[4..8]) == control
  {
    hide ToLE, FromLE;
    var bytes := Pack([CONTROL_MAGIC, control] + words, 4);
    var rest := Pack(words, 4);
    PackTwo(CONTROL_MAGIC, control, words);
    Pow256Widths();
    FromToLE(CONTROL_MAGIC, 4);
    FromToLE(control, 4);
    assert bytes[..4] == ToLE(CONTROL_MAGIC, 4);
    assert bytes[4..] == ToLE(control, 4) + rest;
    assert bytes[4..8] == ToLE(control, 4) && bytes[4..][..4] == ToLE(control, 4) && bytes[4..][4..] == rest;
  }

  lemma PackTwo(a: nat, b: nat, words: seq<nat>)
    ensures Pack([a, b] + words, 4) == ToLE(a, 4) + (ToLE(b, 4) + Pack(words, 4))
  {
    assert ([a, b] + words)[1..] == [b] + words && ([b] + words)[1..] == words;
  }

  /** The column of a field: whether it is text, its bytes, its lengths. */
  function FieldCursor(f: SampleField): Cursor {
    Cursor(f.kind == STRING, Data(f), if f.kind == STRING then f.lengths else [])
  }

  /** The columns of fields, a later field never replacing an earlier one. */
  function FieldColumns(values: map<int, Cursor>, fs: seq<SampleField>): map<int, Cursor>
    decreases |fs|
  {
    if fs == [] then values else FieldColumns(Emplace(values, fs[0].tag, FieldCursor(fs[0])), fs[1..])
  }

  ghost predicate NoControlTag(fs: seq<SampleField>) {
    forall i :: 0 <= i < |fs| ==> fs[i].tag !in {FIELD_ID_TAG, FIELD_TYPE_TAG, FIELD_LENGTH_TAG}
  }

  lemma AddFieldStream(a: Assembly, f: SampleField)
    requires ValidField(f) && f.tag !in {FIELD_ID_TAG, FIELD_TYPE_TAG, FIELD_LENGTH_TAG}
    ensures FieldStream(f).Ok?
    ensures AddOutput(a, FieldStream(f).value) == Ok(a.(values := Emplace(a.values, f.tag, FieldCursor(f))))
  {
    hide Pack, Emplace;
  }

  lemma {:induction false} AddFieldStreams(a: Assembly, fs: seq<SampleField>)
    requires ValidFields(fs) && NoControlTag(fs)
    ensures FieldStreams(fs).Ok?
    ensures AddOutputs(a, FieldStreams(fs).value) == Ok(a.(values := FieldColumns(a.values, fs)))
    decreases |fs|
  {
    hide FieldStream, AddOutput, Emplace, FieldCursor;
    if fs != [] {
      AddFieldStream(a, fs[0]);
      AddFieldStreams(a.(values := Emplace(a.values, fs[0].tag, FieldCursor(fs[0]))), fs[1..]);
      var first, rest := FieldStream(fs[0]).value, FieldStreams(fs[1..]).value;
      assert ([first] + rest)[1..] == rest;
    }
  }

  /** A control stream, found by its tag or by its header alike. */
  lemma AddControl(a: Assembly, words: seq<nat>, tag: Option<int>, control: nat)
    requires control in {CONTROL_FIELD_IDS, CONTROL_FIELD_TYPES, CONTROL_FIELD_LENGTHS}
    requires tag == None || tag.value + control == 0
    ensures AddOutput(a, ControlStream(words, tag, control)) == AssignControl(a, control, Pack(words, 4))
  {
    StripControl(words, tag, control);
    hide Pack, ControlStream, StripControlHeader, LooksLikeControl, FromLE;
  }

  lemma AddControls(a: Assembly, s: Sample, tagged: bool, rest: seq<Stream>)
    ensures AddOutputs(a, Controls(s, tagged) + rest)
         == AddOutputs(a.(ids := Some(Pack(s.fieldIds, 4)), types := Some(Pack(s.fieldTypes, 4)),
                          lens := Some(Pack(s.fieldLengths, 4))), rest)
  {
    hide AddOutput, Pack, ControlStream;
    var c := Controls(s, tagged);
    AddControl(a, s.fieldIds, if tagged then Some(FIELD_ID_TAG) else None, CONTROL_FIELD_IDS);
    var a1 := AddOutput(a, c[0]).value;
    AddControl(a1, s.fieldTypes, if tagged then Some(FIELD_TYPE_TAG) else None, CONTROL_FIELD_TYPES);
    var a2 := AddOutput(a1, c[1]).value;
    AddControl(a2, s.fieldLengths, if tagged then Some(FIELD_LENGTH_TAG) else None, CONTROL_FIELD_LENGTHS);
    assert (c + rest)[1..] == [c[1], c[2]] + rest;
    assert ([c[1], c[2]] + rest)[1..] == [c[2]] + rest;
    assert ([c[2]] + rest)[1..] == rest;
    assert AddOutputs(a, c + rest) == AddOutputs(a1, [c[1], c[2]] + rest);
    assert AddOutputs(a1, [c[1], c[2]] + rest) == AddOutputs(a2, [c[2]] + rest);
  }

  function Controls(s: Sample, tagged: bool): (c: seq<Stream>)
    ensures |c| == 3
  {
    [ControlStream(s.fieldIds, if tagged then Some(FIELD_ID_TAG) else None, CONTROL_FIELD_IDS),
     ControlStream(s.fieldTypes, if tagged then Some(FIELD_TYPE_TAG) else None, CONTROL_FIELD_TYPES),
     ControlStream(s.fieldLengths, if tagged then Some(FIELD_LENGTH_TAG) else None, CONTROL_FIELD_LENGTHS)]
  }

  /** Main result. What decompression returns of the inputs of a sample is
      assembled into exactly its control words and its columns. */
  lemma FrameOfSample(s: Sample)
    requires Valid(s) && NoControlTag(s.fields)
    ensures Inputs(s).Ok?
    ensures Assemble(Inputs(s).value) == Ok(Frame(Pack(s.fieldTypes, 4), Pack(s.fieldIds, 4), Pack(s.fieldLengths, 4),
                                                  FieldColumns(map[], s.fields), []))
  {
    hide AddOutput, ControlStream, Pack, FieldColumns;
    var a := NOTHING.(ids := Some(Pack(s.fieldIds, 4)), types := Some(Pack(s.fieldTypes, 4)), lens := Some(Pack(s.fieldLengths, 4)));
    AddFieldStreams(a, s.fields);
    AddControls(NOTHING, s, true, FieldStreams(s.fields).value);
    assert Inputs(s).value == Controls(s, true) + FieldStreams(s.fields).value;
    SecondPassIdle(Inputs(s).value);
  }

  ghost predicate DistinctTags(fs: seq<SampleField>) {
    forall i, j :: 0 <= i < j < |fs| ==> fs[i].tag != fs[j].tag
  }

  /** With distinct tags each field is the column under its tag, and there is no other. */
  lemma {:induction false} ColumnsOfFields(values: map<int, Cursor>, fs: seq<SampleField>)
    requires DistinctTags(fs)
    requires forall i :: 0 <= i < |fs| ==> fs[i].tag !in values
    ensures forall i :: 0 <= i < |fs| ==> fs[i].tag in FieldColumns(values, fs) && FieldColumns(values, fs)[fs[i].tag] == FieldCursor(fs[i])
    ensures forall tag :: tag in values ==> tag in FieldColumns(values, fs) && FieldColumns(values, fs)[tag] == values[tag]
    ensures forall tag :: tag in FieldColumns(values, fs) ==> tag in values || exists i :: 0 <= i < |fs| && fs[i].tag == tag
    decreases |fs|
  {
    hide FieldCursor;
    if fs != [] {
      var added := Emplace(values, fs[0].tag, FieldCursor(fs[0]));
      forall i | 0 <= i < |fs[1..]| ensures fs[1..][i].tag !in added {
        assert fs[1..][i] == fs[i + 1];
      }
      ColumnsOfFields(added, fs[1..]);
      forall i | 0 <= i < |fs|
        ensures fs[i].tag in FieldColumns(values, fs) && FieldColumns(values, fs)[fs[i].tag] == FieldCursor(fs[i])
      {
        if i > 0 {
          assert fs[i] == fs[1..][i - 1];
        }
      }
    }
  }

  // ----- frames whose outputs lost their tags -----

  lemma {:induction false} AddUntagged(a: Assembly, outputs: seq<Stream>)
    requires forall i :: 0 <= i < |outputs| ==> outputs[i].tag == None && !LooksLikeControl(outputs[i].bytes)
    ensures AddOutputs(a, outputs) == Ok(a.(ordered := a.ordered + Cursors(outputs)))
    decreases |outputs|
  {
    hide LooksLikeControl;
    if outputs == [] {
      assert a.ordered + Cursors(outputs) == a.ordered;
    } else {
      AddUntagged(AddOutput(a, outputs[0]).value, outputs[1..]);
      assert Cursors(outputs) == [NewCursor(outputs[0])] + Cursors(outputs[1..]);
      assert a.ordered + Cursors(outputs) == (a.ordered + [NewCursor(outputs[0])]) + Cursors(outputs[1..]);
    }
  }

  function Cursors(outputs: seq<Stream>): seq<Cursor> {
    seq(|outputs|, i requires 0 <= i < |outputs| => NewCursor(outputs[i]))
  }

  /** Main result. Without any tags the control streams are found by their
      header, and the other columns wait in the order they came, provided none
      of them starts like a control stream. */
  lemma FrameWithoutTags(s: Sample, columns: seq<Stream>)
    requires forall i :: 0 <= i < |columns| ==> columns[i].tag == None && !LooksLikeControl(columns[i].bytes)
    ensures Assemble(Controls(s, false) + columns)
         == Ok(Frame(Pack(s.fieldTypes, 4), Pack(s.fieldIds, 4), Pack(s.fieldLengths, 4), map[], Cursors(columns)))
  {
    hide AddOutput, ControlStream, Pack, LooksLikeControl;
    AddControls(NOTHING, s, false, columns);
    AddUntagged(NOTHING.(ids := Some(Pack(s.fieldIds, 4)), types := Some(Pack(s.fieldTypes, 4)), lens := Some(Pack(s.fieldLengths, 4))),
                columns);
    assert [] + Cursors(columns) == Cursors(columns);
    SecondPassIdle(Controls(s, false) + columns);
  }

  /** That proviso is exact: a column that starts like a control stream is never
      left among the columns. */
  lemma FrameWithoutTagsExactly(s: Sample, columns: seq<Stream>)
    requires forall i :: 0 <= i < |columns| ==> columns[i].tag == None
    ensures Assemble(Controls(s, false) + columns)
            == Ok(Frame(Pack(s.fieldTypes, 4), Pack(s.fieldIds, 4), Pack(s.fieldLengths, 4), map[], Cursors(columns)))
         <==> forall i :: 0 <= i < |columns| ==> !LooksLikeControl(columns[i].bytes)
  {
    hide AddOutputs, SecondPass, Pack, LooksLikeControl, Controls;
    var outputs := Controls(s, false) + columns;
    if forall i :: 0 <= i < |columns| ==> !LooksLikeControl(columns[i].bytes) {
      FrameWithoutTags(s, columns);
    } else if Assemble(outputs).Ok? && Assemble(outputs).value.ordered == Cursors(columns) {
      SecondPassIdle(outputs);
      OrderedAreNoControls(NOTHING, outputs);
      forall i | 0 <= i < |columns| ensures !LooksLikeControl(columns[i].bytes) {
        assert Cursors(columns)[i].data == columns[i].bytes;
      }
    }
  }
}
