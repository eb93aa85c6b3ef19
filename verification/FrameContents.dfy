/** What a frame is made of, read off the list of outputs: which outputs stop the
    assembly, which is taken for each control stream and each column, and which
    wait for a tag. */
module FrameContents {

  import opened Results
  import opened LittleEndian
  import opened Schemas
  import opened StructuredReader
  import opened SampleFormat
  import opened FrameAssembly

  /** The header of a control stream: the magic word, then its number. */
  function Word(bytes: seq<Byte>, at: nat): nat
    requires at + 4 <= |bytes|
  {
    FromLE(bytes[at..at + 4])
  }

  predicate StartsWithMagic(bytes: seq<Byte>) {
    |bytes| >= 8 && Word(bytes, 0) == 0x5A4C5053
  }

  /** The control stream that an output is taken for, by its tag or, without
      one, by its header; 0 if it is a column. */
  function ControlNumber(o: Stream): nat {
    match o.tag
    case Some(tag) => if tag in {-1, -2, -3} then -tag else 0
    case None => if StartsWithMagic(o.bytes) then Word(o.bytes, 4) else 0
  }

  /** Why an output stops the assembly. */
  function Fault(o: Stream): Option<Error> {
    match o.tag
    case Some(tag) =>
      if tag !in {-1, -2, -3} || StartsWithMagic(o.bytes) then None
      else if |o.bytes| < 8 then Some(Truncated) else Some(MissingMagic)
    case None =>
      if StartsWithMagic(o.bytes) && Word(o.bytes, 4) !in {1, 2, 3} then Some(UnknownControl) else None
  }

  /** The last output that is taken for this control stream, without its header. */
  function LastControl(outputs: seq<Stream>, number: nat): Option<seq<Byte>> {
    if outputs == [] then None
    else
      var o := outputs[|outputs| - 1];
      if ControlNumber(o) == number && |o.bytes| >= 8 then Some(o.bytes[8..])
      else LastControl(outputs[..|outputs| - 1], number)
  }

  /** The column of an output: only a string stream has lengths. */
  function Column(o: Stream): Cursor {
    match o.streamType
    case StringStream => Cursor(true, o.bytes, o.stringLengths)
    case _ => Cursor(false, o.bytes, [])
  }

  /** The first output with this tag. */
  function FirstColumn(outputs: seq<Stream>, tag: int): Option<Cursor> {
    if outputs == [] then None
    else if outputs[0].tag == Some(tag) then Some(Column(outputs[0]))
    else FirstColumn(outputs[1..], tag)
  }

  /** The columns that came without a tag, in order. */
  function Waiting(outputs: seq<Stream>): seq<Cursor> {
    if outputs == [] then []
    else
      (if outputs[0].tag == None && !StartsWithMagic(outputs[0].bytes) then [Column(outputs[0])] else [])
      + Waiting(outputs[1..])
  }

  /** The first fault among the outputs. */
  function FirstFault(outputs: seq<Stream>): Option<Error> {
    if outputs == [] then None
    else if Fault(outputs[0]).Some? then Fault(outputs[0])
    else FirstFault(outputs[1..])
  }

  function OrElse<T>(a: Option<T>, b: Option<T>): Option<T> {
    if a.Some? then a else b
  }

  // ----- one output -----

  lemma ControlHeader(bytes: seq<Byte>)
    ensures LooksLikeControl(bytes) <==> StartsWithMagic(bytes)
    ensures StripControlHeader(bytes) ==
              if |bytes| < 8 then Err(Truncated)
              else if StartsWithMagic(bytes) then Ok(bytes[8..])
              else Err(MissingMagic)
  {
    hide FromLE;
    if |bytes| >= 8 {
      assert bytes[0..4] == bytes[..4] && bytes[4..][4..] == bytes[8..];
    }
  }

  /** What one output does to the assembly. */
  lemma AddOutputEffect(a: Assembly, o: Stream)
    ensures Fault(o).Some? ==> AddOutput(a, o) == Err(Fault(o).value)
    ensures Fault(o).None? ==> AddOutput(a, o).Ok?
    ensures Fault(o).None? && ControlNumber(o) != 0 ==>
              && |o.bytes| >= 8 && ControlNumber(o) in {1, 2, 3}
              && AddOutput(a, o).value == (if ControlNumber(o) == 1 then a.(ids := Some(o.bytes[8..]))
                                           else if ControlNumber(o) == 2 then a.(types := Some(o.bytes[8..]))
                                           else a.(lens := Some(o.bytes[8..])))
    ensures Fault(o).None? && ControlNumber(o) == 0 ==>
              AddOutput(a, o).value == (if o.tag.Some? then a.(values := Emplace(a.values, o.tag.value, Column(o)))
                                        else a.(ordered := a.ordered + [Column(o)]))
  {
    ControlHeader(o.bytes);
    assert NewCursor(o) == Column(o);
    hide FromLE, NewCursor, Column, LooksLikeControl, StripControlHeader, Emplace;
    assert |o.bytes| >= 8 ==> Word(o.bytes, 4) == FromLE(o.bytes[4..8]);
  }

  // ----- all outputs -----

  lemma {:induction false} LastControlFirst(outputs: seq<Stream>, number: nat)
    requires outputs != []
    ensures LastControl(outputs, number) == OrElse(LastControl(outputs[1..], number), LastControl(outputs[..1], number))
  {
    var n := |outputs|;
    if n > 1 {
      assert outputs[1..][n - 2] == outputs[n - 1];
      assert outputs[1..][..n - 2] == outputs[..n - 1][1..] && outputs[..n - 1][..1] == outputs[..1];
      LastControlFirst(outputs[..n - 1], number);
    } else {
      assert outputs[..1] == outputs;
    }
  }

  ghost predicate Adds(a: Assembly, outputs: seq<Stream>, b: Assembly) {
    && b.ids == OrElse(LastControl(outputs, 1), a.ids)
    && b.types == OrElse(LastControl(outputs, 2), a.types)
    && b.lens == OrElse(LastControl(outputs, 3), a.lens)
    && b.ordered == a.ordered + Waiting(outputs)
    && AddsColumns(a, outputs, b)
  }

  ghost predicate AddsColumns(a: Assembly, outputs: seq<Stream>, b: Assembly) {
    && (forall tag :: tag in b.values <==> tag in a.values || (tag !in {-1, -2, -3} && FirstColumn(outputs, tag).Some?))
    && forall tag :: tag in b.values ==>
         b.values[tag] == if tag in a.values then a.values[tag] else FirstColumn(outputs, tag).value
  }

  lemma OneControl(o: Stream, number: nat)
    ensures LastControl([o], number) == if ControlNumber(o) == number && |o.bytes| >= 8 then Some(o.bytes[8..]) else None
  {
    hide ControlNumber;
    assert [o][..0] == [] && LastControl([], number) == None;
  }

  lemma AddsOne(a: Assembly, o: Stream)
    requires Fault(o).None?
    ensures AddOutput(a, o).Ok? && Adds(a, [o], AddOutput(a, o).value)
  {
    AddOutputEffect(a, o);
    OneControl(o, 1);
    OneControl(o, 2);
    OneControl(o, 3);
    hide AddOutput, Column, LastControl;
    assert [o][1..] == [];
    assert forall tag :: FirstColumn([o], tag) == if o.tag == Some(tag) then Some(Column(o)) else None;
    assert Waiting([o]) == if o.tag == None && !StartsWithMagic(o.bytes) then [Column(o)] else [];
    assert a.ordered + [] == a.ordered;
  }

  lemma AddsMore(a: Assembly, outputs: seq<Stream>, b: Assembly, c: Assembly)
    requires outputs != [] && Adds(a, outputs[..1], b) && Adds(b, outputs[1..], c)
    ensures Adds(a, outputs, c)
  {
    hide ControlNumber, Column, LastControl, StartsWithMagic, AddsColumns, FirstColumn, Fault;
    AddsMoreColumns(a, outputs, b, c);
    LastControlFirst(outputs, 1);
    LastControlFirst(outputs, 2);
    LastControlFirst(outputs, 3);
    WaitingFirst(outputs);
    hide Waiting;
    assert a.ordered + Waiting(outputs[..1]) + Waiting(outputs[1..]) == a.ordered + Waiting(outputs);
  }

  lemma WaitingFirst(outputs: seq<Stream>)
    requires outputs != []
    ensures Waiting(outputs) == Waiting(outputs[..1]) + Waiting(outputs[1..])
  {
    hide Column, StartsWithMagic;
    var first := outputs[..1];
    assert first[0] == outputs[0] && first[1..] == [] && Waiting([]) == [];
  }

  lemma AddsMoreColumns(a: Assembly, outputs: seq<Stream>, b: Assembly, c: Assembly)
    requires outputs != [] && AddsColumns(a, outputs[..1], b) && AddsColumns(b, outputs[1..], c)
    ensures AddsColumns(a, outputs, c)
  {
    hide Column;
    var first := outputs[..1];
    assert first[0] == outputs[0] && first[1..] == [];
    assert forall tag :: FirstColumn(outputs, tag) == OrElse(FirstColumn(first, tag), FirstColumn(outputs[1..], tag));
  }

  lemma {:induction false} AddsAll(a: Assembly, outputs: seq<Stream>)
    ensures FirstFault(outputs).Some? ==> AddOutputs(a, outputs) == Err(FirstFault(outputs).value)
    ensures FirstFault(outputs).None? ==> AddOutputs(a, outputs).Ok? && Adds(a, outputs, AddOutputs(a, outputs).value)
    decreases |outputs|
  {
    hide AddOutput, Adds, Fault;
    if outputs == [] {
      AddsNothing(a);
    } else {
      AddOutputEffect(a, outputs[0]);
      if Fault(outputs[0]).None? {
        var b := AddOutput(a, outputs[0]).value;
        AddsOne(a, outputs[0]);
        assert outputs[..1] == [outputs[0]];
        AddsAll(b, outputs[1..]);
        if FirstFault(outputs[1..]).None? {
          AddsMore(a, outputs, b, AddOutputs(b, outputs[1..]).value);
        }
      }
    }
  }

  lemma AddsNothing(a: Assembly)
    ensures Adds(a, [], a)
  {
    assert a.ordered + [] == a.ordered;
  }

  /** Main result. The assembly fails with the first fault of an output, or for
      a control stream that is missing, and otherwise has the last of each
      control stream, the first column under each tag and the columns without a
      tag in their order. */
  lemma AssembledExactly(outputs: seq<Stream>)
    ensures var fault := FirstFault(outputs);
            var ids, types, lens := LastControl(outputs, 1), LastControl(outputs, 2), LastControl(outputs, 3);
            var r := Assemble(outputs);
            && (fault.Some? ==> r == Err(fault.value))
            && (fault.None? && (ids.None? || types.None? || lens.None?) ==> r == Err(MissingControls))
            && (fault.None? && ids.Some? && types.Some? && lens.Some? ==>
                  && r.Ok? && r.value.ids == ids.value && r.value.types == types.value && r.value.lens == lens.value
                  && r.value.ordered == Waiting(outputs)
                  && forall tag :: if tag in r.value.values then
                                     tag !in {-1, -2, -3} && FirstColumn(outputs, tag) == Some(r.value.values[tag])
                                   else tag in {-1, -2, -3} || FirstColumn(outputs, tag).None?)
  {
    hide AddOutputs, FirstFault, LastControl, Waiting, FirstColumn, SecondPass;
    AddsAll(NOTHING, outputs);
    if FirstFault(outputs).None? {
      SecondPassIdle(outputs);
      assert [] + Waiting(outputs) == Waiting(outputs);
    }
  }
}
