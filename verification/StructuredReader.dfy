/** The decoder of structured frames: a message is rebuilt by recursive descent
    over three control streams and one value column per leaf path. */
module StructuredReader {

  import opened Results
  import opened LittleEndian
  import opened PathHash
  import opened Schemas
  import opened Messages

  // ----- reader state -----

  /** A value column as far as it is still unread: whether its stream is
      string-typed, the rest of its bytes, the rest of its string lengths. */
  datatype Cursor = Cursor(text: bool, data: seq<Byte>, lengths: seq<nat>)

  /** What the readers of a frame have left. Columns are found by tag, or bound
      to a tag on demand from the columns that came without one. */
  datatype Frame = Frame(types: seq<Byte>, ids: seq<Byte>, lens: seq<Byte>,
                         values: map<int, Cursor>, ordered: seq<Cursor>)

  /** One leaf field read: the column it asked for, and the field's kind. */
  datatype Use = Use(tag: int, kind: Kind)

  datatype Read = Read(message: Message, frame: Frame, total: nat, uses: seq<Use>)

  datatype ValueRead = ValueRead(value: Value, cursor: Cursor, lens: seq<Byte>, total: nat)

  datatype FieldRead = FieldRead(message: Message, cursor: Cursor, lens: seq<Byte>, total: nat)

  function ReadU32(s: seq<Byte>): (r: Result<(U32, seq<Byte>)>)
    ensures r.Ok? <==> |s| >= 4
    ensures r.Ok? ==> |s| == 4 + |r.value.1|
  {
    if |s| < 4 then Err(Truncated)
    else
      ToFromLE(s[..4]);
      Pow256Widths();
      Ok((FromLE(s[..4]), s[4..]))
  }

  // ----- values -----

  function ReadString(c: Cursor, expected: nat): Result<(Value, Cursor)> {
    if !c.text then Err(NotString)
    else if c.lengths == [] then Err(Truncated)
    else if c.lengths[0] != expected then Err(LengthMismatch)
    else if |c.data| < expected then Err(Truncated)
    else Ok((Text(c.data[..expected]), c.(data := c.data[expected..], lengths := c.lengths[1..])))
  }

  function ReadValue(kind: Kind, c: Cursor, lens: seq<Byte>): Result<ValueRead> {
    if kind == STRING then
      var (len, lens1) :- ReadU32(lens);
      var (v, c1) :- ReadString(c, len);
      Ok(ValueRead(v, c1, lens1, len + 4))
    else
      var (bits, rest) :- ReadLE(c.data, Width(kind));
      Ok(ValueRead(Scalar(bits), c.(data := rest), lens, Width(kind)))
  }

  function ReadRepeated(field: FieldDescriptor, m: Message, c: Cursor, lens: seq<Byte>, count: nat): Result<FieldRead>
    decreases count
  {
    if count == 0 then Ok(FieldRead(m, c, lens, 0))
    else
      var v :- ReadValue(field.kind, c, lens);
      var rest :- ReadRepeated(field, AddValue(m, field.number, v.value), v.cursor, v.lens, count - 1);
      Ok(rest.(total := v.total + rest.total))
  }

  function ReadField(field: FieldDescriptor, m: Message, c: Cursor, lens: seq<Byte>): Result<FieldRead> {
    if !field.repeated then
      var v :- ReadValue(field.kind, c, lens);
      Ok(FieldRead(SetValue(m, field.number, v.value), v.cursor, v.lens, v.total))
    else
      var (count, lens1) :- ReadU32(lens);
      var r :- ReadRepeated(field, m, c, lens1, count);
      Ok(r.(total := 4 + r.total))
  }

  // ----- columns -----

  /** The frame with a column bound to the tag. */
  function RequireCursor(f: Frame, tag: int): (r: Result<Frame>)
    ensures r.Ok? ==> tag in r.value.values && r.value.types == f.types
  {
    if tag in f.values then Ok(f)
    else if f.ordered == [] then Err(MissingStream)
    else Ok(f.(values := f.values[tag := f.ordered[0]], ordered := f.ordered[1..]))
  }

  function ReadLeaf(field: FieldDescriptor, pathHash: U32, m: Message, f: Frame): (r: Result<Read>)
    ensures r.Ok? ==> r.value.frame.types == f.types
  {
    var tag := FieldTag(pathHash, field.number);
    var bound :- RequireCursor(f, tag);
    var leaf :- ReadField(field, m, bound.values[tag], bound.lens);
    Ok(Read(leaf.message, bound.(values := bound.values[tag := leaf.cursor], lens := leaf.lens),
            leaf.total, [Use(tag, field.kind)]))
  }

  // ----- messages -----

  /** The front of a message: its end, with the bytes that took, or the type
      and id of its next field. */
  datatype Front = End(frame: Frame, size: nat) | Next(frame: Frame, fieldType: U32, fieldId: U32)

  function ReadFront(f: Frame): (r: Result<Front>)
    ensures r.Ok? && r.value.Next? ==> |r.value.frame.types| < |f.types|
    ensures r.Ok? && r.value.End? ==> |r.value.frame.types| <= |f.types|
  {
    if f.types == [] then Ok(End(f, 0))
    else
      var (fieldType, types) :- ReadU32(f.types);
      if fieldType == STOP then Ok(End(f.(types := types), 4))
      else
        var (fieldId, ids) :- ReadU32(f.ids);
        Ok(Next(f.(types := types, ids := ids), fieldType, fieldId))
  }

  /** A run that has read some bytes and columns before this one. */
  function After(total: nat, uses: seq<Use>, r: Result<Read>): (a: Result<Read>)
    ensures r.Ok? <==> a.Ok?
    ensures r.Ok? ==> a.value.frame == r.value.frame && a.value.message == r.value.message
  {
    match r
    case Err(e) => Err(e)
    case Ok(read) => Ok(Read(read.message, read.frame, total + read.total, uses + read.uses))
  }

  /** The reading function terminates because each field takes four bytes off
      the type stream, and a repeated message, which may take none, counts down. */
  function ReadMessage(schema: Schema, typeName: string, pathHash: U32, m: Message, f: Frame): (r: Result<Read>)
    ensures r.Ok? ==> |r.value.frame.types| <= |f.types|
    decreases |f.types|, 0, 0
  {
    var front :- ReadFront(f);
    if front.End? then Ok(Read(m, front.frame, front.size, []))
    else
      var step :- ReadEntry(schema, typeName, pathHash, front.fieldType, front.fieldId, m, front.frame);
      After(8 + step.total, step.uses, ReadMessage(schema, typeName, pathHash, step.message, step.frame))
  }

  /** One field, after its type and id. */
  function ReadEntry(schema: Schema, typeName: string, pathHash: U32, fieldType: U32, fieldId: U32, m: Message, f: Frame)
    : (r: Result<Read>)
    ensures r.Ok? ==> |r.value.frame.types| <= |f.types|
    decreases |f.types|, 2, 0
  {
    match FindFieldByNumber(Fields(schema, typeName), fieldId)
    case None => Err(UnknownField)
    case Some(field) =>
      if fieldType != field.kind then Err(TypeMismatch)
      else if field.kind != MESSAGE then ReadLeaf(field, pathHash, m, f)
      else
        var childHash := ExtendPathHash(pathHash, fieldId);
        if !field.repeated then
          var sub :- ReadMessage(schema, field.messageType, childHash, SubMessage(m, fieldId), f);
          Ok(sub.(message := SetSubMessage(m, fieldId, sub.message)))
        else
          var (count, lens) :- ReadU32(f.lens);
          var subs :- ReadSubMessages(schema, field.messageType, childHash, fieldId, m, f.(lens := lens), count);
          Ok(subs.(total := 4 + subs.total))
  }

  function ReadSubMessages(schema: Schema, typeName: string, pathHash: U32, number: U32, m: Message, f: Frame, count: nat)
    : (r: Result<Read>)
    ensures r.Ok? ==> |r.value.frame.types| <= |f.types|
    decreases |f.types|, 1, count
  {
    if count == 0 then Ok(Read(m, f, 0, []))
    else
      var sub :- ReadMessage(schema, typeName, pathHash, EMPTY, f);
      After(sub.total, sub.uses,
            ReadSubMessages(schema, typeName, pathHash, number, AddSubMessage(m, number, sub.message), sub.frame, count - 1))
  }

  // ----- the columns that a run asks for, whether or not it succeeds -----

  ghost function Requests(schema: Schema, typeName: string, pathHash: U32, m: Message, f: Frame): seq<Use>
    decreases |f.types|, 0, 0
  {
    var front := ReadFront(f);
    if front.Err? || front.value.End? then []
    else
      var g, fieldType, fieldId := front.value.frame, front.value.fieldType, front.value.fieldId;
      var step := ReadEntry(schema, typeName, pathHash, fieldType, fieldId, m, g);
      EntryRequests(schema, typeName, pathHash, fieldType, fieldId, m, g)
      + if step.Err? then [] else Requests(schema, typeName, pathHash, step.value.message, step.value.frame)
  }

  ghost function EntryRequests(schema: Schema, typeName: string, pathHash: U32, fieldType: U32, fieldId: U32, m: Message, f: Frame)
    : seq<Use>
    decreases |f.types|, 2, 0
  {
    match FindFieldByNumber(Fields(schema, typeName), fieldId)
    case None => []
    case Some(field) =>
      if fieldType != field.kind then []
      else if field.kind != MESSAGE then [Use(FieldTag(pathHash, fieldId), field.kind)]
      else
        var childHash := ExtendPathHash(pathHash, fieldId);
        if !field.repeated then Requests(schema, field.messageType, childHash, SubMessage(m, fieldId), f)
        else if |f.lens| < 4 then []
        else
          var (count, lens) := ReadU32(f.lens).value;
          ElementRequests(schema, field.messageType, childHash, f.(lens := lens), count)
  }

  ghost function ElementRequests(schema: Schema, typeName: string, pathHash: U32, f: Frame, count: nat): seq<Use>
    decreases |f.types|, 1, count
  {
    if count == 0 then []
    else
      var sub := ReadMessage(schema, typeName, pathHash, EMPTY, f);
      Requests(schema, typeName, pathHash, EMPTY, f)
      + if sub.Err? then [] else ElementRequests(schema, typeName, pathHash, sub.value.frame, count - 1)
  }
}
