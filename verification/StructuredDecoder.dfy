/** The frame object of the decoder and its reading methods, which move the
    readers in place. Each method does exactly what the function of the same
    purpose in StructuredReader says of the frame before the call. */
module StructuredDecoder {

  import opened Results
  import opened LittleEndian
  import opened PathHash
  import opened Schemas
  import opened Messages
  import opened StructuredReader

  function AfterValues(total: nat, r: Result<FieldRead>): Result<FieldRead> {
    match r
    case Err(e) => Err(e)
    case Ok(read) => Ok(read.(total := total + read.total))
  }

  lemma AfterNothing(r: Result<Read>)
    ensures After(0, [], r) == r
  {
    if r.Ok? {
      assert [] + r.value.uses == r.value.uses;
    }
  }

  lemma AfterAfter(t1: nat, u1: seq<Use>, t2: nat, u2: seq<Use>, r: Result<Read>)
    ensures After(t1, u1, After(t2, u2, r)) == After(t1 + t2, u1 + u2, r)
  {
    if r.Ok? {
      assert (u1 + u2) + r.value.uses == u1 + (u2 + r.value.uses);
    }
  }

  // One turn of each loop, as an unfolding of the function it computes.

  /** The whole run is what has been read so far and the rest of the message. */
  ghost predicate Tail(whole: Result<Read>, total: nat, uses: seq<Use>,
                       schema: Schema, typeName: string, pathHash: U32, m: Message, f: Frame)
  {
    whole == After(total, uses, ReadMessage(schema, typeName, pathHash, m, f))
  }

  ghost predicate TailOfElements(whole: Result<Read>, total: nat, uses: seq<Use>,
                                 schema: Schema, typeName: string, pathHash: U32, number: U32, m: Message, f: Frame, count: nat)
  {
    whole == After(total, uses, ReadSubMessages(schema, typeName, pathHash, number, m, f, count))
  }

  lemma TailBegins(schema: Schema, typeName: string, pathHash: U32, m: Message, f: Frame)
    ensures Tail(ReadMessage(schema, typeName, pathHash, m, f), 0, [], schema, typeName, pathHash, m, f)
  {
    AfterNothing(ReadMessage(schema, typeName, pathHash, m, f));
  }

  lemma MessageEnds(whole: Result<Read>, total: nat, uses: seq<Use>,
                    schema: Schema, typeName: string, pathHash: U32, m: Message, f: Frame)
    requires Tail(whole, total, uses, schema, typeName, pathHash, m, f)
    ensures var front := ReadFront(f);
            && (front.Err? ==> whole == Err(front.error))
            && (front.Ok? && front.value.End? ==> whole == Ok(Read(m, front.value.frame, total + front.value.size, uses)))
            && (front.Ok? && front.value.Next? ==>
                  var step := ReadEntry(schema, typeName, pathHash, front.value.fieldType, front.value.fieldId, m, front.value.frame);
                  step.Err? ==> whole == Err(step.error))
  {
    assert uses + [] == uses;
  }

  lemma EntryRead(whole: Result<Read>, total: nat, uses: seq<Use>,
                  schema: Schema, typeName: string, pathHash: U32, m: Message, f: Frame,
                  fieldType: U32, fieldId: U32, g: Frame, step: Read)
    requires Tail(whole, total, uses, schema, typeName, pathHash, m, f)
    requires ReadFront(f) == Ok(Next(g, fieldType, fieldId))
    requires ReadEntry(schema, typeName, pathHash, fieldType, fieldId, m, g) == Ok(step)
    ensures Tail(whole, total + (8 + step.total), uses + step.uses, schema, typeName, pathHash, step.message, step.frame)
  {
    hide ReadEntry, ReadFront;
    var rest := ReadMessage(schema, typeName, pathHash, step.message, step.frame);
    assert ReadMessage(schema, typeName, pathHash, m, f) == After(8 + step.total, step.uses, rest);
    AfterAfter(total, uses, 8 + step.total, step.uses, rest);
  }

  /** What has been asked for so far and what the rest of the message asks for. */
  ghost predicate Asking(all: seq<Use>, asked: seq<Use>, schema: Schema, typeName: string, pathHash: U32, m: Message, f: Frame) {
    all == asked + Requests(schema, typeName, pathHash, m, f)
  }

  lemma NothingMore(all: seq<Use>, asked: seq<Use>, schema: Schema, typeName: string, pathHash: U32, m: Message, f: Frame)
    requires Asking(all, asked, schema, typeName, pathHash, m, f)
    requires ReadFront(f).Err? || ReadFront(f).value.End?
    ensures all == asked
  {
  }

  lemma AsksEntry(all: seq<Use>, asked: seq<Use>, schema: Schema, typeName: string, pathHash: U32, m: Message, f: Frame)
    requires Asking(all, asked, schema, typeName, pathHash, m, f)
    requires ReadFront(f).Ok? && ReadFront(f).value.Next?
    ensures var n := ReadFront(f).value;
            var step := ReadEntry(schema, typeName, pathHash, n.fieldType, n.fieldId, m, n.frame);
            var more := asked + EntryRequests(schema, typeName, pathHash, n.fieldType, n.fieldId, m, n.frame);
            && (step.Err? ==> all == more)
            && (step.Ok? ==> Asking(all, more, schema, typeName, pathHash, step.value.message, step.value.frame))
  {
    hide ReadFront, ReadEntry, EntryRequests;
    var n := ReadFront(f).value;
    var step := ReadEntry(schema, typeName, pathHash, n.fieldType, n.fieldId, m, n.frame);
    var entry := EntryRequests(schema, typeName, pathHash, n.fieldType, n.fieldId, m, n.frame);
    if step.Ok? {
      var rest := Requests(schema, typeName, pathHash, step.value.message, step.value.frame);
      assert asked + (entry + rest) == asked + entry + rest;
    } else {
      assert entry + [] == entry;
    }
  }

  lemma AskingBegins(asked: seq<Use>, schema: Schema, typeName: string, pathHash: U32, m: Message, f: Frame)
    ensures Asking(asked + Requests(schema, typeName, pathHash, m, f), asked, schema, typeName, pathHash, m, f)
  {
  }

  lemma MessageAsks(all: seq<Use>, asked: seq<Use>, schema: Schema, typeName: string, pathHash: U32, m: Message, f: Frame)
    requires Asking(all, asked, schema, typeName, pathHash, m, f)
    ensures var front := ReadFront(f);
            if front.Err? || front.value.End? then all == asked
            else
              var n := front.value;
              var step := ReadEntry(schema, typeName, pathHash, n.fieldType, n.fieldId, m, n.frame);
              var more := asked + EntryRequests(schema, typeName, pathHash, n.fieldType, n.fieldId, m, n.frame);
              && (step.Err? ==> all == more)
              && (step.Ok? ==> Asking(all, more, schema, typeName, pathHash, step.value.message, step.value.frame))
  {
    hide ReadEntry, EntryRequests, Asking, Requests;
    if ReadFront(f).Err? || ReadFront(f).value.End? {
      NothingMore(all, asked, schema, typeName, pathHash, m, f);
    } else {
      AsksEntry(all, asked, schema, typeName, pathHash, m, f);
    }
  }

  ghost predicate AskingElements(all: seq<Use>, asked: seq<Use>, schema: Schema, typeName: string, pathHash: U32, f: Frame, count: nat) {
    all == asked + ElementRequests(schema, typeName, pathHash, f, count)
  }

  lemma ElementsAsked(asked: seq<Use>, schema: Schema, typeName: string, pathHash: U32, f: Frame, count: nat)
    ensures AskingElements(asked + ElementRequests(schema, typeName, pathHash, f, count), asked, schema, typeName, pathHash, f, count)
  {
  }

  lemma ElementsAsk(all: seq<Use>, asked: seq<Use>, schema: Schema, typeName: string, pathHash: U32, f: Frame, count: nat)
    requires AskingElements(all, asked, schema, typeName, pathHash, f, count)
    ensures if count == 0 then all == asked
            else
              var sub := ReadMessage(schema, typeName, pathHash, EMPTY, f);
              var more := asked + Requests(schema, typeName, pathHash, EMPTY, f);
              && (sub.Err? ==> all == more)
              && (sub.Ok? ==> AskingElements(all, more, schema, typeName, pathHash, sub.value.frame, count - 1))
  {
    hide ReadMessage, Requests;
    var sub, first := ReadMessage(schema, typeName, pathHash, EMPTY, f), Requests(schema, typeName, pathHash, EMPTY, f);
    if count > 0 && sub.Ok? {
      var rest := ElementRequests(schema, typeName, pathHash, sub.value.frame, count - 1);
      assert asked + (first + rest) == asked + first + rest;
    } else {
      assert first + [] == first && asked + [] == asked;
    }
  }

  lemma ElementsBegin(schema: Schema, typeName: string, pathHash: U32, number: U32, m: Message, f: Frame, count: nat)
    ensures TailOfElements(ReadSubMessages(schema, typeName, pathHash, number, m, f, count), 0, [],
                           schema, typeName, pathHash, number, m, f, count)
  {
    AfterNothing(ReadSubMessages(schema, typeName, pathHash, number, m, f, count));
  }

  lemma ElementsEnd(whole: Result<Read>, total: nat, uses: seq<Use>,
                    schema: Schema, typeName: string, pathHash: U32, number: U32, m: Message, f: Frame)
    requires TailOfElements(whole, total, uses, schema, typeName, pathHash, number, m, f, 0)
    ensures whole == Ok(Read(m, f, total, uses))
  {
    assert uses + [] == uses;
  }

  lemma ElementFails(whole: Result<Read>, total: nat, uses: seq<Use>,
                     schema: Schema, typeName: string, pathHash: U32, number: U32, m: Message, f: Frame, count: nat)
    requires count > 0
    requires TailOfElements(whole, total, uses, schema, typeName, pathHash, number, m, f, count)
    ensures var sub := ReadMessage(schema, typeName, pathHash, EMPTY, f);
            sub.Err? ==> whole == Err(sub.error)
  {
  }

  lemma ElementRead(whole: Result<Read>, total: nat, uses: seq<Use>,
                    schema: Schema, typeName: string, pathHash: U32, number: U32, m: Message, f: Frame, count: nat, sub: Read)
    requires count > 0
    requires TailOfElements(whole, total, uses, schema, typeName, pathHash, number, m, f, count)
    requires ReadMessage(schema, typeName, pathHash, EMPTY, f) == Ok(sub)
    ensures TailOfElements(whole, total + sub.total, uses + sub.uses, schema, typeName, pathHash, number,
                           AddSubMessage(m, number, sub.message), sub.frame, count - 1)
  {
    AfterAfter(total, uses, sub.total, sub.uses,
               ReadSubMessages(schema, typeName, pathHash, number, AddSubMessage(m, number, sub.message), sub.frame, count - 1));
  }

  lemma ValueStep(whole: Result<FieldRead>, total: nat, field: FieldDescriptor, m: Message, c: Cursor, lens: seq<Byte>, count: nat)
    requires count > 0
    requires whole == AfterValues(total, ReadRepeated(field, m, c, lens, count))
    ensures match ReadValue(field.kind, c, lens)
            case Err(e) => whole == Err(e)
            case Ok(v) => whole == AfterValues(total + v.total, ReadRepeated(field, AddValue(m, field.number, v.value),
                                                                             v.cursor, v.lens, count - 1))
  {
  }

  class StructuredDecodedFrame {
    var fieldTypes: seq<Byte>
    var fieldIds: seq<Byte>
    var fieldLengths: seq<Byte>
    var values: map<int, Cursor>
    var orderedValues: seq<Cursor>

    ghost var requested: seq<Use>    // the columns asked for, in order

    ghost function View(): Frame
      reads this
    {
      Frame(fieldTypes, fieldIds, fieldLengths, values, orderedValues)
    }

    constructor (f: Frame)
      ensures View() == f && requested == []
    {
      fieldTypes, fieldIds, fieldLengths := f.types, f.ids, f.lens;
      values, orderedValues := f.values, f.ordered;
      requested := [];
    }

    method ReadLengthControl() returns (r: Result<U32>)
      modifies `fieldLengths
      ensures match ReadU32(old(fieldLengths))
              case Err(e) => r == Err(e)
              case Ok((value, rest)) => r == Ok(value) && fieldLengths == rest
    {
      var read := ReadU32(fieldLengths);
      if read.Err? {
        return Err(read.error);
      }
      fieldLengths := read.value.1;
      r := Ok(read.value.0);
    }

    method ReadStringValue(tag: int, expectedLength: nat) returns (r: Result<Value>)
      requires tag in values
      modifies `values
      ensures match ReadString(old(values[tag]), expectedLength)
              case Err(e) => r == Err(e)
              case Ok((value, cursor)) => r == Ok(value) && values == old(values)[tag := cursor]
    {
      var cursor := values[tag];
      if !cursor.text {
        return Err(NotString);
      }
      if cursor.lengths == [] {
        return Err(Truncated);
      }
      var actualLength := cursor.lengths[0];
      cursor := cursor.(lengths := cursor.lengths[1..]);
      if actualLength != expectedLength {
        return Err(LengthMismatch);
      }
      if |cursor.data| < actualLength {
        return Err(Truncated);
      }
      r := Ok(Text(cursor.data[..actualLength]));
      cursor := cursor.(data := cursor.data[actualLength..]);
      values := values[tag := cursor];
    }

    method ReadStructuredValue(kind: Kind, tag: int) returns (r: Result<(Value, nat)>)
      requires tag in values
      modifies `values, `fieldLengths
      ensures match ReadValue(kind, old(values[tag]), old(fieldLengths))
              case Err(e) => r == Err(e)
              case Ok(v) => r == Ok((v.value, v.total)) && values == old(values)[tag := v.cursor] && fieldLengths == v.lens
    {
      if kind == STRING {
        var len :- ReadLengthControl();
        var value :- ReadStringValue(tag, len);
        var size: nat := len as nat + 4;
        r := Ok((value, size));
      } else {
        var cursor := values[tag];
        var read :- ReadLE(cursor.data, Width(kind));
        values := values[tag := cursor.(data := read.1)];
        r := Ok((Scalar(read.0), Width(kind)));
      }
    }

    method ReadStructuredField(field: FieldDescriptor, message: Message, tag: int) returns (r: Result<(Message, nat)>)
      requires tag in values
      modifies `values, `fieldLengths
      ensures match ReadField(field, message, old(values[tag]), old(fieldLengths))
              case Err(e) => r == Err(e)
              case Ok(read) =>
                && r == Ok((read.message, read.total))
                && values == old(values)[tag := read.cursor] && fieldLengths == read.lens
    {
      hide AddValue, SetValue, ReadValue;
      if !field.repeated {
        var read :- ReadStructuredValue(field.kind, tag);
        r := Ok((SetValue(message, field.number, read.0), read.1));
      } else {
        var count :- ReadLengthControl();
        var m, total := message, 4;
        ghost var whole := ReadRepeated(field, message, values[tag], fieldLengths, count);
        for i := 0 to count
          invariant tag in values && values == old(values)[tag := values[tag]]
          invariant total >= 4
          invariant whole == AfterValues(total - 4, ReadRepeated(field, m, values[tag], fieldLengths, count - i))
        {
          ValueStep(whole, total - 4, field, m, values[tag], fieldLengths, count - i);
          var read :- ReadStructuredValue(field.kind, tag);
          m := AddValue(m, field.number, read.0);
          total := total + read.1;
        }
        r := Ok((m, total));
      }
    }

    method RequireStructuredCursor(tag: int) returns (r: Result<()>)
      modifies `values, `orderedValues
      ensures match RequireCursor(old(View()), tag)
              case Err(e) => r == Err(e)
              case Ok(f) => r.Ok? && View() == f && tag in values
    {
      if tag in values {
        return Ok(());
      }
      if orderedValues == [] {
        return Err(MissingStream);
      }
      var cursor := orderedValues[0];
      orderedValues := orderedValues[1..];
      values := values[tag := cursor];
      r := Ok(());
    }

    /** The type and id of the next field, or nothing at a stop word. */
    method ReadHeader() returns (r: Result<Option<(U32, U32)>>)
      requires fieldTypes != []
      modifies `fieldTypes, `fieldIds
      ensures match ReadFront(old(View()))
              case Err(e) => r == Err(e)
              case Ok(front) =>
                && r == Ok(if front.End? then None else Some((front.fieldType, front.fieldId)))
                && View() == front.frame && (front.End? ==> front.size == 4)
    {
      var typeRead :- ReadU32(fieldTypes);
      fieldTypes := typeRead.1;
      if typeRead.0 == STOP {
        return Ok(None);
      }
      var idRead :- ReadU32(fieldIds);
      fieldIds := idRead.1;
      r := Ok(Some((typeRead.0, idRead.0)));
    }

    method ReadStructuredMessage(schema: Schema, typeName: string, pathHash: U32, message: Message)
      returns (r: Result<(Message, nat)>, ghost uses: seq<Use>)
      modifies this
      ensures Does(r, uses, ReadMessage(schema, typeName, pathHash, message, old(View())))
      ensures requested == old(requested) + Requests(schema, typeName, pathHash, message, old(View()))
      decreases |fieldTypes|, 0, 0
    {
      hide ReadEntry, ReadMessage, After, Tail, ExtendPathHash, FieldTag, Requests, EntryRequests, Asking;
      var m, total := message, 0;
      uses := [];
      ghost var whole := ReadMessage(schema, typeName, pathHash, message, View());
      ghost var asked := requested + Requests(schema, typeName, pathHash, message, View());
      TailBegins(schema, typeName, pathHash, message, View());
      AskingBegins(requested, schema, typeName, pathHash, message, View());
      while fieldTypes != []
        invariant |fieldTypes| <= |old(fieldTypes)|
        invariant Tail(whole, total, uses, schema, typeName, pathHash, m, View())
        invariant Asking(asked, requested, schema, typeName, pathHash, m, View())
        decreases |fieldTypes|
      {
        ghost var f := View();
        MessageEnds(whole, total, uses, schema, typeName, pathHash, m, f);
        MessageAsks(asked, requested, schema, typeName, pathHash, m, f);
        var header :- ReadHeader();
        if header == None {
          return Ok((m, total + 4)), uses;
        }
        var (fieldType, fieldId) := header.value;
        ghost var g := View();
        var next, used :- ReadStructuredEntry(schema, typeName, pathHash, fieldType, fieldId, m);
        EntryRead(whole, total, uses, schema, typeName, pathHash, m, f, fieldType, fieldId, g,
                  Read(next.0, View(), next.1, used));
        m, total, uses := next.0, total + (8 + next.1), uses + used;
      }
      MessageEnds(whole, total, uses, schema, typeName, pathHash, m, View());
      MessageAsks(asked, requested, schema, typeName, pathHash, m, View());
      r := Ok((m, total));
    }

    ghost predicate Does(r: Result<(Message, nat)>, uses: seq<Use>, spec: Result<Read>)
      reads this
    {
      match spec
      case Err(e) => r == Err(e)
      case Ok(read) => r == Ok((read.message, read.total)) && uses == read.uses && View() == read.frame
    }

    method ReadStructuredEntry(schema: Schema, typeName: string, pathHash: U32, fieldType: U32, fieldId: U32, message: Message)
      returns (r: Result<(Message, nat)>, ghost uses: seq<Use>)
      modifies this
      ensures Does(r, uses, ReadEntry(schema, typeName, pathHash, fieldType, fieldId, message, old(View())))
      ensures requested == old(requested) + EntryRequests(schema, typeName, pathHash, fieldType, fieldId, message, old(View()))
      decreases |fieldTypes|, 2, 0
    {
      hide ReadMessage, ReadSubMessages, ReadField, ExtendPathHash, FieldTag, SubMessage, SetSubMessage, Requests, ElementRequests;
      uses := [];
      var found := FindFieldByNumber(Fields(schema, typeName), fieldId);
      if found == None {
        return Err(UnknownField), uses;
      }
      var field := found.value;
      if fieldType != field.kind {
        return Err(TypeMismatch), uses;
      }
      if field.kind == MESSAGE {
        var childHash := ExtendPathHash(pathHash, fieldId);
        if !field.repeated {
          var nested, used :- ReadStructuredMessage(schema, field.messageType, childHash, SubMessage(message, fieldId));
          r, uses := Ok((SetSubMessage(message, fieldId, nested.0), nested.1)), used;
        } else {
          var count :- ReadLengthControl();
          var filled, used :- ReadRepeatedMessages(schema, field.messageType, childHash, fieldId, message, count);
          r, uses := Ok((filled.0, 4 + filled.1)), used;
        }
      } else {
        var tag := FieldTag(pathHash, fieldId);
        requested := requested + [Use(tag, field.kind)];
        var _ :- RequireStructuredCursor(tag);
        var read :- ReadStructuredField(field, message, tag);
        r, uses := Ok(read), [Use(tag, field.kind)];
      }
    }

    method ReadRepeatedMessages(schema: Schema, typeName: string, pathHash: U32, number: U32, message: Message, count: nat)
      returns (r: Result<(Message, nat)>, ghost uses: seq<Use>)
      modifies this
      ensures Does(r, uses, ReadSubMessages(schema, typeName, pathHash, number, message, old(View()), count))
      ensures requested == old(requested) + ElementRequests(schema, typeName, pathHash, old(View()), count)
      decreases |fieldTypes|, 1, 0
    {
      hide ReadMessage, ReadEntry, ReadSubMessages, AddSubMessage, Requests, ElementRequests, After, TailOfElements, AskingElements;
      var m, total := message, 0;
      uses := [];
      ghost var asked := requested + ElementRequests(schema, typeName, pathHash, View(), count);
      ghost var whole := ReadSubMessages(schema, typeName, pathHash, number, message, View(), count);
      ElementsBegin(schema, typeName, pathHash, number, message, View(), count);
      ElementsAsked(requested, schema, typeName, pathHash, View(), count);
      for i := 0 to count
        invariant |fieldTypes| <= |old(fieldTypes)|
        invariant TailOfElements(whole, total, uses, schema, typeName, pathHash, number, m, View(), count - i)
        invariant AskingElements(asked, requested, schema, typeName, pathHash, View(), count - i)
      {
        ghost var f := View();
        ElementFails(whole, total, uses, schema, typeName, pathHash, number, m, f, count - i);
        ElementsAsk(asked, requested, schema, typeName, pathHash, f, count - i);
        var nested, used :- ReadStructuredMessage(schema, typeName, pathHash, EMPTY);
        ElementRead(whole, total, uses, schema, typeName, pathHash, number, m, f, count - i,
                    Read(nested.0, View(), nested.1, used));
        m, total, uses := AddSubMessage(m, number, nested.0), total + nested.1, uses + used;
      }
      ElementsAsk(asked, requested, schema, typeName, pathHash, View(), 0);
      ElementsEnd(whole, total, uses, schema, typeName, pathHash, number, m, View());
      r := Ok((m, total));
    }
  }
}
