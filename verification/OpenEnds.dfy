/** The last stop word of a frame may be left out: at the end of the type stream
    every message that is still open ends by itself. */
module OpenEnds {

  import opened Results
  import opened LittleEndian
  import opened PathHash
  import opened Schemas
  import opened Messages
  import opened StructuredReader
  import opened StructuredWriter

  /** The frame with one more stop word behind its types. */
  function Stopped(f: Frame): Frame {
    f.(types := f.types + ToLE(STOP, 4))
  }

  /** A run on such a frame, and what the run without that word must then be:
      the word is left over, or was read at the very end. */
  ghost predicate SameUpToStop(r: Result<Read>, stopped: Result<Read>) {
    stopped.Ok? ==>
      && r.Ok? && r.value.message == stopped.value.message && r.value.uses == stopped.value.uses
      && |r.value.frame.types| % 4 == 0
      && (if stopped.value.frame.types == []
          then r.value.frame == stopped.value.frame && r.value.total + 4 == stopped.value.total
          else Stopped(r.value.frame) == stopped.value.frame && r.value.total == stopped.value.total)
  }

  lemma {:induction false} MessageEnds(schema: Schema, typeName: string, pathHash: U32, m: Message, f: Frame)
    requires |f.types| % 4 == 0
    ensures SameUpToStop(ReadMessage(schema, typeName, pathHash, m, f), ReadMessage(schema, typeName, pathHash, m, Stopped(f)))
    decreases |f.types|, 0, 0
  {
    hide ReadMessage, ReadEntry, ReadU32, ToLE;
    FrontsAgree(f);
    if f.types == [] || ReadFront(f).Err? || ReadFront(f).value.End? {
      hide ReadFront, Stopped;
      NoMoreFields(schema, typeName, pathHash, m, f);
    } else {
      var front := ReadFront(f).value;
      var g, fieldType, fieldId := front.frame, front.fieldType, front.fieldId;
      hide ReadFront, Stopped;
      FirstField(schema, typeName, pathHash, m, f, fieldType, fieldId, g);
      FirstField(schema, typeName, pathHash, m, Stopped(f), fieldType, fieldId, Stopped(g));
      EntryEnds(schema, typeName, pathHash, fieldType, fieldId, m, g);
      var first, second := ReadEntry(schema, typeName, pathHash, fieldType, fieldId, m, g),
                           ReadEntry(schema, typeName, pathHash, fieldType, fieldId, m, Stopped(g));
      if second.Ok? {
        if second.value.frame.types != [] {
          MessageEnds(schema, typeName, pathHash, first.value.message, first.value.frame);
        }
        OnePartEnds(8, first.value, second.value,
                    ReadMessage(schema, typeName, pathHash, first.value.message, first.value.frame),
                    ReadMessage(schema, typeName, pathHash, second.value.message, second.value.frame));
      }
    }
  }

  /** A stop word behind the types changes the front of a message only when
      nothing else is left. */
  lemma FrontsAgree(f: Frame)
    requires |f.types| % 4 == 0
    ensures f.types != [] && ReadFront(f).Ok? ==>
              ReadFront(Stopped(f)) == Ok(ReadFront(f).value.(frame := Stopped(ReadFront(f).value.frame)))
              && |ReadFront(f).value.frame.types| % 4 == 0
    ensures f.types != [] && ReadFront(f).Err? ==> ReadFront(Stopped(f)).Err?
    ensures f.types == [] ==> ReadFront(f) == Ok(End(f, 0)) && ReadFront(Stopped(f)) == Ok(End(f, 4))
  {
    var word := ToLE(STOP, 4);
    if f.types == [] {
      assert [] + word == word && word + [] == word;
      Pow256Widths();
      ReadWritten(STOP, 4, []);
      assert f.(types := []) == f;
    } else {
      hide ToLE, FromLE;
      assert (f.types + word)[..4] == f.types[..4] && (f.types + word)[4..] == f.types[4..] + word;
    }
  }

  lemma NoMoreFields(schema: Schema, typeName: string, pathHash: U32, m: Message, f: Frame)
    requires |f.types| % 4 == 0
    requires f.types == [] || ReadFront(f).Err? || ReadFront(f).value.End?
    ensures SameUpToStop(ReadMessage(schema, typeName, pathHash, m, f), ReadMessage(schema, typeName, pathHash, m, Stopped(f)))
  {
    hide ReadEntry, ReadFront, ToLE;
    FrontsAgree(f);
  }

  lemma FirstField(schema: Schema, typeName: string, pathHash: U32, m: Message, f: Frame, fieldType: U32, fieldId: U32, g: Frame)
    requires ReadFront(f) == Ok(Next(g, fieldType, fieldId))
    ensures var step := ReadEntry(schema, typeName, pathHash, fieldType, fieldId, m, g);
            ReadMessage(schema, typeName, pathHash, m, f) ==
              if step.Err? then Err(step.error)
              else StructuredReader.After(8 + step.value.total, step.value.uses,
                                          ReadMessage(schema, typeName, pathHash, step.value.message, step.value.frame))
  {
    hide ReadEntry, ReadFront;
  }

  /** Two parts, the second read from where the first one ends. */
  lemma OnePartEnds(bytes: nat, first: Read, firstStopped: Read, rest: Result<Read>, restStopped: Result<Read>)
    requires SameUpToStop(Ok(first), Ok(firstStopped))
    requires if firstStopped.frame.types == [] then rest == restStopped else SameUpToStop(rest, restStopped)
    requires firstStopped.frame.types == [] && restStopped.Ok? ==> restStopped.value.frame.types == []
    ensures SameUpToStop(StructuredReader.After(bytes + first.total, first.uses, rest),
                         StructuredReader.After(bytes + firstStopped.total, firstStopped.uses, restStopped))
  {
    hide ToLE;
  }

  lemma {:induction false} EntryEnds(schema: Schema, typeName: string, pathHash: U32, fieldType: U32, fieldId: U32, m: Message, f: Frame)
    requires |f.types| % 4 == 0
    ensures SameUpToStop(ReadEntry(schema, typeName, pathHash, fieldType, fieldId, m, f),
                         ReadEntry(schema, typeName, pathHash, fieldType, fieldId, m, Stopped(f)))
    decreases |f.types|, 2, 0
  {
    hide ReadMessage, ReadSubMessages, ReadLeaf, ExtendPathHash, FindFieldByNumber, ToLE;
    var found := FindFieldByNumber(Fields(schema, typeName), fieldId);
    if found.Some? && fieldType == found.value.kind {
      var field := found.value;
      var childHash := ExtendPathHash(pathHash, fieldId);
      if field.kind != MESSAGE {
        LeafEnds(field, pathHash, m, f);
      } else if !field.repeated {
        MessageEnds(schema, field.messageType, childHash, SubMessage(m, fieldId), f);
      } else if |f.lens| >= 4 {
        var (count, lens) := ReadU32(f.lens).value;
        ElementsEnd(schema, field.messageType, childHash, fieldId, m, f.(lens := lens), count);
      }
    }
  }

  lemma LeafEnds(field: FieldDescriptor, pathHash: U32, m: Message, f: Frame)
    requires |f.types| % 4 == 0
    ensures SameUpToStop(ReadLeaf(field, pathHash, m, f), ReadLeaf(field, pathHash, m, Stopped(f)))
  {
    hide ReadField, FieldTag;
  }

  lemma {:induction false} ElementsEnd(schema: Schema, typeName: string, pathHash: U32, number: U32, m: Message, f: Frame, count: nat)
    requires |f.types| % 4 == 0
    ensures SameUpToStop(ReadSubMessages(schema, typeName, pathHash, number, m, f, count),
                         ReadSubMessages(schema, typeName, pathHash, number, m, Stopped(f), count))
    decreases |f.types|, 1, count
  {
    hide ReadMessage, ReadSubMessages, ToLE, AddSubMessage;
    NextElement(schema, typeName, pathHash, number, m, f, count);
    NextElement(schema, typeName, pathHash, number, m, Stopped(f), count);
    if count > 0 {
      MessageEnds(schema, typeName, pathHash, EMPTY, f);
      var first, second := ReadMessage(schema, typeName, pathHash, EMPTY, f), ReadMessage(schema, typeName, pathHash, EMPTY, Stopped(f));
      if second.Ok? {
        var added := AddSubMessage(m, number, first.value.message);
        if second.value.frame.types != [] {
          ElementsEnd(schema, typeName, pathHash, number, added, first.value.frame, count - 1);
        }
        OnePartEnds(0, first.value, second.value,
                    ReadSubMessages(schema, typeName, pathHash, number, added, first.value.frame, count - 1),
                    ReadSubMessages(schema, typeName, pathHash, number, added, second.value.frame, count - 1));
      }
    }
  }

  lemma NextElement(schema: Schema, typeName: string, pathHash: U32, number: U32, m: Message, f: Frame, count: nat)
    ensures ReadSubMessages(schema, typeName, pathHash, number, m, f, count) ==
              if count == 0 then Ok(Read(m, f, 0, []))
              else
                var sub := ReadMessage(schema, typeName, pathHash, EMPTY, f);
                if sub.Err? then Err(sub.error)
                else StructuredReader.After(sub.value.total, sub.value.uses,
                       ReadSubMessages(schema, typeName, pathHash, number, AddSubMessage(m, number, sub.value.message), sub.value.frame, count - 1))
  {
    hide ReadMessage, AddSubMessage;
  }

  /** Main result. Any frame whose types are read to their end, a stop word last,
      reads the same without that word, in four bytes less. */
  lemma LastStopOptional(schema: Schema, typeName: string, pathHash: U32, m: Message, f: Frame)
    requires |f.types| % 4 == 0
    requires var r := ReadMessage(schema, typeName, pathHash, m, Stopped(f));
             r.Ok? && r.value.frame.types == []
    ensures var r, stopped := ReadMessage(schema, typeName, pathHash, m, f), ReadMessage(schema, typeName, pathHash, m, Stopped(f));
            r.Ok? && r.value.message == stopped.value.message && r.value.frame == stopped.value.frame
            && r.value.total == stopped.value.total - 4
  {
    hide ReadMessage, Stopped;
    MessageEnds(schema, typeName, pathHash, m, f);
  }
}
