/** Frames whose value columns lost their tags: binding them on demand, in the
    order their paths are first read, gives the run of the tagged frame. */
module UntaggedFrames {

  import opened Results
  import opened PathHash
  import opened Schemas
  import opened Messages
  import opened StructuredReader

  ghost function Tags(uses: seq<Use>): set<int> {
    set u | u in uses :: u.tag
  }

  /** The tags of a run in the order of their first use, without those bound before. */
  function FirstUses(uses: seq<Use>, bound: set<int>): seq<int> {
    if uses == [] then []
    else if uses[0].tag in bound then FirstUses(uses[1..], bound)
    else [uses[0].tag] + FirstUses(uses[1..], bound + {uses[0].tag})
  }

  /** The columns of these tags, in this order. */
  function Columns(values: map<int, Cursor>, tags: seq<int>): seq<Cursor>
    requires forall i :: 0 <= i < |tags| ==> tags[i] in values
  {
    seq(|tags|, i requires 0 <= i < |tags| => values[tags[i]])
  }

  lemma {:induction false} FirstUsesAreTags(uses: seq<Use>, bound: set<int>)
    ensures forall i :: 0 <= i < |FirstUses(uses, bound)| ==>
              FirstUses(uses, bound)[i] in Tags(uses) && FirstUses(uses, bound)[i] !in bound
  {
    if uses != [] {
      FirstUsesAreTags(uses[1..], bound);
      FirstUsesAreTags(uses[1..], bound + {uses[0].tag});
      assert uses[0].tag in Tags(uses);
      assert forall u :: u in uses[1..] ==> u.tag in Tags(uses);
    }
  }

  lemma {:induction false} FirstUsesConcat(a: seq<Use>, b: seq<Use>, bound: set<int>)
    ensures FirstUses(a + b, bound) == FirstUses(a, bound) + FirstUses(b, bound + Tags(a))
  {
    if a == [] {
      assert a + b == b && bound + Tags(a) == bound;
    } else {
      var tag := a[0].tag;
      assert (a + b)[1..] == a[1..] + b;
      assert Tags(a) == {tag} + Tags(a[1..]) by {
        assert a == [a[0]] + a[1..];
      }
      if tag in bound {
        FirstUsesConcat(a[1..], b, bound);
        assert bound + Tags(a) == bound + Tags(a[1..]);
      } else {
        FirstUsesConcat(a[1..], b, bound + {tag});
        assert bound + Tags(a) == bound + {tag} + Tags(a[1..]);
      }
    }
  }

  lemma TagsConcat(a: seq<Use>, b: seq<Use>)
    ensures Tags(a + b) == Tags(a) + Tags(b)
  {
    forall t | t in Tags(a) + Tags(b) ensures t in Tags(a + b) {
      if t in Tags(a) {
        var u :| u in a && u.tag == t;
        assert u in a + b;
      } else {
        var u :| u in b && u.tag == t;
        assert u in a + b;
      }
    }
  }

  /** A frame with every column tagged, and what a run does to it: it keeps the
      set of columns and leaves alone those that were not asked for. */
  ghost predicate Kept(f: Frame, uses: seq<Use>, g: Frame) {
    && f.ordered == [] && g.ordered == []
    && g.values.Keys == f.values.Keys
    && Tags(uses) <= f.values.Keys
    && forall tag :: tag in f.values && tag !in Tags(uses) ==> g.values[tag] == f.values[tag]
  }

  lemma KeptTrans(f: Frame, u1: seq<Use>, g: Frame, u2: seq<Use>, h: Frame)
    requires Kept(f, u1, g) && Kept(g, u2, h)
    ensures Kept(f, u1 + u2, h)
  {
    TagsConcat(u1, u2);
  }

  /** The untagged frame u stands where the tagged frame f does: the columns
      bound so far are the same, and waiting are the columns that the run is
      about to ask for first, in that order, before some rest. */
  ghost predicate Waiting(f: Frame, uses: seq<Use>, u: Frame, rest: seq<Cursor>) {
    && u.types == f.types && u.ids == f.ids && u.lens == f.lens
    && u.values.Keys <= f.values.Keys
    && (forall tag :: tag in u.values ==> u.values[tag] == f.values[tag])
    && Tags(uses) <= f.values.Keys
    && (forall i :: 0 <= i < |FirstUses(uses, u.values.Keys)| ==> FirstUses(uses, u.values.Keys)[i] in f.values)
    && u.ordered == Columns(f.values, FirstUses(uses, u.values.Keys)) + rest
  }

  /** The same run, leaving the same of everything that was bound by then. */
  ghost predicate SameRun(r: Read, u: Frame, s: Result<Read>, rest: seq<Cursor>) {
    && s.Ok? && s.value.message == r.message && s.value.total == r.total && s.value.uses == r.uses
    && s.value.frame.values.Keys == u.values.Keys + Tags(r.uses)
    && Waiting(r.frame, [], s.value.frame, rest)
  }

  /** Waiting for two runs in turn is waiting for the first with the columns of
      the second behind it. */
  lemma WaitingSplit(f: Frame, u1: seq<Use>, g: Frame, u2: seq<Use>, u: Frame, rest: seq<Cursor>)
    returns (middle: seq<Cursor>)
    requires Kept(f, u1, g) && Tags(u2) <= f.values.Keys
    requires Waiting(f, u1 + u2, u, rest)
    ensures Waiting(f, u1, u, middle)
    ensures forall v: Frame :: Waiting(g, [], v, middle) && v.values.Keys == u.values.Keys + Tags(u1) ==> Waiting(g, u2, v, rest)
  {
    hide FirstUses;
    var bound := u.values.Keys;
    TagsConcat(u1, u2);
    FirstUsesConcat(u1, u2, bound);
    FirstUsesAreTags(u1, bound);
    FirstUsesAreTags(u2, bound + Tags(u1));
    var later := FirstUses(u2, bound + Tags(u1));
    middle := Columns(f.values, later) + rest;
    assert Columns(f.values, FirstUses(u1, bound) + later) == Columns(f.values, FirstUses(u1, bound)) + Columns(f.values, later);
    assert u.ordered == Columns(f.values, FirstUses(u1, bound)) + middle;
    assert Columns(g.values, later) == Columns(f.values, later);
    forall v: Frame | Waiting(g, [], v, middle) && v.values.Keys == u.values.Keys + Tags(u1)
      ensures Waiting(g, u2, v, rest)
    {
      NothingWaiting(v, g, middle);
    }
  }

  // ----- tagged runs -----

  lemma LeafKeeps(field: FieldDescriptor, pathHash: U32, m: Message, f: Frame)
    requires f.ordered == []
    ensures var r := ReadLeaf(field, pathHash, m, f);
            r.Ok? ==> Kept(f, r.value.uses, r.value.frame)
  {
    hide FieldTag, ReadField;
    var tag := FieldTag(pathHash, field.number);
    assert Tags([Use(tag, field.kind)]) == {tag} by {
      assert Use(tag, field.kind) in [Use(tag, field.kind)];
    }
  }

  lemma {:induction false} MessageKeeps(schema: Schema, typeName: string, pathHash: U32, m: Message, f: Frame)
    requires f.ordered == []
    ensures var r := ReadMessage(schema, typeName, pathHash, m, f);
            r.Ok? ==> Kept(f, r.value.uses, r.value.frame)
    decreases |f.types|, 0, 0
  {
    hide ReadEntry;
    var front := ReadFront(f);
    if front.Ok? && front.value.Next? {
      var g := front.value.frame;
      EntryKeeps(schema, typeName, pathHash, front.value.fieldType, front.value.fieldId, m, g);
      var step := ReadEntry(schema, typeName, pathHash, front.value.fieldType, front.value.fieldId, m, g);
      if step.Ok? {
        var rest := ReadMessage(schema, typeName, pathHash, step.value.message, step.value.frame);
        MessageKeeps(schema, typeName, pathHash, step.value.message, step.value.frame);
        if rest.Ok? {
          KeptTrans(g, step.value.uses, step.value.frame, rest.value.uses, rest.value.frame);
        }
      }
    }
  }

  lemma {:induction false} EntryKeeps(schema: Schema, typeName: string, pathHash: U32, fieldType: U32, fieldId: U32,
                                      m: Message, f: Frame)
    requires f.ordered == []
    ensures var r := ReadEntry(schema, typeName, pathHash, fieldType, fieldId, m, f);
            r.Ok? ==> Kept(f, r.value.uses, r.value.frame)
    decreases |f.types|, 2, 0
  {
    hide ExtendPathHash, FieldTag, ReadLeaf;
    var found := FindFieldByNumber(Fields(schema, typeName), fieldId);
    if found.Some? {
      var field, childHash := found.value, ExtendPathHash(pathHash, fieldId);
      if field.kind != MESSAGE {
        LeafKeeps(field, pathHash, m, f);
      } else if !field.repeated {
        MessageKeeps(schema, field.messageType, childHash, SubMessage(m, fieldId), f);
      } else if |f.lens| >= 4 {
        var count := ReadU32(f.lens).value;
        SubMessagesKeep(schema, field.messageType, childHash, fieldId, m, f.(lens := count.1), count.0);
      }
    }
  }

  lemma {:induction false} SubMessagesKeep(schema: Schema, typeName: string, pathHash: U32, number: U32, m: Message,
                                           f: Frame, count: nat)
    requires f.ordered == []
    ensures var r := ReadSubMessages(schema, typeName, pathHash, number, m, f, count);
            r.Ok? ==> Kept(f, r.value.uses, r.value.frame)
    decreases |f.types|, 1, count
  {
    if count > 0 {
      hide ReadMessage, Kept;
      MessageKeeps(schema, typeName, pathHash, EMPTY, f);
      var sub := ReadMessage(schema, typeName, pathHash, EMPTY, f);
      if sub.Ok? {
        assert Kept(f, sub.value.uses, sub.value.frame);
        KeptOrdered(f, sub.value.uses, sub.value.frame);
        var more := AddSubMessage(m, number, sub.value.message);
        SubMessagesKeep(schema, typeName, pathHash, number, more, sub.value.frame, count - 1);
        var rest := ReadSubMessages(schema, typeName, pathHash, number, more, sub.value.frame, count - 1);
        if rest.Ok? {
          KeptTrans(f, sub.value.uses, sub.value.frame, rest.value.uses, rest.value.frame);
        }
      }
    } else {
      assert Tags([]) == {};
    }
  }

  lemma KeptOrdered(f: Frame, uses: seq<Use>, g: Frame)
    requires Kept(f, uses, g)
    ensures g.ordered == [] && g.values.Keys == f.values.Keys && Tags(uses) <= f.values.Keys
  {
  }

  // ----- the same runs, untagged -----

  lemma UntaggedLeaf(field: FieldDescriptor, pathHash: U32, m: Message, f: Frame, u: Frame, rest: seq<Cursor>)
    requires f.ordered == []
    requires var r := ReadLeaf(field, pathHash, m, f); r.Ok? && Waiting(f, r.value.uses, u, rest)
    ensures SameRun(ReadLeaf(field, pathHash, m, f).value, u, ReadLeaf(field, pathHash, m, u), rest)
  {
    hide FieldTag, ReadField;
    var tag := FieldTag(pathHash, field.number);
    var use := Use(tag, field.kind);
    assert Tags([use]) == {tag} by {
      assert use in [use];
    }
    assert FirstUses([use], u.values.Keys) == if tag in u.values then [] else [tag];
    if tag !in u.values {
      assert Columns(f.values, [tag]) == [f.values[tag]];
      assert u.ordered[0] == f.values[tag] && u.ordered[1..] == rest;
    } else {
      assert u.ordered == rest;
    }
    var s := ReadLeaf(field, pathHash, m, u);
    assert s.Ok?;
    assert FirstUses([], s.value.frame.values.Keys) == [];
  }

  /** Two consecutive runs on the untagged frame, put together. */
  lemma SameRunThen(first: Read, u: Frame, firstU: Read, middle: seq<Cursor>, second: Read, secondU: Read, rest: seq<Cursor>, total: nat)
    requires SameRun(first, u, Ok(firstU), middle)
    requires SameRun(second, firstU.frame, Ok(secondU), rest)
    ensures SameRun(Read(second.message, second.frame, total, first.uses + second.uses), u,
                    Ok(Read(secondU.message, secondU.frame, total, firstU.uses + secondU.uses)), rest)
  {
    hide Waiting;
    TagsConcat(first.uses, second.uses);
  }

  /** Reading a type and an id leaves an untagged frame waiting for the same columns. */
  lemma FrontWaits(f: Frame, uses: seq<Use>, u: Frame, rest: seq<Cursor>)
    requires ReadFront(f).Ok? && Waiting(f, uses, u, rest)
    ensures var front, frontU := ReadFront(f).value, ReadFront(u);
            && frontU.Ok? && frontU.value.End? == front.End?
            && (front.End? ==> frontU.value.size == front.size)
            && (front.Next? ==> frontU.value.fieldType == front.fieldType && frontU.value.fieldId == front.fieldId)
            && frontU.value.frame.values == u.values && front.frame.ordered == f.ordered
            && Waiting(front.frame, uses, frontU.value.frame, rest)
  {
    hide FirstUses, Columns;
  }

  lemma {:induction false} UntaggedMessage(schema: Schema, typeName: string, pathHash: U32, m: Message, f: Frame,
                                           u: Frame, rest: seq<Cursor>)
    requires f.ordered == []
    requires var r := ReadMessage(schema, typeName, pathHash, m, f); r.Ok? && Waiting(f, r.value.uses, u, rest)
    ensures SameRun(ReadMessage(schema, typeName, pathHash, m, f).value, u,
                    ReadMessage(schema, typeName, pathHash, m, u), rest)
    decreases |f.types|, 0, 0
  {
    hide ReadEntry, ReadFront, Waiting, FirstUses, Columns;
    FrontWaits(f, ReadMessage(schema, typeName, pathHash, m, f).value.uses, u, rest);
    var front, frontU := ReadFront(f).value, ReadFront(u).value;
    var g, gu := front.frame, frontU.frame;
    if front.End? {
      assert Tags([]) == {};
    } else {
      var step := ReadEntry(schema, typeName, pathHash, front.fieldType, front.fieldId, m, g).value;
      var tail := ReadMessage(schema, typeName, pathHash, step.message, step.frame).value;
      EntryKeeps(schema, typeName, pathHash, front.fieldType, front.fieldId, m, g);
      MessageKeeps(schema, typeName, pathHash, step.message, step.frame);
      var middle := WaitingSplit(g, step.uses, step.frame, tail.uses, gu, rest);
      UntaggedEntry(schema, typeName, pathHash, front.fieldType, front.fieldId, m, g, gu, middle);
      var stepU := ReadEntry(schema, typeName, pathHash, front.fieldType, front.fieldId, m, gu).value;
      UntaggedMessage(schema, typeName, pathHash, step.message, step.frame, stepU.frame, rest);
      var tailU := ReadMessage(schema, typeName, pathHash, step.message, stepU.frame).value;
      SameRunThen(step, u, stepU, middle, tail, tailU, rest, 8 + step.total + tail.total);
    }
  }

  lemma {:induction false} UntaggedEntry(schema: Schema, typeName: string, pathHash: U32, fieldType: U32, fieldId: U32,
                                         m: Message, f: Frame, u: Frame, rest: seq<Cursor>)
    requires f.ordered == []
    requires var r := ReadEntry(schema, typeName, pathHash, fieldType, fieldId, m, f);
             r.Ok? && Waiting(f, r.value.uses, u, rest)
    ensures SameRun(ReadEntry(schema, typeName, pathHash, fieldType, fieldId, m, f).value, u,
                    ReadEntry(schema, typeName, pathHash, fieldType, fieldId, m, u), rest)
    decreases |f.types|, 2, 0
  {
    hide ExtendPathHash, FieldTag, ReadLeaf, FirstUses, Columns;
    var field := FindFieldByNumber(Fields(schema, typeName), fieldId).value;
    var childHash := ExtendPathHash(pathHash, fieldId);
    if field.kind != MESSAGE {
      UntaggedLeaf(field, pathHash, m, f, u, rest);
    } else if !field.repeated {
      UntaggedMessage(schema, field.messageType, childHash, SubMessage(m, fieldId), f, u, rest);
    } else {
      var count := ReadU32(f.lens).value;
      UntaggedSubMessages(schema, field.messageType, childHash, fieldId, m, f.(lens := count.1), count.0,
                          u.(lens := count.1), rest);
    }
  }

  lemma {:induction false} UntaggedSubMessages(schema: Schema, typeName: string, pathHash: U32, number: U32, m: Message,
                                               f: Frame, count: nat, u: Frame, rest: seq<Cursor>)
    requires f.ordered == []
    requires var r := ReadSubMessages(schema, typeName, pathHash, number, m, f, count);
             r.Ok? && Waiting(f, r.value.uses, u, rest)
    ensures SameRun(ReadSubMessages(schema, typeName, pathHash, number, m, f, count).value, u,
                    ReadSubMessages(schema, typeName, pathHash, number, m, u, count), rest)
    decreases |f.types|, 1, count
  {
    hide ReadMessage, Waiting, FirstUses, Columns;
    if count == 0 {
      assert Tags([]) == {};
    } else {
      var sub := ReadMessage(schema, typeName, pathHash, EMPTY, f).value;
      var more := AddSubMessage(m, number, sub.message);
      var tail := ReadSubMessages(schema, typeName, pathHash, number, more, sub.frame, count - 1).value;
      MessageKeeps(schema, typeName, pathHash, EMPTY, f);
      SubMessagesKeep(schema, typeName, pathHash, number, more, sub.frame, count - 1);
      var middle := WaitingSplit(f, sub.uses, sub.frame, tail.uses, u, rest);
      UntaggedMessage(schema, typeName, pathHash, EMPTY, f, u, middle);
      var subU := ReadMessage(schema, typeName, pathHash, EMPTY, u).value;
      UntaggedSubMessages(schema, typeName, pathHash, number, more, sub.frame, count - 1, subU.frame, rest);
      var tailU := ReadSubMessages(schema, typeName, pathHash, number, more, subU.frame, count - 1).value;
      SameRunThen(sub, u, subU, middle, tail, tailU, rest, sub.total + tail.total);
    }
  }

  /** The frame without tags whose columns stand in the order of their first
      use in a run of f, in front of any others. */
  ghost function Untagged(f: Frame, uses: seq<Use>, rest: seq<Cursor>): Frame
    requires Tags(uses) <= f.values.Keys
  {
    FirstUsesAreTags(uses, {});
    f.(values := map[], ordered := Columns(f.values, FirstUses(uses, {})) + rest)
  }

  /** The frame without tags for reading a message from a frame with them. */
  ghost function WithoutTags(schema: Schema, typeName: string, pathHash: U32, m: Message, f: Frame, rest: seq<Cursor>): Frame
    requires f.ordered == [] && ReadMessage(schema, typeName, pathHash, m, f).Ok?
  {
    MessageKeeps(schema, typeName, pathHash, m, f);
    Untagged(f, ReadMessage(schema, typeName, pathHash, m, f).value.uses, rest)
  }

  /** Main result. When the tagged frame reads as a message, the untagged one
      reads as the same message, with the same count and the same requests for
      columns; it binds exactly the columns that were asked for, leaves them as
      the tagged run does, and leaves the other columns waiting. */
  lemma UntaggedFrameReadsTheSame(schema: Schema, typeName: string, pathHash: U32, m: Message, f: Frame, rest: seq<Cursor>)
    requires f.ordered == []
    requires ReadMessage(schema, typeName, pathHash, m, f).Ok?
    ensures var r := ReadMessage(schema, typeName, pathHash, m, f).value;
            && Tags(r.uses) <= f.values.Keys == r.frame.values.Keys
            && var s := ReadMessage(schema, typeName, pathHash, m, WithoutTags(schema, typeName, pathHash, m, f, rest));
            && s.Ok? && s.value.message == r.message && s.value.total == r.total && s.value.uses == r.uses
            && s.value.frame.values.Keys == Tags(r.uses)
            && (forall tag :: tag in Tags(r.uses) ==> s.value.frame.values[tag] == r.frame.values[tag])
            && s.value.frame.ordered == rest
  {
    hide ReadMessage, FirstUses;
    var r := ReadMessage(schema, typeName, pathHash, m, f).value;
    MessageKeeps(schema, typeName, pathHash, m, f);
    FirstUsesAreTags(r.uses, {});
    var u := Untagged(f, r.uses, rest);
    assert u.values.Keys == {};
    UntaggedMessage(schema, typeName, pathHash, m, f, u, rest);
    NothingWaiting(ReadMessage(schema, typeName, pathHash, m, u).value.frame, r.frame, rest);
  }

  lemma NothingWaiting(v: Frame, g: Frame, rest: seq<Cursor>)
    requires Waiting(g, [], v, rest)
    ensures v.ordered == rest
  {
    assert FirstUses([], v.values.Keys) == [];
    assert Columns(g.values, []) + rest == rest;
  }
}
