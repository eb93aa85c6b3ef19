/** What every successful run of the decoder keeps, whatever the frame holds:
    the byte count it returns, and the columns it asks for. */
module ReaderProperties {

  import opened Results
  import opened LittleEndian
  import opened PathHash
  import opened Schemas
  import opened Messages
  import opened StructuredReader
  import opened SchemaPaths

  // ----- byte accounting -----

  ghost function ColumnBytes<T>(values: map<T, Cursor>): nat
    decreases |values|
  {
    if values.Keys == {} then 0
    else
      var tag :| tag in values.Keys;
      |values[tag].data| + ColumnBytes(values - {tag})
  }

  ghost function OrderedBytes(ordered: seq<Cursor>): nat {
    if ordered == [] then 0 else |ordered[0].data| + OrderedBytes(ordered[1..])
  }

  /** All bytes that the readers of a frame have left. */
  ghost function Unread(f: Frame): nat {
    |f.types| + |f.ids| + |f.lens| + ColumnBytes(f.values) + OrderedBytes(f.ordered)
  }

  ghost predicate Suffix<T>(rest: seq<T>, whole: seq<T>) {
    |rest| <= |whole| && whole[|whole| - |rest|..] == rest
  }

  /** Every reader of f stands in g where it stood or further on, and columns
      were bound from the front of the unbound ones. */
  ghost predicate Forward(f: Frame, g: Frame) {
    && Suffix(g.types, f.types) && Suffix(g.ids, f.ids) && Suffix(g.lens, f.lens) && Suffix(g.ordered, f.ordered)
    && f.values.Keys <= g.values.Keys
    && forall tag :: tag in f.values ==> Suffix(g.values[tag].data, f.values[tag].data)
  }

  /** The readers only moved forward, and by this many bytes in all. */
  ghost predicate Moved(f: Frame, total: nat, g: Frame) {
    Forward(f, g) && Unread(f) == total + Unread(g)
  }

  lemma SuffixTrans<T>(a: seq<T>, b: seq<T>, c: seq<T>)
    requires Suffix(a, b) && Suffix(b, c)
    ensures Suffix(a, c)
  {
    var i, j := |c| - |b|, |b| - |a|;
    assert c[i..][j..] == c[i + j..];
  }

  lemma MovedTrans(f: Frame, t1: nat, g: Frame, t2: nat, h: Frame)
    requires Moved(f, t1, g) && Moved(g, t2, h)
    ensures Moved(f, t1 + t2, h)
  {
    hide Suffix, Unread;
    SuffixTrans(h.types, g.types, f.types);
    SuffixTrans(h.ids, g.ids, f.ids);
    SuffixTrans(h.lens, g.lens, f.lens);
    SuffixTrans(h.ordered, g.ordered, f.ordered);
    forall tag | tag in f.values ensures Suffix(h.values[tag].data, f.values[tag].data) {
      SuffixTrans(h.values[tag].data, g.values[tag].data, f.values[tag].data);
    }
  }

  lemma {:induction false} ColumnBytesWithout<T>(values: map<T, Cursor>, tag: T)
    requires tag in values
    ensures ColumnBytes(values) == |values[tag].data| + ColumnBytes(values - {tag})
    decreases |values|
  {
    var first :| first in values && ColumnBytes(values) == |values[first].data| + ColumnBytes(values - {first});
    if first != tag {
      ColumnBytesWithout(values - {first}, tag);
      ColumnBytesWithout(values - {tag}, first);
      assert values - {first} - {tag} == values - {tag} - {first};
    }
  }

  lemma ColumnBytesUpdated<T>(values: map<T, Cursor>, tag: T, c: Cursor)
    ensures ColumnBytes(values[tag := c])
         == ColumnBytes(values) - (if tag in values then |values[tag].data| else 0) + |c.data|
  {
    var updated := values[tag := c];
    ColumnBytesWithout(updated, tag);
    assert updated - {tag} == values - {tag};
    if tag in values {
      ColumnBytesWithout(values, tag);
    } else {
      assert values - {tag} == values;
    }
  }

  /** One column and the length stream, moved forward by so many bytes. */
  ghost predicate Advanced(c: Cursor, lens: seq<Byte>, total: nat, c1: Cursor, lens1: seq<Byte>) {
    && Suffix(c1.data, c.data) && Suffix(lens1, lens)
    && |c.data| + |lens| == total + |c1.data| + |lens1|
  }

  lemma ValueAdvances(kind: Kind, c: Cursor, lens: seq<Byte>)
    ensures var r := ReadValue(kind, c, lens);
            r.Ok? ==> Advanced(c, lens, r.value.total, r.value.cursor, r.value.lens)
  {
  }

  lemma {:induction false} RepeatedAdvances(field: FieldDescriptor, m: Message, c: Cursor, lens: seq<Byte>, count: nat)
    ensures var r := ReadRepeated(field, m, c, lens, count);
            r.Ok? ==> Advanced(c, lens, r.value.total, r.value.cursor, r.value.lens)
    decreases count
  {
    hide ReadValue, Suffix;
    if count == 0 {
      assert Suffix(c.data, c.data) && Suffix(lens, lens) by {
        SuffixRefl(c.data);
        SuffixRefl(lens);
      }
    } else {
      var v := ReadValue(field.kind, c, lens);
      ValueAdvances(field.kind, c, lens);
      var r := ReadRepeated(field, m, c, lens, count);
      if r.Ok? {
        RepeatedAdvances(field, AddValue(m, field.number, v.value.value), v.value.cursor, v.value.lens, count - 1);
        SuffixTrans(r.value.cursor.data, v.value.cursor.data, c.data);
        SuffixTrans(r.value.lens, v.value.lens, lens);
      }
    }
  }

  lemma SuffixRefl<T>(a: seq<T>)
    ensures Suffix(a, a)
  {
  }

  lemma FieldAdvances(field: FieldDescriptor, m: Message, c: Cursor, lens: seq<Byte>)
    ensures var r := ReadField(field, m, c, lens);
            r.Ok? ==> Advanced(c, lens, r.value.total, r.value.cursor, r.value.lens)
  {
    hide ReadValue, ReadRepeated;
    ValueAdvances(field.kind, c, lens);
    var count := ReadU32(lens);
    if count.Ok? {
      RepeatedAdvances(field, m, c, count.value.1, count.value.0);
      var r := ReadField(field, m, c, lens);
      if r.Ok? && field.repeated {
        SuffixTrans(r.value.lens, count.value.1, lens);
      }
    }
  }

  lemma BindingMoves(f: Frame, tag: int)
    ensures var r := RequireCursor(f, tag);
            r.Ok? ==> Moved(f, 0, r.value)
  {
    if tag !in f.values && f.ordered != [] {
      ColumnBytesUpdated(f.values, tag, f.ordered[0]);
    }
  }

  lemma ColumnMoves(f: Frame, tag: int, c: Cursor, lens: seq<Byte>, total: nat)
    requires tag in f.values && Advanced(f.values[tag], f.lens, total, c, lens)
    ensures Moved(f, total, f.(values := f.values[tag := c], lens := lens))
  {
    ColumnBytesUpdated(f.values, tag, c);
  }

  lemma LeafMoves(field: FieldDescriptor, pathHash: U32, m: Message, f: Frame)
    ensures var r := ReadLeaf(field, pathHash, m, f);
            r.Ok? ==> Moved(f, r.value.total, r.value.frame)
  {
    hide FieldTag, ReadField, Moved, Advanced;
    var tag := FieldTag(pathHash, field.number);
    BindingMoves(f, tag);
    var bound := RequireCursor(f, tag);
    if bound.Ok? {
      var b := bound.value;
      FieldAdvances(field, m, b.values[tag], b.lens);
      var leaf := ReadField(field, m, b.values[tag], b.lens);
      if leaf.Ok? {
        ColumnMoves(b, tag, leaf.value.cursor, leaf.value.lens, leaf.value.total);
        MovedTrans(f, 0, b, leaf.value.total, ReadLeaf(field, pathHash, m, f).value.frame);
      }
    }
  }

  /** Main result. A successful run moves every reader forward only, and returns
      exactly the sum of the bytes by which control and value readers moved. */
  lemma {:induction false} MessageMoves(schema: Schema, typeName: string, pathHash: U32, m: Message, f: Frame)
    ensures var r := ReadMessage(schema, typeName, pathHash, m, f);
            r.Ok? ==> Moved(f, r.value.total, r.value.frame)
    decreases |f.types|, 0, 0
  {
    hide ReadEntry, ReadFront, Moved;
    FrontMoves(f);
    var front := ReadFront(f);
    if front.Ok? && front.value.Next? {
      var g := front.value.frame;
      var step := ReadEntry(schema, typeName, pathHash, front.value.fieldType, front.value.fieldId, m, g);
      EntryMoves(schema, typeName, pathHash, front.value.fieldType, front.value.fieldId, m, g);
      if step.Ok? {
        var rest := ReadMessage(schema, typeName, pathHash, step.value.message, step.value.frame);
        MessageMoves(schema, typeName, pathHash, step.value.message, step.value.frame);
        if rest.Ok? {
          MovedTrans(f, 8, g, step.value.total, step.value.frame);
          MovedTrans(f, 8 + step.value.total, step.value.frame, rest.value.total, rest.value.frame);
        }
      }
    }
  }

  lemma FrontMoves(f: Frame)
    ensures var front := ReadFront(f);
            front.Ok? ==> Moved(f, if front.value.End? then front.value.size else 8, front.value.frame)
  {
    hide FromLE;
    forall tag | tag in f.values ensures Suffix(f.values[tag].data, f.values[tag].data) {
      SuffixRefl(f.values[tag].data);
    }
    SuffixRefl(f.types);
    SuffixRefl(f.ids);
    SuffixRefl(f.lens);
    SuffixRefl(f.ordered);
  }

  lemma {:induction false} EntryMoves(schema: Schema, typeName: string, pathHash: U32, fieldType: U32, fieldId: U32,
                                      m: Message, f: Frame)
    ensures var r := ReadEntry(schema, typeName, pathHash, fieldType, fieldId, m, f);
            r.Ok? ==> Moved(f, r.value.total, r.value.frame)
    decreases |f.types|, 2, 0
  {
    hide ExtendPathHash, FieldTag, ReadLeaf, Moved;
    var found := FindFieldByNumber(Fields(schema, typeName), fieldId);
    if found.Some? {
      var field, childHash := found.value, ExtendPathHash(pathHash, fieldId);
      if field.kind != MESSAGE {
        LeafMoves(field, pathHash, m, f);
      } else if !field.repeated {
        MessageMoves(schema, field.messageType, childHash, SubMessage(m, fieldId), f);
      } else if |f.lens| >= 4 {
        var count := ReadU32(f.lens).value;
        var g := f.(lens := count.1);
        CountMoves(f);
        SubMessagesMove(schema, field.messageType, childHash, fieldId, m, g, count.0);
        var subs := ReadSubMessages(schema, field.messageType, childHash, fieldId, m, g, count.0);
        if subs.Ok? {
          MovedTrans(f, 4, g, subs.value.total, subs.value.frame);
        }
      }
    }
  }

  lemma StandsStill(f: Frame)
    ensures Moved(f, 0, f)
  {
    forall tag | tag in f.values ensures Suffix(f.values[tag].data, f.values[tag].data) {
      SuffixRefl(f.values[tag].data);
    }
    SuffixRefl(f.types);
    SuffixRefl(f.ids);
    SuffixRefl(f.lens);
    SuffixRefl(f.ordered);
  }

  lemma CountMoves(f: Frame)
    requires |f.lens| >= 4
    ensures Moved(f, 4, f.(lens := ReadU32(f.lens).value.1))
  {
  }

  lemma {:induction false} SubMessagesMove(schema: Schema, typeName: string, pathHash: U32, number: U32, m: Message,
                                           f: Frame, count: nat)
    ensures var r := ReadSubMessages(schema, typeName, pathHash, number, m, f, count);
            r.Ok? ==> Moved(f, r.value.total, r.value.frame)
    decreases |f.types|, 1, count
  {
    hide ReadMessage, AddSubMessage, Moved;
    if count == 0 {
      StandsStill(f);
    } else {
      MessageMoves(schema, typeName, pathHash, EMPTY, f);
      var sub := ReadMessage(schema, typeName, pathHash, EMPTY, f);
      if sub.Ok? {
        var more := AddSubMessage(m, number, sub.value.message);
        SubMessagesMove(schema, typeName, pathHash, number, more, sub.value.frame, count - 1);
        var rest := ReadSubMessages(schema, typeName, pathHash, number, more, sub.value.frame, count - 1);
        if rest.Ok? {
          MovedTrans(f, sub.value.total, sub.value.frame, rest.value.total, rest.value.frame);
        }
      }
    }
  }

  // ----- the columns asked for -----

  /** A column that the clustering of the type was told about, as the kind it is read as. */
  ghost predicate Registered(u: Use, schema: Schema, rank: map<string, nat>, typeName: string, pathHash: U32)
    requires NonRecursive(schema, rank) && typeName in rank
  {
    && 1 <= u.tag < TAG_LIMIT
    && u.kind != MESSAGE
    && Cluster(u.tag, FieldSuccessor(u.kind)) in Clusters(schema, rank, typeName, pathHash)
  }

  ghost predicate AllRegistered(uses: seq<Use>, schema: Schema, rank: map<string, nat>, typeName: string, pathHash: U32)
    requires NonRecursive(schema, rank) && typeName in rank
  {
    forall i :: 0 <= i < |uses| ==> Registered(uses[i], schema, rank, typeName, pathHash)
  }

  /** Main result. Every column that reading any frame asks for, up to its end
      or its failure, has a tag that the walk over the schema registered with
      the successor of the field's kind, and that is none of the negative
      control tags. */
  lemma {:induction false} RequestsRegistered(schema: Schema, rank: map<string, nat>, typeName: string, pathHash: U32,
                                              m: Message, f: Frame)
    requires NonRecursive(schema, rank) && typeName in rank
    ensures AllRegistered(Requests(schema, typeName, pathHash, m, f), schema, rank, typeName, pathHash)
    decreases |f.types|, 0, 0
  {
    hide ReadEntry, EntryRequests, Registered;
    var front := ReadFront(f);
    if front.Ok? && front.value.Next? {
      var step := ReadEntry(schema, typeName, pathHash, front.value.fieldType, front.value.fieldId, m, front.value.frame);
      EntryRequestsRegistered(schema, rank, typeName, pathHash, front.value.fieldType, front.value.fieldId, m, front.value.frame);
      if step.Ok? {
        RequestsRegistered(schema, rank, typeName, pathHash, step.value.message, step.value.frame);
      }
    }
  }

  lemma FieldRegisters(schema: Schema, rank: map<string, nat>, typeName: string, pathHash: U32, field: FieldDescriptor, c: Cluster)
    requires NonRecursive(schema, rank) && typeName in rank
    requires field in Fields(schema, typeName)
    requires if field.kind == MESSAGE
             then c in Clusters(schema, rank, field.messageType, ExtendPathHash(pathHash, field.number))
             else c == Cluster(FieldTag(pathHash, field.number), FieldSuccessor(field.kind))
    ensures c in Clusters(schema, rank, typeName, pathHash)
  {
    hide FieldTag, ExtendPathHash, FieldSuccessor;
    var fields := Fields(schema, typeName);
    var i :| 0 <= i < |fields| && fields[i] == field;
    assert Below(fields, rank, rank[typeName]);
    FieldClustersIncluded(schema, rank, fields, rank[typeName], field, pathHash, c);
  }

  /** What a nested type's clusters contain is in those of the type around it. */
  lemma NestedRegistered(uses: seq<Use>, schema: Schema, rank: map<string, nat>, typeName: string, pathHash: U32, field: FieldDescriptor)
    requires NonRecursive(schema, rank) && typeName in rank
    requires field in Fields(schema, typeName) && field.kind == MESSAGE
    requires AllRegistered(uses, schema, rank, field.messageType, ExtendPathHash(pathHash, field.number))
    ensures AllRegistered(uses, schema, rank, typeName, pathHash)
  {
    hide FieldTag, ExtendPathHash, FieldSuccessor, Clusters;
    forall i | 0 <= i < |uses| ensures Registered(uses[i], schema, rank, typeName, pathHash) {
      var u := uses[i];
      assert Registered(u, schema, rank, field.messageType, ExtendPathHash(pathHash, field.number));
      FieldRegisters(schema, rank, typeName, pathHash, field, Cluster(u.tag, FieldSuccessor(u.kind)));
    }
  }

  lemma {:induction false} EntryRequestsRegistered(schema: Schema, rank: map<string, nat>, typeName: string, pathHash: U32,
                                                   fieldType: U32, fieldId: U32, m: Message, f: Frame)
    requires NonRecursive(schema, rank) && typeName in rank
    ensures AllRegistered(EntryRequests(schema, typeName, pathHash, fieldType, fieldId, m, f), schema, rank, typeName, pathHash)
    decreases |f.types|, 2, 0
  {
    hide FieldTag, ExtendPathHash, FieldSuccessor, Clusters, Requests, ElementRequests, AllRegistered, SubMessage;
    var found := FindFieldByNumber(Fields(schema, typeName), fieldId);
    var asked := EntryRequests(schema, typeName, pathHash, fieldType, fieldId, m, f);
    NothingAsked(schema, rank, typeName, pathHash);
    if found.Some? {
      var field, childHash := found.value, ExtendPathHash(pathHash, fieldId);
      if field.kind != MESSAGE {
        LeafRegistered(schema, rank, typeName, pathHash, field);
      } else if !field.repeated {
        RequestsRegistered(schema, rank, field.messageType, childHash, SubMessage(m, fieldId), f);
        NestedRegistered(Requests(schema, field.messageType, childHash, SubMessage(m, fieldId), f),
                         schema, rank, typeName, pathHash, field);
      } else if |f.lens| >= 4 {
        var count := ReadU32(f.lens).value;
        var g := f.(lens := count.1);
        ElementRequestsRegistered(schema, rank, field.messageType, childHash, g, count.0);
        NestedRegistered(ElementRequests(schema, field.messageType, childHash, g, count.0),
                         schema, rank, typeName, pathHash, field);
      }
    }
  }

  lemma NothingAsked(schema: Schema, rank: map<string, nat>, typeName: string, pathHash: U32)
    requires NonRecursive(schema, rank) && typeName in rank
    ensures AllRegistered([], schema, rank, typeName, pathHash)
  {
  }

  lemma LeafRegistered(schema: Schema, rank: map<string, nat>, typeName: string, pathHash: U32, field: FieldDescriptor)
    requires NonRecursive(schema, rank) && typeName in rank
    requires field in Fields(schema, typeName) && field.kind != MESSAGE
    ensures AllRegistered([Use(FieldTag(pathHash, field.number), field.kind)], schema, rank, typeName, pathHash)
  {
    FieldRegisters(schema, rank, typeName, pathHash, field,
                   Cluster(FieldTag(pathHash, field.number), FieldSuccessor(field.kind)));
  }

  lemma {:induction false} ElementRequestsRegistered(schema: Schema, rank: map<string, nat>, typeName: string, pathHash: U32,
                                                     f: Frame, count: nat)
    requires NonRecursive(schema, rank) && typeName in rank
    ensures AllRegistered(ElementRequests(schema, typeName, pathHash, f, count), schema, rank, typeName, pathHash)
    decreases |f.types|, 1, count
  {
    hide ReadMessage, Requests, Registered;
    if count > 0 {
      RequestsRegistered(schema, rank, typeName, pathHash, EMPTY, f);
      var sub := ReadMessage(schema, typeName, pathHash, EMPTY, f);
      if sub.Ok? {
        ElementRequestsRegistered(schema, rank, typeName, pathHash, sub.value.frame, count - 1);
      }
    }
  }

  // ----- requests and uses -----

  /** A run that succeeds has used exactly the columns that it asked for. */
  lemma {:induction false} RequestsAreUses(schema: Schema, typeName: string, pathHash: U32, m: Message, f: Frame)
    ensures var r := ReadMessage(schema, typeName, pathHash, m, f);
            r.Ok? ==> r.value.uses == Requests(schema, typeName, pathHash, m, f)
    decreases |f.types|, 0, 0
  {
    hide ReadEntry, EntryRequests;
    var front := ReadFront(f);
    if front.Ok? && front.value.Next? {
      var step := ReadEntry(schema, typeName, pathHash, front.value.fieldType, front.value.fieldId, m, front.value.frame);
      EntryRequestsAreUses(schema, typeName, pathHash, front.value.fieldType, front.value.fieldId, m, front.value.frame);
      if step.Ok? {
        RequestsAreUses(schema, typeName, pathHash, step.value.message, step.value.frame);
      }
    }
  }

  lemma {:induction false} EntryRequestsAreUses(schema: Schema, typeName: string, pathHash: U32, fieldType: U32, fieldId: U32,
                                                m: Message, f: Frame)
    ensures var r := ReadEntry(schema, typeName, pathHash, fieldType, fieldId, m, f);
            r.Ok? ==> r.value.uses == EntryRequests(schema, typeName, pathHash, fieldType, fieldId, m, f)
    decreases |f.types|, 2, 0
  {
    hide FieldTag, ExtendPathHash, ReadField, ReadMessage, ReadSubMessages, Requests, ElementRequests, SubMessage, SetSubMessage;
    var found := FindFieldByNumber(Fields(schema, typeName), fieldId);
    if found.Some? && found.value.kind == MESSAGE {
      var field, childHash := found.value, ExtendPathHash(pathHash, fieldId);
      if !field.repeated {
        RequestsAreUses(schema, field.messageType, childHash, SubMessage(m, fieldId), f);
      } else if |f.lens| >= 4 {
        var count := ReadU32(f.lens).value;
        ElementRequestsAreUses(schema, field.messageType, childHash, fieldId, m, f.(lens := count.1), count.0);
      }
    }
  }

  lemma {:induction false} ElementRequestsAreUses(schema: Schema, typeName: string, pathHash: U32, number: U32, m: Message,
                                                  f: Frame, count: nat)
    ensures var r := ReadSubMessages(schema, typeName, pathHash, number, m, f, count);
            r.Ok? ==> r.value.uses == ElementRequests(schema, typeName, pathHash, f, count)
    decreases |f.types|, 1, count
  {
    hide ReadMessage, Requests, AddSubMessage;
    if count > 0 {
      RequestsAreUses(schema, typeName, pathHash, EMPTY, f);
      var sub := ReadMessage(schema, typeName, pathHash, EMPTY, f);
      if sub.Ok? {
        ElementRequestsAreUses(schema, typeName, pathHash, number, AddSubMessage(m, number, sub.value.message),
                               sub.value.frame, count - 1);
      }
    }
  }

  // ----- why a run fails -----

  /** A field that the type does not have, or that is of another kind there, and
      a column that is bound to no tag, end every run that meets them. */
  lemma FieldsRefused(schema: Schema, typeName: string, pathHash: U32, fieldType: U32, fieldId: U32, m: Message, f: Frame)
    ensures var r := ReadEntry(schema, typeName, pathHash, fieldType, fieldId, m, f);
            var desc := Fields(schema, typeName);
            && ((forall i :: 0 <= i < |desc| ==> desc[i].number != fieldId) ==> r == Err(UnknownField))
            && (DistinctNumbers(desc) ==> forall i :: 0 <= i < |desc| && desc[i].number == fieldId ==>
                  && (desc[i].kind != fieldType ==> r == Err(TypeMismatch))
                  && (desc[i].kind == fieldType != MESSAGE && FieldTag(pathHash, fieldId) !in f.values && f.ordered == [] ==>
                        r == Err(MissingStream)))
  {
    hide ReadMessage, ReadSubMessages, ReadField, FieldTag, ExtendPathHash;
    var desc := Fields(schema, typeName);
    var found := FindFieldByNumber(desc, fieldId);
    assert found.None? ==> forall i :: 0 <= i < |desc| ==> desc[i].number != fieldId by {
      assert forall i :: 0 <= i < |desc| ==> desc[i] in desc;
    }
    hide FindFieldByNumber;
  }

  /** A string is refused for its stream, then for its lengths, then for its bytes. */
  lemma StringsRefused(c: Cursor, expected: nat)
    ensures var r := ReadString(c, expected);
            && (r == Err(NotString) <==> !c.text)
            && (r == Err(LengthMismatch) <==> c.text && c.lengths != [] && c.lengths[0] != expected)
            && (r == Err(Truncated) <==> c.text && (c.lengths == [] || (c.lengths[0] == expected > |c.data|)))
            && (r.Ok? <==> c.text && c.lengths != [] && c.lengths[0] == expected <= |c.data|)
            && (r.Ok? ==> r.value.0.bytes + r.value.1.data == c.data && [expected] + r.value.1.lengths == c.lengths
                          && |r.value.0.bytes| == expected)
  {
  }
}
