/** What it means to read onto a message that already has fields: the fields read
    are merged into it, as in Message::MergeFrom. */
module StructuredMerging {

  import opened Results
  import opened LittleEndian
  import opened PathHash
  import opened Schemas
  import opened Messages
  import opened StructuredReader

  // ----- merging -----

  /** A single value is replaced, repeated values are appended, and a nested
      message is merged in turn. */
  function MergedValue(prior: Option<FieldValue>, next: FieldValue): FieldValue
    decreases next, 1
  {
    match next
    case One(_) => next
    case Many(vs) => if prior.Some? && prior.value.Many? then Many(prior.value.values + vs) else next
    case Subs(ms) => if prior.Some? && prior.value.Subs? then Subs(prior.value.messages + ms) else next
    case Sub(m) => if prior.Some? && prior.value.Sub? then Sub(Merged(prior.value.message, m)) else next
  }

  function MergedEntry(es: seq<Entry>, e: Entry): seq<Entry>
    decreases e, 2
  {
    Put(es, e.number, MergedValue(Get(es, e.number), e.value))
  }

  function MergedEntries(es: seq<Entry>, news: seq<Entry>): seq<Entry>
    decreases news, 0
  {
    if news == [] then es else MergedEntries(MergedEntry(es, news[0]), news[1..])
  }

  function Merged(m: Message, next: Message): Message
    decreases next, 0
  {
    Message(MergedEntries(m.entries, next.entries))
  }

  // ----- messages whose fields have the shape that the type declares -----

  ghost predicate Shaped(schema: Schema, typeName: string, es: seq<Entry>)
    decreases es, 0
  {
    es != [] ==>
      && EntryShaped(schema, typeName, es[0])
      && Absent(es[1..], es[0].number)
      && Shaped(schema, typeName, es[1..])
  }

  ghost predicate EntryShaped(schema: Schema, typeName: string, e: Entry)
    decreases e, 1
  {
    match FindFieldByNumber(Fields(schema, typeName), e.number)
    case None => false
    case Some(field) => ValueShaped(schema, field, e.value)
  }

  ghost predicate ValueShaped(schema: Schema, field: FieldDescriptor, v: FieldValue)
    decreases v, 0
  {
    match v
    case One(_) => field.kind != MESSAGE && !field.repeated
    case Many(_) => field.kind != MESSAGE && field.repeated
    case Subs(_) => field.kind == MESSAGE && field.repeated
    case Sub(m) => field.kind == MESSAGE && !field.repeated && Shaped(schema, field.messageType, m.entries)
  }

  // ----- fields of a list -----

  lemma {:induction false} GetPut(es: seq<Entry>, number: U32, value: FieldValue, other: U32)
    ensures Get(Put(es, number, value), other) == if other == number then Some(value) else Get(es, other)
  {
    if es != [] {
      GetPut(es[1..], number, value, other);
    }
  }

  lemma {:induction false} GetAbsent(es: seq<Entry>, number: U32)
    ensures Get(es, number) == None <==> Absent(es, number)
    ensures Get(es, number).Some? ==> Entry(number, Get(es, number).value) in es
  {
    if es != [] {
      GetAbsent(es[1..], number);
    }
  }

  lemma {:induction false} PutPut(es: seq<Entry>, number: U32, a: FieldValue, b: FieldValue)
    ensures Put(Put(es, number, a), number, b) == Put(es, number, b)
  {
    if es != [] {
      PutPut(es[1..], number, a, b);
    }
  }

  /** Putting a field that is there does not change the order of the fields. */
  lemma {:induction false} PutsCommute(es: seq<Entry>, n: U32, a: FieldValue, k: U32, b: FieldValue)
    requires n != k && Get(es, n).Some?
    ensures Put(Put(es, n, a), k, b) == Put(Put(es, k, b), n, a)
  {
    if es[0].number != n && es[0].number != k {
      PutsCommute(es[1..], n, a, k, b);
    }
  }

  lemma {:induction false} PutShaped(schema: Schema, typeName: string, es: seq<Entry>, e: Entry)
    requires Shaped(schema, typeName, es) && EntryShaped(schema, typeName, e)
    ensures Shaped(schema, typeName, Put(es, e.number, e.value))
    ensures forall x :: x in Put(es, e.number, e.value) ==> x in es || x == e
  {
    hide EntryShaped;
    if es != [] {
      PutShaped(schema, typeName, es[1..], e);
      var rest := Put(es[1..], e.number, e.value);
      assert ([es[0]] + rest)[1..] == rest && ([e] + es[1..])[1..] == es[1..];
      if es[0].number != e.number {
        assert Absent(rest, es[0].number);
      }
    } else {
      assert [e][1..] == [];
    }
  }

  lemma {:induction false} GetShaped(schema: Schema, typeName: string, es: seq<Entry>, number: U32)
    requires Shaped(schema, typeName, es) && Get(es, number).Some?
    ensures EntryShaped(schema, typeName, Entry(number, Get(es, number).value))
  {
    if es[0].number != number {
      GetShaped(schema, typeName, es[1..], number);
    }
  }

  // ----- merging is associative -----

  /** A value that the list may hold for a field. */
  ghost predicate Fits(schema: Schema, field: FieldDescriptor, prior: Option<FieldValue>) {
    prior.Some? ==> ValueShaped(schema, field, prior.value)
  }

  lemma {:induction false} MergedEntryShaped(schema: Schema, typeName: string, es: seq<Entry>, e: Entry)
    requires Shaped(schema, typeName, es) && EntryShaped(schema, typeName, e)
    ensures Shaped(schema, typeName, MergedEntry(es, e))
    decreases e, 1
  {
    var prior := Get(es, e.number);
    if prior.Some? {
      GetShaped(schema, typeName, es, e.number);
    }
    MergedValueShaped(schema, FindFieldByNumber(Fields(schema, typeName), e.number).value, prior, e.value);
    PutShaped(schema, typeName, es, Entry(e.number, MergedValue(prior, e.value)));
  }

  lemma {:induction false} MergedValueShaped(schema: Schema, field: FieldDescriptor, prior: Option<FieldValue>, v: FieldValue)
    requires Fits(schema, field, prior) && ValueShaped(schema, field, v)
    ensures ValueShaped(schema, field, MergedValue(prior, v))
    decreases v, 0
  {
    if v.Sub? && prior.Some? {
      MergedShaped(schema, field.messageType, prior.value.message.entries, v.message.entries);
    }
  }

  lemma {:induction false} MergedShaped(schema: Schema, typeName: string, es: seq<Entry>, news: seq<Entry>)
    requires Shaped(schema, typeName, es) && Shaped(schema, typeName, news)
    ensures Shaped(schema, typeName, MergedEntries(es, news))
    decreases news, 0
  {
    if news != [] {
      MergedEntryShaped(schema, typeName, es, news[0]);
      MergedShaped(schema, typeName, MergedEntry(es, news[0]), news[1..]);
    }
  }

  /** Two values merged one after the other are their merge merged at once. */
  lemma {:induction false} ValuesAssociate(schema: Schema, field: FieldDescriptor, x: Option<FieldValue>, y: FieldValue, z: FieldValue)
    requires Fits(schema, field, x) && ValueShaped(schema, field, y) && ValueShaped(schema, field, z)
    ensures MergedValue(Some(MergedValue(x, y)), z) == MergedValue(x, MergedValue(Some(y), z))
    decreases z, 0
  {
    match z {
      case One(_) =>
      case Many(vs) =>
        if x.Some? {
          assert (x.value.values + y.values) + vs == x.value.values + (y.values + vs);
        }
      case Subs(ms) =>
        if x.Some? {
          assert (x.value.messages + y.messages) + ms == x.value.messages + (y.messages + ms);
        }
      case Sub(m) =>
        if x.Some? {
          MergeAssociates(schema, field.messageType, x.value.message.entries, y.message.entries, m.entries);
        }
    }
  }

  /** A field that is there and is not among the others may be merged first. */
  lemma {:induction false} MergeEarlier(es: seq<Entry>, news: seq<Entry>, e: Entry)
    requires Get(es, e.number).Some? && Absent(news, e.number)
    ensures MergedEntry(MergedEntries(es, news), e) == MergedEntries(MergedEntry(es, e), news)
    decreases news
  {
    if news != [] {
      var first := news[0];
      hide MergedValue, Put, Get;
      var v, w := MergedValue(Get(es, first.number), first.value), MergedValue(Get(es, e.number), e.value);
      GetPut(es, first.number, v, e.number);
      GetPut(es, e.number, w, first.number);
      MergeEarlier(MergedEntry(es, first), news[1..], e);
      PutsCommute(es, e.number, w, first.number, v);
    }
  }

  /** One field merged after a list, or into the list before. */
  lemma {:induction false} MergeLast(schema: Schema, typeName: string, es: seq<Entry>, news: seq<Entry>, e: Entry)
    requires Shaped(schema, typeName, es) && Shaped(schema, typeName, news) && EntryShaped(schema, typeName, e)
    ensures MergedEntry(MergedEntries(es, news), e) == MergedEntries(es, MergedEntry(news, e))
    decreases e, 3, news
  {
    if news == [] {
      assert MergedEntry(news, e) == [e] && [e][1..] == [];
      assert MergedEntries(MergedEntry(es, e), []) == MergedEntry(es, e);
    } else {
      var first := news[0];
      MergedEntryShaped(schema, typeName, es, first);
      if first.number == e.number {
        var prior := Get(es, e.number);
        var field := FindFieldByNumber(Fields(schema, typeName), e.number).value;
        if prior.Some? {
          GetShaped(schema, typeName, es, e.number);
        }
        ValuesAssociate(schema, field, prior, first.value, e.value);
        SameField(es, news, e);
      } else {
        MergeLast(schema, typeName, MergedEntry(es, first), news[1..], e);
        OtherField(es, news, e);
      }
    }
  }

  lemma SameField(es: seq<Entry>, news: seq<Entry>, e: Entry)
    requires news != [] && news[0].number == e.number && Absent(news[1..], e.number)
    requires var prior := Get(es, e.number);
             MergedValue(Some(MergedValue(prior, news[0].value)), e.value) == MergedValue(prior, MergedValue(Some(news[0].value), e.value))
    ensures MergedEntry(MergedEntries(es, news), e) == MergedEntries(es, MergedEntry(news, e))
  {
    hide MergedValue;
    var first, prior := news[0], Get(es, e.number);
    var v := MergedValue(prior, first.value);
    GetPut(es, e.number, v, e.number);
    MergeEarlier(MergedEntry(es, first), news[1..], e);
    PutPut(es, e.number, v, MergedValue(Some(v), e.value));
    var into := Entry(e.number, MergedValue(Some(first.value), e.value));
    assert MergedEntry(news, e) == [into] + news[1..];
    assert ([into] + news[1..])[1..] == news[1..];
  }

  lemma OtherField(es: seq<Entry>, news: seq<Entry>, e: Entry)
    requires news != [] && news[0].number != e.number
    requires MergedEntry(MergedEntries(MergedEntry(es, news[0]), news[1..]), e)
          == MergedEntries(MergedEntry(es, news[0]), MergedEntry(news[1..], e))
    ensures MergedEntry(MergedEntries(es, news), e) == MergedEntries(es, MergedEntry(news, e))
  {
    hide MergedValue;
    var rest := MergedEntry(news[1..], e);
    assert MergedEntry(news, e) == [news[0]] + rest;
    assert ([news[0]] + rest)[1..] == rest;
  }

  /** Merging is associative. */
  lemma {:induction false} MergeAssociates(schema: Schema, typeName: string, a: seq<Entry>, b: seq<Entry>, c: seq<Entry>)
    requires Shaped(schema, typeName, a) && Shaped(schema, typeName, b) && Shaped(schema, typeName, c)
    ensures MergedEntries(MergedEntries(a, b), c) == MergedEntries(a, MergedEntries(b, c))
    decreases c, 0
  {
    if c != [] {
      MergeLast(schema, typeName, a, b, c[0]);
      MergedEntryShaped(schema, typeName, b, c[0]);
      MergeAssociates(schema, typeName, a, MergedEntry(b, c[0]), c[1..]);
    }
  }

  // ----- the fields one by one -----

  function Single(number: U32, v: FieldValue): Message {
    Message([Entry(number, v)])
  }

  lemma MergeNothing(m: Message)
    ensures Merged(m, EMPTY) == m
  {
  }

  lemma MergeOne(es: seq<Entry>, e: Entry)
    ensures MergedEntries(es, [e]) == MergedEntry(es, e)
  {
    hide MergedEntry;
    assert [e][1..] == [];
    assert MergedEntries(es, [e]) == MergedEntries(MergedEntry(es, e), []);
  }

  lemma MergeSingle(m: Message, number: U32, v: FieldValue)
    ensures Merged(m, Single(number, v)) == Message(Put(m.entries, number, MergedValue(Get(m.entries, number), v)))
    ensures Merged(EMPTY, Single(number, v)) == Single(number, v)
  {
    assert Put([], number, v) == [Entry(number, v)];
    assert MergedValue(None, v) == v;
    hide MergedValue, Put;
    MergeOne(m.entries, Entry(number, v));
    MergeOne([], Entry(number, v));
    hide MergedEntries;
  }

  lemma {:induction false} MergeFresh(es: seq<Entry>, news: seq<Entry>)
    requires forall e :: e in news ==> Absent(es, e.number)
    requires forall i, j :: 0 <= i < j < |news| ==> news[i].number != news[j].number
    ensures MergedEntries(es, news) == es + news
    decreases news
  {
    if news == [] {
      assert es + news == es;
    } else {
      assert news[0] in news;
      PutAbsent(es, news[0].number, news[0].value);
      assert MergedEntry(es, news[0]) == es + [news[0]];
      hide MergedEntry, Put, Get;
      forall e | e in news[1..] ensures Absent(es + [news[0]], e.number) {
        assert e in news;
      }
      MergeFresh(es + [news[0]], news[1..]);
      assert es + news == (es + [news[0]]) + news[1..];
    }
  }

  lemma {:induction false} ShapedDistinct(schema: Schema, typeName: string, es: seq<Entry>)
    requires Shaped(schema, typeName, es)
    ensures forall i, j :: 0 <= i < j < |es| ==> es[i].number != es[j].number
  {
    if es != [] {
      ShapedDistinct(schema, typeName, es[1..]);
      forall i, j | 0 <= i < j < |es| ensures es[i].number != es[j].number {
        assert es[j] == es[1..][j - 1] && (i > 0 ==> es[i] == es[1..][i - 1]);
      }
    }
  }

  lemma MergeIntoNothing(schema: Schema, typeName: string, m: Message)
    requires Shaped(schema, typeName, m.entries)
    ensures Merged(EMPTY, m) == m
  {
    ShapedDistinct(schema, typeName, m.entries);
    MergeFresh([], m.entries);
    assert [] + m.entries == m.entries;
  }

  /** What the calls of the decoder do to a message is such a merge. */
  lemma CallsMerge(m: Message, number: U32, v: Value, sub: Message)
    ensures SetValue(m, number, v) == Merged(m, Single(number, One(v)))
    ensures AddValue(m, number, v) == Merged(m, Single(number, Many([v])))
    ensures AddSubMessage(m, number, sub) == Merged(m, Single(number, Subs([sub])))
  {
    hide Put, MergedEntries, Get;
    MergeSingle(m, number, One(v));
    MergeSingle(m, number, Many([v]));
    MergeSingle(m, number, Subs([sub]));
  }

  lemma NestedCallMerges(schema: Schema, typeName: string, m: Message, number: U32, sub: Message)
    requires Shaped(schema, typeName, sub.entries)
    ensures SetSubMessage(m, number, Merged(SubMessage(m, number), sub)) == Merged(m, Single(number, Sub(sub)))
  {
    hide Put, MergedEntries, Get;
    MergeSingle(m, number, Sub(sub));
    MergeIntoNothing(schema, typeName, sub);
  }

  /** Field by field: what only one side has is kept, and what both have is merged. */
  lemma {:induction false} GetMerged(schema: Schema, typeName: string, es: seq<Entry>, news: seq<Entry>, number: U32)
    requires Shaped(schema, typeName, news)
    ensures Get(MergedEntries(es, news), number) ==
              match Get(news, number) {
                case None => Get(es, number)
                case Some(v) => Some(MergedValue(Get(es, number), v))
              }
    decreases news
  {
    if news != [] {
      var e := news[0];
      GetPut(es, e.number, MergedValue(Get(es, e.number), e.value), number);
      GetMerged(schema, typeName, MergedEntry(es, e), news[1..], number);
      GetAbsent(news[1..], e.number);
      hide MergedValue, Put;
    }
  }

  // ----- reading merges -----

  /** A run from a message, and the same run from nothing. */
  ghost predicate SameButMerged(m: Message, r: Result<Read>, fromNothing: Result<Read>) {
    match fromNothing
    case Err(e) => r == Err(e)
    case Ok(read) => r == Ok(read.(message := Merged(m, read.message)))
  }

  ghost predicate ShapedResult(schema: Schema, typeName: string, r: Result<Read>) {
    r.Ok? ==> Shaped(schema, typeName, r.value.message.entries)
  }

  /** A run that adds one part and then the rest. */
  lemma MergedParts(schema: Schema, typeName: string, m: Message, part: Message, rest: Message)
    requires Shaped(schema, typeName, m.entries) && Shaped(schema, typeName, part.entries) && Shaped(schema, typeName, rest.entries)
    ensures Merged(Merged(m, part), rest) == Merged(m, Merged(part, rest))
    ensures Shaped(schema, typeName, Merged(m, part).entries) && Shaped(schema, typeName, Merged(part, rest).entries)
  {
    MergeAssociates(schema, typeName, m.entries, part.entries, rest.entries);
    MergedShaped(schema, typeName, m.entries, part.entries);
    MergedShaped(schema, typeName, part.entries, rest.entries);
  }

  ghost predicate IsField(schema: Schema, typeName: string, field: FieldDescriptor) {
    FindFieldByNumber(Fields(schema, typeName), field.number) == Some(field)
  }

  lemma SingleShaped(schema: Schema, typeName: string, field: FieldDescriptor, v: FieldValue)
    requires IsField(schema, typeName, field) && ValueShaped(schema, field, v)
    ensures Shaped(schema, typeName, Single(field.number, v).entries)
  {
    assert [Entry(field.number, v)][1..] == [];
  }

  ghost predicate SameFieldButMerged(m: Message, r: Result<FieldRead>, fromNothing: Result<FieldRead>) {
    match fromNothing
    case Err(e) => r == Err(e)
    case Ok(read) => r == Ok(read.(message := Merged(m, read.message)))
  }

  lemma {:induction false} RepeatedMerges(schema: Schema, typeName: string, field: FieldDescriptor, m: Message, c: Cursor,
                                          lens: seq<Byte>, count: nat)
    requires IsField(schema, typeName, field) && field.kind != MESSAGE && field.repeated
    requires Shaped(schema, typeName, m.entries)
    ensures SameFieldButMerged(m, ReadRepeated(field, m, c, lens, count), ReadRepeated(field, EMPTY, c, lens, count))
    ensures var r := ReadRepeated(field, EMPTY, c, lens, count);
            r.Ok? ==> Shaped(schema, typeName, r.value.message.entries)
    decreases count
  {
    hide Merged, Shaped, ReadValue, ReadRepeated, PlusTotal, FindFieldByNumber;
    if count > 0 && ReadValue(field.kind, c, lens).Ok? {
      var v := ReadValue(field.kind, c, lens).value;
      var part := Single(field.number, Many([v.value]));
      SingleShaped(schema, typeName, field, Many([v.value]));
      RepeatedStep(field, m, c, lens, count, v);
      RepeatedStep(field, EMPTY, c, lens, count, v);
      MergeIntoNothing(schema, typeName, part);
      hide SameFieldButMerged;
      MergedParts(schema, typeName, m, part, EMPTY);
      RepeatedMerges(schema, typeName, field, Merged(m, part), v.cursor, v.lens, count - 1);
      RepeatedMerges(schema, typeName, field, part, v.cursor, v.lens, count - 1);
      FieldPartFirst(schema, typeName, m, part, v.total,
                     ReadRepeated(field, Merged(m, part), v.cursor, v.lens, count - 1),
                     ReadRepeated(field, part, v.cursor, v.lens, count - 1),
                     ReadRepeated(field, EMPTY, v.cursor, v.lens, count - 1));
    } else {
      NoneRepeated(schema, typeName, field, m, c, lens, count);
    }
  }

  lemma NoneRepeated(schema: Schema, typeName: string, field: FieldDescriptor, m: Message, c: Cursor, lens: seq<Byte>, count: nat)
    requires count > 0 ==> ReadValue(field.kind, c, lens).Err?
    ensures SameFieldButMerged(m, ReadRepeated(field, m, c, lens, count), ReadRepeated(field, EMPTY, c, lens, count))
    ensures var r := ReadRepeated(field, EMPTY, c, lens, count);
            r.Ok? ==> Shaped(schema, typeName, r.value.message.entries)
  {
    MergeNothing(m);
    hide Merged, ReadValue;
  }

  function PlusTotal(total: nat, r: Result<FieldRead>): Result<FieldRead> {
    match r
    case Err(e) => Err(e)
    case Ok(read) => Ok(read.(total := total + read.total))
  }

  lemma FieldPartFirst(schema: Schema, typeName: string, m: Message, part: Message, total: nat,
                       a: Result<FieldRead>, b: Result<FieldRead>, rest: Result<FieldRead>)
    requires Shaped(schema, typeName, m.entries) && Shaped(schema, typeName, part.entries)
    requires rest.Ok? ==> Shaped(schema, typeName, rest.value.message.entries)
    requires SameFieldButMerged(Merged(m, part), a, rest) && SameFieldButMerged(part, b, rest)
    ensures SameFieldButMerged(m, PlusTotal(total, a), PlusTotal(total, b))
    ensures var r := PlusTotal(total, b);
            r.Ok? ==> Shaped(schema, typeName, r.value.message.entries)
  {
    hide Merged, Shaped;
    if rest.Ok? {
      MergedParts(schema, typeName, m, part, rest.value.message);
    }
  }

  lemma RepeatedStep(field: FieldDescriptor, m: Message, c: Cursor, lens: seq<Byte>, count: nat, v: ValueRead)
    requires count > 0 && ReadValue(field.kind, c, lens) == Ok(v)
    ensures ReadRepeated(field, m, c, lens, count)
         == PlusTotal(v.total, ReadRepeated(field, Merged(m, Single(field.number, Many([v.value]))), v.cursor, v.lens, count - 1))
  {
    CallsMerge(m, field.number, v.value, EMPTY);
    hide Merged, AddValue, ReadValue;
  }

  lemma FieldMerges(schema: Schema, typeName: string, field: FieldDescriptor, m: Message, c: Cursor, lens: seq<Byte>)
    requires IsField(schema, typeName, field) && field.kind != MESSAGE && Shaped(schema, typeName, m.entries)
    ensures SameFieldButMerged(m, ReadField(field, m, c, lens), ReadField(field, EMPTY, c, lens))
    ensures var r := ReadField(field, EMPTY, c, lens);
            r.Ok? ==> Shaped(schema, typeName, r.value.message.entries)
  {
    hide Merged, Shaped, ReadRepeated, ReadValue, SetValue, FindFieldByNumber;
    if field.repeated {
      if |lens| >= 4 {
        var (count, rest) := ReadU32(lens).value;
        RepeatedMerges(schema, typeName, field, m, c, rest, count);
      }
    } else if ReadValue(field.kind, c, lens).Ok? {
      var v := ReadValue(field.kind, c, lens).value.value;
      CallsMerge(m, field.number, v, EMPTY);
      CallsMerge(EMPTY, field.number, v, EMPTY);
      SingleShaped(schema, typeName, field, One(v));
      MergeIntoNothing(schema, typeName, Single(field.number, One(v)));
    }
  }

  lemma LeafMerges(schema: Schema, typeName: string, field: FieldDescriptor, pathHash: U32, m: Message, f: Frame)
    requires IsField(schema, typeName, field) && field.kind != MESSAGE && Shaped(schema, typeName, m.entries)
    ensures SameButMerged(m, ReadLeaf(field, pathHash, m, f), ReadLeaf(field, pathHash, EMPTY, f))
    ensures ShapedResult(schema, typeName, ReadLeaf(field, pathHash, EMPTY, f))
  {
    var tag := FieldTag(pathHash, field.number);
    if RequireCursor(f, tag).Ok? {
      var bound := RequireCursor(f, tag).value;
      FieldMerges(schema, typeName, field, m, bound.values[tag], bound.lens);
      hide Merged, Shaped, ReadField, FieldTag;
    }
  }

  /** A part that is read first, and then the rest. */
  lemma PartFirst(schema: Schema, typeName: string, m: Message, part: Message, total: nat, uses: seq<Use>,
                  a: Result<Read>, b: Result<Read>, rest: Result<Read>)
    requires Shaped(schema, typeName, m.entries) && Shaped(schema, typeName, part.entries)
    requires ShapedResult(schema, typeName, rest)
    requires SameButMerged(Merged(m, part), a, rest) && SameButMerged(part, b, rest)
    ensures SameButMerged(m, StructuredReader.After(total, uses, a), StructuredReader.After(total, uses, b))
    ensures ShapedResult(schema, typeName, StructuredReader.After(total, uses, b))
  {
    hide Merged, Shaped;
    if rest.Ok? {
      MergedParts(schema, typeName, m, part, rest.value.message);
    }
  }

  /** Main result. Reading a frame onto a message fails exactly as reading it
      alone does, and otherwise merges what that gives into the message, with the
      same streams left over and the same bytes counted: a field that occurs
      again replaces a single value, extends a repeated one and is merged into a
      nested message. */
  lemma {:induction false} ReadingMerges(schema: Schema, typeName: string, pathHash: U32, m: Message, f: Frame)
    requires Shaped(schema, typeName, m.entries)
    ensures SameButMerged(m, ReadMessage(schema, typeName, pathHash, m, f), ReadMessage(schema, typeName, pathHash, EMPTY, f))
    ensures ShapedResult(schema, typeName, ReadMessage(schema, typeName, pathHash, EMPTY, f))
    decreases |f.types|, 0, 0
  {
    hide Merged, Shaped, ReadEntry, ReadMessage, StructuredReader.After, ShapedResult;
    if ReadFront(f).Ok? && ReadFront(f).value.Next? {
      var front := ReadFront(f).value;
      var g, fieldType, fieldId := front.frame, front.fieldType, front.fieldId;
      hide ReadFront;
      EntryMerges(schema, typeName, pathHash, fieldType, fieldId, m, g);
      var first := ReadEntry(schema, typeName, pathHash, fieldType, fieldId, EMPTY, g);
      if first.Ok? {
        var part, rest := first.value.message, first.value.frame;
        assert ReadEntry(schema, typeName, pathHash, fieldType, fieldId, m, g) == Ok(first.value.(message := Merged(m, part)));
        assert Shaped(schema, typeName, part.entries) by {
          ShapedMessage(schema, typeName, first);
        }
        MessageUnfolds(schema, typeName, pathHash, m, f, front, first.value.(message := Merged(m, part)));
        MessageUnfolds(schema, typeName, pathHash, EMPTY, f, front, first.value);
        hide SameButMerged;
        MergedParts(schema, typeName, m, part, EMPTY);
        ReadingMerges(schema, typeName, pathHash, Merged(m, part), rest);
        ReadingMerges(schema, typeName, pathHash, part, rest);
        PartFirst(schema, typeName, m, part, 8 + first.value.total, first.value.uses,
                  ReadMessage(schema, typeName, pathHash, Merged(m, part), rest),
                  ReadMessage(schema, typeName, pathHash, part, rest),
                  ReadMessage(schema, typeName, pathHash, EMPTY, rest));
      } else {
        MessageFails(schema, typeName, pathHash, m, f, front);
        MessageFails(schema, typeName, pathHash, EMPTY, f, front);
        NoResult(schema, typeName, first);
      }
    } else {
      NoFields(schema, typeName, pathHash, m, f);
    }
  }

  lemma ShapedMessage(schema: Schema, typeName: string, r: Result<Read>)
    requires ShapedResult(schema, typeName, r) && r.Ok?
    ensures Shaped(schema, typeName, r.value.message.entries)
  {
  }

  lemma NoResult(schema: Schema, typeName: string, r: Result<Read>)
    requires r.Err?
    ensures ShapedResult(schema, typeName, Err(r.error))
  {
  }

  lemma NoFields(schema: Schema, typeName: string, pathHash: U32, m: Message, f: Frame)
    requires ReadFront(f).Ok? ==> ReadFront(f).value.End?
    ensures SameButMerged(m, ReadMessage(schema, typeName, pathHash, m, f), ReadMessage(schema, typeName, pathHash, EMPTY, f))
    ensures ShapedResult(schema, typeName, ReadMessage(schema, typeName, pathHash, EMPTY, f))
  {
    MergeNothing(m);
    hide Merged, ReadEntry, ReadFront;
  }

  lemma MessageUnfolds(schema: Schema, typeName: string, pathHash: U32, m: Message, f: Frame, front: Front, step: Read)
    requires ReadFront(f) == Ok(front) && front.Next?
    requires ReadEntry(schema, typeName, pathHash, front.fieldType, front.fieldId, m, front.frame) == Ok(step)
    ensures ReadMessage(schema, typeName, pathHash, m, f)
         == StructuredReader.After(8 + step.total, step.uses, ReadMessage(schema, typeName, pathHash, step.message, step.frame))
  {
    hide ReadEntry, ReadFront;
  }

  lemma MessageFails(schema: Schema, typeName: string, pathHash: U32, m: Message, f: Frame, front: Front)
    requires ReadFront(f) == Ok(front) && front.Next?
    ensures var step := ReadEntry(schema, typeName, pathHash, front.fieldType, front.fieldId, m, front.frame);
            step.Err? ==> ReadMessage(schema, typeName, pathHash, m, f) == Err(step.error)
  {
    hide ReadEntry, ReadFront;
  }

  lemma {:induction false} EntryMerges(schema: Schema, typeName: string, pathHash: U32, fieldType: U32, fieldId: U32, m: Message, f: Frame)
    requires Shaped(schema, typeName, m.entries)
    ensures SameButMerged(m, ReadEntry(schema, typeName, pathHash, fieldType, fieldId, m, f),
                          ReadEntry(schema, typeName, pathHash, fieldType, fieldId, EMPTY, f))
    ensures ShapedResult(schema, typeName, ReadEntry(schema, typeName, pathHash, fieldType, fieldId, EMPTY, f))
    decreases |f.types|, 2, 0
  {
    hide Merged, Shaped, ReadLeaf, ReadMessage, ReadSubMessages, ExtendPathHash, FindFieldByNumber;
    var found := FindFieldByNumber(Fields(schema, typeName), fieldId);
    if found.Some? && fieldType == found.value.kind {
      var field := found.value;
      if field.kind != MESSAGE {
        LeafMerges(schema, typeName, field, pathHash, m, f);
      } else if field.repeated {
        if |f.lens| >= 4 {
          var (count, lens) := ReadU32(f.lens).value;
          ElementsMerge(schema, typeName, field, ExtendPathHash(pathHash, fieldId), m, f.(lens := lens), count);
        }
      } else {
        NestedMerges(schema, typeName, field, pathHash, m, f);
      }
    }
  }

  lemma {:induction false} NestedMerges(schema: Schema, typeName: string, field: FieldDescriptor, pathHash: U32, m: Message, f: Frame)
    requires Shaped(schema, typeName, m.entries)
    requires IsField(schema, typeName, field) && field.kind == MESSAGE && !field.repeated
    ensures SameButMerged(m, ReadEntry(schema, typeName, pathHash, MESSAGE, field.number, m, f),
                          ReadEntry(schema, typeName, pathHash, MESSAGE, field.number, EMPTY, f))
    ensures ShapedResult(schema, typeName, ReadEntry(schema, typeName, pathHash, MESSAGE, field.number, EMPTY, f))
    decreases |f.types|, 1, 0
  {
    var hash, sub := ExtendPathHash(pathHash, field.number), SubMessage(m, field.number);
    SubShaped(schema, typeName, field, m);
    ReadingMerges(schema, field.messageType, hash, sub, f);
    NestedUnfolds(schema, typeName, field, pathHash, m, f);
    NestedUnfolds(schema, typeName, field, pathHash, EMPTY, f);
    hide Merged, ReadMessage, ReadEntry, ExtendPathHash;
    var alone := ReadMessage(schema, field.messageType, hash, EMPTY, f);
    if alone.Ok? {
      var read := alone.value.message;
      NestedCallMerges(schema, field.messageType, m, field.number, read);
      NestedCallMerges(schema, field.messageType, EMPTY, field.number, read);
      MergeIntoNothing(schema, field.messageType, read);
      SingleShaped(schema, typeName, field, Sub(read));
      MergeIntoNothing(schema, typeName, Single(field.number, Sub(read)));
    }
  }

  lemma SubShaped(schema: Schema, typeName: string, field: FieldDescriptor, m: Message)
    requires Shaped(schema, typeName, m.entries)
    requires IsField(schema, typeName, field) && field.kind == MESSAGE && !field.repeated
    ensures Shaped(schema, field.messageType, SubMessage(m, field.number).entries)
    ensures SubMessage(EMPTY, field.number) == EMPTY
  {
    if Get(m.entries, field.number).Some? {
      GetShaped(schema, typeName, m.entries, field.number);
    }
  }

  lemma NestedUnfolds(schema: Schema, typeName: string, field: FieldDescriptor, pathHash: U32, m: Message, f: Frame)
    requires IsField(schema, typeName, field) && field.kind == MESSAGE && !field.repeated
    ensures var sub := ReadMessage(schema, field.messageType, ExtendPathHash(pathHash, field.number), SubMessage(m, field.number), f);
            ReadEntry(schema, typeName, pathHash, MESSAGE, field.number, m, f) ==
              if sub.Err? then sub else Ok(sub.value.(message := SetSubMessage(m, field.number, sub.value.message)))
  {
    hide ReadMessage, ExtendPathHash;
  }

  lemma {:induction false} ElementsMerge(schema: Schema, typeName: string, field: FieldDescriptor, hash: U32, m: Message, f: Frame, count: nat)
    requires Shaped(schema, typeName, m.entries)
    requires IsField(schema, typeName, field) && field.kind == MESSAGE && field.repeated
    ensures SameButMerged(m, ReadSubMessages(schema, field.messageType, hash, field.number, m, f, count),
                          ReadSubMessages(schema, field.messageType, hash, field.number, EMPTY, f, count))
    ensures ShapedResult(schema, typeName, ReadSubMessages(schema, field.messageType, hash, field.number, EMPTY, f, count))
    decreases |f.types|, 1, count
  {
    hide Merged, Shaped, ReadMessage, ReadSubMessages, SameButMerged, ShapedResult, StructuredReader.After, FindFieldByNumber;
    var nested, n := field.messageType, field.number;
    var sub := ReadMessage(schema, nested, hash, EMPTY, f);
    if count > 0 && sub.Ok? {
      var part, rest := Single(n, Subs([sub.value.message])), sub.value.frame;
      SingleShaped(schema, typeName, field, Subs([sub.value.message]));
      MergeIntoNothing(schema, typeName, part);
      ElementsUnfold(schema, nested, hash, n, m, f, count, sub.value);
      ElementsUnfold(schema, nested, hash, n, EMPTY, f, count, sub.value);
      MergedParts(schema, typeName, m, part, EMPTY);
      ElementsMerge(schema, typeName, field, hash, Merged(m, part), rest, count - 1);
      ElementsMerge(schema, typeName, field, hash, part, rest, count - 1);
      PartFirst(schema, typeName, m, part, sub.value.total, sub.value.uses,
                ReadSubMessages(schema, nested, hash, n, Merged(m, part), rest, count - 1),
                ReadSubMessages(schema, nested, hash, n, part, rest, count - 1),
                ReadSubMessages(schema, nested, hash, n, EMPTY, rest, count - 1));
    } else {
      NoElements(schema, typeName, nested, hash, n, m, f, count);
    }
  }

  lemma NoElements(schema: Schema, typeName: string, nested: string, hash: U32, number: U32, m: Message, f: Frame, count: nat)
    requires count > 0 ==> ReadMessage(schema, nested, hash, EMPTY, f).Err?
    ensures SameButMerged(m, ReadSubMessages(schema, nested, hash, number, m, f, count),
                          ReadSubMessages(schema, nested, hash, number, EMPTY, f, count))
    ensures ShapedResult(schema, typeName, ReadSubMessages(schema, nested, hash, number, EMPTY, f, count))
  {
    MergeNothing(m);
    hide Merged, ReadMessage;
  }

  lemma ElementsUnfold(schema: Schema, typeName: string, hash: U32, number: U32, m: Message, f: Frame, count: nat, sub: Read)
    requires count > 0 && ReadMessage(schema, typeName, hash, EMPTY, f) == Ok(sub)
    ensures ReadSubMessages(schema, typeName, hash, number, m, f, count)
         == StructuredReader.After(sub.total, sub.uses,
                  ReadSubMessages(schema, typeName, hash, number, Merged(m, Single(number, Subs([sub.message]))), sub.frame, count - 1))
  {
    CallsMerge(m, number, Scalar(0), sub.message);
    hide Merged, AddSubMessage, ReadMessage;
  }
}
