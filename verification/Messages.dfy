/** Protobuf messages as the reflection calls of the decoder see them. */
module Messages {

  import opened Results
  import opened LittleEndian
  import opened PathHash

  /** A fixed-width value is its bit pattern, a string its bytes. */
  datatype Value = Scalar(bits: nat) | Text(bytes: seq<Byte>)

  /** A message lists its present fields in the order they were first set;
      messages with equal lists have equal fields. */
  datatype Message = Message(entries: seq<Entry>)

  datatype Entry = Entry(number: U32, value: FieldValue)

  datatype FieldValue =
    | One(value: Value)
    | Many(values: seq<Value>)
    | Sub(message: Message)
    | Subs(messages: seq<Message>)

  const EMPTY: Message := Message([])

  function Get(es: seq<Entry>, number: U32): Option<FieldValue> {
    if es == [] then None else if es[0].number == number then Some(es[0].value) else Get(es[1..], number)
  }

  function Put(es: seq<Entry>, number: U32, value: FieldValue): seq<Entry> {
    if es == [] then [Entry(number, value)]
    else if es[0].number == number then [Entry(number, value)] + es[1..]
    else [es[0]] + Put(es[1..], number, value)
  }

  /** Reflection::Set* */
  function SetValue(m: Message, number: U32, v: Value): Message {
    Message(Put(m.entries, number, One(v)))
  }

  /** RepeatedFieldRef::Add */
  function AddValue(m: Message, number: U32, v: Value): Message {
    match Get(m.entries, number)
    case Some(Many(vs)) => Message(Put(m.entries, number, Many(vs + [v])))
    case _ => Message(Put(m.entries, number, Many([v])))
  }

  /** What Reflection::MutableMessage hands out: the message already there, so
      that a second occurrence of a field merges into the first. */
  function SubMessage(m: Message, number: U32): Message {
    match Get(m.entries, number)
    case Some(Sub(sub)) => sub
    case _ => EMPTY
  }

  function SetSubMessage(m: Message, number: U32, sub: Message): Message {
    Message(Put(m.entries, number, Sub(sub)))
  }

  /** Reflection::AddMessage, with what is then read into the new element. */
  function AddSubMessage(m: Message, number: U32, sub: Message): Message {
    match Get(m.entries, number)
    case Some(Subs(subs)) => Message(Put(m.entries, number, Subs(subs + [sub])))
    case _ => Message(Put(m.entries, number, Subs([sub])))
  }

  ghost predicate Absent(es: seq<Entry>, number: U32) {
    forall e :: e in es ==> e.number != number
  }

  lemma {:induction false} PutAbsent(es: seq<Entry>, number: U32, value: FieldValue)
    requires Absent(es, number)
    ensures Get(es, number) == None
    ensures Put(es, number, value) == es + [Entry(number, value)]
  {
    if es != [] {
      PutAbsent(es[1..], number, value);
    }
  }

  lemma {:induction false} PutLast(es: seq<Entry>, number: U32, before: FieldValue, value: FieldValue)
    requires Absent(es, number)
    ensures Get(es + [Entry(number, before)], number) == Some(before)
    ensures Put(es + [Entry(number, before)], number, value) == es + [Entry(number, value)]
  {
    if es != [] {
      PutLast(es[1..], number, before, value);
      assert (es + [Entry(number, before)])[1..] == es[1..] + [Entry(number, before)];
    }
  }
}
