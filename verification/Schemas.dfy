/** Protobuf descriptors, and the walk that registers one cluster per leaf path. */
module Schemas {

  import opened Results
  import opened PathHash

  /** FieldDescriptor::CppType, which is also the "kind" of a value stream. */
  type Kind = k: nat | 1 <= k <= 10 witness 1

  const INT32: Kind := 1
  const INT64: Kind := 2
  const UINT32: Kind := 3
  const UINT64: Kind := 4
  const DOUBLE: Kind := 5
  const FLOAT: Kind := 6
  const BOOL: Kind := 7
  const ENUM: Kind := 8
  const STRING: Kind := 9
  const MESSAGE: Kind := 10

  /** The type word that ends a message. Its value belongs to OpenZL; only that
      it is no kind is used. */
  const STOP: nat := 0

  /** Bytes of a fixed-width value. */
  function Width(kind: int): nat {
    if kind in {1, 3, 6, 8} then 4 else if kind in {2, 4, 5} then 8 else 1
  }

  datatype FieldDescriptor = FieldDescriptor(number: U32, kind: Kind, repeated: bool, messageType: string)

  type Descriptor = seq<FieldDescriptor>
  type Schema = map<string, Descriptor>

  function Fields(schema: Schema, typeName: string): Descriptor {
    if typeName in schema then schema[typeName] else []
  }

  function FindFieldByNumber(desc: Descriptor, number: U32): (r: Option<FieldDescriptor>)
    ensures r.Some? ==> r.value in desc && r.value.number == number
    ensures r.None? <==> forall f :: f in desc ==> f.number != number
  {
    if desc == [] then None
    else if desc[0].number == number then Some(desc[0])
    else FindFieldByNumber(desc[1..], number)
  }

  // ----- clusters -----

  datatype StreamType = SerialStream | NumericStream | StringStream

  datatype TypeSuccessor = TypeSuccessor(streamType: StreamType, eltWidth: nat, codecIdx: nat)

  const NUMERIC_CODEC_IDX: nat := 2
  const STRING_CODEC_IDX: nat := 3

  function FieldSuccessor(kind: Kind): TypeSuccessor
    requires kind != MESSAGE
  {
    if kind == STRING then TypeSuccessor(StringStream, 0, STRING_CODEC_IDX)
    else TypeSuccessor(NumericStream, Width(kind), NUMERIC_CODEC_IDX)
  }

  datatype Cluster = Cluster(tag: int, successor: TypeSuccessor)

  /** Every message type nested directly in these fields is ranked, below r. */
  ghost predicate Below(fields: Descriptor, rank: map<string, nat>, r: nat) {
    forall i :: 0 <= i < |fields| && fields[i].kind == MESSAGE ==>
      fields[i].messageType in rank && rank[fields[i].messageType] < r
  }

  /** The types that are ranked nest only ranked ones, each below the type that
      nests it: no recursive type can be reached from them. */
  ghost predicate NonRecursive(schema: Schema, rank: map<string, nat>) {
    forall t :: t in rank ==> Below(Fields(schema, t), rank, rank[t])
  }

  /** The clusters of a type reached along a path, in declaration order. */
  ghost function Clusters(schema: Schema, rank: map<string, nat>, typeName: string, pathHash: U32): seq<Cluster>
    requires NonRecursive(schema, rank) && typeName in rank
    decreases rank[typeName], |Fields(schema, typeName)| + 1
  {
    ClustersOf(schema, rank, Fields(schema, typeName), rank[typeName], pathHash)
  }

  ghost function ClustersOf(schema: Schema, rank: map<string, nat>, fields: Descriptor, r: nat, pathHash: U32): seq<Cluster>
    requires NonRecursive(schema, rank) && Below(fields, rank, r)
    decreases r, |fields|
  {
    if fields == [] then []
    else FieldClusters(schema, rank, fields[0], r, pathHash) + ClustersOf(schema, rank, fields[1..], r, pathHash)
  }

  ghost function FieldClusters(schema: Schema, rank: map<string, nat>, field: FieldDescriptor, r: nat, pathHash: U32): seq<Cluster>
    requires NonRecursive(schema, rank) && Below([field], rank, r)
    decreases r, 0
  {
    if field.kind == MESSAGE then
      assert [field][0] == field;
      Clusters(schema, rank, field.messageType, ExtendPathHash(pathHash, field.number))
    else
      [Cluster(FieldTag(pathHash, field.number), FieldSuccessor(field.kind))]
  }

  lemma {:induction false} ClustersOfSnoc(schema: Schema, rank: map<string, nat>, fields: Descriptor, last: FieldDescriptor,
                                          r: nat, pathHash: U32)
    requires NonRecursive(schema, rank) && Below(fields + [last], rank, r)
    ensures Below(fields, rank, r) && Below([last], rank, r)
    ensures ClustersOf(schema, rank, fields + [last], r, pathHash)
         == ClustersOf(schema, rank, fields, r, pathHash) + FieldClusters(schema, rank, last, r, pathHash)
    decreases |fields|
  {
    BelowSplit(fields, last, rank, r);
    if fields == [] {
      assert fields + [last] == [last] && [last][1..] == [];
    } else {
      assert fields + [last] == [fields[0]] + (fields[1..] + [last]);
      assert (fields + [last])[1..] == fields[1..] + [last];
      ClustersOfSnoc(schema, rank, fields[1..], last, r, pathHash);
    }
  }

  lemma BelowSplit(fields: Descriptor, last: FieldDescriptor, rank: map<string, nat>, r: nat)
    requires Below(fields + [last], rank, r)
    ensures Below(fields, rank, r) && Below([last], rank, r)
  {
    forall i | 0 <= i < |fields| && fields[i].kind == MESSAGE
      ensures fields[i].messageType in rank && rank[fields[i].messageType] < r
    {
      assert (fields + [last])[i] == fields[i];
    }
    assert (fields + [last])[|fields|] == last;
  }

  lemma CollectStep(schema: Schema, rank: map<string, nat>, fields: Descriptor, i: nat, r: nat, pathHash: U32)
    requires NonRecursive(schema, rank) && Below(fields, rank, r) && i < |fields|
    ensures Below(fields[..i], rank, r) && Below(fields[..i + 1], rank, r) && Below([fields[i]], rank, r)
    ensures ClustersOf(schema, rank, fields[..i + 1], r, pathHash)
         == ClustersOf(schema, rank, fields[..i], r, pathHash) + FieldClusters(schema, rank, fields[i], r, pathHash)
  {
    assert fields[..i + 1] == fields[..i] + [fields[i]];
    ClustersOfSnoc(schema, rank, fields[..i], fields[i], r, pathHash);
  }

  /** Appends the clusters of a type to the vector the caller passes in. */
  method CollectStructuredFieldClusters(schema: Schema, ghost rank: map<string, nat>, typeName: string, pathHash: U32,
                                        taggedClusters: seq<Cluster>)
    returns (collected: seq<Cluster>)
    requires NonRecursive(schema, rank) && typeName in rank
    ensures collected == taggedClusters + Clusters(schema, rank, typeName, pathHash)
    decreases rank[typeName], 1
  {
    hide ExtendPathHash, FieldTag, FieldClusters;
    collected := taggedClusters;
    var fields := Fields(schema, typeName);
    ghost var r := rank[typeName];
    ghost var added := [];
    for i := 0 to |fields|
      invariant Below(fields, rank, r) && Below(fields[..i], rank, r)
      invariant added == ClustersOf(schema, rank, fields[..i], r, pathHash)
      invariant collected == taggedClusters + added
    {
      CollectStep(schema, rank, fields, i, r, pathHash);
      collected := CollectField(schema, rank, fields[i], r, pathHash, collected);
      added := added + FieldClusters(schema, rank, fields[i], r, pathHash);
    }
    assert fields[..|fields|] == fields;
  }

  method CollectField(schema: Schema, ghost rank: map<string, nat>, field: FieldDescriptor, ghost r: nat, pathHash: U32,
                      taggedClusters: seq<Cluster>)
    returns (collected: seq<Cluster>)
    requires NonRecursive(schema, rank) && Below([field], rank, r)
    ensures collected == taggedClusters + FieldClusters(schema, rank, field, r, pathHash)
    decreases r, 0
  {
    if field.kind == MESSAGE {
      assert [field][0] == field;
      collected := CollectStructuredFieldClusters(schema, rank, field.messageType,
                                                  ExtendPathHash(pathHash, field.number), taggedClusters);
    } else {
      collected := taggedClusters + [Cluster(FieldTag(pathHash, field.number), FieldSuccessor(field.kind))];
    }
  }

  /** What one field contributes is in the clusters of its type. */
  lemma {:induction false} FieldClustersIncluded(schema: Schema, rank: map<string, nat>, fields: Descriptor, r: nat,
                                                 field: FieldDescriptor, pathHash: U32, c: Cluster)
    requires NonRecursive(schema, rank) && Below(fields, rank, r) && Below([field], rank, r)
    requires field in fields
    requires c in FieldClusters(schema, rank, field, r, pathHash)
    ensures c in ClustersOf(schema, rank, fields, r, pathHash)
    decreases |fields|
  {
    if fields[0] != field {
      assert field in fields[1..];
      FieldClustersIncluded(schema, rank, fields[1..], r, field, pathHash, c);
    }
  }

  ghost predicate PositiveTags(clusters: seq<Cluster>) {
    forall c :: c in clusters ==> c.tag >= 1
  }

  /** No cluster of a type has a control tag. */
  lemma {:induction false} ClustersPositive(schema: Schema, rank: map<string, nat>, fields: Descriptor, r: nat, pathHash: U32)
    requires NonRecursive(schema, rank) && Below(fields, rank, r)
    ensures PositiveTags(ClustersOf(schema, rank, fields, r, pathHash))
    decreases r, |fields|
  {
    hide ExtendPathHash, FieldTag, FieldSuccessor;
    if fields != [] {
      var field := fields[0];
      var first := FieldClusters(schema, rank, field, r, pathHash);
      ClustersPositive(schema, rank, fields[1..], r, pathHash);
      if field.kind == MESSAGE {
        var nested := field.messageType;
        ClustersPositive(schema, rank, Fields(schema, nested), rank[nested], ExtendPathHash(pathHash, field.number));
        assert first == Clusters(schema, rank, nested, ExtendPathHash(pathHash, field.number));
        assert first == ClustersOf(schema, rank, Fields(schema, nested), rank[nested], ExtendPathHash(pathHash, field.number));
      } else {
        assert first == [Cluster(FieldTag(pathHash, field.number), FieldSuccessor(field.kind))];
      }
      assert PositiveTags(first);
    }
  }
}
