/** When the walk that collects the clusters of a message type returns. */
module SchemaRecursion {

  import opened Results
  import opened PathHash
  import opened Schemas
  import opened Reachability

  /** The message types that fields of these types nest, in declaration order. */
  function NestedTypes(fields: Descriptor): (types: seq<string>)
    ensures forall t :: t in types <==> exists f :: f in fields && f.kind == MESSAGE && f.messageType == t
  {
    if fields == [] then []
    else (if fields[0].kind == MESSAGE then [fields[0].messageType] else []) + NestedTypes(fields[1..])
  }

  function Nesting(schema: Schema): Graph<string> {
    map t | t in schema :: NestedTypes(schema[t])
  }

  /** The walk with a bound on nested calls, which collects nothing when it
      needs more of them. */
  function WalkWithin(schema: Schema, typeName: string, pathHash: U32, depth: nat): Option<seq<Cluster>>
    decreases depth, |Fields(schema, typeName)| + 1
  {
    WalkFields(schema, Fields(schema, typeName), pathHash, depth)
  }

  function WalkFields(schema: Schema, fields: Descriptor, pathHash: U32, depth: nat): Option<seq<Cluster>>
    decreases depth, |fields|
  {
    if fields == [] then Some([])
    else
      var first := WalkField(schema, fields[0], pathHash, depth);
      var rest := WalkFields(schema, fields[1..], pathHash, depth);
      if first.Some? && rest.Some? then Some(first.value + rest.value) else None
  }

  function WalkField(schema: Schema, field: FieldDescriptor, pathHash: U32, depth: nat): Option<seq<Cluster>>
    decreases depth, 0
  {
    if field.kind != MESSAGE then Some([Cluster(FieldTag(pathHash, field.number), FieldSuccessor(field.kind))])
    else if depth == 0 then None
    else WalkWithin(schema, field.messageType, ExtendPathHash(pathHash, field.number), depth - 1)
  }

  /** The walk from a type returns within this many nested calls. */
  ghost predicate Returns(schema: Schema, typeName: string, depth: nat)
    decreases depth
  {
    forall t :: t in Out(Nesting(schema), typeName) ==> ReturnsDeeper(schema, t, depth)
  }

  ghost predicate ReturnsDeeper(schema: Schema, typeName: string, depth: nat)
    decreases depth, 0
  {
    depth > 0 && Returns(schema, typeName, depth - 1)
  }

  ghost predicate AllReturnDeeper(schema: Schema, types: seq<string>, depth: nat) {
    forall t :: t in types ==> ReturnsDeeper(schema, t, depth)
  }

  lemma NestedOut(schema: Schema, typeName: string)
    ensures Out(Nesting(schema), typeName) == NestedTypes(Fields(schema, typeName))
  {
  }

  lemma {:induction false} BoundedWalk(schema: Schema, typeName: string, pathHash: U32, depth: nat)
    ensures WalkWithin(schema, typeName, pathHash, depth).Some? <==> Returns(schema, typeName, depth)
    decreases depth, |Fields(schema, typeName)| + 1
  {
    NestedOut(schema, typeName);
    hide Nesting, Out, ReturnsDeeper;
    BoundedFields(schema, Fields(schema, typeName), pathHash, depth);
  }

  lemma {:induction false} BoundedField(schema: Schema, field: FieldDescriptor, pathHash: U32, depth: nat)
    ensures WalkField(schema, field, pathHash, depth).Some?
            <==> (field.kind == MESSAGE ==> ReturnsDeeper(schema, field.messageType, depth))
    decreases depth, 0
  {
    hide FieldTag, ExtendPathHash, FieldSuccessor, Returns, WalkWithin;
    if field.kind == MESSAGE && depth > 0 {
      BoundedWalk(schema, field.messageType, ExtendPathHash(pathHash, field.number), depth - 1);
    }
  }

  lemma {:induction false} BoundedFields(schema: Schema, fields: Descriptor, pathHash: U32, depth: nat)
    ensures WalkFields(schema, fields, pathHash, depth).Some? <==> AllReturnDeeper(schema, NestedTypes(fields), depth)
    decreases depth, |fields|
  {
    hide WalkField, ReturnsDeeper;
    if fields != [] {
      BoundedField(schema, fields[0], pathHash, depth);
      BoundedFields(schema, fields[1..], pathHash, depth);
      FirstNested(fields);
      hide NestedTypes;
    }
  }

  lemma FirstNested(fields: Descriptor)
    requires fields != []
    ensures forall t :: t in NestedTypes(fields) <==>
              (fields[0].kind == MESSAGE && t == fields[0].messageType) || t in NestedTypes(fields[1..])
    ensures fields[0].kind == MESSAGE ==> fields[0].messageType in NestedTypes(fields)
  {
    var first := if fields[0].kind == MESSAGE then [fields[0].messageType] else [];
    assert NestedTypes(fields) == first + NestedTypes(fields[1..]);
  }

  /** A bounded walk that returns has collected the clusters of the type. */
  lemma {:induction false} BoundedWalkCollects(schema: Schema, rank: map<string, nat>, typeName: string, pathHash: U32, depth: nat)
    requires NonRecursive(schema, rank) && typeName in rank
    requires WalkWithin(schema, typeName, pathHash, depth).Some?
    ensures WalkWithin(schema, typeName, pathHash, depth).value == Clusters(schema, rank, typeName, pathHash)
    decreases depth, |Fields(schema, typeName)| + 1
  {
    BoundedFieldsCollect(schema, rank, Fields(schema, typeName), rank[typeName], pathHash, depth);
  }

  lemma {:induction false} BoundedFieldsCollect(schema: Schema, rank: map<string, nat>, fields: Descriptor, r: nat,
                                                pathHash: U32, depth: nat)
    requires NonRecursive(schema, rank) && Below(fields, rank, r)
    requires WalkFields(schema, fields, pathHash, depth).Some?
    ensures WalkFields(schema, fields, pathHash, depth).value == ClustersOf(schema, rank, fields, r, pathHash)
    decreases depth, |fields|
  {
    hide FieldTag, ExtendPathHash, FieldSuccessor, WalkWithin, Clusters;
    if fields != [] {
      var field := fields[0];
      BoundedFieldsCollect(schema, rank, fields[1..], r, pathHash, depth);
      if field.kind == MESSAGE {
        BoundedWalkCollects(schema, rank, field.messageType, ExtendPathHash(pathHash, field.number), depth - 1);
      }
    }
  }

  /** The type nests itself, directly or through others. */
  ghost predicate Recursive(schema: Schema, typeName: string) {
    exists t :: t in Out(Nesting(schema), typeName) && Reachable(Nesting(schema), t, typeName)
  }

  ghost predicate ReachesRecursive(schema: Schema, typeName: string) {
    exists t :: Reachable(Nesting(schema), typeName, t) && Recursive(schema, t)
  }

  // ----- a walk that returns meets no recursive type -----

  lemma {:induction false} ReturnsAlong(schema: Schema, path: seq<string>, depth: nat)
    requires Path(Nesting(schema), path) && Returns(schema, path[0], depth)
    ensures |path| <= depth + 1 && Returns(schema, path[|path| - 1], depth + 1 - |path|)
    decreases |path|
  {
    hide Nesting, Out;
    if |path| > 1 {
      assert path[0 + 1] in Out(Nesting(schema), path[0]) && ReturnsDeeper(schema, path[1], depth);
      forall i | 0 <= i < |path[1..]| - 1 ensures path[1..][i + 1] in Out(Nesting(schema), path[1..][i]) {
        assert path[i + 1 + 1] in Out(Nesting(schema), path[i + 1]);
      }
      ReturnsAlong(schema, path[1..], depth - 1);
    }
  }

  lemma {:induction false} ReturnsLater(schema: Schema, typeName: string, depth: nat, more: nat)
    requires Returns(schema, typeName, depth) && depth <= more
    ensures Returns(schema, typeName, more)
    decreases depth
  {
    hide Nesting, Out;
    forall t | t in Out(Nesting(schema), typeName) ensures ReturnsDeeper(schema, t, more) {
      assert ReturnsDeeper(schema, t, depth);
      ReturnsLater(schema, t, depth - 1, more - 1);
    }
  }

  lemma {:induction false} NeverReturns(schema: Schema, typeName: string, depth: nat)
    requires Recursive(schema, typeName)
    ensures !Returns(schema, typeName, depth)
    decreases depth
  {
    hide Nesting, Out;
    if Returns(schema, typeName, depth) {
      var g := Nesting(schema);
      var t :| t in Out(g, typeName) && Reachable(g, t, typeName);
      var path :| Path(g, path) && path[0] == t && path[|path| - 1] == typeName;
      assert ReturnsDeeper(schema, t, depth);
      ReturnsAlong(schema, path, depth - 1);
      ReturnsLater(schema, typeName, depth - |path|, depth - 1);
      NeverReturns(schema, typeName, depth - 1);
    }
  }

  // ----- a walk that does not return meets one -----

  lemma {:induction false} LongPath(schema: Schema, typeName: string, depth: nat) returns (path: seq<string>)
    requires !Returns(schema, typeName, depth)
    ensures Path(Nesting(schema), path) && path[0] == typeName && |path| == depth + 2
    decreases depth
  {
    hide Nesting, Out;
    var g := Nesting(schema);
    var t :| t in Out(g, typeName) && !ReturnsDeeper(schema, t, depth);
    var rest := [t];
    if depth > 0 {
      rest := LongPath(schema, t, depth - 1);
    }
    path := [typeName] + rest;
    forall i | 0 <= i < |path| - 1 ensures path[i + 1] in Out(g, path[i]) {
      if i > 0 {
        assert rest[i - 1 + 1] in Out(g, rest[i - 1]);
      }
    }
  }

  lemma PartOfPath<T(!new)>(g: Graph<T>, path: seq<T>, i: nat, j: nat)
    requires Path(g, path) && i <= j < |path|
    ensures Reachable(g, path[i], path[j])
  {
    var part := path[i..j + 1];
    forall k | 0 <= k < |part| - 1 ensures part[k + 1] in Out(g, part[k]) {
      assert path[i + k + 1] in Out(g, path[i + k]);
    }
    assert Path(g, part) && part[0] == path[i] && part[|part| - 1] == path[j];
  }

  lemma DivergesAtRecursive(schema: Schema, typeName: string, depth: nat)
    requires !Returns(schema, typeName, depth) && depth >= |Universe(Nesting(schema), typeName)|
    ensures ReachesRecursive(schema, typeName)
  {
    var g := Nesting(schema);
    var universe := Universe(g, typeName);
    var path := LongPath(schema, typeName, depth);
    UniverseClosed(g, typeName);
    forall k | 0 <= k < |path| ensures path[k] in universe {
      PathStays(g, universe, path, k);
    }
    if Distinct(path) {
      DistinctSize(path, universe);
    }
    var i, j :| 0 <= i < j < |path| && path[i] == path[j];
    PartOfPath(g, path, 0, i);
    PartOfPath(g, path, i + 1, j);
    assert path[i + 1] in Out(g, path[i]);
    assert Recursive(schema, path[i]);
  }

  lemma ReturnsExactly(schema: Schema, typeName: string)
    ensures (exists depth: nat :: Returns(schema, typeName, depth)) <==> !ReachesRecursive(schema, typeName)
  {
    hide Nesting, Out, Universe;
    if !ReachesRecursive(schema, typeName) {
      var depth := |Universe(Nesting(schema), typeName)|;
      if !Returns(schema, typeName, depth) {
        DivergesAtRecursive(schema, typeName, depth);
      }
      assert Returns(schema, typeName, depth);
    } else if exists depth: nat :: Returns(schema, typeName, depth) {
      var depth: nat :| Returns(schema, typeName, depth);
      var t :| Reachable(Nesting(schema), typeName, t) && Recursive(schema, t);
      var path :| Path(Nesting(schema), path) && path[0] == typeName && path[|path| - 1] == t;
      ReturnsAlong(schema, path, depth);
      NeverReturns(schema, t, depth + 1 - |path|);
    }
  }

  /** Main result. The walk from a type returns, with a bound that is large
      enough, exactly if no recursive type can be reached from the type. */
  lemma WalkReturnsExactly(schema: Schema, typeName: string, pathHash: U32)
    ensures (exists depth: nat :: WalkWithin(schema, typeName, pathHash, depth).Some?) <==> !ReachesRecursive(schema, typeName)
  {
    ReturnsExactly(schema, typeName);
    hide ReachesRecursive, Returns, WalkWithin;
    if exists depth: nat :: Returns(schema, typeName, depth) {
      var depth: nat :| Returns(schema, typeName, depth);
      BoundedWalk(schema, typeName, pathHash, depth);
    }
    if exists depth: nat :: WalkWithin(schema, typeName, pathHash, depth).Some? {
      var depth: nat :| WalkWithin(schema, typeName, pathHash, depth).Some?;
      BoundedWalk(schema, typeName, pathHash, depth);
    }
  }

  // ----- ranks -----

  ghost function Depth(schema: Schema, typeName: string): nat {
    if exists depth: nat :: Returns(schema, typeName, depth)
    then (var depth: nat :| Returns(schema, typeName, depth); Least(schema, typeName, depth))
    else 0
  }

  ghost function Least(schema: Schema, typeName: string, depth: nat): (d: nat)
    requires Returns(schema, typeName, depth)
    ensures d <= depth && Returns(schema, typeName, d) && (d > 0 ==> !Returns(schema, typeName, d - 1))
  {
    if depth > 0 && Returns(schema, typeName, depth - 1) then Least(schema, typeName, depth - 1) else depth
  }

  lemma NestedIsLower(schema: Schema, typeName: string, t: string)
    requires exists depth: nat :: Returns(schema, typeName, depth)
    requires t in Out(Nesting(schema), typeName)
    ensures Depth(schema, t) < Depth(schema, typeName)
  {
    hide Nesting, Out;
    var d := Depth(schema, typeName);
    assert Returns(schema, typeName, d);
    assert Returns(schema, t, d - 1);
    if Depth(schema, t) > d - 1 {
      ReturnsLater(schema, t, d - 1, Depth(schema, t) - 1);
    }
  }

  lemma RankedNested(schema: Schema, rank: map<string, nat>, typeName: string, t: string)
    requires NonRecursive(schema, rank) && typeName in rank && t in Out(Nesting(schema), typeName)
    ensures t in rank && rank[t] < rank[typeName]
  {
    var fields := schema[typeName];
    var f :| f in fields && f.kind == MESSAGE && f.messageType == t;
    var i :| 0 <= i < |fields| && fields[i] == f;
    assert Below(Fields(schema, typeName), rank, rank[typeName]);
  }

  lemma {:induction false} RankedReturns(schema: Schema, rank: map<string, nat>, typeName: string)
    requires NonRecursive(schema, rank) && typeName in rank
    ensures Returns(schema, typeName, rank[typeName])
    decreases rank[typeName]
  {
    hide Nesting, Out, NonRecursive;
    forall t | t in Out(Nesting(schema), typeName)
      ensures ReturnsDeeper(schema, t, rank[typeName])
    {
      RankedNested(schema, rank, typeName, t);
      RankedReturns(schema, rank, t);
      ReturnsLater(schema, t, rank[t], rank[typeName] - 1);
    }
  }

  ghost predicate Ranks(schema: Schema, rank: map<string, nat>, typeName: string) {
    NonRecursive(schema, rank) && typeName in rank
  }

  /** Main result. The types that a type reaches can be ranked, as its clusters
      are defined by, exactly if none of them is recursive. */
  lemma RankedExactly(schema: Schema, typeName: string)
    ensures (exists rank :: Ranks(schema, rank, typeName)) <==> !ReachesRecursive(schema, typeName)
  {
    ReturnsExactly(schema, typeName);
    hide ReachesRecursive, Returns;
    if exists rank :: Ranks(schema, rank, typeName) {
      var rank :| Ranks(schema, rank, typeName);
      RankedReturns(schema, rank, typeName);
    }
    if !ReachesRecursive(schema, typeName) {
      var rank := RankedByDepth(schema, typeName);
    }
  }

  lemma RankedByDepth(schema: Schema, typeName: string) returns (rank: map<string, nat>)
    requires !ReachesRecursive(schema, typeName)
    ensures Ranks(schema, rank, typeName)
  {
    var g := Nesting(schema);
    var universe := Universe(g, typeName);
    rank := map t | t in universe && Reachable(g, typeName, t) :: Depth(schema, t);
    ReachableSelf(g, typeName);
    UniverseClosed(g, typeName);
    forall t | t in rank ensures Below(Fields(schema, t), rank, rank[t]) {
      NestedOut(schema, t);
      if ReachesRecursive(schema, t) {
        ReachesFurther(schema, typeName, t);
      }
      ReturnsExactly(schema, t);
      var fields := Fields(schema, t);
      hide Reachable, Universe, Returns, ReachesRecursive, Nesting, Out;
      forall i | 0 <= i < |fields| && fields[i].kind == MESSAGE
        ensures fields[i].messageType in rank && rank[fields[i].messageType] < rank[t]
      {
        assert fields[i] in fields;
        ReachableStep(g, typeName, t, fields[i].messageType);
        NestedIsLower(schema, t, fields[i].messageType);
      }
    }
  }

  /** What a reachable type reaches is reachable. */
  lemma ReachesFurther(schema: Schema, from: string, t: string)
    requires Reachable(Nesting(schema), from, t) && ReachesRecursive(schema, t)
    ensures ReachesRecursive(schema, from)
  {
    var n :| Reachable(Nesting(schema), t, n) && Recursive(schema, n);
    ReachableTrans(Nesting(schema), from, t, n);
  }
}
