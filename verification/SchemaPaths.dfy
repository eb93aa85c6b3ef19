/** What the tags and the clusters are: the tag of a leaf is the FNV-1a hash of
    its path, and a type registers exactly the leaves of its paths. */
module SchemaPaths {

  import opened Results
  import opened LittleEndian
  import opened PathHash
  import opened SiblingTags
  import opened Schemas

  // ----- the hash of a path -----

  function Absorbed(hash: U32, b: Byte): U32 {
    Xor(hash, b) * 16777619 % 4294967296
  }

  /** The 32-bit FNV-1a hash of a byte string, from any start. */
  function FnvOf(hash: U32, bytes: seq<Byte>): U32
    decreases bytes
  {
    if bytes == [] then hash else FnvOf(Absorbed(hash, bytes[0]), bytes[1..])
  }

  /** A path of field numbers, as little-endian words of four bytes, hashed and
      cut to 31 bits; 1 instead of 0. */
  function TagOfPath(hash: U32, path: seq<U32>): int {
    var cut := FnvOf(hash, Pack(path, 4)) % 2147483648;
    if cut == 0 then 1 else cut
  }

  lemma {:induction false} FnvConcat(hash: U32, a: seq<Byte>, b: seq<Byte>)
    ensures FnvOf(hash, a + b) == FnvOf(FnvOf(hash, a), b)
    decreases a
  {
    hide Absorbed;
    if a == [] {
      assert a + b == b;
    } else {
      assert (a + b)[1..] == a[1..] + b;
      FnvConcat(Absorbed(hash, a[0]), a[1..], b);
    }
  }

  lemma XorHalves(a: nat, b: nat)
    ensures Xor(a, b) / 2 == Xor(a / 2, b / 2) && Xor(a, b) % 2 == (a % 2 + b % 2) % 2
  {
    var low := (a % 2 + b % 2) % 2;
    assert Xor(a, b) == low + 2 * Xor(a / 2, b / 2);
    hide Xor;
  }

  lemma DropOne(a: nat, k: nat)
    ensures DropBits(a, k) == if k == 0 then a else DropBits(a / 2, k - 1)
  {
  }

  /** Exclusive or, bit by bit. */
  lemma {:induction false} XorBitwise(a: nat, b: nat, k: nat)
    ensures DropBits(Xor(a, b), k) % 2 == (DropBits(a, k) % 2 + DropBits(b, k) % 2) % 2
    decreases k
  {
    hide Xor, DropBits;
    XorHalves(a, b);
    DropOne(a, k);
    DropOne(b, k);
    DropOne(Xor(a, b), k);
    if k > 0 {
      XorBitwise(a / 2, b / 2, k - 1);
    }
  }

  lemma WordBytes(n: U32)
    ensures ToLE(n, 4) == [n % 256, n / 256 % 256, n / 65536 % 256, n / 16777216 % 256]
  {
    assert n / 256 / 256 == n / 65536 && n / 65536 / 256 == n / 16777216;
    assert ToLE(n / 16777216, 1) == [n / 16777216 % 256] + ToLE(n / 16777216 / 256, 0);
    assert ToLE(n / 65536, 2) == [n / 65536 % 256] + ToLE(n / 16777216, 1);
    assert ToLE(n / 256, 3) == [n / 256 % 256] + ToLE(n / 65536, 2);
  }

  lemma FourRounds(hash: U32, a: Byte, b: Byte, c: Byte, d: Byte)
    ensures FnvOf(hash, [a, b, c, d]) == Fnv(Fnv(Fnv(Fnv(hash, a), b), c), d)
  {
    hide Xor;
    var h1, h2, h3 := Fnv(hash, a), Fnv(Fnv(hash, a), b), Fnv(Fnv(Fnv(hash, a), b), c);
    assert [d][1..] == [] && [c, d][1..] == [d] && [b, c, d][1..] == [c, d] && [a, b, c, d][1..] == [b, c, d];
    assert FnvOf(h3, [d]) == Fnv(h3, d);
    assert FnvOf(h2, [c, d]) == FnvOf(h3, [d]);
    assert FnvOf(h1, [b, c, d]) == FnvOf(h2, [c, d]);
  }

  /** Extending a path appends its word to what is hashed. */
  lemma ExtensionHashesWord(hash: U32, number: U32)
    ensures ExtendPathHash(hash, number) == FnvOf(hash, ToLE(number, 4))
  {
    WordBytes(number);
    hide Fnv, FnvOf, ToLE;
    FourRounds(hash, number % 256, number / 256 % 256, number / 65536 % 256, number / 16777216 % 256);
  }

  lemma PackOne(number: U32, path: seq<U32>)
    ensures Pack([number] + path, 4) == ToLE(number, 4) + Pack(path, 4)
    ensures Pack([number], 4) == ToLE(number, 4)
  {
    hide ToLE;
    assert ([number] + path)[1..] == path && [number][1..] == [];
    assert ToLE(number, 4) + [] == ToLE(number, 4);
  }

  /** Main result: the tag of a field is the cut hash of its path. */
  lemma TagIsCutHash(hash: U32, number: U32, rest: seq<U32>)
    ensures FieldTag(hash, number) == TagOfPath(hash, [number])
    ensures rest != [] ==> TagOfPath(ExtendPathHash(hash, number), rest) == TagOfPath(hash, [number] + rest)
    ensures var residue := ExtendPathHash(hash, number) % 2147483648;
            FieldTag(hash, number) % 2147483648 == residue || (residue == 0 && FieldTag(hash, number) == 1)
  {
    ExtensionHashesWord(hash, number);
    hide ExtendPathHash, FnvOf, ToLE, Pack;
    PackOne(number, rest);
    FnvConcat(hash, ToLE(number, 4), Pack(rest, 4));
  }

  lemma SmallXors()
    ensures Xor(0xc5, 0x01) == 0xc4 && Xor(0x04, 0x02) == 0x06 && Xor(0xc5, 0x02) == 0xc7
  {
    hide Xor;
    XorBits(1, 1, 0, 0, 0, 1, 0, 1, 0, 0, 0, 0, 0, 0, 0, 1);
    XorBits(0, 0, 0, 0, 0, 1, 0, 0, 0, 0, 0, 0, 0, 0, 1, 0);
    XorBits(1, 1, 0, 0, 0, 1, 0, 1, 0, 0, 0, 0, 0, 0, 1, 0);
  }

  lemma KnownHashes()
    ensures ExtendPathHash(ROOT_PATH_HASH, 1) == 0xfb69b604 && ExtendPathHash(0xfb69b604, 2) == 0xded89066
  {
    SmallXors();
    hide Xor, Fnv, ExtendPathHash;
    XorZero(0x8c);
    XorZero(0x64);
    XorZero(0x6c);
    XorZero(0x72);
    XorZero(0x76);
    XorZero(0xc2);
    Round(ROOT_PATH_HASH, 0x01, 0x811c9d, 0xc5, 0x811c9dc4, 0x040c5b8c);
    Round(0x040c5b8c, 0x00, 0x040c5b, 0x8c, 0x040c5b8c, 0xeb741d64);
    Round(0xeb741d64, 0x00, 0xeb741d, 0x64, 0xeb741d64, 0x0bca446c);
    Round(0x0bca446c, 0x00, 0x0bca44, 0x6c, 0x0bca446c, 0xfb69b604);
    HashOfBytes(ROOT_PATH_HASH, 1, 1, 0, 0, 0);
    Round(0xfb69b604, 0x02, 0xfb69b6, 0x04, 0xfb69b606, 0xcd698b72);
    Round(0xcd698b72, 0x00, 0xcd698b, 0x72, 0xcd698b72, 0xcf268476);
    Round(0xcf268476, 0x00, 0xcf2684, 0x76, 0xcf268476, 0x8fa285c2);
    Round(0x8fa285c2, 0x00, 0x8fa285, 0xc2, 0x8fa285c2, 0xded89066);
    HashOfBytes(0xfb69b604, 2, 2, 0, 0, 0);
  }

  lemma AnotherHash()
    ensures ExtendPathHash(ROOT_PATH_HASH, 2) == 0xebee7337
  {
    SmallXors();
    hide Xor, Fnv, ExtendPathHash;
    XorZero(0x45);
    XorZero(0x9f);
    XorZero(0x4d);
    Round(ROOT_PATH_HASH, 0x02, 0x811c9d, 0xc5, 0x811c9dc7, 0x070c6045);
    Round(0x070c6045, 0x00, 0x070c60, 0x45, 0x070c6045, 0x5d7b8c9f);
    Round(0x5d7b8c9f, 0x00, 0x5d7b8c, 0x9f, 0x5d7b8c9f, 0xc87e5e4d);
    Round(0xc87e5e4d, 0x00, 0xc87e5e, 0x4d, 0xc87e5e4d, 0xebee7337);
    HashOfBytes(ROOT_PATH_HASH, 2, 2, 0, 0, 0);
  }

  /** The tags of fields 1 and 2 of a message, and that of field 2 of a message
      in the first. */
  lemma KnownTags()
    ensures FieldTag(ROOT_PATH_HASH, 1) == 2070525444 && FieldTag(ROOT_PATH_HASH, 2) == 1810789175
    ensures FieldTag(ExtendPathHash(ROOT_PATH_HASH, 1), 2) == 1591251046
  {
    KnownHashes();
    AnotherHash();
    hide ExtendPathHash;
  }

  // ----- the leaves of a type -----

  /** The path leads through nested messages to a leaf of this kind. */
  ghost predicate LeafAt(schema: Schema, desc: Descriptor, path: seq<U32>, kind: Kind)
    decreases |path|, 1
  {
    path != [] && exists i :: 0 <= i < |desc| && LeafBehind(schema, desc[i], path, kind)
  }

  ghost predicate LeafBehind(schema: Schema, field: FieldDescriptor, path: seq<U32>, kind: Kind)
    requires path != []
    decreases |path|, 0
  {
    && field.number == path[0]
    && if |path| == 1 then field.kind == kind != MESSAGE
       else field.kind == MESSAGE && LeafAt(schema, Fields(schema, field.messageType), path[1..], kind)
  }

  /** What is expected at a leaf: strings without a width for codec 3, words of
      eight, four or one bytes for codec 2. */
  function LeafSuccessor(kind: Kind): TypeSuccessor {
    if kind == STRING then TypeSuccessor(StringStream, 0, 3)
    else if kind in {INT64, UINT64, DOUBLE} then TypeSuccessor(NumericStream, 8, 2)
    else if kind == BOOL then TypeSuccessor(NumericStream, 1, 2)
    else TypeSuccessor(NumericStream, 4, 2)
  }

  lemma SuccessorAtLeaf(kind: Kind)
    requires kind != MESSAGE
    ensures FieldSuccessor(kind) == LeafSuccessor(kind)
  {
  }

  datatype Leaf = Leaf(path: seq<U32>, kind: Kind)

  function LeafCluster(hash: U32, leaf: Leaf): Cluster {
    Cluster(TagOfPath(hash, leaf.path), LeafSuccessor(leaf.kind))
  }

  /** No type has two fields of one number. */
  ghost predicate NumbersDistinct(schema: Schema) {
    forall t :: t in schema ==> DistinctNumbers(schema[t])
  }

  ghost predicate DistinctNumbers(desc: Descriptor) {
    forall i, j :: 0 <= i < j < |desc| ==> desc[i].number != desc[j].number
  }

  /** A list of clusters, and the leaves that they are for. */
  ghost predicate ForLeaves(clusters: seq<Cluster>, hash: U32, leaves: seq<Leaf>) {
    |clusters| == |leaves| && forall i :: 0 <= i < |leaves| ==> clusters[i] == LeafCluster(hash, leaves[i])
  }

  ghost predicate AllLeaves(schema: Schema, desc: Descriptor, leaves: seq<Leaf>) {
    forall path, kind :: Leaf(path, kind) in leaves <==> LeafAt(schema, desc, path, kind)
  }

  ghost predicate Different(leaves: seq<Leaf>) {
    forall i, j :: 0 <= i < j < |leaves| ==> leaves[i] != leaves[j]
  }

  function Under(number: U32, leaves: seq<Leaf>): seq<Leaf> {
    seq(|leaves|, i requires 0 <= i < |leaves| => Leaf([number] + leaves[i].path, leaves[i].kind))
  }

  lemma UnderLeaves(schema: Schema, field: FieldDescriptor, hash: U32, clusters: seq<Cluster>, leaves: seq<Leaf>)
    requires field.kind == MESSAGE && AllLeaves(schema, Fields(schema, field.messageType), leaves)
    requires ForLeaves(clusters, ExtendPathHash(hash, field.number), leaves)
    ensures ForLeaves(clusters, hash, Under(field.number, leaves)) && AllLeaves(schema, [field], Under(field.number, leaves))
    ensures Different(leaves) ==> Different(Under(field.number, leaves))
  {
    hide ExtendPathHash, TagOfPath, LeafSuccessor, LeafAt, Different;
    var n, under := field.number, Under(field.number, leaves);
    UnderDifferent(n, leaves);
    forall i | 0 <= i < |leaves| ensures clusters[i] == LeafCluster(hash, under[i]) {
      assert leaves[i] in leaves && LeafAt(schema, Fields(schema, field.messageType), leaves[i].path, leaves[i].kind);
      LeafHasPath(schema, Fields(schema, field.messageType), leaves[i].path, leaves[i].kind);
      TagIsCutHash(hash, n, leaves[i].path);
    }
    forall path, kind ensures Leaf(path, kind) in under <==> LeafAt(schema, [field], path, kind) {
      UnderLeaf(schema, field, leaves, path, kind);
    }
  }

  lemma LeafHasPath(schema: Schema, desc: Descriptor, path: seq<U32>, kind: Kind)
    ensures LeafAt(schema, desc, path, kind) ==> path != []
  {
  }

  lemma UnderLeaf(schema: Schema, field: FieldDescriptor, leaves: seq<Leaf>, path: seq<U32>, kind: Kind)
    requires field.kind == MESSAGE && AllLeaves(schema, Fields(schema, field.messageType), leaves)
    ensures Leaf(path, kind) in Under(field.number, leaves) <==> LeafAt(schema, [field], path, kind)
  {
    var under := Under(field.number, leaves);
    LeafOfField(schema, field, path, kind);
    if Leaf(path, kind) in under {
      var i :| 0 <= i < |under| && under[i] == Leaf(path, kind);
      assert path[1..] == leaves[i].path && leaves[i] in leaves && leaves[i] == Leaf(path[1..], kind);
    }
    if LeafBehindIt(schema, field, path, kind) {
      assert Leaf(path[1..], kind) in leaves;
      var i :| 0 <= i < |leaves| && leaves[i] == Leaf(path[1..], kind);
      assert under[i] == Leaf(path, kind) by {
        assert path == [field.number] + path[1..];
      }
    }
  }

  lemma UnderDifferent(number: U32, leaves: seq<Leaf>)
    ensures Different(leaves) ==> Different(Under(number, leaves))
  {
    var under := Under(number, leaves);
    if Different(leaves) {
      forall i, j | 0 <= i < j < |under| ensures under[i] != under[j] {
        assert under[i].path[1..] == leaves[i].path && under[j].path[1..] == leaves[j].path;
      }
    }
  }

  ghost predicate LeafBehindIt(schema: Schema, field: FieldDescriptor, path: seq<U32>, kind: Kind) {
    path != [] && LeafBehind(schema, field, path, kind)
  }

  lemma LeafOfField(schema: Schema, field: FieldDescriptor, path: seq<U32>, kind: Kind)
    ensures LeafAt(schema, [field], path, kind) <==> LeafBehindIt(schema, field, path, kind)
  {
    hide LeafBehind;
    assert [field][0] == field;
  }

  lemma OneLeaf(schema: Schema, field: FieldDescriptor, hash: U32)
    requires field.kind != MESSAGE
    ensures var leaves := [Leaf([field.number], field.kind)];
            && ForLeaves([Cluster(FieldTag(hash, field.number), FieldSuccessor(field.kind))], hash, leaves)
            && AllLeaves(schema, [field], leaves)
  {
    TagIsCutHash(hash, field.number, []);
    SuccessorAtLeaf(field.kind);
    hide ExtendPathHash, FieldTag, TagOfPath, FieldSuccessor, LeafSuccessor;
    forall path, kind ensures Leaf(path, kind) in [Leaf([field.number], field.kind)] <==> LeafAt(schema, [field], path, kind) {
      LeafOfField(schema, field, path, kind);
      assert |path| == 1 ==> path == [path[0]];
    }
  }

  lemma JoinLeaves(schema: Schema, fields: Descriptor, hash: U32, first: seq<Cluster>, a: seq<Leaf>, rest: seq<Cluster>, b: seq<Leaf>)
    requires fields != []
    requires ForLeaves(first, hash, a) && AllLeaves(schema, [fields[0]], a)
    requires ForLeaves(rest, hash, b) && AllLeaves(schema, fields[1..], b)
    ensures ForLeaves(first + rest, hash, a + b) && AllLeaves(schema, fields, a + b)
    ensures DistinctNumbers(fields) && Different(a) && Different(b) ==> Different(a + b)
  {
    hide LeafCluster, LeafAt, Different;
    forall path, kind ensures Leaf(path, kind) in a + b <==> LeafAt(schema, fields, path, kind) {
      LeafFirst(schema, fields, path, kind);
    }
    JoinDifferent(schema, fields, a, b);
  }

  lemma JoinDifferent(schema: Schema, fields: Descriptor, a: seq<Leaf>, b: seq<Leaf>)
    requires fields != [] && AllLeaves(schema, [fields[0]], a) && AllLeaves(schema, fields[1..], b)
    ensures DistinctNumbers(fields) && Different(a) && Different(b) ==> Different(a + b)
  {
    hide LeafAt;
    if DistinctNumbers(fields) && Different(a) && Different(b) {
      forall x, y | x in a && y in b ensures x != y {
        assert x == Leaf(x.path, x.kind) && y == Leaf(y.path, y.kind);
        LeafStartsWithField(schema, fields, x, y);
      }
    }
  }

  lemma LeafStartsWithField(schema: Schema, fields: Descriptor, x: Leaf, y: Leaf)
    requires fields != [] && DistinctNumbers(fields)
    requires LeafAt(schema, [fields[0]], x.path, x.kind) && LeafAt(schema, fields[1..], y.path, y.kind)
    ensures x != y
  {
    var j :| 0 <= j < |fields[1..]| && LeafBehind(schema, fields[1..][j], y.path, y.kind);
    assert fields[1..][j] == fields[j + 1];
  }

  lemma LeafFirst(schema: Schema, fields: Descriptor, path: seq<U32>, kind: Kind)
    requires fields != []
    ensures LeafAt(schema, fields, path, kind) <==>
              LeafAt(schema, [fields[0]], path, kind) || LeafAt(schema, fields[1..], path, kind)
  {
    hide LeafBehind;
    assert [fields[0]][0] == fields[0];
    assert forall i :: 1 <= i < |fields| ==> fields[i] == fields[1..][i - 1];
  }

  /** The leaves that the clusters of some fields are for, in their order. */
  lemma {:induction false} LeavesOf(schema: Schema, rank: map<string, nat>, fields: Descriptor, r: nat, hash: U32)
    returns (leaves: seq<Leaf>)
    requires NonRecursive(schema, rank) && Below(fields, rank, r)
    ensures ForLeaves(ClustersOf(schema, rank, fields, r, hash), hash, leaves) && AllLeaves(schema, fields, leaves)
    ensures NumbersDistinct(schema) && DistinctNumbers(fields) ==> Different(leaves)
    decreases r, |fields|
  {
    hide ExtendPathHash, FieldTag, TagOfPath, FieldSuccessor, LeafSuccessor, ForLeaves, AllLeaves, Different, LeafAt;
    leaves := [];
    if fields == [] {
      NoLeaves(schema, hash);
    } else {
      assert Below(fields[1..], rank, r) && Below([fields[0]], rank, r);
      var first := LeavesOfField(schema, rank, fields[0], r, hash);
      var rest := LeavesOf(schema, rank, fields[1..], r, hash);
      JoinLeaves(schema, fields, hash, FieldClusters(schema, rank, fields[0], r, hash), first,
                 ClustersOf(schema, rank, fields[1..], r, hash), rest);
      leaves := first + rest;
    }
  }

  lemma NoLeaves(schema: Schema, hash: U32)
    ensures ForLeaves([], hash, []) && AllLeaves(schema, [], []) && Different([])
  {
  }

  lemma {:induction false} LeavesOfField(schema: Schema, rank: map<string, nat>, field: FieldDescriptor, r: nat, hash: U32)
    returns (leaves: seq<Leaf>)
    requires NonRecursive(schema, rank) && Below([field], rank, r)
    ensures ForLeaves(FieldClusters(schema, rank, field, r, hash), hash, leaves) && AllLeaves(schema, [field], leaves)
    ensures NumbersDistinct(schema) ==> Different(leaves)
    decreases r, 0
  {
    hide ExtendPathHash, FieldTag, TagOfPath, FieldSuccessor, LeafSuccessor, ForLeaves, AllLeaves, LeafAt;
    assert [field][0] == field;
    if field.kind == MESSAGE {
      var nested := field.messageType;
      var below := LeavesOf(schema, rank, Fields(schema, nested), rank[nested], ExtendPathHash(hash, field.number));
      assert FieldClusters(schema, rank, field, r, hash)
          == ClustersOf(schema, rank, Fields(schema, nested), rank[nested], ExtendPathHash(hash, field.number));
      UnderLeaves(schema, field, hash, FieldClusters(schema, rank, field, r, hash), below);
      leaves := Under(field.number, below);
    } else {
      OneLeaf(schema, field, hash);
      leaves := [Leaf([field.number], field.kind)];
    }
  }

  ghost predicate AtSomeLeaf(schema: Schema, typeName: string, c: Cluster) {
    exists path, kind :: LeafAt(schema, Fields(schema, typeName), path, kind)
                         && c == Cluster(TagOfPath(2166136261, path), LeafSuccessor(kind))
  }

  /** Main result: a type registers one cluster for each of its leaves, and no
      other, under the tag of its path and with what its kind calls for. */
  lemma ClustersExactly(schema: Schema, rank: map<string, nat>, typeName: string) returns (leaves: seq<Leaf>)
    requires NonRecursive(schema, rank) && typeName in rank
    ensures ForLeaves(Clusters(schema, rank, typeName, ROOT_PATH_HASH), 2166136261, leaves)
    ensures AllLeaves(schema, Fields(schema, typeName), leaves)
    ensures NumbersDistinct(schema) ==> Different(leaves)
  {
    hide ForLeaves, AllLeaves, ClustersOf;
    assert NumbersDistinct(schema) ==> DistinctNumbers(Fields(schema, typeName));
    leaves := LeavesOf(schema, rank, Fields(schema, typeName), rank[typeName], ROOT_PATH_HASH);
  }

  lemma ClusterIffLeaf(schema: Schema, rank: map<string, nat>, typeName: string, c: Cluster)
    requires NonRecursive(schema, rank) && typeName in rank
    ensures c in Clusters(schema, rank, typeName, ROOT_PATH_HASH) <==> AtSomeLeaf(schema, typeName, c)
  {
    hide TagOfPath, LeafSuccessor, LeafAt, Clusters;
    var leaves := ClustersExactly(schema, rank, typeName);
    var clusters := Clusters(schema, rank, typeName, ROOT_PATH_HASH);
    if c in clusters {
      var i :| 0 <= i < |clusters| && clusters[i] == c;
      assert leaves[i] in leaves && Leaf(leaves[i].path, leaves[i].kind) == leaves[i];
    }
    if AtSomeLeaf(schema, typeName, c) {
      var path, kind :| LeafAt(schema, Fields(schema, typeName), path, kind) && c == Cluster(TagOfPath(2166136261, path), LeafSuccessor(kind));
      assert Leaf(path, kind) in leaves;
      var i :| 0 <= i < |leaves| && leaves[i] == Leaf(path, kind);
      assert clusters[i] == c;
    }
  }
}
