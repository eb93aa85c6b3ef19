/** The structured path from end to end: a message is shredded, its sample
    printed, parsed and built into inputs, the outputs assembled into a frame
    and the frame read. */
module Pipeline {

  import opened Results
  import opened LittleEndian
  import opened PathHash
  import opened Schemas
  import opened Messages
  import opened StructuredReader
  import opened StructuredWriter
  import opened SampleFormat
  import opened FrameAssembly
  import opened UntaggedFrames
  import opened StructuredDecoder
  import opened ReaderProperties
  import opened SchemaPaths

  // ----- what the encoder writes -----

  ghost predicate ProperCell(c: Cell) {
    c.kind != MESSAGE && ValidValue(c.kind, c.value) && 1 <= c.tag < TAG_LIMIT
  }

  /** Words that fit 32 bits and cells with tags and values in range. */
  ghost predicate Proper(e: Encoded) {
    && Fit(e.types, 4) && Fit(e.ids, 4) && Fit(e.lens, 4)
    && forall i :: 0 <= i < |e.cells| ==> ProperCell(e.cells[i])
  }

  lemma ProperJoin(a: Encoded, b: Encoded)
    requires Proper(a) && Proper(b)
    ensures Proper(Join(a, b))
  {
    hide ProperCell, Pow256;
  }

  lemma ProperCount(n: nat)
    requires n < U32_LIMIT
    ensures Proper(Count(n))
  {
    Pow256Widths();
  }

  lemma ProperValue(tag: int, kind: Kind, v: Value)
    requires ValidValue(kind, v) && 1 <= tag < TAG_LIMIT
    ensures Proper(ShredValue(tag, kind, v))
  {
    Pow256Widths();
  }

  lemma {:induction false} ProperValues(tag: int, kind: Kind, vs: seq<Value>)
    requires forall v :: v in vs ==> ValidValue(kind, v)
    requires 1 <= tag < TAG_LIMIT
    ensures Proper(ShredValues(tag, kind, vs))
  {
    hide ValidValue, ShredValue, Proper;
    if vs == [] {
      ProperNothing();
    } else {
      ProperValue(tag, kind, vs[0]);
      ProperValues(tag, kind, vs[1..]);
      ProperJoin(ShredValue(tag, kind, vs[0]), ShredValues(tag, kind, vs[1..]));
    }
  }

  lemma ProperNothing()
    ensures Proper(Encoded([], [], [], []))
  {
  }

  lemma ProperHeader(kind: Kind, number: U32)
    ensures Proper(Encoded([kind], [number], [], [])) && Proper(STOP_MARK)
  {
    Pow256Widths();
  }

  lemma {:induction false} ProperEntries(schema: Schema, typeName: string, pathHash: U32, es: seq<Entry>)
    requires EntriesConform(schema, typeName, es)
    ensures Proper(ShredEntries(schema, typeName, pathHash, es))
    decreases es, 0
  {
    hide Proper, Join, Payload, PayloadConforms;
    if es == [] {
      ProperHeader(INT32, 0);
    } else {
      var e := es[0];
      var field := FindFieldByNumber(Fields(schema, typeName), e.number).value;
      ProperPayload(schema, field, pathHash, e);
      ProperHeader(field.kind, e.number);
      ProperJoin(Encoded([field.kind], [e.number], [], []), Payload(schema, field, pathHash, e.value));
      ProperEntries(schema, typeName, pathHash, es[1..]);
      ProperJoin(ShredEntry(schema, typeName, pathHash, e), ShredEntries(schema, typeName, pathHash, es[1..]));
    }
  }

  lemma {:induction false} ProperPayload(schema: Schema, field: FieldDescriptor, pathHash: U32, e: Entry)
    requires PayloadConforms(schema, field, e.value)
    ensures Proper(Payload(schema, field, pathHash, e.value))
    decreases e, 0
  {
    hide Proper, Join, ShredEntries, EntriesConform, ExtendPathHash, Count;
    var tag, childHash := FieldTag(pathHash, field.number), ExtendPathHash(pathHash, field.number);
    hide FieldTag;
    match e.value
    case One(v) =>
      ProperValue(tag, field.kind, v);
    case Many(vs) =>
      ProperValues(tag, field.kind, vs);
      ProperCount(|vs|);
      ProperJoin(Count(|vs|), ShredValues(tag, field.kind, vs));
    case Sub(m) =>
      ProperEntries(schema, field.messageType, childHash, m.entries);
    case Subs(ms) =>
      ProperAll(schema, field.messageType, childHash, ms);
      ProperCount(|ms|);
      ProperJoin(Count(|ms|), ShredAll(schema, field.messageType, childHash, ms));
  }

  lemma {:induction false} ProperAll(schema: Schema, typeName: string, pathHash: U32, ms: seq<Message>)
    requires AllConform(schema, typeName, ms)
    ensures Proper(ShredAll(schema, typeName, pathHash, ms))
    decreases ms, 0
  {
    hide Proper, Join, ShredEntries, EntriesConform;
    if ms == [] {
      ProperNothing();
    } else {
      ProperEntries(schema, typeName, pathHash, ms[0].entries);
      ProperAll(schema, typeName, pathHash, ms[1..]);
      ProperJoin(Shred(schema, typeName, pathHash, ms[0]), ShredAll(schema, typeName, pathHash, ms[1..]));
    }
  }

  // ----- the sample of an encoding -----

  /** Kinds whose values go to streams of one type and width. */
  predicate SameStream(a: int, b: int) {
    (a == STRING) == (b == STRING) && Width(a) == Width(b)
  }

  /** Leaf paths that share a tag share a kind, as far as streams tell kinds apart. */
  ghost predicate KindsAgree(cells: seq<Cell>) {
    forall i, j :: 0 <= i < |cells| && 0 <= j < |cells| && cells[i].tag == cells[j].tag ==> SameStream(cells[i].kind, cells[j].kind)
  }

  /** A value in front of a column's values. */
  function PutInField(cell: Cell, f: SampleField): SampleField {
    match cell.value
    case Text(bytes) => f.(bytes := bytes + f.bytes, lengths := [|bytes|] + f.lengths)
    case Scalar(bits) =>
      if cell.kind in KINDS32 then f.(values32 := [bits] + f.values32)
      else if cell.kind in KINDS64 then f.(values64 := [bits] + f.values64)
      else f.(bytes := [bits % 256] + f.bytes)
  }

  function EmptyField(tag: int, kind: Kind): SampleField {
    SampleField(tag, kind, [], [], [], [])
  }

  function PutInFields(cell: Cell, fs: seq<SampleField>): seq<SampleField> {
    if fs == [] then [PutInField(cell, EmptyField(cell.tag, cell.kind))]
    else if fs[0].tag == cell.tag then [PutInField(cell, fs[0])] + fs[1..]
    else [fs[0]] + PutInFields(cell, fs[1..])
  }

  /** One field stream per tag that has cells. */
  function FieldsOf(cells: seq<Cell>): seq<SampleField> {
    if cells == [] then [] else PutInFields(cells[0], FieldsOf(cells[1..]))
  }

  function SampleOf(e: Encoded): Sample {
    Sample(e.ids, e.types, e.lens, FieldsOf(e.cells))
  }

  ghost predicate HasCell(cells: seq<Cell>, tag: int, kind: int) {
    exists j :: 0 <= j < |cells| && cells[j].tag == tag && cells[j].kind == kind
  }

  ghost predicate HasField(fs: seq<SampleField>, tag: int) {
    exists i :: 0 <= i < |fs| && fs[i].tag == tag
  }

  /** The column of a field is what the cells put into an empty one. */
  ghost predicate HoldsColumn(f: SampleField, cells: seq<Cell>) {
    && ValidField(f) && HasCell(cells, f.tag, f.kind)
    && FieldCursor(f) == PutCells(cells, f.tag, Cursor(f.kind == STRING, [], []))
  }

  /** The fields hold these cells: distinct tags, one field for each tag that
      has cells, and in each field the column of its tag. */
  ghost predicate Holds(fs: seq<SampleField>, cells: seq<Cell>) {
    && DistinctTags(fs)
    && (forall i :: 0 <= i < |fs| ==> HoldsColumn(fs[i], cells))
    && (forall j :: 0 <= j < |cells| ==> HasField(fs, cells[j].tag))
  }

  lemma PutInFieldPuts(cell: Cell, f: SampleField)
    requires ProperCell(cell) && ValidField(f) && SameStream(f.kind, cell.kind) && f.tag == cell.tag
    ensures var g := PutInField(cell, f);
            && ValidField(g) && g.tag == f.tag && g.kind == f.kind
            && FieldCursor(g) == PutCell(cell, FieldCursor(f))
  {
    Pow256Widths();
    hide Pow256;
    match cell.value
    case Text(bytes) =>
    case Scalar(bits) =>
      if cell.kind in KINDS32 {
        assert ([bits] + f.values32)[1..] == f.values32;
      } else if cell.kind in KINDS64 {
        assert ([bits] + f.values64)[1..] == f.values64;
      } else {
        assert ToLE(bits, 1) == [bits] by {
          assert ToLE(bits, 1) == [bits % 256] + ToLE(bits / 256, 0);
        }
      }
  }

  lemma EmptyFieldEmpty(tag: int, kind: Kind)
    requires 1 <= tag < TAG_LIMIT && kind != MESSAGE
    ensures ValidField(EmptyField(tag, kind))
    ensures FieldCursor(EmptyField(tag, kind)) == Cursor(kind == STRING, [], [])
  {
  }

  /** Where a tag is among fields, or nowhere. */
  function Position(tag: int, fs: seq<SampleField>): (i: nat)
    ensures i <= |fs|
    ensures i < |fs| ==> fs[i].tag == tag
    ensures forall j :: 0 <= j < i ==> fs[j].tag != tag
  {
    if fs == [] || fs[0].tag == tag then 0 else 1 + Position(tag, fs[1..])
  }

  lemma {:induction false} PutInFieldsAt(cell: Cell, fs: seq<SampleField>)
    ensures var i, gs := Position(cell.tag, fs), PutInFields(cell, fs);
            && |gs| == (if i < |fs| then |fs| else |fs| + 1)
            && (forall j :: 0 <= j < |fs| && j != i ==> gs[j] == fs[j])
            && gs[i] == PutInField(cell, if i < |fs| then fs[i] else EmptyField(cell.tag, cell.kind))
  {
    hide PutInField;
    if fs != [] && fs[0].tag != cell.tag {
      PutInFieldsAt(cell, fs[1..]);
      var gs := PutInFields(cell, fs[1..]);
      assert PutInFields(cell, fs) == [fs[0]] + gs;
      forall j | 0 <= j < |fs| && j != Position(cell.tag, fs) ensures PutInFields(cell, fs)[j] == fs[j] {
        if j > 0 {
          assert fs[j] == fs[1..][j - 1];
        }
      }
    }
  }

  lemma {:induction false} FieldsHoldCells(cells: seq<Cell>)
    requires KindsAgree(cells)
    requires forall i :: 0 <= i < |cells| ==> ProperCell(cells[i])
    ensures Holds(FieldsOf(cells), cells)
  {
    hide ProperCell, PutInFields, HoldsColumn, HasField;
    if cells != [] {
      KindsAgreeTail(cells);
      FieldsHoldCells(cells[1..]);
      hide Holds;
      assert cells == [cells[0]] + cells[1..];
      HoldsCons(cells[0], cells[1..], FieldsOf(cells[1..]));
    }
  }

  lemma KindsAgreeTail(cells: seq<Cell>)
    requires cells != [] && KindsAgree(cells)
    ensures KindsAgree(cells[1..])
  {
    forall i, j | 0 <= i < |cells[1..]| && 0 <= j < |cells[1..]| && cells[1..][i].tag == cells[1..][j].tag
      ensures SameStream(cells[1..][i].kind, cells[1..][j].kind)
    {
      assert cells[1..][i] == cells[i + 1] && cells[1..][j] == cells[j + 1];
    }
  }

  lemma HasCellBehind(cell: Cell, cells: seq<Cell>, tag: int, kind: int)
    ensures HasCell(cells, tag, kind) ==> HasCell([cell] + cells, tag, kind)
    ensures HasCell([cell] + cells, cell.tag, cell.kind)
  {
    var all := [cell] + cells;
    assert all[0] == cell;
    if HasCell(cells, tag, kind) {
      var j :| 0 <= j < |cells| && cells[j].tag == tag && cells[j].kind == kind;
      assert all[j + 1] == cells[j];
    }
  }

  /** The fields that do not receive the cell. */
  lemma HoldsOthers(cell: Cell, cells: seq<Cell>, f: SampleField)
    requires HoldsColumn(f, cells) && f.tag != cell.tag
    ensures HoldsColumn(f, [cell] + cells)
  {
    HasCellBehind(cell, cells, f.tag, f.kind);
    hide HasCell, FieldCursor;
    assert ([cell] + cells)[1..] == cells;
  }

  /** The field that receives the cell, when there was one. */
  lemma HoldsHit(cell: Cell, cells: seq<Cell>, f: SampleField)
    requires ProperCell(cell) && KindsAgree([cell] + cells) && HoldsColumn(f, cells) && f.tag == cell.tag
    ensures HoldsColumn(PutInField(cell, f), [cell] + cells) && PutInField(cell, f).tag == cell.tag
  {
    var all := [cell] + cells;
    assert all[1..] == cells && all[0] == cell;
    var j :| 0 <= j < |cells| && cells[j].tag == f.tag && cells[j].kind == f.kind;
    assert all[j + 1] == cells[j];
    PutInFieldPuts(cell, f);
    HasCellBehind(cell, cells, f.tag, f.kind);
    hide FieldCursor, PutInField, PutCell, HasCell, KindsAgree;
  }

  /** The field made for the cell. */
  lemma HoldsNew(cell: Cell, cells: seq<Cell>)
    requires ProperCell(cell)
    requires forall x :: x in cells ==> x.tag != cell.tag
    ensures var f := PutInField(cell, EmptyField(cell.tag, cell.kind));
            HoldsColumn(f, [cell] + cells) && f.tag == cell.tag
  {
    var all := [cell] + cells;
    assert all[1..] == cells && all[0] == cell;
    EmptyFieldEmpty(cell.tag, cell.kind);
    PutInFieldPuts(cell, EmptyField(cell.tag, cell.kind));
    PutOtherCells(cells, cell.tag, Cursor(cell.kind == STRING, [], []));
    HasCellBehind(cell, cells, cell.tag, cell.kind);
    hide FieldCursor, PutInField, PutCell, HasCell;
  }

  lemma HoldsCons(cell: Cell, cells: seq<Cell>, fs: seq<SampleField>)
    requires ProperCell(cell) && KindsAgree([cell] + cells) && Holds(fs, cells)
    ensures Holds(PutInFields(cell, fs), [cell] + cells)
  {
    hide PutInField, ProperCell, HoldsColumn, KindsAgree, HasField;
    var all, gs, p := [cell] + cells, PutInFields(cell, fs), Position(cell.tag, fs);
    PutInFieldsAt(cell, fs);
    if p < |fs| {
      HoldsHit(cell, cells, fs[p]);
    } else {
      forall x | x in cells ensures x.tag != cell.tag {
        var j :| 0 <= j < |cells| && cells[j] == x;
        assert HasField(fs, cells[j].tag);
        var i := FieldAt(fs, cells[j].tag);
      }
      HoldsNew(cell, cells);
    }
    forall i | 0 <= i < |gs|
      ensures HoldsColumn(gs[i], all) && gs[i].tag == if i == p then cell.tag else fs[i].tag
    {
      if i != p {
        HoldsOthers(cell, cells, fs[i]);
      }
    }
    forall j | 0 <= j < |all| ensures HasField(gs, all[j].tag) {
      if j == 0 {
        HasFieldAt(gs, p);
      } else {
        assert HasField(fs, cells[j - 1].tag);
        var i := FieldAt(fs, cells[j - 1].tag);
        HasFieldAt(gs, i);
      }
    }
  }

  lemma FieldAt(fs: seq<SampleField>, tag: int) returns (i: nat)
    requires HasField(fs, tag)
    ensures i < |fs| && fs[i].tag == tag
  {
    i :| 0 <= i < |fs| && fs[i].tag == tag;
  }

  lemma HasFieldAt(fs: seq<SampleField>, i: nat)
    requires i < |fs|
    ensures HasField(fs, fs[i].tag)
  {
  }

  // ----- agreement, decided from the schema -----

  ghost predicate CellsRegistered(cells: seq<Cell>, schema: Schema, rank: map<string, nat>, typeName: string, pathHash: U32)
    requires NonRecursive(schema, rank) && typeName in rank
  {
    forall i :: 0 <= i < |cells| ==> Registered(Use(cells[i].tag, cells[i].kind), schema, rank, typeName, pathHash)
  }

  lemma {:induction false} EntriesRegistered(schema: Schema, rank: map<string, nat>, typeName: string, pathHash: U32, es: seq<Entry>)
    requires NonRecursive(schema, rank) && typeName in rank && EntriesConform(schema, typeName, es)
    ensures CellsRegistered(ShredEntries(schema, typeName, pathHash, es).cells, schema, rank, typeName, pathHash)
    decreases es, 0
  {
    hide Registered, Payload, PayloadConforms;
    if es != [] {
      var field := FindFieldByNumber(Fields(schema, typeName), es[0].number).value;
      PayloadRegistered(schema, rank, typeName, field, pathHash, es[0]);
      EntriesRegistered(schema, rank, typeName, pathHash, es[1..]);
    }
  }

  lemma {:induction false} PayloadRegistered(schema: Schema, rank: map<string, nat>, typeName: string, field: FieldDescriptor,
                                             pathHash: U32, e: Entry)
    requires NonRecursive(schema, rank) && typeName in rank && PayloadConforms(schema, field, e.value)
    requires field in Fields(schema, typeName)
    ensures CellsRegistered(Payload(schema, field, pathHash, e.value).cells, schema, rank, typeName, pathHash)
    decreases e, 0
  {
    hide ExtendPathHash, FieldTag, FieldSuccessor, Clusters, ShredEntries, EntriesConform, ValidValue;
    var tag, childHash := FieldTag(pathHash, field.number), ExtendPathHash(pathHash, field.number);
    var cells := Payload(schema, field, pathHash, e.value).cells;
    if field.kind != MESSAGE {
      FieldRegisters(schema, rank, typeName, pathHash, field, Cluster(tag, FieldSuccessor(field.kind)));
      if e.value.Many? {
        ShredValuesCells(tag, field.kind, e.value.values);
      }
    } else {
      match e.value {
        case Sub(m) =>
          EntriesRegistered(schema, rank, field.messageType, childHash, m.entries);
          assert cells == Shred(schema, field.messageType, childHash, m).cells;
          assert cells == ShredEntries(schema, field.messageType, childHash, m.entries).cells;
        case Subs(ms) =>
          AllRegisteredCells(schema, rank, field.messageType, childHash, ms);
          assert cells == ShredAll(schema, field.messageType, childHash, ms).cells;
      }
      assert CellsRegistered(cells, schema, rank, field.messageType, childHash);
      forall i | 0 <= i < |cells| ensures Registered(Use(cells[i].tag, cells[i].kind), schema, rank, typeName, pathHash) {
        assert Registered(Use(cells[i].tag, cells[i].kind), schema, rank, field.messageType, childHash);
        FieldRegisters(schema, rank, typeName, pathHash, field, Cluster(cells[i].tag, FieldSuccessor(cells[i].kind)));
      }
    }
  }

  lemma {:induction false} AllRegisteredCells(schema: Schema, rank: map<string, nat>, typeName: string, pathHash: U32, ms: seq<Message>)
    requires NonRecursive(schema, rank) && typeName in rank && AllConform(schema, typeName, ms)
    ensures CellsRegistered(ShredAll(schema, typeName, pathHash, ms).cells, schema, rank, typeName, pathHash)
    decreases ms, 0
  {
    hide Registered, ShredEntries, EntriesConform;
    if ms != [] {
      EntriesRegistered(schema, rank, typeName, pathHash, ms[0].entries);
      AllRegisteredCells(schema, rank, typeName, pathHash, ms[1..]);
    }
  }

  /** The clustering of a type gives no tag two successors. */
  ghost predicate TagsUnambiguous(clusters: seq<Cluster>) {
    forall i, j :: 0 <= i < |clusters| && 0 <= j < |clusters| && clusters[i].tag == clusters[j].tag
      ==> clusters[i].successor == clusters[j].successor
  }

  /** If the schema's own clusters are unambiguous, every message of the type
      has columns on whose kinds its paths agree. */
  lemma UnambiguousSchemaAgrees(schema: Schema, rank: map<string, nat>, typeName: string, pathHash: U32, m: Message)
    requires NonRecursive(schema, rank) && typeName in rank && Conforms(schema, typeName, m)
    requires TagsUnambiguous(Clusters(schema, rank, typeName, pathHash))
    ensures KindsAgree(Shred(schema, typeName, pathHash, m).cells)
  {
    hide Clusters, ShredEntries, EntriesConform;
    var cells, clusters := Shred(schema, typeName, pathHash, m).cells, Clusters(schema, rank, typeName, pathHash);
    EntriesRegistered(schema, rank, typeName, pathHash, m.entries);
    forall i, j | 0 <= i < |cells| && 0 <= j < |cells| && cells[i].tag == cells[j].tag
      ensures SameStream(cells[i].kind, cells[j].kind)
    {
      assert Registered(Use(cells[i].tag, cells[i].kind), schema, rank, typeName, pathHash);
      assert Registered(Use(cells[j].tag, cells[j].kind), schema, rank, typeName, pathHash);
      var a :| 0 <= a < |clusters| && clusters[a] == Cluster(cells[i].tag, FieldSuccessor(cells[i].kind));
      var b :| 0 <= b < |clusters| && clusters[b] == Cluster(cells[j].tag, FieldSuccessor(cells[j].kind));
      assert clusters[a].successor == clusters[b].successor;
    }
  }

  // ----- every input has its cluster -----

  const CONTROL_SUCCESSOR: TypeSuccessor := TypeSuccessor(NumericStream, 4, NUMERIC_CODEC_IDX)

  ghost function CompressorClusters(schema: Schema, rank: map<string, nat>, typeName: string): seq<Cluster>
    requires NonRecursive(schema, rank) && typeName in rank
  {
    [Cluster(FIELD_ID_TAG, CONTROL_SUCCESSOR), Cluster(FIELD_TYPE_TAG, CONTROL_SUCCESSOR),
     Cluster(FIELD_LENGTH_TAG, CONTROL_SUCCESSOR)] + Clusters(schema, rank, typeName, ROOT_PATH_HASH)
  }

  /** The clusters of a type's compressor: the control streams, then the leaves. */
  method CreateStructuredClusters(schema: Schema, ghost rank: map<string, nat>, typeName: string)
    returns (taggedClusters: seq<Cluster>)
    requires NonRecursive(schema, rank) && typeName in rank
    ensures taggedClusters == CompressorClusters(schema, rank, typeName)
    ensures forall i :: 0 <= i < |taggedClusters| ==> (i < 3 <==> taggedClusters[i].tag < 1)
    ensures |taggedClusters| >= 3 && forall i :: 0 <= i < 3 ==>
              taggedClusters[i] == Cluster(-1 - i, TypeSuccessor(NumericStream, 4, 2))
  {
    hide Clusters, ClustersOf;
    taggedClusters := [Cluster(FIELD_ID_TAG, CONTROL_SUCCESSOR)];
    taggedClusters := taggedClusters + [Cluster(FIELD_TYPE_TAG, CONTROL_SUCCESSOR)];
    taggedClusters := taggedClusters + [Cluster(FIELD_LENGTH_TAG, CONTROL_SUCCESSOR)];
    taggedClusters := CollectStructuredFieldClusters(schema, rank, typeName, ROOT_PATH_HASH, taggedClusters);
    RootClustersPositive(schema, rank, typeName);
  }

  lemma RootClustersPositive(schema: Schema, rank: map<string, nat>, typeName: string)
    requires NonRecursive(schema, rank) && typeName in rank
    ensures PositiveTags(Clusters(schema, rank, typeName, ROOT_PATH_HASH))
  {
    ClustersPositive(schema, rank, Fields(schema, typeName), rank[typeName], ROOT_PATH_HASH);
  }

  /** Words of four bytes under the tag of a control stream. */
  ghost predicate ForControl(c: Cluster) {
    c.tag in {-1, -2, -3} && c.successor == TypeSuccessor(NumericStream, 4, 2)
  }

  /** Main result: the compressor of a type expects the control streams and the
      columns of the type's leaves, and nothing else; strings go to codec 3 and
      all other streams to codec 2. */
  lemma CompressorClustersExactly(schema: Schema, rank: map<string, nat>, typeName: string, c: Cluster)
    requires NonRecursive(schema, rank) && typeName in rank
    ensures c in CompressorClusters(schema, rank, typeName) <==> ForControl(c) || AtSomeLeaf(schema, typeName, c)
    ensures c in CompressorClusters(schema, rank, typeName) ==>
              c.successor.codecIdx == if c.successor.streamType == StringStream then 3 else 2
  {
    var leaves := Clusters(schema, rank, typeName, ROOT_PATH_HASH);
    ClusterIffLeaf(schema, rank, typeName, c);
    assert AtSomeLeaf(schema, typeName, c) ==> exists kind :: c.successor == LeafSuccessor(kind);
    hide AtSomeLeaf, Clusters;
    var control := [Cluster(FIELD_ID_TAG, CONTROL_SUCCESSOR), Cluster(FIELD_TYPE_TAG, CONTROL_SUCCESSOR),
                    Cluster(FIELD_LENGTH_TAG, CONTROL_SUCCESSOR)];
    assert c in control <==> ForControl(c) by {
      assert control[0] in control && control[1] in control && control[2] in control;
    }
  }

  /** The stream has the tag, the type and the element width of one of these
      clusters, whose codec is the one for strings exactly if it is a string stream. */
  ghost predicate HasCluster(o: Stream, clusters: seq<Cluster>) {
    exists i :: 0 <= i < |clusters| && o.tag == Some(clusters[i].tag)
                && clusters[i].successor.streamType == o.streamType && clusters[i].successor.eltWidth == o.eltWidth
                && clusters[i].successor.codecIdx == (if o.streamType == StringStream then 3 else 2)
  }

  lemma FieldStreamFits(f: SampleField)
    requires ValidField(f) && f.kind != MESSAGE
    ensures var o := FieldStream(f);
            o.Ok? && o.value.tag == Some(f.tag)
            && o.value.streamType == FieldSuccessor(f.kind).streamType && o.value.eltWidth == FieldSuccessor(f.kind).eltWidth
            && FieldSuccessor(f.kind).codecIdx == (if o.value.streamType == StringStream then 3 else 2)
  {
  }

  /** Main result. Each compressor input of each message of the type has a
      cluster under its tag, which expects streams of its type and width. */
  lemma InputsHaveClusters(schema: Schema, rank: map<string, nat>, typeName: string, m: Message)
    requires NonRecursive(schema, rank) && typeName in rank && Conforms(schema, typeName, m)
    requires KindsAgree(Shred(schema, typeName, ROOT_PATH_HASH, m).cells)
    ensures var inputs := Inputs(SampleOf(Shred(schema, typeName, ROOT_PATH_HASH, m)));
            inputs.Ok? && forall i :: 0 <= i < |inputs.value| ==>
              HasCluster(inputs.value[i], CompressorClusters(schema, rank, typeName))
  {
    hide ShredEntries, EntriesConform, FieldsOf, KindsAgree, Clusters, FieldStreams, FieldStream, FieldCursor, PutCells,
         Pack, FieldSuccessor, ValidField, DistinctTags, HasField, HoldsColumn, CellsRegistered;
    var e := Shred(schema, typeName, ROOT_PATH_HASH, m);
    var fs, clusters := FieldsOf(e.cells), CompressorClusters(schema, rank, typeName);
    ProperEntries(schema, typeName, ROOT_PATH_HASH, m.entries);
    FieldsHoldCells(e.cells);
    HeldTags(fs, e.cells);
    FieldStreamsEach(fs);
    EntriesRegistered(schema, rank, typeName, ROOT_PATH_HASH, m.entries);
    var inputs := Inputs(SampleOf(e)).value;
    assert HasCluster(inputs[0], clusters) by { assert clusters[0].tag == FIELD_ID_TAG; }
    assert HasCluster(inputs[1], clusters) by { assert clusters[1].tag == FIELD_TYPE_TAG; }
    assert HasCluster(inputs[2], clusters) by { assert clusters[2].tag == FIELD_LENGTH_TAG; }
    forall i | 3 <= i < |inputs| ensures HasCluster(inputs[i], clusters) {
      assert FieldStream(fs[i - 3]) == Ok(inputs[i]) && HoldsColumn(fs[i - 3], e.cells);
      FieldHasCluster(schema, rank, typeName, e.cells, fs[i - 3]);
    }
  }

  lemma FieldHasCluster(schema: Schema, rank: map<string, nat>, typeName: string, cells: seq<Cell>, f: SampleField)
    requires NonRecursive(schema, rank) && typeName in rank
    requires CellsRegistered(cells, schema, rank, typeName, ROOT_PATH_HASH) && HoldsColumn(f, cells)
    ensures FieldStream(f).Ok? && HasCluster(FieldStream(f).value, CompressorClusters(schema, rank, typeName))
  {
    hide Clusters, FieldCursor, PutCells, ValidField, FieldSuccessor, FieldStream;
    var clusters, leaves := CompressorClusters(schema, rank, typeName), Clusters(schema, rank, typeName, ROOT_PATH_HASH);
    var j :| 0 <= j < |cells| && cells[j].tag == f.tag && cells[j].kind == f.kind;
    assert Registered(Use(cells[j].tag, cells[j].kind), schema, rank, typeName, ROOT_PATH_HASH);
    FieldStreamFits(f);
    var k :| 0 <= k < |leaves| && leaves[k] == Cluster(f.tag, FieldSuccessor(f.kind));
    assert clusters[k + 3] == leaves[k];
  }

  // ----- the frame of the sample -----

  /** Every stream of the frame is read to its end. */
  ghost predicate Exhausted(f: Frame) {
    && f.types == [] && f.ids == [] && f.lens == [] && f.ordered == []
    && forall tag :: tag in f.values ==> f.values[tag].data == [] && f.values[tag].lengths == []
  }

  /** The frame that is left when exactly these columns have been read. */
  ghost function Drained(fs: seq<SampleField>): Frame {
    Frame([], [], [], map tag | tag in FieldColumns(map[], fs) :: Cursor(FieldColumns(map[], fs)[tag].text, [], []), [])
  }

  /** The column of a tag is what the cells put into an empty one. */
  lemma HeldColumn(cells: seq<Cell>, fs: seq<SampleField>, tag: int)
    requires Holds(fs, cells) && tag in FieldColumns(map[], fs)
    ensures var c := FieldColumns(map[], fs)[tag];
            PutCells(cells, tag, Cursor(c.text, [], [])) == c
  {
    hide FieldColumns, HasField, HasCell, FieldCursor;
    var j := SampleColumn(fs, tag);
    ColumnsOfFields(map[], fs);
    var i :| 0 <= i < |fs| && fs[i].tag == tag;
    assert HoldsColumn(fs[i], cells);
  }

  lemma HeldFrame(e: Encoded, fs: seq<SampleField>)
    requires Holds(fs, e.cells)
    ensures Prepend(e, Drained(fs)) == Frame(Pack(e.types, 4), Pack(e.ids, 4), Pack(e.lens, 4), FieldColumns(map[], fs), [])
  {
    hide Pack, FieldColumns, Holds, PutCells;
    var columns, g := FieldColumns(map[], fs), Drained(fs);
    forall tag | tag in columns ensures PutCells(e.cells, tag, g.values[tag]) == columns[tag] {
      HeldColumn(e.cells, fs, tag);
    }
    assert PutColumns(e.cells, g.values) == columns;
  }

  lemma HeldReady(e: Encoded, fs: seq<SampleField>)
    requires Holds(fs, e.cells) && KindsAgree(e.cells)
    ensures Ready(e.cells, Drained(fs))
  {
    hide FieldColumns, HasField, PutCells, ValidField;
    ColumnsOfFields(map[], fs);
    var g := Drained(fs);
    forall c | c in e.cells ensures c.tag in g.values && (c.kind == STRING ==> g.values[c.tag].text) {
      var j :| 0 <= j < |e.cells| && e.cells[j] == c;
      assert HasField(fs, e.cells[j].tag);
      var i := FieldAt(fs, c.tag);
      assert HoldsColumn(fs[i], e.cells);
      var k :| 0 <= k < |e.cells| && e.cells[k].tag == fs[i].tag && e.cells[k].kind == fs[i].kind;
    }
  }

  lemma HeldTags(fs: seq<SampleField>, cells: seq<Cell>)
    requires Holds(fs, cells)
    requires forall i :: 0 <= i < |cells| ==> ProperCell(cells[i])
    ensures ValidFields(fs) && NoControlTag(fs)
  {
    hide FieldCursor, PutCells, ValidField, DistinctTags, HasField;
    forall i | 0 <= i < |fs| ensures ValidField(fs[i]) && fs[i].tag !in {FIELD_ID_TAG, FIELD_TYPE_TAG, FIELD_LENGTH_TAG} {
      assert HoldsColumn(fs[i], cells);
      var j :| 0 <= j < |cells| && cells[j].tag == fs[i].tag && cells[j].kind == fs[i].kind;
      assert ProperCell(cells[j]);
    }
  }

  /** Main result. The sample of a conforming message, printed, parsed, built
      into inputs, assembled from those and read, gives the message back, and
      every stream has been read to its end. */
  lemma StructuredRoundTrip(schema: Schema, typeName: string, m: Message)
    requires Conforms(schema, typeName, m)
    requires KindsAgree(Shred(schema, typeName, ROOT_PATH_HASH, m).cells)
    ensures var s := SampleOf(Shred(schema, typeName, ROOT_PATH_HASH, m));
            && Valid(s)
            && (|Print(s)| < U32_LIMIT ==> Parse(Print(s)) == Ok(s))
            && Inputs(s).Ok? && Assemble(Inputs(s).value).Ok?
            && var r := ReadMessage(schema, typeName, ROOT_PATH_HASH, EMPTY, Assemble(Inputs(s).value).value);
            r.Ok? && r.value.message == m && Exhausted(r.value.frame)
  {
    hide ReadMessage, ShredEntries, EntriesConform, Inputs, Parse, Print, FieldsOf, Holds, KindsAgree, Ready;
    var e := Shred(schema, typeName, ROOT_PATH_HASH, m);
    var s := SampleOf(e);
    ProperEntries(schema, typeName, ROOT_PATH_HASH, m.entries);
    FieldsHoldCells(e.cells);
    HeldTags(s.fields, e.cells);
    if |Print(s)| < U32_LIMIT {
      ParseInvertsPrint(s, []);
    }
    FrameOfSample(s);
    HeldFrame(e, s.fields);
    HeldReady(e, s.fields);
    DecoderInvertsEncoder(schema, typeName, ROOT_PATH_HASH, m, Drained(s.fields));
  }

  /** Main result. A condition on the schema alone is enough: where clustering
      is unambiguous, every conforming message survives the whole path. */
  lemma UnambiguousSchemaRoundTrip(schema: Schema, rank: map<string, nat>, typeName: string, m: Message)
    requires NonRecursive(schema, rank) && typeName in rank && Conforms(schema, typeName, m)
    requires TagsUnambiguous(Clusters(schema, rank, typeName, ROOT_PATH_HASH))
    ensures var s := SampleOf(Shred(schema, typeName, ROOT_PATH_HASH, m));
            && Inputs(s).Ok? && Assemble(Inputs(s).value).Ok?
            && var r := ReadMessage(schema, typeName, ROOT_PATH_HASH, EMPTY, Assemble(Inputs(s).value).value);
            r.Ok? && r.value.message == m && Exhausted(r.value.frame)
  {
    UnambiguousSchemaAgrees(schema, rank, typeName, ROOT_PATH_HASH, m);
    hide *;
    StructuredRoundTrip(schema, typeName, m);
  }

  /** Decompression of a payload: assemble the frame and read the message. */
  method DecompressStructuredPayload(outputs: seq<Stream>, schema: Schema, typeName: string) returns (r: Result<Message>)
    ensures var f := Assemble(outputs);
            if f.Err? then r == Err(f.error)
            else
              var read := ReadMessage(schema, typeName, ROOT_PATH_HASH, EMPTY, f.value);
              r == if read.Err? then Err(read.error) else Ok(read.value.message)
  {
    hide ReadMessage, Assemble;
    var assembled :- DecodeStructuredFrame(outputs);
    var frame := new StructuredDecodedFrame(assembled);
    var read, _ :- frame.ReadStructuredMessage(schema, typeName, ROOT_PATH_HASH, EMPTY);
    r := Ok(read.0);
  }

  /** The frame assembled from the inputs of a sample. */
  ghost function TaggedFrame(s: Sample): (f: Frame)
    requires Valid(s) && NoControlTag(s.fields)
    ensures Inputs(s).Ok? && Assemble(Inputs(s).value) == Ok(f) && f.ordered == []
  {
    FrameOfSample(s);
    Assemble(Inputs(s).value).value
  }

  /** Main result. If the tagged outputs of a sample read as a message, so do
      outputs without any tag: the control streams with their headers, and the
      value columns in the order of their first use, before any others,
      provided no column starts like a control stream. */
  lemma UntaggedRoundTrip(schema: Schema, typeName: string, s: Sample, columns: seq<Stream>, rest: seq<Cursor>)
    requires Valid(s) && NoControlTag(s.fields)
    requires ReadMessage(schema, typeName, ROOT_PATH_HASH, EMPTY, TaggedFrame(s)).Ok?
    requires forall i :: 0 <= i < |columns| ==> columns[i].tag == None && !LooksLikeControl(columns[i].bytes)
    requires Cursors(columns) == WithoutTags(schema, typeName, ROOT_PATH_HASH, EMPTY, TaggedFrame(s), rest).ordered
    ensures var r := ReadMessage(schema, typeName, ROOT_PATH_HASH, EMPTY, TaggedFrame(s));
            var u := Assemble(Controls(s, false) + columns);
            && u.Ok?
            && var q := ReadMessage(schema, typeName, ROOT_PATH_HASH, EMPTY, u.value);
            q.Ok? && q.value.message == r.value.message && q.value.total == r.value.total && q.value.frame.ordered == rest
  {
    hide ReadMessage, Inputs, Pack, FieldColumns, Columns, FirstUses;
    FrameOfSample(s);
    UntaggedFrameReadsTheSame(schema, typeName, ROOT_PATH_HASH, EMPTY, TaggedFrame(s), rest);
    FrameWithoutTags(s, columns);
  }

  /** Columns as outputs without tags. */
  function StreamsOf(cs: seq<Cursor>): seq<Stream> {
    seq(|cs|, i requires 0 <= i < |cs| => Stream(if cs[i].text then StringStream else NumericStream, 1, cs[i].data, cs[i].lengths, None))
  }

  /** Numeric columns carry no lengths. */
  ghost predicate PlainColumns(cs: seq<Cursor>) {
    forall i :: 0 <= i < |cs| ==> cs[i].text || cs[i].lengths == []
  }

  lemma StreamsBack(cs: seq<Cursor>)
    requires PlainColumns(cs)
    ensures Cursors(StreamsOf(cs)) == cs
  {
  }

  lemma FieldPlain(f: SampleField)
    requires ValidField(f)
    ensures (FieldCursor(f).text || FieldCursor(f).lengths == []) && FieldCursor(f).data == Data(f)
  {
  }

  /** A column of a sample's frame is that of a field. */
  lemma SampleColumn(fs: seq<SampleField>, tag: int) returns (j: nat)
    requires DistinctTags(fs) && tag in FieldColumns(map[], fs)
    ensures j < |fs| && FieldColumns(map[], fs)[tag] == FieldCursor(fs[j])
  {
    hide FieldColumns, FieldCursor, DistinctTags;
    ColumnsOfFields(map[], fs);
    j :| 0 <= j < |fs| && fs[j].tag == tag;
  }

  lemma SampleColumns(fs: seq<SampleField>, tags: seq<int>)
    requires ValidFields(fs) && DistinctTags(fs)
    requires forall i :: 0 <= i < |fs| ==> !LooksLikeControl(Data(fs[i]))
    requires forall i :: 0 <= i < |tags| ==> tags[i] in FieldColumns(map[], fs)
    ensures PlainColumns(Columns(FieldColumns(map[], fs), tags))
    ensures NoneLooksLikeControl(Columns(FieldColumns(map[], fs), tags))
  {
    hide LooksLikeControl, FieldColumns, FieldCursor, ValidField, DistinctTags, Data;
    var columns := FieldColumns(map[], fs);
    forall i | 0 <= i < |tags|
      ensures (columns[tags[i]].text || columns[tags[i]].lengths == []) && !LooksLikeControl(columns[tags[i]].data)
    {
      var j := SampleColumn(fs, tags[i]);
      FieldPlain(fs[j]);
    }
  }

  /** The columns of a frame in the order in which reading it first uses them. */
  ghost function FirstUsed(f: Frame, uses: seq<Use>): seq<Cursor>
    requires Tags(uses) <= f.values.Keys
  {
    FirstUsesAreTags(uses, {});
    Columns(f.values, FirstUses(uses, {}))
  }

  /** Main result. A conforming message also survives without any tag: the
      control streams with their headers and the columns in the order of their
      first use decode to it, if no column starts like a control stream. */
  lemma UntaggedMessageRoundTrip(schema: Schema, typeName: string, m: Message)
    requires Conforms(schema, typeName, m)
    requires KindsAgree(Shred(schema, typeName, ROOT_PATH_HASH, m).cells)
    requires forall f :: f in SampleOf(Shred(schema, typeName, ROOT_PATH_HASH, m)).fields ==> !LooksLikeControl(Data(f))
    ensures var s := SampleOf(Shred(schema, typeName, ROOT_PATH_HASH, m));
            && Inputs(s).Ok? && Assemble(Inputs(s).value).Ok?
            && var f := Assemble(Inputs(s).value).value;
            var r := ReadMessage(schema, typeName, ROOT_PATH_HASH, EMPTY, f);
            && r.Ok? && Tags(r.value.uses) <= f.values.Keys
            && var u := Assemble(Controls(s, false) + StreamsOf(FirstUsed(f, r.value.uses)));
            && u.Ok?
            && var q := ReadMessage(schema, typeName, ROOT_PATH_HASH, EMPTY, u.value);
            q.Ok? && q.value.message == m && q.value.frame.ordered == []
  {
    hide ReadMessage, ShredEntries, EntriesConform, Inputs, Parse, Print, FieldsOf, Holds, KindsAgree, Pack, FieldColumns,
         Columns, FirstUses, LooksLikeControl, StreamsOf, Exhausted;
    StructuredRoundTrip(schema, typeName, m);
    var s := SampleOf(Shred(schema, typeName, ROOT_PATH_HASH, m));
    SampleFieldsDistinct(schema, typeName, m);
    FrameOfSample(s);
    var f := Assemble(Inputs(s).value).value;
    UntaggedFrameReadsTheSame(schema, typeName, ROOT_PATH_HASH, EMPTY, f, []);
    var uses := ReadMessage(schema, typeName, ROOT_PATH_HASH, EMPTY, f).value.uses;
    FirstUsesAreTags(uses, {});
    var columns := FirstUsed(f, uses);
    SampleColumns(s.fields, FirstUses(uses, {}));
    StreamsBack(columns);
    StreamsPlain(columns);
    assert columns + [] == columns;
    UntaggedRoundTrip(schema, typeName, s, StreamsOf(columns), []);
  }

  lemma StreamsPlain(cs: seq<Cursor>)
    requires NoneLooksLikeControl(cs)
    ensures forall i :: 0 <= i < |StreamsOf(cs)| ==> StreamsOf(cs)[i].tag == None && !LooksLikeControl(StreamsOf(cs)[i].bytes)
  {
  }

  lemma SampleFieldsDistinct(schema: Schema, typeName: string, m: Message)
    requires Conforms(schema, typeName, m)
    requires KindsAgree(Shred(schema, typeName, ROOT_PATH_HASH, m).cells)
    ensures var fs := SampleOf(Shred(schema, typeName, ROOT_PATH_HASH, m)).fields;
            DistinctTags(fs) && ValidFields(fs) && NoControlTag(fs)
  {
    hide ShredEntries, EntriesConform, FieldsOf, KindsAgree;
    var e := Shred(schema, typeName, ROOT_PATH_HASH, m);
    ProperEntries(schema, typeName, ROOT_PATH_HASH, m.entries);
    FieldsHoldCells(e.cells);
    HeldTags(FieldsOf(e.cells), e.cells);
  }
}
