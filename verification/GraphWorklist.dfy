/** The export of a compressor's graphs: a queue that grows while it is walked. */
module GraphWorklist {

  import opened Reachability

  datatype GraphID = GraphID(gid: nat)

  /** What the compressor tells about a graph. */
  datatype GraphInfo = GraphInfo(successors: seq<GraphID>, customGraphs: seq<GraphID>)

  type Compressor = map<GraphID, GraphInfo>

  function Successors(c: Compressor, gid: GraphID): seq<GraphID> {
    if gid in c then c[gid].successors else []
  }

  function CustomGraphs(c: Compressor, gid: GraphID): seq<GraphID> {
    if gid in c then c[gid].customGraphs else []
  }

  function Edges(c: Compressor): Graph<GraphID> {
    map gid | gid in c :: c[gid].successors + c[gid].customGraphs
  }

  lemma EdgesOut(c: Compressor, gid: GraphID)
    ensures forall m :: m in Out(Edges(c), gid) <==> m in Successors(c, gid) || m in CustomGraphs(c, gid)
    ensures Elements(Out(Edges(c), gid)) == Elements(Successors(c, gid)) + Elements(CustomGraphs(c, gid))
  {
  }

  /** Each graph but the first was found from one that stands before it. */
  ghost predicate FoundInOrder(g: Graph<GraphID>, queue: seq<GraphID>) {
    forall j :: 1 <= j < |queue| ==> FoundBefore(g, queue, j)
  }

  ghost predicate FoundBefore(g: Graph<GraphID>, queue: seq<GraphID>, j: nat)
    requires j < |queue|
  {
    exists i :: 0 <= i < j && queue[j] in Out(g, queue[i])
  }

  /** The list, and behind it those of the others that are new, once each. */
  function Once(queue: seq<GraphID>, ids: seq<GraphID>): seq<GraphID>
    decreases |ids|
  {
    if ids == [] then queue else Once(if ids[0] in queue then queue else queue + [ids[0]], ids[1..])
  }

  /** All successors and custom graphs of the graphs in the list, in order. */
  function OutOfAll(g: Graph<GraphID>, queue: seq<GraphID>): seq<GraphID> {
    if queue == [] then [] else Out(g, queue[0]) + OutOfAll(g, queue[1..])
  }

  lemma {:induction false} OnceConcat(queue: seq<GraphID>, a: seq<GraphID>, b: seq<GraphID>)
    ensures Once(queue, a + b) == Once(Once(queue, a), b)
    decreases |a|
  {
    if a == [] {
      assert a + b == b;
    } else {
      assert (a + b)[1..] == a[1..] + b;
      OnceConcat(if a[0] in queue then queue else queue + [a[0]], a[1..], b);
    }
  }

  lemma OnceSnoc(queue: seq<GraphID>, ids: seq<GraphID>, id: GraphID)
    ensures Once(queue, ids + [id]) == (if id in Once(queue, ids) then Once(queue, ids) else Once(queue, ids) + [id])
  {
    OnceConcat(queue, ids, [id]);
    assert [id][1..] == [];
  }

  lemma {:induction false} OutOfAllSnoc(g: Graph<GraphID>, queue: seq<GraphID>, id: GraphID)
    ensures OutOfAll(g, queue + [id]) == OutOfAll(g, queue) + Out(g, id)
  {
    hide Out;
    if queue == [] {
      assert [id][1..] == [] && queue + [id] == [id];
      assert OutOfAll(g, [id]) == Out(g, id) + OutOfAll(g, []);
    } else {
      assert (queue + [id])[1..] == queue[1..] + [id];
      OutOfAllSnoc(g, queue[1..], id);
    }
  }

  /** The queue after the graphs before the index have been walked. */
  ghost predicate InOrder(g: Graph<GraphID>, start: GraphID, queue: seq<GraphID>, idx: nat) {
    idx <= |queue| && queue == Once([start], OutOfAll(g, queue[..idx]))
  }

  lemma OutOfEdges(c: Compressor, gid: GraphID)
    ensures Out(Edges(c), gid) == Successors(c, gid) + CustomGraphs(c, gid)
  {
  }

  lemma OrderGoesOn(c: Compressor, start: GraphID, queue: seq<GraphID>, idx: nat, middle: seq<GraphID>, longer: seq<GraphID>)
    requires InOrder(Edges(c), start, queue, idx) && idx < |queue| && queue <= longer
    requires middle == Once(queue, Successors(c, queue[idx])) && longer == Once(middle, CustomGraphs(c, queue[idx]))
    ensures InOrder(Edges(c), start, longer, idx + 1)
  {
    hide Out, Edges, Successors, CustomGraphs, Once, OutOfAll;
    var g, gid := Edges(c), queue[idx];
    OutOfEdges(c, gid);
    assert longer[..idx + 1] == queue[..idx] + [gid];
    OutOfAllSnoc(g, queue[..idx], gid);
    OnceConcat([start], OutOfAll(g, queue[..idx]), Out(g, gid));
    OnceConcat(queue, Successors(c, gid), CustomGraphs(c, gid));
  }

  ghost predicate Walk(g: Graph<GraphID>, start: GraphID, visited: set<GraphID>, queue: seq<GraphID>) {
    && queue != [] && queue[0] == start
    && Distinct(queue) && visited == Elements(queue) && FoundInOrder(g, queue)
    && forall n :: n in visited ==> Reachable(g, start, n)
  }

  lemma DistinctAppends(queue: seq<GraphID>, id: GraphID)
    requires Distinct(queue) && id !in queue
    ensures Distinct(queue + [id]) && Elements(queue + [id]) == Elements(queue) + {id}
  {
  }

  lemma FoundAppends(g: Graph<GraphID>, queue: seq<GraphID>, idx: nat, id: GraphID)
    requires FoundInOrder(g, queue) && idx < |queue| && id in Out(g, queue[idx])
    ensures FoundInOrder(g, queue + [id])
  {
    hide Out;
    var longer := queue + [id];
    forall j | 1 <= j < |longer| ensures FoundBefore(g, longer, j) {
      if j < |queue| {
        assert FoundBefore(g, queue, j);
        var i :| 0 <= i < j && queue[j] in Out(g, queue[i]);
        assert longer[i] == queue[i];
      } else {
        assert longer[idx] == queue[idx];
      }
    }
  }

  lemma WalkAppends(g: Graph<GraphID>, start: GraphID, visited: set<GraphID>, queue: seq<GraphID>, idx: nat, id: GraphID)
    requires Walk(g, start, visited, queue) && idx < |queue| && id in Out(g, queue[idx]) && id !in visited
    ensures Walk(g, start, visited + {id}, queue + [id])
  {
    hide Reachable, FoundInOrder, Distinct;
    assert queue[idx] in visited && id !in queue;
    ReachableStep(g, start, queue[idx], id);
    DistinctAppends(queue, id);
    FoundAppends(g, queue, idx, id);
  }

  lemma NoneMore(queue: seq<GraphID>, ids: seq<GraphID>)
    ensures Elements(ids[..0]) == {} && Once(queue, ids[..0]) == queue
  {
  }

  lemma OneMore(queue: seq<GraphID>, ids: seq<GraphID>, s: nat)
    requires s < |ids|
    ensures Elements(ids[..s + 1]) == Elements(ids[..s]) + {ids[s]}
    ensures var q := Once(queue, ids[..s]);
            Once(queue, ids[..s + 1]) == if ids[s] in q then q else q + [ids[s]]
  {
    hide Once;
    assert ids[..s + 1] == ids[..s] + [ids[s]];
    OnceSnoc(queue, ids[..s], ids[s]);
  }

  lemma WalkVisits(g: Graph<GraphID>, start: GraphID, visited: set<GraphID>, queue: seq<GraphID>, id: GraphID)
    requires Walk(g, start, visited, queue)
    ensures id in visited <==> id in queue
  {
    hide Reachable, Distinct, FoundInOrder;
  }

  /** Queue the graphs of a list that have not been met. */
  method Enqueue(ghost g: Graph<GraphID>, ghost start: GraphID, ghost idx: nat, ids: seq<GraphID>,
                 visited: set<GraphID>, queue: seq<GraphID>)
    returns (newVisited: set<GraphID>, newQueue: seq<GraphID>)
    requires Walk(g, start, visited, queue) && idx < |queue|
    requires forall id :: id in ids ==> id in Out(g, queue[idx])
    ensures Walk(g, start, newVisited, newQueue) && queue <= newQueue
    ensures newVisited == visited + Elements(ids) && newQueue == Once(queue, ids)
  {
    hide Out, Once, Walk, Elements;
    newVisited, newQueue := visited, queue;
    NoneMore(queue, ids);
    for s := 0 to |ids|
      invariant Walk(g, start, newVisited, newQueue) && queue <= newQueue
      invariant newVisited == visited + Elements(ids[..s]) && newQueue == Once(queue, ids[..s])
    {
      OneMore(queue, ids, s);
      WalkVisits(g, start, newVisited, newQueue, ids[s]);
      if ids[s] !in newVisited {
        WalkAppends(g, start, newVisited, newQueue, idx, ids[s]);
        newVisited := newVisited + {ids[s]};
        newQueue := newQueue + [ids[s]];
      }
    }
    assert ids[..|ids|] == ids;
  }

  /** The graphs before the index have all their edges in the visited set. */
  ghost predicate Expanded(g: Graph<GraphID>, visited: set<GraphID>, queue: seq<GraphID>, idx: nat) {
    idx <= |queue| && forall k, m :: 0 <= k < idx && m in Out(g, queue[k]) ==> m in visited
  }

  lemma ExpandsOne(g: Graph<GraphID>, visited: set<GraphID>, queue: seq<GraphID>, idx: nat,
                   newVisited: set<GraphID>, newQueue: seq<GraphID>)
    requires Expanded(g, visited, queue, idx) && idx < |queue| && queue <= newQueue
    requires newVisited == visited + Elements(Out(g, queue[idx]))
    ensures Expanded(g, newVisited, newQueue, idx + 1)
  {
    hide Out;
    forall k, m | 0 <= k < idx + 1 && m in Out(g, newQueue[k]) ensures m in newVisited {
      assert newQueue[k] == queue[k];
    }
  }

  lemma WalkFits(g: Graph<GraphID>, start: GraphID, visited: set<GraphID>, queue: seq<GraphID>)
    requires Walk(g, start, visited, queue) && visited <= Universe(g, start)
    ensures |queue| <= |Universe(g, start)|
  {
    hide Universe;
    DistinctSize(queue, Universe(g, start));
  }

  lemma WalkComplete(g: Graph<GraphID>, start: GraphID, visited: set<GraphID>, queue: seq<GraphID>)
    requires Walk(g, start, visited, queue) && Expanded(g, visited, queue, |queue|)
    ensures forall gid :: gid in queue <==> Reachable(g, start, gid)
    ensures Distinct(queue) && queue[0] == start && FoundInOrder(g, queue)
  {
    hide Out, Reachable, FoundInOrder, Distinct;
    assert start in visited by {
      assert queue[0] in queue;
    }
    forall n, m | n in visited && m in Out(g, n) ensures m in visited {
      var k :| 0 <= k < |queue| && queue[k] == n;
    }
    ClosedIsReachable(g, start, visited);
  }

  lemma WalkStarts(g: Graph<GraphID>, start: GraphID)
    ensures Walk(g, start, {start}, [start]) && Expanded(g, {start}, [start], 0) && {start} <= Universe(g, start)
  {
    ReachableSelf(g, start);
  }

  /** Main result: the walk ends, with exactly the graphs reachable from the
      start through successors and custom graphs, each once. */
  method ReachableGraphs(c: Compressor, start: GraphID) returns (queue: seq<GraphID>)
    ensures forall gid :: gid in queue <==> Reachable(Edges(c), start, gid)
    ensures Distinct(queue) && queue != [] && queue[0] == start && FoundInOrder(Edges(c), queue)
    ensures queue == Once([start], OutOfAll(Edges(c), queue))
  {
    hide InOrder, Once, OutOfAll;
    hide Walk, Out, Universe, Edges, Expanded, Reachable, Distinct, FoundInOrder;
    ghost var g := Edges(c);
    WalkStarts(g, start);
    OrderStarts(g, start);
    queue := [start];
    var visited := {start};
    var idx := 0;
    while idx < |queue|
      invariant Walk(g, start, visited, queue) && Expanded(g, visited, queue, idx) && InOrder(g, start, queue, idx)
      invariant visited <= Universe(g, start) && idx <= |queue| && queue != [] && queue[0] == start
      decreases |Universe(g, start)| - idx
    {
      var gid := queue[idx];
      ghost var seen, before := visited, queue;
      EdgesOut(c, gid);
      OutInUniverse(g, start, gid);
      WalkFits(g, start, visited, queue);
      visited, queue := Enqueue(g, start, idx, Successors(c, gid), visited, queue);
      ghost var middle := queue;
      visited, queue := Enqueue(g, start, idx, CustomGraphs(c, gid), visited, queue);
      ExpandsOne(g, seen, before, idx, visited, queue);
      OrderGoesOn(c, start, before, idx, middle, queue);
      idx := idx + 1;
    }
    WalkComplete(g, start, visited, queue);
    OrderEnds(g, start, queue);
  }

  lemma OrderEnds(g: Graph<GraphID>, start: GraphID, queue: seq<GraphID>)
    requires InOrder(g, start, queue, |queue|)
    ensures queue == Once([start], OutOfAll(g, queue))
  {
    assert queue[..|queue|] == queue;
  }

  lemma OrderStarts(g: Graph<GraphID>, start: GraphID)
    ensures InOrder(g, start, [start], 0)
  {
  }

  lemma OutInUniverse(g: Graph<GraphID>, start: GraphID, n: GraphID)
    ensures Elements(Out(g, n)) <= Universe(g, start)
  {
  }
}
