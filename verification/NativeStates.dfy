/** The native compression state, and the cache that recycles states: one slot
    for each thread and a global stack of eight. Calls into the compression
    library succeed. */
module NativeStates {

  import opened Results

  type Graph = nat
  type Thread = nat

  const MAX_GLOBAL_CACHE: nat := 8

  // ----- the cache as a value -----

  datatype Cache<S> = Cache(slots: map<Thread, S>, stack: seq<S>)

  /** The state a thread gets from the cache: its own slot first, then the top
      of the stack. */
  function Taken<S>(c: Cache<S>, t: Thread): Option<S> {
    if t in c.slots then Some(c.slots[t])
    else if c.stack != [] then Some(c.stack[|c.stack| - 1])
    else None
  }

  function AfterTake<S>(c: Cache<S>, t: Thread): Cache<S> {
    if t in c.slots then c.(slots := c.slots - {t})
    else if c.stack != [] then c.(stack := c.stack[..|c.stack| - 1])
    else c
  }

  /** Whether a state that the thread gives back is kept. */
  predicate Room<S>(c: Cache<S>, t: Thread) {
    t !in c.slots || |c.stack| < MAX_GLOBAL_CACHE
  }

  function AfterPut<S>(c: Cache<S>, t: Thread, state: S): Cache<S> {
    if t !in c.slots then c.(slots := c.slots[t := state])
    else if |c.stack| < MAX_GLOBAL_CACHE then c.(stack := c.stack + [state])
    else c
  }

  /** What a thread gives back it gets again at once, if there was room. */
  lemma PutThenTake<S>(c: Cache<S>, t: Thread, state: S)
    requires t !in c.slots
    ensures Taken(AfterPut(c, t, state), t) == Some(state) && AfterTake(AfterPut(c, t, state), t) == c
  {
    assert c.slots[t := state] - {t} == c.slots;
  }

  /** A state is given up only when the slot is taken and eight states are on
      the stack; one that is put there is the next that any thread without a
      state of its own takes. A new state is needed only when there is neither. */
  lemma KeptExactly<S(!new)>(c: Cache<S>, t: Thread, state: S)
    ensures AfterPut(c, t, state) == c <==> t in c.slots && |c.stack| >= 8
    ensures Room(c, t) <==> t !in c.slots || |c.stack| < 8
    ensures t in c.slots && |c.stack| < 8 ==>
              forall u :: u !in c.slots ==>
                Taken(AfterPut(c, t, state), u) == Some(state) && AfterTake(AfterPut(c, t, state), u) == c
    ensures Taken(c, t) == None <==> t !in c.slots && c.stack == []
  {
    assert t !in c.slots ==> t in AfterPut(c, t, state).slots;
    assert |c.stack + [state]| == |c.stack| + 1 && (c.stack + [state])[..|c.stack|] == c.stack;
  }

  // ----- one state -----

  datatype Parameter = StickyParameters | CompressionLevel | FormatVersion

  /** The library's default level and encoding version stay names. */
  datatype Setting = Given(value: int) | DefaultLevel | DefaultEncodingVersion

  type Settings = map<Parameter, Setting>

  const COMPRESSION_DEFAULTS: Settings :=
    map[StickyParameters := Given(1), CompressionLevel := DefaultLevel, FormatVersion := DefaultEncodingVersion]
  const DECOMPRESSION_DEFAULTS: Settings := map[StickyParameters := Given(1)]

  /** Setting the parameters one by one. */
  lemma DefaultsAdded(c: Settings, d: Settings)
    ensures c[StickyParameters := Given(1)][CompressionLevel := DefaultLevel][FormatVersion := DefaultEncodingVersion]
            == c + COMPRESSION_DEFAULTS
    ensures d[StickyParameters := Given(1)] == d + DECOMPRESSION_DEFAULTS
  {
  }

  class ScratchBuffer {
    var data: Option<seq<int>>
    var capacity: nat
    var size: nat

    ghost predicate Valid()
      reads this
    {
      capacity == if data.Some? then |data.value| else 0
    }

    constructor ()
      ensures Valid() && capacity == 0 && size == 0
    {
      data, capacity, size := None, 0, 0;
    }

    /** Room for the request. The buffer never shrinks, and one that is large
        enough is kept with its contents. */
    method Ensure(required: nat)
      requires Valid()
      modifies this
      ensures Valid() && capacity >= required && capacity >= old(capacity) && size == old(size)
      ensures required <= old(capacity) ==> data == old(data)
      ensures required > old(capacity) ==> capacity == required
    {
      if capacity < required {
        data := if required == 0 then None else Some(seq(required, _ => 0));
        capacity := required;
      }
    }

    method Reset()
      modifies `size
      ensures size == 0
    {
      size := 0;
    }
  }

  class NativeState {
    var startingGraph: Graph
    var compressorGraph: Option<Graph>          // selected in the compressor
    var compressorParameters: Settings
    var referenced: bool                        // the context uses the compressor
    var contextGraph: Option<Graph>             // selected in the context
    var contextParameters: Settings
    var decompressionParameters: Settings
    const outputScratch: ScratchBuffer

    /** The compressor and the context that uses it run this graph. */
    predicate Selected(graph: Graph)
      reads this
    {
      startingGraph == graph && compressorGraph == Some(graph) && referenced && contextGraph == Some(graph)
    }

    predicate Defaults()
      reads this
    {
      contextParameters == COMPRESSION_DEFAULTS && decompressionParameters == DECOMPRESSION_DEFAULTS
    }

    constructor (graph: Graph)
      ensures Selected(graph) && Defaults() && compressorParameters == map[]
      ensures fresh(outputScratch) && outputScratch.Valid() && outputScratch.size == 0
    {
      startingGraph := graph;
      compressorGraph, contextGraph, referenced := None, None, false;
      compressorParameters, contextParameters, decompressionParameters := map[], map[], map[];
      outputScratch := new ScratchBuffer();
      new;
      ApplyDefaultParameters();
      ConfigureGraph();
    }

    method ApplyDefaultParameters()
      modifies `contextParameters, `decompressionParameters
      ensures contextParameters == old(contextParameters) + COMPRESSION_DEFAULTS
      ensures decompressionParameters == old(decompressionParameters) + DECOMPRESSION_DEFAULTS
    {
      DefaultsAdded(contextParameters, decompressionParameters);
      contextParameters := contextParameters[StickyParameters := Given(1)];
      contextParameters := contextParameters[CompressionLevel := DefaultLevel];
      contextParameters := contextParameters[FormatVersion := DefaultEncodingVersion];
      decompressionParameters := decompressionParameters[StickyParameters := Given(1)];
    }

    method ConfigureGraph()
      modifies `compressorGraph, `referenced, `contextGraph
      ensures Selected(startingGraph)
    {
      compressorGraph := Some(startingGraph);
      referenced := true;
      contextGraph := Some(startingGraph);
    }

    method SetGraph(graph: Graph)
      modifies `startingGraph, `compressorGraph, `referenced, `contextGraph
      ensures Selected(graph)
    {
      startingGraph := graph;
      ConfigureGraph();
    }

    /** Back to default contexts on the same graph. The parameters of the
        compressor itself survive. */
    method Reset()
      modifies `compressorGraph, `referenced, `contextGraph, `contextParameters, `decompressionParameters, outputScratch`size
      ensures Selected(startingGraph) && Defaults() && outputScratch.size == 0
    {
      contextParameters, referenced, contextGraph := map[], false, None;
      decompressionParameters := map[];
      ApplyDefaultParameters();
      ConfigureGraph();
      outputScratch.Reset();
    }
  }

  // ----- the cache in place -----

  class StateCache {
    const globalCache: array<NativeState?>
    var globalCacheSize: nat
    var tlsCachedState: map<Thread, NativeState?>

    ghost predicate Valid()
      reads this, globalCache
    {
      && globalCache.Length == 8 && globalCacheSize <= 8
      && (forall i :: 0 <= i < globalCacheSize ==> globalCache[i] != null)
      && (forall t :: t in tlsCachedState ==> tlsCachedState[t] != null)
    }

    ghost function Value(): Cache<NativeState?>
      requires Valid()
      reads this, globalCache
    {
      Cache(tlsCachedState, globalCache[..globalCacheSize])
    }

    constructor ()
      ensures Valid() && fresh(globalCache) && Value() == Cache(map[], [])
    {
      globalCache := new NativeState?[MAX_GLOBAL_CACHE](_ => null);
      globalCacheSize := 0;
      tlsCachedState := map[];
    }

    /** The objects the thread's next acquisition writes to. */
    ghost function Touched(t: Thread): set<object>
      requires Valid()
      reads this, globalCache
    {
      var state := Taken(Value(), t);
      if state.Some? && state.value != null then {state.value, state.value.outputScratch} else {}
    }

    /** A state for the thread, from the cache if it holds one, with the graph
        selected and default contexts. */
    method AcquireState(t: Thread, graph: Graph) returns (state: NativeState)
      requires Valid()
      modifies this, Touched(t)
      ensures Valid() && Value() == AfterTake(old(Value()), t)
      ensures match old(Taken(Value(), t)) case Some(cached) => state == cached case None => fresh(state)
      ensures state.Selected(graph) && state.Defaults() && state.outputScratch.size == 0
      ensures old(Taken(Value(), t)).Some? ==> unchanged(state`compressorParameters)
    {
      if t in tlsCachedState {
        state := tlsCachedState[t];
        tlsCachedState := tlsCachedState - {t};
        state.Reset();
        state.SetGraph(graph);
        return;
      }
      if globalCacheSize > 0 {
        globalCacheSize := globalCacheSize - 1;
        state := globalCache[globalCacheSize];
        state.Reset();
        state.SetGraph(graph);
        return;
      }
      state := new NativeState(graph);
    }

    /** The state goes to the thread's slot, else on the stack, else it is
        deleted. */
    method RecycleState(t: Thread, state: NativeState?) returns (deleted: bool)
      requires Valid()
      modifies this, globalCache, state, if state != null then {state.outputScratch} else {}
      ensures Valid()
      ensures state == null ==> Value() == old(Value()) && !deleted
      ensures state != null ==> Value() == AfterPut(old(Value()), t, state) && deleted == !Room(old(Value()), t)
      ensures state != null ==> (deleted <==> t in old(tlsCachedState) && old(globalCacheSize) == 8)
      ensures state != null ==> state.Defaults() && state.Selected(old(state.startingGraph))
      ensures state != null ==> state.compressorParameters == old(state.compressorParameters)
    {
      deleted := false;
      if state == null {
        return;
      }
      state.Reset();
      if t !in tlsCachedState {
        tlsCachedState := tlsCachedState[t := state];
      } else {
        var cached := false;
        if globalCacheSize < MAX_GLOBAL_CACHE {
          globalCache[globalCacheSize] := state;
          globalCacheSize := globalCacheSize + 1;
          cached := true;
        }
        deleted := !cached;
      }
    }
  }
}
