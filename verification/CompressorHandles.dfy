/** The life cycle of a compressor object: its handle, and the cleaner that
    gives the native state back at most once. */
module CompressorHandles {

  import opened NativeStates

  class NativeHandleCleaner {
    var handle: NativeState?

    constructor (handle: NativeState)
      ensures this.handle == handle
    {
      this.handle := handle;
    }

    /** What running the cleaner writes to besides the cache. */
    ghost function Footprint(): set<object>
      reads this
    {
      if handle == null then {this} else {this, handle, handle.outputScratch}
    }

    /** The first run gives the state to the cache of the running thread; every
        later run, on any thread, does nothing. */
    method Run(cache: StateCache, t: Thread)
      requires cache.Valid()
      modifies cache, cache.globalCache, Footprint()
      ensures cache.Valid() && handle == null
      ensures cache.Value() == if old(handle) == null then old(cache.Value()) else AfterPut(old(cache.Value()), t, old(handle))
      ensures old(handle) != null ==> old(handle).compressorParameters == old(handle.compressorParameters)
    {
      if handle == null {
        return;
      }
      var state := handle;
      var _ := cache.RecycleState(t, state);
      handle := null;
    }
  }

  class OpenZLCompressor {
    const graph: Graph
    var nativeHandle: NativeState?
    const nativeHandleCleaner: NativeHandleCleaner

    /** The object's handle is its cleaner's, or has been cleared by close. */
    ghost predicate Valid()
      reads this, nativeHandleCleaner
    {
      nativeHandle != null ==> nativeHandle == nativeHandleCleaner.handle
    }

    predicate Open()
      reads this
    {
      nativeHandle != null
    }

    constructor (graph: Graph, cache: StateCache, t: Thread)
      requires cache.Valid()
      modifies cache, cache.Touched(t)
      ensures Valid() && Open() && nativeHandle.Selected(graph) && nativeHandle.Defaults()
      ensures fresh(nativeHandleCleaner) && this.graph == graph
      ensures cache.Valid() && cache.Value() == AfterTake(old(cache.Value()), t)
      ensures match old(Taken(cache.Value(), t)) case Some(state) => nativeHandle == state case None => fresh(nativeHandle)
      ensures var cached := old(Taken(cache.Value(), t));
              cached.Some? && cached.value != null ==>
                cached.value.compressorParameters == old(Taken(cache.Value(), t).value.compressorParameters)
    {
      var state := cache.AcquireState(t, graph);
      var cleaner := new NativeHandleCleaner(state);
      this.graph := graph;
      nativeHandle := state;
      nativeHandleCleaner := cleaner;
    }

    /** Closing gives the state back once, however often it is called and
        whether or not the cleaner has run. */
    method Close(cache: StateCache, t: Thread)
      requires cache.Valid() && Valid()
      modifies this, cache, cache.globalCache, nativeHandleCleaner.Footprint()
      ensures cache.Valid() && Valid() && !Open() && nativeHandleCleaner.handle == null
      ensures cache.Value() == if old(nativeHandleCleaner.handle) == null then old(cache.Value())
                               else AfterPut(old(cache.Value()), t, old(nativeHandleCleaner.handle))
      ensures var state := old(nativeHandleCleaner.handle);
              state != null ==> state.compressorParameters == old(nativeHandleCleaner.handle.compressorParameters)
    {
      nativeHandleCleaner.Run(cache, t);
      nativeHandle := null;
    }
  }

  /** A compressor closed and another created on the same thread share the
      native state one after the other, and its compressor parameters with it. */
  method CloseThenCreate(first: OpenZLCompressor, graph: Graph, cache: StateCache, t: Thread) returns (second: OpenZLCompressor)
    requires cache.Valid() && first.Valid() && first.Open() && t !in cache.tlsCachedState
    modifies first, cache, cache.globalCache, first.nativeHandleCleaner.Footprint()
    ensures second.Open() && second.nativeHandle == old(first.nativeHandle) && second.nativeHandle.Selected(graph)
    ensures second.nativeHandle.compressorParameters == old(first.nativeHandle.compressorParameters)
    ensures cache.Valid() && cache.Value() == old(cache.Value())
    ensures !first.Open()
  {
    ghost var before := cache.Value();
    PutThenTake(before, t, first.nativeHandle);
    first.Close(cache, t);
    second := new OpenZLCompressor(graph, cache, t);
  }
}
