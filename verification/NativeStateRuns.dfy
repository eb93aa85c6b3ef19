/** Every interleaving of creating and closing compressors on any threads,
    including cleaners that run again or on another thread. States are named by
    the order of their allocation. */
module NativeStateRuns {

  import opened Results
  import opened NativeStates

  /** What a thread is in the middle of: it has found its slot empty, it has
      found the stack empty, it holds a state it is fitting to the request, or
      it is inside the cleaner of a handle. */
  datatype Doing =
    | Idle
    | Popping(graph: Graph)
    | Allocating(graph: Graph)
    | Fitting(state: nat, graph: Graph)
    | Recycling(handle: nat)

  /** Where a state is. */
  datatype Place = InHandle(handle: nat) | InHand(thread: Thread) | InSlot(thread: Thread) | OnStack(index: nat) | Deleted

  /** A compressor: its cleaner's handle field (None is zero) and the graph it
      was created with or configured to since. */
  datatype Handle = Handle(state: Option<nat>, graph: Graph)

  /** The compressors, the threads and the cache, with the number of states
      allocated so far and, for each, its place and its starting graph. */
  datatype System = System(handles: seq<Handle>, threads: seq<Doing>, cache: Cache<nat>, deleted: set<nat>,
                           total: nat, places: map<nat, Place>, graphs: map<nat, Graph>)

  function Start(threads: nat): System {
    System([], seq(threads, _ => Idle), Cache(map[], []), {}, 0, map[], map[])
  }

  datatype Step =
    | Begin(t: Thread, graph: Graph)      // create: look into the slot
    | Pop(t: Thread)                      // create: the locked section
    | Allocate(t: Thread)                 // create: a new state
    | Fit(t: Thread)                      // create: reset, select the graph, hand out
    | Run(t: Thread, handle: nat)         // close or cleaner: enter the run-once method
    | Recycle(t: Thread)                  // and give the state back
    | Reconfigure(handle: nat, graph: Graph)

  /** Nobody is inside the cleaner of the handle; its method is synchronized. */
  predicate Unlocked(s: System, handle: nat) {
    forall i :: 0 <= i < |s.threads| ==> s.threads[i] != Recycling(handle)
  }

  predicate Enabled(s: System, step: Step) {
    match step
    case Begin(t, _) => t < |s.threads| && s.threads[t].Idle?
    case Pop(t) => t < |s.threads| && s.threads[t].Popping?
    case Allocate(t) => t < |s.threads| && s.threads[t].Allocating?
    case Fit(t) => t < |s.threads| && s.threads[t].Fitting?
    case Run(t, h) => t < |s.threads| && s.threads[t].Idle? && h < |s.handles| && Unlocked(s, h)
    case Recycle(t) => t < |s.threads| && s.threads[t].Recycling?
    case Reconfigure(h, _) => h < |s.handles| && s.handles[h].state.Some? && Unlocked(s, h)
  }

  /** A thread that looks at the stack has an empty slot; a thread inside a
      cleaner is alone there, and the handle is still set. */
  ghost predicate WellFormed(s: System) {
    && (forall t :: t in s.cache.slots ==> t < |s.threads|)
    && (forall i :: 0 <= i < |s.threads| && (s.threads[i].Popping? || s.threads[i].Allocating?) ==> i !in s.cache.slots)
    && (forall i :: 0 <= i < |s.threads| && s.threads[i].Recycling? ==>
          s.threads[i].handle < |s.handles| && s.handles[s.threads[i].handle].state.Some?)
    && (forall i, j | 0 <= i < |s.threads| && 0 <= j < |s.threads| ::
          s.threads[i].Recycling? && s.threads[i] == s.threads[j] ==> i == j)
  }

  ghost predicate At(s: System, state: nat, place: Place) {
    match place
    case InHandle(h) => h < |s.handles| && s.handles[h].state == Some(state)
    case InHand(t) => t < |s.threads| && s.threads[t].Fitting? && s.threads[t].state == state
    case InSlot(t) => t in s.cache.slots && s.cache.slots[t] == state
    case OnStack(i) => i < |s.cache.stack| && s.cache.stack[i] == state
    case Deleted => state in s.deleted
  }

  /** Every allocated state is in exactly one place, and nothing else is
      anywhere. */
  ghost predicate Conserved(s: System) {
    && (forall state: nat, place: Place :: At(s, state, place) <==> (state in s.places && s.places[state] == place))
    && (forall state: nat :: state in s.places <==> state < s.total)
    && |s.cache.stack| <= 8
  }

  /** Every open compressor's state has the compressor's graph selected. */
  ghost predicate GraphsSelected(s: System) {
    forall h :: 0 <= h < |s.handles| && s.handles[h].state.Some? ==>
      s.handles[h].state.value in s.graphs && s.graphs[s.handles[h].state.value] == s.handles[h].graph
  }

  ghost predicate Safe(s: System) {
    WellFormed(s) && Conserved(s) && GraphsSelected(s)
  }

  function Does(s: System, t: Thread, doing: Doing): System
    requires t < |s.threads|
  {
    s.(threads := s.threads[t := doing])
  }

  /** The thread holds a state that has left the cache. */
  function Holds(s: System, t: Thread, state: nat, graph: Graph, cache: Cache<nat>): System
    requires t < |s.threads|
  {
    Does(s, t, Fitting(state, graph)).(cache := cache, places := s.places[state := InHand(t)])
  }

  /** The thread returns a compressor on the state. */
  function Opened(s: System, t: Thread, state: nat, graph: Graph): System
    requires t < |s.threads|
  {
    Does(s, t, Idle).(handles := s.handles + [Handle(Some(state), graph)],
                      places := s.places[state := InHandle(|s.handles|)], graphs := s.graphs[state := graph])
  }

  function Recycled(s: System, t: Thread, h: nat): System
    requires t < |s.threads| && h < |s.handles| && s.handles[h].state.Some?
  {
    var state := s.handles[h].state.value;
    var place := if t !in s.cache.slots then InSlot(t)
                 else if |s.cache.stack| < MAX_GLOBAL_CACHE then OnStack(|s.cache.stack|)
                 else Deleted;
    Does(s, t, Idle).(handles := s.handles[h := s.handles[h].(state := None)], cache := AfterPut(s.cache, t, state),
                      deleted := if Room(s.cache, t) then s.deleted else s.deleted + {state},
                      places := s.places[state := place])
  }

  function Next(s: System, step: Step): System
    requires WellFormed(s) && Enabled(s, step)
  {
    match step
    case Begin(t, graph) =>
      if t in s.cache.slots then Holds(s, t, s.cache.slots[t], graph, s.cache.(slots := s.cache.slots - {t}))
      else Does(s, t, Popping(graph))
    case Pop(t) =>
      var graph, top := s.threads[t].graph, |s.cache.stack| - 1;
      if s.cache.stack != [] then Holds(s, t, s.cache.stack[top], graph, s.cache.(stack := s.cache.stack[..top]))
      else Does(s, t, Allocating(graph))
    case Allocate(t) => Opened(s, t, s.total, s.threads[t].graph).(total := s.total + 1)
    case Fit(t) => Opened(s, t, s.threads[t].state, s.threads[t].graph)
    case Run(t, h) => if s.handles[h].state.None? then s else Does(s, t, Recycling(h))
    case Recycle(t) => Recycled(s, t, s.threads[t].handle)
    case Reconfigure(h, graph) =>
      s.(handles := s.handles[h := s.handles[h].(graph := graph)], graphs := s.graphs[s.handles[h].state.value := graph])
  }

  /** Looking into the slot and then at the stack, with any steps of others in
      between, takes what the cache gives the thread at the time of the second. */
  lemma PopTakes(s: System, t: Thread)
    requires WellFormed(s) && Enabled(s, Pop(t))
    ensures var n := Next(s, Pop(t));
            && n.cache == AfterTake(s.cache, t)
            && (n.threads[t].Fitting? <==> Taken(s.cache, t).Some?)
            && (n.threads[t].Fitting? ==> n.threads[t].state == Taken(s.cache, t).value)
  {
  }

  // ----- conservation -----

  /** No two compressors, threads or cache entries share a state. */
  lemma Exclusive(s: System, state: nat, p: Place, q: Place)
    requires Safe(s) && At(s, state, p) && At(s, state, q)
    ensures p == q && state < s.total
  {
  }

  lemma HoldsSafe(s: System, t: Thread, state: nat, from: Place, graph: Graph, cache: Cache<nat>)
    requires Safe(s) && t < |s.threads| && !s.threads[t].Fitting? && !s.threads[t].Recycling? && At(s, state, from)
    requires (from == InSlot(t) && cache == s.cache.(slots := s.cache.slots - {t}))
             || (s.cache.stack != [] && from == OnStack(|s.cache.stack| - 1) && cache == s.cache.(stack := s.cache.stack[..|s.cache.stack| - 1]))
    ensures Safe(Holds(s, t, state, graph, cache))
  {
    var n := Holds(s, t, state, graph, cache);
    forall x: nat, place: Place ensures At(n, x, place) <==> (x in n.places && n.places[x] == place) {
      assert At(s, x, place) <==> (x in s.places && s.places[x] == place);
    }
  }

  lemma OpenedSafe(s: System, t: Thread, state: nat, graph: Graph)
    requires Safe(s) && t < |s.threads|
    requires s.threads[t] == Fitting(state, graph) || (s.threads[t] == Allocating(graph) && state == s.total)
    ensures Safe(Opened(s, t, state, graph).(total := if state == s.total then s.total + 1 else s.total))
  {
    var n := Opened(s, t, state, graph).(total := if state == s.total then s.total + 1 else s.total);
    if s.threads[t].Fitting? {
      assert At(s, state, InHand(t));
    }
    forall x: nat, place: Place ensures At(n, x, place) <==> (x in n.places && n.places[x] == place) {
      assert At(s, x, place) <==> (x in s.places && s.places[x] == place);
    }
    forall h | 0 <= h < |s.handles| && s.handles[h].state.Some? ensures s.handles[h].state.value != state {
      assert At(s, s.handles[h].state.value, InHandle(h));
    }
  }

  lemma RecycledSafe(s: System, t: Thread, h: nat)
    requires Safe(s) && t < |s.threads| && s.threads[t] == Recycling(h)
    ensures Safe(Recycled(s, t, h))
  {
    var n, state := Recycled(s, t, h), s.handles[h].state.value;
    assert At(s, state, InHandle(h));
    forall x: nat, place: Place ensures At(n, x, place) <==> (x in n.places && n.places[x] == place) {
      assert At(s, x, place) <==> (x in s.places && s.places[x] == place);
    }
  }

  lemma ReconfiguredSafe(s: System, h: nat, graph: Graph)
    requires Safe(s) && Enabled(s, Reconfigure(h, graph))
    ensures Safe(Next(s, Reconfigure(h, graph)))
  {
    var n := Next(s, Reconfigure(h, graph));
    forall i | 0 <= i < |s.handles| && s.handles[i].state == s.handles[h].state ensures i == h {
      Exclusive(s, s.handles[h].state.value, InHandle(i), InHandle(h));
    }
    forall x: nat, place: Place ensures At(n, x, place) <==> (x in n.places && n.places[x] == place) {
      assert At(s, x, place) <==> At(n, x, place);
    }
  }

  lemma WaitsSafe(s: System, t: Thread, doing: Doing)
    requires Safe(s) && t < |s.threads| && !s.threads[t].Fitting? && !s.threads[t].Recycling? && !doing.Fitting?
    requires doing.Popping? || doing.Allocating? ==> t !in s.cache.slots
    requires doing.Recycling? ==> doing.handle < |s.handles| && s.handles[doing.handle].state.Some? && Unlocked(s, doing.handle)
    ensures Safe(Does(s, t, doing))
  {
    var n := Does(s, t, doing);
    forall x: nat, place: Place ensures At(n, x, place) <==> (x in n.places && n.places[x] == place) {
      assert At(s, x, place) <==> At(n, x, place);
    }
  }

  lemma StepSafe(s: System, step: Step)
    requires Safe(s) && Enabled(s, step)
    ensures Safe(Next(s, step))
  {
    hide Conserved, GraphsSelected, Holds, Opened, Recycled, Does;
    match step {
      case Begin(t, graph) =>
        if t in s.cache.slots {
          HoldsSafe(s, t, s.cache.slots[t], InSlot(t), graph, s.cache.(slots := s.cache.slots - {t}));
        } else {
          WaitsSafe(s, t, Popping(graph));
        }
      case Pop(t) =>
        var graph, top := s.threads[t].graph, |s.cache.stack| - 1;
        if s.cache.stack != [] {
          HoldsSafe(s, t, s.cache.stack[top], OnStack(top), graph, s.cache.(stack := s.cache.stack[..top]));
        } else {
          WaitsSafe(s, t, Allocating(graph));
        }
      case Allocate(t) => OpenedSafe(s, t, s.total, s.threads[t].graph);
      case Fit(t) =>
        HeldAllocated(s, t);
        OpenedSafe(s, t, s.threads[t].state, s.threads[t].graph);
      case Run(t, h) =>
        if s.handles[h].state.Some? {
          WaitsSafe(s, t, Recycling(h));
        }
      case Recycle(t) => RecycledSafe(s, t, s.threads[t].handle);
      case Reconfigure(h, graph) => ReconfiguredSafe(s, h, graph);
    }
  }

  lemma HeldAllocated(s: System, t: Thread)
    requires Safe(s) && t < |s.threads| && s.threads[t].Fitting?
    ensures s.threads[t].state < s.total
    ensures var n := Opened(s, t, s.threads[t].state, s.threads[t].graph); n.(total := s.total) == n
  {
    assert At(s, s.threads[t].state, InHand(t));
  }

  ghost predicate Runs(from: System, steps: seq<Step>, to: System)
    decreases steps
  {
    if steps == [] then from == to
    else WellFormed(from) && Enabled(from, steps[0]) && Runs(Next(from, steps[0]), steps[1..], to)
  }

  lemma {:induction false} EveryRunSafe(from: System, steps: seq<Step>, to: System)
    requires Safe(from) && Runs(from, steps, to)
    ensures Safe(to)
    decreases steps
  {
    if steps != [] {
      StepSafe(from, steps[0]);
      hide Safe, Enabled, Next, WellFormed;
      EveryRunSafe(Next(from, steps[0]), steps[1..], to);
    }
  }

  /** Main result: in every state of every run, each allocated state is in
      exactly one of a compressor, a thread's hand, a thread's slot, the stack
      or the deleted ones; the stack holds at most eight; and every open
      compressor has its own graph selected. */
  lemma ReachableStatesSafe(threads: nat, steps: seq<Step>, s: System)
    requires Runs(Start(threads), steps, s)
    ensures Safe(s)
  {
    EveryRunSafe(Start(threads), steps, s);
  }

  // ----- giving back and reusing -----

  /** A compressor that is open can be closed by any idle thread; its state is
      then in that thread's slot, or on the stack, and is deleted exactly when
      the slot is taken and eight states are on the stack. */
  lemma ClosingGivesBack(s: System, t: Thread, h: nat)
    requires Safe(s) && Enabled(s, Run(t, h)) && s.handles[h].state.Some?
    ensures var closing := Next(s, Run(t, h));
            && Safe(closing) && Enabled(closing, Recycle(t))
            && var closed, state := Next(closing, Recycle(t)), s.handles[h].state.value;
            && closed.handles == s.handles[h := s.handles[h].(state := None)]
            && closed.threads == s.threads && closed.total == s.total && closed.cache == AfterPut(s.cache, t, state)
            && closed.deleted == (if Room(s.cache, t) then s.deleted else s.deleted + {state})
            && At(closed, state, if t !in s.cache.slots then InSlot(t)
                                 else if |s.cache.stack| < 8 then OnStack(|s.cache.stack|) else Deleted)
  {
    StepSafe(s, Run(t, h));
    hide Safe, Conserved, GraphsSelected;
    assert Next(s, Run(t, h)).threads[t := Idle] == s.threads;
  }

  /** A handle that was closed before stays closed, and nothing happens. */
  lemma ClosingAgain(s: System, t: Thread, h: nat)
    requires Safe(s) && Enabled(s, Run(t, h)) && s.handles[h].state.None?
    ensures Next(s, Run(t, h)) == s
  {
  }

  /** What one thread does to create a compressor and close it again, when its
      slot holds a state. */
  function CreateAndClose(t: Thread, graph: Graph, handle: nat): seq<Step> {
    [Begin(t, graph), Fit(t), Run(t, handle), Recycle(t)]
  }

  lemma CreateReuses(s: System, t: Thread, graph: Graph)
    requires Safe(s) && t < |s.threads| && s.threads[t].Idle? && t in s.cache.slots
    ensures var state := s.cache.slots[t];
            && Enabled(s, Begin(t, graph)) && Safe(Next(s, Begin(t, graph)))
            && Enabled(Next(s, Begin(t, graph)), Fit(t))
            && var n := Next(Next(s, Begin(t, graph)), Fit(t));
            && Safe(n) && n.threads == s.threads && n.total == s.total && n.deleted == s.deleted
            && n.handles == s.handles + [Handle(Some(state), graph)]
            && n.cache == s.cache.(slots := s.cache.slots - {t})
  {
    StepSafe(s, Begin(t, graph));
    StepSafe(Next(s, Begin(t, graph)), Fit(t));
    hide Safe, Conserved, GraphsSelected;
    assert Next(s, Begin(t, graph)).threads[t := Idle] == s.threads;
  }

  lemma FreshHandle(s: System, n: System, t: Thread)
    requires WellFormed(s) && n.threads == s.threads && |n.handles| == |s.handles| + 1
    requires t < |s.threads| && s.threads[t].Idle?
    ensures Enabled(n, Run(t, |s.handles|))
  {
  }

  /** Main result: such a thread reuses that state; creating and closing again
      allocates nothing, deletes nothing and leaves the cache as it was. */
  lemma CreateAndCloseReuses(s: System, t: Thread, graph: Graph) returns (to: System)
    requires Safe(s) && t < |s.threads| && s.threads[t].Idle? && t in s.cache.slots
    ensures Runs(s, CreateAndClose(t, graph, |s.handles|), to) && Safe(to)
    ensures to.cache == s.cache && to.total == s.total && to.deleted == s.deleted && to.threads == s.threads
    ensures to.handles == s.handles + [Handle(None, graph)]
  {
    hide Next, Enabled, At, Conserved, GraphsSelected, WellFormed;
    var h, state := |s.handles|, s.cache.slots[t];
    CreateReuses(s, t, graph);
    var begun := Next(s, Begin(t, graph));
    var inUse := Next(begun, Fit(t));
    FreshHandle(s, inUse, t);
    ClosingGivesBack(inUse, t, h);
    var closing := Next(inUse, Run(t, h));
    to := Next(closing, Recycle(t));
    StepSafe(closing, Recycle(t));
    assert (s.cache.slots - {t})[t := state] == s.cache.slots;
    assert (s.handles + [Handle(Some(state), graph)])[h := Handle(None, graph)] == s.handles + [Handle(None, graph)];
    FourSteps(s, Begin(t, graph), begun, Fit(t), inUse, Run(t, h), closing, Recycle(t), to);
  }

  lemma FourSteps(s: System, a: Step, s1: System, b: Step, s2: System, c: Step, s3: System, d: Step, to: System)
    requires WellFormed(s) && Enabled(s, a) && Next(s, a) == s1
    requires WellFormed(s1) && Enabled(s1, b) && Next(s1, b) == s2
    requires WellFormed(s2) && Enabled(s2, c) && Next(s2, c) == s3
    requires WellFormed(s3) && Enabled(s3, d) && Next(s3, d) == to
    ensures Runs(s, [a, b, c, d], to)
  {
    hide WellFormed, Enabled, Next;
    assert [a, b, c, d][1..] == [b, c, d] && [b, c, d][1..] == [c, d] && [c, d][1..] == [d] && [d][1..] == [];
    assert Runs(s3, [d], to);
    assert Runs(s2, [c, d], to);
    assert Runs(s1, [b, c, d], to);
  }
}
