/** Every interleaving of the locked sections: threads feed samples, one takes
    the batch and trains outside the lock, the others pick the result up. */
module TrainingProtocol {

  import opened Results
  import opened TrainingRegistry

  /** Where a thread stands between two locked sections: about to enter the
      section that copies the published compressor, training a batch, or
      building a compressor from a copy. */
  datatype Position =
    | Idle
    | Refreshing
    | Training(batch: seq<Bytes>, minSamples: nat)
    | Applying(bytes: Bytes, generation: nat)

  /** A thread with its cache entry: the generation it has applied and the
      bytes its compressor was built from, if any were. */
  datatype Thread = Thread(position: Position, applied: nat, compressor: Option<Bytes>)

  const NEW_THREAD := Thread(Idle, 0, None)

  datatype Publication = Publication(bytes: Bytes, batch: seq<Bytes>, minSamples: nat)

  /** The registry and the threads, with a record of the samples taken, the
      batches trained and the results published so far. */
  datatype System = System(registry: Registry, threads: seq<Thread>,
                           accepted: seq<Bytes>, batches: seq<seq<Bytes>>, published: seq<Publication>)

  function Start(threads: nat): System {
    System(FRESH, seq(threads, _ => NEW_THREAD), [], [], [])
  }

  /** One step: entering the refresh of an entry, one locked section, or the
      build of a compressor outside the lock, which may fail. */
  datatype Step =
    | Enter(t: nat)
    | Offer(t: nat, sample: Bytes)
    | Report(t: nat, trained: Bytes)
    | Refresh(t: nat)
    | Apply(t: nat, succeeds: bool)
    | Configure(minSamples: int)

  /** Training may return anything, but nothing for a batch below the minimum
      it was given. */
  predicate Enabled(s: System, step: Step) {
    match step
    case Enter(t) => t < |s.threads| && s.threads[t].position.Idle?
    case Offer(t, _) => t < |s.threads| && s.threads[t].position.Idle?
    case Report(t, trained) =>
      && t < |s.threads| && s.threads[t].position.Training?
      && (|s.threads[t].position.batch| < s.threads[t].position.minSamples ==> trained == [])
    case Refresh(t) => t < |s.threads| && s.threads[t].position.Refreshing?
    case Apply(t, _) => t < |s.threads| && s.threads[t].position.Applying?
    case Configure(_) => true
  }

  function Moved(s: System, t: nat, position: Position): System
    requires t < |s.threads|
  {
    s.(threads := s.threads[t := s.threads[t].(position := position)])
  }

  function Next(s: System, step: Step): System
    requires Enabled(s, step)
  {
    match step
    case Enter(t) => Moved(s, t, Refreshing)
    case Offer(t, sample) => if |sample| < MIN_TRAINING_SAMPLE_BYTES then s else NextOffer(s, t, sample)
    case Report(t, trained) => NextReport(s, t, trained)
    case Refresh(t) =>
      (match SnapshotFor(s.registry, s.threads[t].applied)
       case None => Moved(s, t, Idle)
       case Some(copy) => Moved(s, t, Applying(copy.0, copy.1)))
    case Apply(t, succeeds) =>
      var p := s.threads[t].position;
      s.(threads := s.threads[t := if succeeds then Thread(Idle, p.generation, Some(p.bytes))
                                   else s.threads[t].(position := Idle)])
    case Configure(minSamples) => s.(registry := AfterConfigure(s.registry, minSamples))
  }

  function NextOffer(s: System, t: nat, sample: Bytes): System
    requires t < |s.threads|
  {
    var taken := OfferResult(s.registry, sample, s.threads[t].applied);
    var position := match taken
                    case Nothing => Idle
                    case UseExisting => Refreshing
                    case Batch(batch, minSamples) => Training(batch, minSamples);
    Moved(s, t, position).(
      registry := AfterOffer(s.registry, sample),
      accepted := if Accepts(s.registry) then s.accepted + [sample] else s.accepted,
      batches := if taken.Batch? then s.batches + [taken.samples] else s.batches)
  }

  function NextReport(s: System, t: nat, trained: Bytes): System
    requires t < |s.threads| && s.threads[t].position.Training?
  {
    var p := s.threads[t].position;
    Moved(s, t, if trained != [] then Refreshing else Idle).(
      registry := AfterReport(s.registry, trained),
      published := if trained != [] then s.published + [Publication(trained, p.batch, p.minSamples)] else s.published)
  }

  ghost predicate Run(from: System, steps: seq<Step>, to: System)
    decreases steps
  {
    if steps == [] then from == to
    else Enabled(from, steps[0]) && Run(Next(from, steps[0]), steps[1..], to)
  }

  // ----- the invariant -----

  function Flatten(batches: seq<seq<Bytes>>): seq<Bytes> {
    if batches == [] then [] else batches[0] + Flatten(batches[1..])
  }

  lemma {:induction false} FlattenSnoc(batches: seq<seq<Bytes>>, batch: seq<Bytes>)
    ensures Flatten(batches + [batch]) == Flatten(batches) + batch
  {
    if batches == [] {
      assert batches + [batch] == [batch];
      assert Flatten([batch]) == batch + Flatten([]);
    } else {
      FlattenSnoc(batches[1..], batch);
      assert (batches + [batch])[1..] == batches[1..] + [batch];
      assert batches[0] + (Flatten(batches[1..]) + batch) == batches[0] + Flatten(batches[1..]) + batch;
    }
  }

  ghost predicate SomeoneTrains(threads: seq<Thread>) {
    exists i :: 0 <= i < |threads| && threads[i].position.Training?
  }

  /** At most one thread is between taking a batch and reporting it, and one
      is exactly while the registry says so. */
  ghost predicate OneTrains(s: System) {
    && (forall i, j | 0 <= i < |s.threads| && 0 <= j < |s.threads| ::
          s.threads[i].position.Training? && s.threads[j].position.Training? ==> i == j)
    && (s.registry.inProgress <==> SomeoneTrains(s.threads))
  }

  /** The entry of a thread is never ahead of the registry, and an entry that
      has caught up holds the published compressor. */
  ghost predicate EntryAgrees(th: Thread, r: Registry) {
    && th.applied <= r.generation
    && th.compressor == (if th.applied == 1 then Some(r.serialized) else None)
    && (th.position.Applying? ==> r.complete && th.position.bytes == r.serialized && th.position.generation == 1)
    && (th.position.Training? ==> 1 <= |th.position.batch| <= MAX_TRAINING_SAMPLES)
  }

  ghost predicate EntriesAgree(s: System) {
    forall i :: 0 <= i < |s.threads| ==> EntryAgrees(s.threads[i], s.registry)
  }

  /** Every accepted sample is, in the order of acceptance, in exactly one
      batch or in the buffer. */
  ghost predicate Conserved(s: System) {
    && s.accepted == Flatten(s.batches) + s.registry.samples
    && (forall b :: b in s.batches ==> 1 <= |b| <= MAX_TRAINING_SAMPLES)
    && (forall i :: 0 <= i < |s.threads| && s.threads[i].position.Training? ==> s.threads[i].position.batch in s.batches)
  }

  /** A result is published once, trained from a batch that had at least the
      minimum read in the section that took it. */
  ghost predicate PublishedOnce(s: System) {
    && |s.published| == s.registry.generation
    && forall p :: p in s.published ==>
         p.bytes == s.registry.serialized && p.batch in s.batches && |p.batch| >= p.minSamples
  }

  ghost predicate Safe(s: System) {
    Sound(s.registry) && OneTrains(s) && EntriesAgree(s) && Conserved(s) && PublishedOnce(s)
  }

  lemma StartSafe(threads: nat)
    ensures Safe(Start(threads))
  {
  }

  lemma OfferKeepsOneTrainer(s: System, t: nat, sample: Bytes)
    requires Safe(s) && t < |s.threads| && s.threads[t].position.Idle? && |sample| >= MIN_TRAINING_SAMPLE_BYTES
    ensures OneTrains(NextOffer(s, t, sample))
  {
    hide Sound, EntryAgrees, Conserved, PublishedOnce, AfterOffer, OfferResult;
    var n, taken := NextOffer(s, t, sample), OfferResult(s.registry, sample, s.threads[t].applied);
    OfferSound(s.registry, sample, s.threads[t].applied);
    assert n.threads[t].position.Training? <==> taken.Batch?;
    if SomeoneTrains(s.threads) {
      var i :| 0 <= i < |s.threads| && s.threads[i].position.Training?;
      assert n.threads[i].position.Training?;
    }
    OfferStarts(s.registry, sample);
  }

  lemma OfferStarts(r: Registry, sample: Bytes)
    ensures r.inProgress ==> AfterOffer(r, sample).inProgress
    ensures AfterOffer(r, sample).(samples := r.samples, totalBytes := r.totalBytes, inProgress := r.inProgress) == r
    ensures r.complete ==> AfterOffer(r, sample) == r
  {
  }

  lemma OfferKeepsEntries(s: System, t: nat, sample: Bytes)
    requires Safe(s) && t < |s.threads| && s.threads[t].position.Idle? && |sample| >= MIN_TRAINING_SAMPLE_BYTES
    ensures EntriesAgree(NextOffer(s, t, sample)) && PublishedOnce(NextOffer(s, t, sample))
  {
    hide Sound, AfterOffer, OfferResult, OneTrains, Conserved;
    OfferSound(s.registry, sample, s.threads[t].applied);
    OfferStarts(s.registry, sample);
  }

  lemma AcceptedThenGathered(s: System, t: nat, sample: Bytes)
    requires Conserved(s) && t < |s.threads|
    ensures NextOffer(s, t, sample).accepted == Flatten(s.batches) + Gathered(s.registry, sample).samples
  {
    hide AfterOffer, OfferResult, Flatten;
    if Accepts(s.registry) {
      assert Flatten(s.batches) + s.registry.samples + [sample] == Flatten(s.batches) + (s.registry.samples + [sample]);
    }
  }

  lemma LogConserved(s: System, t: nat, sample: Bytes)
    requires Safe(s) && t < |s.threads| && s.threads[t].position.Idle? && |sample| >= MIN_TRAINING_SAMPLE_BYTES
    ensures var n := NextOffer(s, t, sample); n.accepted == Flatten(n.batches) + n.registry.samples
  {
    hide EntryAgrees, OneTrains, PublishedOnce, OfferResult, Gathered, AfterOffer;
    var taken, r := OfferResult(s.registry, sample, s.threads[t].applied), s.registry;
    OfferSound(r, sample, s.threads[t].applied);
    AcceptedThenGathered(s, t, sample);
    hide Sound;
    if taken.Batch? {
      FlattenSnoc(s.batches, taken.samples);
      OfferEmpties(r, sample);
      hide Flatten;
      assert Flatten(s.batches) + taken.samples + [] == Flatten(s.batches) + taken.samples;
    }
  }

  lemma BatchesConserved(s: System, t: nat, sample: Bytes)
    requires Safe(s) && t < |s.threads| && s.threads[t].position.Idle? && |sample| >= MIN_TRAINING_SAMPLE_BYTES
    ensures var n := NextOffer(s, t, sample);
            && (forall b :: b in n.batches ==> 1 <= |b| <= MAX_TRAINING_SAMPLES)
            && forall i :: 0 <= i < |n.threads| && n.threads[i].position.Training? ==> n.threads[i].position.batch in n.batches
  {
    OfferSound(s.registry, sample, s.threads[t].applied);
    hide EntryAgrees, OneTrains, PublishedOnce, OfferResult, Gathered, AfterOffer, Flatten, Sound;
    var n := NextOffer(s, t, sample);
    forall i | 0 <= i < |n.threads| && n.threads[i].position.Training? ensures n.threads[i].position.batch in n.batches {
      if i != t {
        assert n.threads[i] == s.threads[i];
      }
    }
  }

  lemma OfferConserves(s: System, t: nat, sample: Bytes)
    requires Safe(s) && t < |s.threads| && s.threads[t].position.Idle? && |sample| >= MIN_TRAINING_SAMPLE_BYTES
    ensures Conserved(NextOffer(s, t, sample))
  {
    LogConserved(s, t, sample);
    BatchesConserved(s, t, sample);
    hide Safe, NextOffer, Flatten;
  }

  lemma OfferEmpties(r: Registry, sample: Bytes)
    requires Sound(r) && !r.inProgress && AfterOffer(r, sample).inProgress
    ensures AfterOffer(r, sample).samples == []
  {
  }

  lemma OfferSafe(s: System, t: nat, sample: Bytes)
    requires Safe(s) && t < |s.threads| && s.threads[t].position.Idle? && |sample| >= MIN_TRAINING_SAMPLE_BYTES
    ensures Safe(NextOffer(s, t, sample))
  {
    hide Sound, OneTrains, EntriesAgree, Conserved, PublishedOnce;
    OfferSound(s.registry, sample, s.threads[t].applied);
    OfferKeepsOneTrainer(s, t, sample);
    OfferKeepsEntries(s, t, sample);
    OfferConserves(s, t, sample);
  }

  lemma ReportSafe(s: System, t: nat, trained: Bytes)
    requires Safe(s) && Enabled(s, Report(t, trained))
    ensures Safe(NextReport(s, t, trained))
  {
    var n := NextReport(s, t, trained);
    assert !SomeoneTrains(n.threads);
  }

  /** A thread that is not training and does not start to. */
  lemma MovesAside(s: System, t: nat, th: Thread)
    requires Safe(s) && t < |s.threads| && !s.threads[t].position.Training?
    requires EntryAgrees(th, s.registry) && !th.position.Training?
    ensures Safe(s.(threads := s.threads[t := th]))
  {
    hide Sound, EntryAgrees;
    var n := s.(threads := s.threads[t := th]);
    assert SomeoneTrains(n.threads) == SomeoneTrains(s.threads) by {
      if SomeoneTrains(s.threads) {
        var i :| 0 <= i < |s.threads| && s.threads[i].position.Training?;
        assert n.threads[i].position.Training?;
      }
    }
  }

  lemma StepSafe(s: System, step: Step)
    requires Safe(s) && Enabled(s, step)
    ensures Safe(Next(s, step))
  {
    hide OneTrains, Conserved, PublishedOnce, NextOffer, NextReport;
    match step {
      case Enter(t) => MovesAside(s, t, s.threads[t].(position := Refreshing));
      case Offer(t, sample) =>
        if |sample| >= MIN_TRAINING_SAMPLE_BYTES {
          OfferSafe(s, t, sample);
        }
      case Report(t, trained) => ReportSafe(s, t, trained);
      case Refresh(t) => MovesAside(s, t, Next(s, step).threads[t]);
      case Apply(t, _) => MovesAside(s, t, Next(s, step).threads[t]);
      case Configure(minSamples) => ConfigureSafe(s, minSamples);
    }
  }

  lemma ConfigureSafe(s: System, minSamples: int)
    requires Safe(s)
    ensures Safe(s.(registry := AfterConfigure(s.registry, minSamples)))
  {
  }

  /** Main result: every state of every run is safe, for any number of threads. */
  lemma {:induction false} EveryRunSafe(from: System, steps: seq<Step>, to: System)
    requires Safe(from) && Run(from, steps, to)
    ensures Safe(to)
    decreases steps
  {
    hide Safe, Enabled, Next;
    if steps != [] {
      StepSafe(from, steps[0]);
      EveryRunSafe(Next(from, steps[0]), steps[1..], to);
    }
  }

  lemma ReachableStatesSafe(threads: nat, steps: seq<Step>, s: System)
    requires Run(Start(threads), steps, s)
    ensures Safe(s)
  {
    StartSafe(threads);
    EveryRunSafe(Start(threads), steps, s);
  }

  // ----- what a run never takes back -----

  /** Later states keep what was published, and no entry falls back. */
  ghost predicate Keeps(a: System, b: System) {
    && |a.threads| == |b.threads|
    && (a.registry.complete ==>
          b.registry.complete && b.registry.serialized == a.registry.serialized && b.published == a.published)
    && a.accepted <= b.accepted && a.batches <= b.batches
    && forall i :: 0 <= i < |a.threads| ==> a.threads[i].applied <= b.threads[i].applied
  }

  lemma StepKeeps(s: System, step: Step)
    requires Safe(s) && Enabled(s, step)
    ensures Keeps(s, Next(s, step))
  {
    hide Conserved, Due;
    if step.Offer? {
      OfferStarts(s.registry, step.sample);
    }
  }

  lemma {:induction false} EveryRunKeeps(from: System, steps: seq<Step>, to: System)
    requires Safe(from) && Run(from, steps, to)
    ensures Keeps(from, to)
    decreases steps
  {
    if steps != [] {
      StepSafe(from, steps[0]);
      StepKeeps(from, steps[0]);
      hide Safe, Enabled, Next, Keeps;
      EveryRunKeeps(Next(from, steps[0]), steps[1..], to);
      KeepsOn(from, Next(from, steps[0]), to);
    } else {
      hide Safe, Enabled, Next;
    }
  }

  lemma KeepsOn(a: System, b: System, c: System)
    requires Keeps(a, b) && Keeps(b, c)
    ensures Keeps(a, c)
  {
  }

  /** Main result: over every run the published bytes never change, batches stay
      as they were taken, each entry's generation only grows, and what was
      accepted is still first, in order, among the batches and the buffer. */
  lemma NothingTakenBack(from: System, steps: seq<Step>, to: System)
    requires Safe(from) && Run(from, steps, to)
    ensures Keeps(from, to)
    ensures Flatten(from.batches) + from.registry.samples <= Flatten(to.batches) + to.registry.samples
  {
    EveryRunKeeps(from, steps, to);
    EveryRunSafe(from, steps, to);
  }

  // ----- which minimum allows a publication -----

  /** The buffer cannot hold so many samples of this length: either there is no
      room, or the bytes of all but one of them already start the training. */
  predicate OutOfReach(minSamples: nat, length: nat) {
    minSamples > 24 || (minSamples - 1) * length >= 65536
  }

  ghost predicate AtLeast(samples: seq<Bytes>, length: nat) {
    forall x :: x in samples ==> |x| >= length
  }

  /** No batch in training has the minimum it was taken under. */
  ghost predicate Starved(s: System, length: nat) {
    && !s.registry.complete && OutOfReach(s.registry.minSamples, length) && AtLeast(s.registry.samples, length)
    && forall i :: 0 <= i < |s.threads| && s.threads[i].position.Training? ==>
         |s.threads[i].position.batch| < s.threads[i].position.minSamples
  }

  /** A setting that takes effect is out of reach; a sample that may be taken is
      of this length at least. */
  predicate AsksTooMuch(step: Step, length: nat) {
    match step
    case Configure(minSamples) => minSamples <= 0 || OutOfReach(minSamples, length)
    case Offer(_, sample) => |sample| < 1024 || |sample| >= length
    case _ => true
  }

  predicate AllAskTooMuch(steps: seq<Step>, length: nat) {
    forall i :: 0 <= i < |steps| ==> AsksTooMuch(steps[i], length)
  }

  lemma {:induction false} TotalAtLeast(samples: seq<Bytes>, length: nat)
    requires AtLeast(samples, length)
    ensures TotalLength(samples) >= |samples| * length
  {
    if samples != [] {
      assert samples[0] in samples;
      TotalAtLeast(samples[1..], length);
      OneMore(|samples| - 1, length);
    }
  }

  lemma TimesBelow(a: nat, b: nat, length: nat)
    requires a * length < b * length
    ensures a < b
  {
    assert a >= b ==> a * length == b * length + (a - b) * length;
  }

  lemma OneMore(n: int, length: nat)
    ensures (n + 1) * length == n * length + length
  {
  }

  lemma BatchTooSmall(r: Registry, sample: Bytes, applied: nat, length: nat)
    requires Sound(r) && OutOfReach(r.minSamples, length) && AtLeast(r.samples, length)
    requires |sample| >= MIN_TRAINING_SAMPLE_BYTES && OfferResult(r, sample, applied).Batch?
    ensures |OfferResult(r, sample, applied).samples| < OfferResult(r, sample, applied).minSamples
  {
    OfferSound(r, sample, applied);
    if r.minSamples <= MAX_TRAINING_SAMPLES {
      TotalAtLeast(r.samples, length);
      TimesBelow(|r.samples|, r.minSamples - 1, length);
    }
  }

  lemma OfferStarved(s: System, t: nat, sample: Bytes, length: nat)
    requires Safe(s) && Starved(s, length) && t < |s.threads| && s.threads[t].position.Idle?
    requires |sample| >= MIN_TRAINING_SAMPLE_BYTES && |sample| >= length
    ensures Starved(NextOffer(s, t, sample), length)
  {
    var r, taken := s.registry, OfferResult(s.registry, sample, s.threads[t].applied);
    if taken.Batch? {
      BatchTooSmall(r, sample, s.threads[t].applied, length);
    }
    OfferSound(r, sample, s.threads[t].applied);
    OfferStarts(r, sample);
    OfferLeaves(r, sample);
    hide Sound, OneTrains, EntriesAgree, Conserved, PublishedOnce, OutOfReach, AfterOffer, OfferResult;
  }

  /** What an offer leaves in the buffer was there or is the sample. */
  lemma OfferLeaves(r: Registry, sample: Bytes)
    ensures forall x :: x in AfterOffer(r, sample).samples ==> x in r.samples || x == sample
  {
  }

  lemma StepStarved(s: System, step: Step, length: nat)
    requires Safe(s) && Starved(s, length) && Enabled(s, step) && AsksTooMuch(step, length)
    ensures Starved(Next(s, step), length)
  {
    hide OneTrains, EntriesAgree, Conserved, PublishedOnce, NextOffer, Sound;
    match step {
      case Offer(t, sample) =>
        if |sample| >= MIN_TRAINING_SAMPLE_BYTES {
          OfferStarved(s, t, sample, length);
        }
      case _ =>
    }
  }

  /** Main result: while every minimum in force is out of reach of the samples
      offered, nothing is ever published. */
  lemma {:induction false} StarvedRuns(from: System, steps: seq<Step>, to: System, length: nat)
    requires Safe(from) && Starved(from, length) && Run(from, steps, to) && AllAskTooMuch(steps, length)
    ensures Starved(to, length) && Safe(to)
    decreases steps
  {
    if steps != [] {
      StepSafe(from, steps[0]);
      StepStarved(from, steps[0], length);
      hide Safe, Enabled, Next, Starved, AsksTooMuch;
      StarvedRuns(Next(from, steps[0]), steps[1..], to, length);
    }
  }

  function Zeros(length: nat): Bytes {
    seq(length, _ => 0)
  }

  function Copies(k: nat, length: nat): seq<Bytes> {
    seq(k, _ => Zeros(length))
  }

  /** After so many samples of this length, fewer than the minimum. */
  function Gathering(threads: nat, minSamples: nat, length: nat, k: nat): System {
    Start(threads).(
      registry := FRESH.(minSamples := minSamples, samples := Copies(k, length), totalBytes := k * length),
      accepted := Copies(k, length))
  }

  /** Only the samples matter: none is shorter, and nothing is configured. */
  predicate Feeds(steps: seq<Step>, length: nat) {
    forall i :: 0 <= i < |steps| ==> !steps[i].Configure? && (steps[i].Offer? ==> |steps[i].sample| >= length)
  }

  lemma GathersOneMore(threads: nat, minSamples: nat, length: nat, k: nat)
    requires 1 <= threads && k + 1 < minSamples && !OutOfReach(minSamples, length) && length >= MIN_TRAINING_SAMPLE_BYTES
    ensures Next(Gathering(threads, minSamples, length, k), Offer(0, Zeros(length))) == Gathering(threads, minSamples, length, k + 1)
  {
    var s := Gathering(threads, minSamples, length, k);
    FewerBytes(k + 1, minSamples - 1, length);
    OneMore(k, length);
    assert Copies(k, length) + [Zeros(length)] == Copies(k + 1, length);
    assert s.threads[0 := NEW_THREAD] == s.threads;
    var bytes, total := k * length, (k + 1) * length;
    assert total == bytes + length && total < TARGET_TRAINING_CORPUS_BYTES;
    hide OutOfReach;
  }

  lemma FewerBytes(a: nat, b: nat, length: nat)
    requires a <= b
    ensures a * length <= b * length
  {
    assert b * length == a * length + (b - a) * length;
  }

  lemma {:induction false} FillAndPublish(threads: nat, minSamples: nat, length: nat, k: nat) returns (steps: seq<Step>, to: System)
    requires 1 <= threads && k < minSamples && !OutOfReach(minSamples, length) && length >= MIN_TRAINING_SAMPLE_BYTES
    ensures Feeds(steps, length) && Run(Gathering(threads, minSamples, length, k), steps, to) && to.registry.complete
    decreases minSamples - k
  {
    var s, offer := Gathering(threads, minSamples, length, k), Offer(0, Zeros(length));
    if k + 1 < minSamples {
      GathersOneMore(threads, minSamples, length, k);
      assert Enabled(s, offer);
      hide Next, Gathering;
      var rest;
      rest, to := FillAndPublish(threads, minSamples, length, k + 1);
      steps := [offer] + rest;
      assert steps[1..] == rest;
    } else {
      var report := Report(0, [1]);
      var taken := Next(s, offer);
      assert |taken.threads[0].position.batch| == minSamples;
      to := Next(taken, report);
      steps := [offer, report];
      assert Run(taken, [report], to) by {
        assert [report][1..] == [];
      }
      assert steps[1..] == [report];
    }
  }

  ghost predicate CanPublish(threads: nat, minSamples: int, length: nat) {
    exists steps, to :: Feeds(steps, length) && Run(Start(threads), [Configure(minSamples)] + steps, to) && to.registry.complete
  }

  /** Main result: after the minimum is set once, some run on samples of at
      least this length publishes exactly if the buffer can hold that many of
      them before their bytes start the training. */
  lemma PublishesExactlyWithinReach(threads: nat, minSamples: int, length: nat)
    requires threads >= 1 && minSamples >= 1 && length >= 1024
    ensures CanPublish(threads, minSamples, length) <==> !OutOfReach(minSamples, length)
  {
    var first, start := Configure(minSamples), Start(threads);
    var next := Next(start, first);
    StartSafe(threads);
    StepSafe(start, first);
    if !OutOfReach(minSamples, length) {
      var steps, to := FillAndPublish(threads, minSamples, length, 0);
      assert next == Gathering(threads, minSamples, length, 0);
      assert ([first] + steps)[1..] == steps;
    } else if CanPublish(threads, minSamples, length) {
      var steps, to :| Feeds(steps, length) && Run(start, [first] + steps, to) && to.registry.complete;
      assert ([first] + steps)[1..] == steps;
      StarvedRuns(next, steps, to, length);
      assert false;
    }
  }

  // ----- every thread gets what was published -----

  lemma {:induction false} RunsJoin(a: System, first: seq<Step>, b: System, second: seq<Step>, c: System)
    requires Run(a, first, b) && Run(b, second, c)
    ensures Run(a, first + second, c)
    decreases first
  {
    hide Enabled, Next;
    if first == [] {
      assert first + second == second;
    } else {
      assert (first + second)[1..] == first[1..] + second;
      RunsJoin(Next(a, first[0]), first[1..], b, second, c);
    }
  }

  lemma OneStep(s: System, step: Step)
    requires Enabled(s, step)
    ensures Run(s, [step], Next(s, step))
  {
    assert [step][1..] == [];
  }

  /** The thread has the published compressor and is idle again. */
  predicate CaughtUp(s: System, t: nat)
    requires t < |s.threads|
  {
    s.threads[t] == Thread(Idle, 1, Some(s.registry.serialized))
  }

  /** Only this thread has moved. */
  predicate OnlyMoved(s: System, t: nat, to: System) {
    t < |s.threads| == |to.threads| && to == s.(threads := s.threads[t := to.threads[t]])
  }

  /** What the thread has left to do. */
  function CatchUp(t: nat, position: Position): seq<Step> {
    match position
    case Idle => [Enter(t), Refresh(t), Apply(t, true)]
    case Refreshing => [Refresh(t), Apply(t, true)]
    case Applying(_, _) => [Apply(t, true)]
    case Training(_, _) => []
  }

  lemma ApplyCatchesUp(s: System, t: nat) returns (to: System)
    requires Safe(s) && t < |s.threads| && s.threads[t].position.Applying?
    ensures Run(s, [Apply(t, true)], to) && OnlyMoved(s, t, to) && CaughtUp(to, t)
  {
    OneStep(s, Apply(t, true));
    to := Next(s, Apply(t, true));
    assert EntryAgrees(s.threads[t], s.registry);
  }

  lemma RefreshCopies(s: System, t: nat)
    requires Safe(s) && s.registry.complete && t < |s.threads|
    requires s.threads[t].position.Refreshing? && s.threads[t].applied == 0
    ensures var n := Next(s, Refresh(t));
            OnlyMoved(s, t, n) && n.threads[t].position == Applying(s.registry.serialized, 1)
  {
  }

  lemma RefreshCatchesUp(s: System, t: nat) returns (to: System)
    requires Safe(s) && s.registry.complete && t < |s.threads|
    requires s.threads[t].position.Refreshing? && s.threads[t].applied == 0
    ensures Run(s, [Refresh(t), Apply(t, true)], to) && OnlyMoved(s, t, to) && CaughtUp(to, t)
  {
    var step := Refresh(t);
    RefreshCopies(s, t);
    StepSafe(s, step);
    hide Safe;
    to := ApplyCatchesUp(Next(s, step), t);
    OneStep(s, step);
    hide Run, Next;
    RunsJoin(s, [step], Next(s, step), [Apply(t, true)], to);
  }

  lemma EnterCatchesUp(s: System, t: nat) returns (to: System)
    requires Safe(s) && s.registry.complete && t < |s.threads|
    requires s.threads[t].position.Idle? && s.threads[t].applied == 0
    ensures Run(s, [Enter(t), Refresh(t), Apply(t, true)], to) && OnlyMoved(s, t, to) && CaughtUp(to, t)
  {
    var step := Enter(t);
    StepSafe(s, step);
    hide Safe;
    to := RefreshCatchesUp(Next(s, step), t);
    OneStep(s, step);
    hide Run, Next;
    RunsJoin(s, [step], Next(s, step), [Refresh(t), Apply(t, true)], to);
  }

  /** Main result: once a compressor is published, any thread without it that is
      not between two sections gets exactly that one by entering the refresh. */
  lemma PublishedIsApplied(s: System, t: nat) returns (to: System)
    requires Safe(s) && s.registry.complete && t < |s.threads|
    requires !s.threads[t].position.Training? && s.threads[t].applied == 0
    ensures Run(s, CatchUp(t, s.threads[t].position), to) && OnlyMoved(s, t, to) && CaughtUp(to, t)
  {
    hide Safe, Run, CaughtUp, OnlyMoved;
    match s.threads[t].position {
      case Idle => to := EnterCatchesUp(s, t);
      case Refreshing => to := RefreshCatchesUp(s, t);
      case Applying(_, _) => to := ApplyCatchesUp(s, t);
    }
  }

  lemma OfferOnComplete(s: System, t: nat, sample: Bytes)
    requires Safe(s) && s.registry.complete && t < |s.threads| && s.threads[t].position.Idle? && |sample| >= 1024
    ensures Next(s, Offer(t, sample)) == if s.threads[t].applied == 0 then Moved(s, t, Refreshing) else s
  {
    hide OneTrains, Conserved, PublishedOnce;
    assert EntryAgrees(s.threads[t], s.registry);
    OfferStarts(s.registry, sample);
    assert Moved(s, t, Idle).threads == s.threads;
  }

  /** Main result: a thread without it that offers a large enough payload instead
      is sent to the refresh as well, and gets it there; one that has it goes on. */
  lemma OfferLeadsToPublished(s: System, t: nat, sample: Bytes)
    requires Safe(s) && s.registry.complete && t < |s.threads| && s.threads[t].position.Idle?
    requires |sample| >= 1024
    ensures s.threads[t].applied == 0 ==>
              && Next(s, Offer(t, sample)) == Moved(s, t, Refreshing)
              && exists to :: Run(s, [Offer(t, sample), Refresh(t), Apply(t, true)], to) && OnlyMoved(s, t, to) && CaughtUp(to, t)
    ensures s.threads[t].applied == 1 ==> Next(s, Offer(t, sample)) == s
  {
    var step := Offer(t, sample);
    var n := Next(s, step);
    OfferOnComplete(s, t, sample);
    if s.threads[t].applied == 0 {
      StepSafe(s, step);
      hide Safe;
      var to := RefreshCatchesUp(n, t);
      OneStep(s, step);
      hide Run, Next;
      RunsJoin(s, [step], n, [Refresh(t), Apply(t, true)], to);
      assert [step] + [Refresh(t), Apply(t, true)] == [step, Refresh(t), Apply(t, true)];
    }
  }

  /** The thread that publishes uses its own result next. */
  lemma ReporterRefreshes(s: System, t: nat, trained: Bytes)
    requires Safe(s) && Enabled(s, Report(t, trained)) && trained != []
    ensures var n := Next(s, Report(t, trained));
            && n.registry.complete && n.registry.serialized == trained
            && n.threads[t].position == Refreshing && n.threads[t].applied == 0
  {
    assert EntryAgrees(s.threads[t], s.registry);
  }

  /** Main result: from every safe state with a published compressor some run
      leaves every thread with it. */
  lemma {:induction false} EveryThreadCatchesUp(s: System, k: nat) returns (steps: seq<Step>, to: System)
    requires Safe(s) && s.registry.complete && k <= |s.threads|
    ensures Run(s, steps, to) && Safe(to) && to.registry == s.registry && |to.threads| == |s.threads|
    ensures forall i :: 0 <= i < k ==> to.threads[i].applied == 1 && to.threads[i].compressor == Some(s.registry.serialized)
    decreases k
  {
    steps, to := [], s;
    if k > 0 {
      steps, to := EveryThreadCatchesUp(s, k - 1);
      var middle, t := to, k - 1;
      NobodyTrains(middle, t);
      if middle.threads[t].applied == 0 {
        var more := CatchUp(t, middle.threads[t].position);
        to := PublishedIsApplied(middle, t);
        hide Safe, Run, CatchUp;
        RunsJoin(s, steps, middle, more, to);
        EveryRunSafe(middle, more, to);
        steps := steps + more;
      }
    }
  }

  lemma NobodyTrains(s: System, t: nat)
    requires Safe(s) && s.registry.complete && t < |s.threads|
    ensures !s.threads[t].position.Training? && s.threads[t].applied <= 1
    ensures s.threads[t].applied == 1 ==> s.threads[t].compressor == Some(s.registry.serialized)
  {
    assert EntryAgrees(s.threads[t], s.registry);
  }
}
