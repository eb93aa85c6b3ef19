/** The training registry of one message type: the state behind the mutex, and
    the four critical sections that read or change it. Registries of different
    types share nothing. */
module TrainingRegistry {

  import opened Results
  import opened LittleEndian

  type Bytes = seq<Byte>

  const MIN_TRAINING_SAMPLES: nat := 4
  const MAX_TRAINING_SAMPLES: nat := 24
  const MIN_TRAINING_SAMPLE_BYTES: nat := 1024
  const TARGET_TRAINING_CORPUS_BYTES: nat := 65536

  /** The fields of the state, as one value. */
  datatype Registry = Registry(complete: bool, inProgress: bool, generation: nat, totalBytes: nat,
                               samples: seq<Bytes>, serialized: Bytes, minSamples: nat, targetBytes: nat)

  const FRESH := Registry(false, false, 0, 0, [], [], MIN_TRAINING_SAMPLES, TARGET_TRAINING_CORPUS_BYTES)

  /** What a thread takes away from the section in which it offers a sample. */
  datatype Offered = Nothing | UseExisting | Batch(samples: seq<Bytes>, minSamples: nat)

  /** The buffer takes a sample only while it gathers and has room. */
  predicate Accepts(r: Registry) {
    !r.complete && !r.inProgress && |r.samples| < MAX_TRAINING_SAMPLES
  }

  function Gathered(r: Registry, sample: Bytes): Registry {
    if Accepts(r) then r.(samples := r.samples + [sample], totalBytes := r.totalBytes + |sample|) else r
  }

  /** Enough samples, or enough bytes. */
  predicate Due(r: Registry) {
    !r.complete && !r.inProgress && r.samples != []
    && (|r.samples| >= r.minSamples || r.totalBytes >= r.targetBytes)
  }

  function AfterOffer(r: Registry, sample: Bytes): Registry {
    var g := Gathered(r, sample);
    if Due(g) then g.(inProgress := true, samples := [], totalBytes := 0) else g
  }

  function OfferResult(r: Registry, sample: Bytes, applied: nat): Offered {
    var g := Gathered(r, sample);
    if r.complete then if r.serialized != [] && r.generation > applied then UseExisting else Nothing
    else if Due(g) then Batch(g.samples, r.minSamples)
    else Nothing
  }

  function AfterReport(r: Registry, trained: Bytes): Registry {
    if trained == [] then r.(inProgress := false, complete := false)
    else r.(inProgress := false, complete := true, serialized := trained, generation := r.generation + 1)
  }

  function SnapshotFor(r: Registry, applied: nat): Option<(Bytes, nat)> {
    if r.complete && r.serialized != [] && r.generation > applied then Some((r.serialized, r.generation)) else None
  }

  function AfterConfigure(r: Registry, minSamples: int): Registry {
    if minSamples <= 0 then r else r.(minSamples := minSamples)
  }

  class State {
    var trainingComplete: bool
    var trainingInProgress: bool
    var generation: nat
    var totalBytes: nat
    var samples: seq<Bytes>
    var serialized: Bytes
    var minSamples: nat
    var targetBytes: nat

    function Value(): Registry
      reads this
    {
      Registry(trainingComplete, trainingInProgress, generation, totalBytes, samples, serialized, minSamples, targetBytes)
    }

    constructor ()
      ensures Value() == FRESH && Sound(Value()) && !trainingComplete && minSamples == 4 && targetBytes == 65536
    {
      trainingComplete, trainingInProgress := false, false;
      generation, totalBytes := 0, 0;
      samples, serialized := [], [];
      minSamples, targetBytes := MIN_TRAINING_SAMPLES, TARGET_TRAINING_CORPUS_BYTES;
    }

    /** The locked section in which a converting thread offers its payload. */
    method Offer(sample: Bytes, applied: nat) returns (taken: Offered)
      modifies this
      ensures Value() == AfterOffer(old(Value()), sample)
      ensures taken == OfferResult(old(Value()), sample, applied)
    {
      var minSamplesForTraining := minSamples;
      taken := Nothing;
      if trainingComplete {
        if serialized != [] && generation > applied {
          taken := UseExisting;
        }
      } else if !trainingInProgress {
        if |samples| < MAX_TRAINING_SAMPLES {
          samples := samples + [sample];
          totalBytes := totalBytes + |sample|;
        }
        var thresholdReached := |samples| >= minSamples || totalBytes >= targetBytes;
        if thresholdReached && samples != [] {
          trainingInProgress := true;
          taken := Batch(samples, minSamplesForTraining);
          samples := [];
          totalBytes := 0;
        }
      }
    }

    /** The locked section in which the training thread reports its result;
        nothing trained is the empty string. */
    method Report(trained: Bytes) returns (publish: bool)
      modifies this
      ensures Value() == AfterReport(old(Value()), trained)
      ensures publish == (trained != [])
    {
      publish := false;
      trainingInProgress := false;
      if trained != [] {
        serialized := trained;
        trainingComplete := true;
        generation := generation + 1;
        publish := true;
      } else {
        trainingComplete := false;
      }
    }

    /** The locked section that copies the published compressor for a thread
        whose entry is behind. */
    method Snapshot(applied: nat) returns (copy: Option<(Bytes, nat)>)
      ensures copy == SnapshotFor(Value(), applied)
    {
      if !trainingComplete {
        return None;
      }
      if serialized == [] {
        return None;
      }
      if generation <= applied {
        return None;
      }
      copy := Some((serialized, generation));
    }

    /** The native half of configureTraining; a non-positive count is ignored. */
    method Configure(newMinSamples: int)
      modifies this
      ensures Value() == AfterConfigure(old(Value()), newMinSamples)
    {
      if newMinSamples <= 0 {
        return;
      }
      minSamples := newMinSamples;
    }
  }

  // ----- what every section keeps -----

  function TotalLength(samples: seq<Bytes>): nat {
    if samples == [] then 0 else |samples[0]| + TotalLength(samples[1..])
  }

  lemma {:induction false} TotalLengthSnoc(samples: seq<Bytes>, sample: Bytes)
    ensures TotalLength(samples + [sample]) == TotalLength(samples) + |sample|
  {
    if samples == [] {
      assert samples + [sample] == [sample];
    } else {
      TotalLengthSnoc(samples[1..], sample);
      assert (samples + [sample])[1..] == samples[1..] + [sample];
    }
  }

  /** What holds of the registry whenever its mutex is free. */
  ghost predicate Sound(r: Registry) {
    && r.minSamples >= 1 && r.targetBytes == TARGET_TRAINING_CORPUS_BYTES
    && !(r.complete && r.inProgress)
    && (r.complete <==> r.serialized != [])
    && (r.complete <==> r.generation == 1) && r.generation <= 1
    && (r.complete || r.inProgress ==> r.samples == [])
    && r.totalBytes == TotalLength(r.samples) < r.targetBytes
    && |r.samples| <= MAX_TRAINING_SAMPLES
    && forall s :: s in r.samples ==> |s| >= MIN_TRAINING_SAMPLE_BYTES
  }

  /** Offering a sample keeps the registry sound. A thread that leaves with a
      batch has started the only training; the batch is the whole buffer with
      the sample, and is never empty or larger than the buffer. */
  lemma OfferSound(r: Registry, sample: Bytes, applied: nat)
    requires Sound(r) && |sample| >= MIN_TRAINING_SAMPLE_BYTES
    ensures Sound(AfterOffer(r, sample))
    ensures OfferResult(r, sample, applied).Batch? <==> !r.inProgress && AfterOffer(r, sample).inProgress
    ensures OfferResult(r, sample, applied).Batch? ==>
              && OfferResult(r, sample, applied).samples == Gathered(r, sample).samples
              && 1 <= |OfferResult(r, sample, applied).samples| <= MAX_TRAINING_SAMPLES
              && OfferResult(r, sample, applied).minSamples == r.minSamples
    ensures !OfferResult(r, sample, applied).Batch? ==>
              AfterOffer(r, sample).samples == Gathered(r, sample).samples
  {
    TotalLengthSnoc(r.samples, sample);
  }

  /** What an offer does, by what the registry holds: a published compressor is
      offered to whoever has none; while nobody trains, the sample joins the
      buffer if fewer than 24 are there, and the buffer is taken as a batch
      exactly when it then has the minimum of samples or 64 KiB of them. */
  lemma OfferTakesExactly(r: Registry, sample: Bytes, applied: nat)
    requires Sound(r) && |sample| >= 1024
    ensures var all := if |r.samples| < 24 then r.samples + [sample] else r.samples;
            var n, taken := AfterOffer(r, sample), OfferResult(r, sample, applied);
            if r.complete then n == r && taken == (if applied == 0 then UseExisting else Nothing)
            else if r.inProgress then n == r && taken == Nothing
            else if |all| >= r.minSamples || TotalLength(all) >= 65536 then
              taken == Batch(all, r.minSamples) && n == r.(inProgress := true, samples := [], totalBytes := 0)
            else
              taken == Nothing && n == r.(samples := all, totalBytes := TotalLength(all))
  {
    TotalLengthSnoc(r.samples, sample);
  }

  /** Under a minimum above the capacity of the buffer, a section leaves the
      registry as it is exactly when the buffer does not accept the sample: once
      full, the buffer stays full and every later sample is dropped. */
  lemma FullBufferDrops(r: Registry, sample: Bytes)
    requires Sound(r) && |sample| >= MIN_TRAINING_SAMPLE_BYTES && r.minSamples > MAX_TRAINING_SAMPLES
    ensures AfterOffer(r, sample) == r <==> !Accepts(r)
  {
    if Accepts(r) {
      assert |Gathered(r, sample).samples| == |r.samples| + 1;
      assert AfterOffer(r, sample).inProgress || AfterOffer(r, sample).samples == r.samples + [sample];
    }
  }
}
