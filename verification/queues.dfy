/** Per-phase queue statistics (`calculate_queue_lengths`) and their
    short-horizon projection under a hypothesised signal colour
    (`predict_queue_length`). The projection's Poisson draws are inputs: `rng`
    gives the value of the draw at each position of the random stream. */
module QueueStats {
  import opened Wrappers
  import opened Text
  import Seqs
  import PyDict

  // ---------------------------------------------------------------------------
  // calculate_queue_lengths
  // ---------------------------------------------------------------------------

  /** One phase's entry: 'total_length', 'count', 'max_length', 'average_length'. */
  datatype PhaseQueue = PhaseQueue(totalLength: real, count: nat, maxLength: real, averageLength: real)

  /** Python's `max(a, b)` on numbers. */
  function Max(a: real, b: real): real {
    if b > a then b else a
  }

  /** The jam length of one phase movement: the movement is rewritten from
      "edge--d" to "edge_d" and looked up with `list.index` (ValueError when
      absent), then indexed into the jam lengths (IndexError past their end). */
  function JamLength(movementIds: seq<string>, jamLengths: seq<real>, movement: string): (r: Result<real, PyError>)
    ensures r.Success? <==>
      DashesToUnderscore(movement) in movementIds &&
      Seqs.IndexOf(movementIds, DashesToUnderscore(movement)).value < |jamLengths|
    ensures r.Success? ==> r.value == jamLengths[Seqs.IndexOf(movementIds, DashesToUnderscore(movement)).value]
    ensures r.Failure? && DashesToUnderscore(movement) !in movementIds ==> r.error == ValueError
  {
    match Seqs.IndexOf(movementIds, DashesToUnderscore(movement))
    case None => Failure(ValueError)
    case Some(i) => if i < |jamLengths| then Success(jamLengths[i]) else Failure(IndexError)
  }

  /** The jam lengths of a phase's movements, in order, stopping at the first exception. */
  function PhaseLengths(movementIds: seq<string>, jamLengths: seq<real>, movements: seq<string>)
    : (r: Result<seq<real>, PyError>)
    ensures r.Success? <==> forall k :: 0 <= k < |movements| ==> JamLength(movementIds, jamLengths, movements[k]).Success?
    ensures r.Success? ==>
      && |r.value| == |movements|
      && forall k :: 0 <= k < |movements| ==> r.value[k] == JamLength(movementIds, jamLengths, movements[k]).value
  {
    if |movements| == 0 then Success([])
    else
      match PhaseLengths(movementIds, jamLengths, movements[..|movements| - 1])
      case Failure(e) => Failure(e)
      case Success(ls) =>
        match JamLength(movementIds, jamLengths, movements[|movements| - 1])
        case Failure(e) => Failure(e)
        case Success(l) => Success(ls + [l])
  }

  /** The running totals after the inner loop over a phase's movements, before
      the averages are filled in. */
  function Accumulate(lengths: seq<real>): (q: PhaseQueue)
  {
    if |lengths| == 0 then PhaseQueue(0.0, 0, 0.0, 0.0)
    else
      var q := Accumulate(lengths[..|lengths| - 1]);
      var l := lengths[|lengths| - 1];
      q.(totalLength := q.totalLength + l, count := q.count + 1, maxLength := Max(q.maxLength, l))
  }

  /** The final pass: the average is total/count when count > 0 and stays 0.0 otherwise. */
  function WithAverage(q: PhaseQueue): PhaseQueue {
    if q.count > 0 then q.(averageLength := q.totalLength / q.count as real) else q
  }

  /** What a phase's entry means: `count` is the number of movements, the total
      is their sum, the maximum is at least 0 and at least every member length
      and is 0 or one of them, and the average is total/count or 0.0. */
  lemma {:induction false} PhaseQueueMeaning(lengths: seq<real>)
    ensures var q := WithAverage(Accumulate(lengths));
      && q.count == |lengths|
      && q.totalLength == Seqs.Sum(lengths)
      && q.maxLength >= 0.0
      && (forall k :: 0 <= k < |lengths| ==> q.maxLength >= lengths[k])
      && (q.maxLength == 0.0 || exists k :: 0 <= k < |lengths| && q.maxLength == lengths[k])
      && q.averageLength == if |lengths| > 0 then Seqs.Sum(lengths) / |lengths| as real else 0.0
  {
    if |lengths| > 0 {
      var init := lengths[..|lengths| - 1];
      PhaseQueueMeaning(init);
      var q := Accumulate(init);
      var l := lengths[|lengths| - 1];
      if q.maxLength != 0.0 && Max(q.maxLength, l) == q.maxLength {
        var k :| 0 <= k < |init| && q.maxLength == init[k];
        assert lengths[k] == init[k];
      }
    }
  }

  /** Every phase's movements resolve to jam lengths. */
  predicate AllResolve(movementIds: seq<string>, jamLengths: seq<real>, phases: seq<(int, seq<string>)>) {
    forall p :: 0 <= p < |phases| ==> PhaseLengths(movementIds, jamLengths, phases[p].1).Success?
  }

  /** All phases resolve exactly when all but the last do and the last does. */
  lemma AllResolveSnoc(movementIds: seq<string>, jamLengths: seq<real>, phases: seq<(int, seq<string>)>)
    requires |phases| > 0
    ensures AllResolve(movementIds, jamLengths, phases) <==>
      AllResolve(movementIds, jamLengths, phases[..|phases| - 1]) &&
      PhaseLengths(movementIds, jamLengths, phases[|phases| - 1].1).Success?
  {
    var init := phases[..|phases| - 1];
    assert forall p :: 0 <= p < |init| ==> init[p] == phases[p];
  }

  /** `calculate_queue_lengths` over the phase entries, in phase order. */
  function QueueLengthsOf(movementIds: seq<string>, jamLengths: seq<real>, phases: seq<(int, seq<string>)>)
    : (r: Result<seq<(int, PhaseQueue)>, PyError>)
    ensures r.Success? <==> AllResolve(movementIds, jamLengths, phases)
    ensures r.Success? ==> QueueEntries(movementIds, jamLengths, phases, r.value)
  {
    if |phases| == 0 then Success([])
    else
      var init := phases[..|phases| - 1];
      AllResolveSnoc(movementIds, jamLengths, phases);
      match QueueLengthsOf(movementIds, jamLengths, init)
      case Failure(e) => Failure(e)
      case Success(qs) =>
        var last := phases[|phases| - 1];
        match PhaseLengths(movementIds, jamLengths, last.1)
        case Failure(e) => Failure(e)
        case Success(ls) =>
          QueueEntriesSnoc(movementIds, jamLengths, phases, qs);
          Success(qs + [(last.0, WithAverage(Accumulate(ls)))])
  }

  /** `qs` holds, per phase and in phase order, the phase key and the
      statistics of its movements' jam lengths. */
  predicate QueueEntries(movementIds: seq<string>, jamLengths: seq<real>, phases: seq<(int, seq<string>)>,
                         qs: seq<(int, PhaseQueue)>)
  {
    && |qs| == |phases|
    && forall p :: 0 <= p < |phases| ==>
      PhaseLengths(movementIds, jamLengths, phases[p].1).Success? &&
      qs[p] == (phases[p].0, WithAverage(Accumulate(PhaseLengths(movementIds, jamLengths, phases[p].1).value)))
  }

  /** The entries of all phases extend those of all but the last by the last one's. */
  lemma QueueEntriesSnoc(movementIds: seq<string>, jamLengths: seq<real>, phases: seq<(int, seq<string>)>,
                         qs: seq<(int, PhaseQueue)>)
    requires |phases| > 0
    requires QueueEntries(movementIds, jamLengths, phases[..|phases| - 1], qs)
    requires PhaseLengths(movementIds, jamLengths, phases[|phases| - 1].1).Success?
    ensures
      var last := phases[|phases| - 1];
      QueueEntries(movementIds, jamLengths, phases,
        qs + [(last.0, WithAverage(Accumulate(PhaseLengths(movementIds, jamLengths, last.1).value)))])
  {
    var init := phases[..|phases| - 1];
    assert forall p :: 0 <= p < |init| ==> init[p] == phases[p];
  }

  /** `calculate_queue_lengths`: one entry per phase key, in phase order. */
  function CalculateQueueLengths(movementIds: seq<string>, jamLengths: seq<real>,
                                 phase2movements: PyDict.Dict<int, seq<string>>)
    : (r: Result<PyDict.Dict<int, PhaseQueue>, PyError>)
    requires phase2movements.Valid()
    ensures r.Success? ==> r.value.Valid() && r.value.Keys() == phase2movements.Keys()
    ensures r.Success? <==> forall p, k :: 0 <= p < |phase2movements.entries| && 0 <= k < |phase2movements.entries[p].1| ==>
      JamLength(movementIds, jamLengths, phase2movements.entries[p].1[k]).Success?
    ensures r.Success? ==> forall p :: 0 <= p < |phase2movements.entries| ==>
      r.value.entries[p].1.count == |phase2movements.entries[p].1|
    ensures r.Success? ==> QueueEntries(movementIds, jamLengths, phase2movements.entries, r.value.entries)
  {
    match QueueLengthsOf(movementIds, jamLengths, phase2movements.entries)
    case Failure(e) => Failure(e)
    case Success(entries) =>
      var d := PyDict.Dict(entries);
      assert d.Keys() == phase2movements.Keys();
      forall p | 0 <= p < |entries|
        ensures entries[p].1.count == |phase2movements.entries[p].1|
      {
        PhaseQueueMeaning(PhaseLengths(movementIds, jamLengths, phase2movements.entries[p].1).value);
      }
      Success(d)
  }

  /** The docstring's situation: no movement is queued, so every phase reports
      zero total, maximum and average lengths. */
  lemma EmptyQueuesExample(movementIds: seq<string>, jamLengths: seq<real>, phase2movements: PyDict.Dict<int, seq<string>>)
    requires phase2movements.Valid()
    requires forall i :: 0 <= i < |jamLengths| ==> jamLengths[i] == 0.0
    requires CalculateQueueLengths(movementIds, jamLengths, phase2movements).Success?
    ensures forall p :: 0 <= p < |phase2movements.entries| ==>
      var q := CalculateQueueLengths(movementIds, jamLengths, phase2movements).value.entries[p].1;
      q.totalLength == 0.0 && q.maxLength == 0.0 && q.averageLength == 0.0
  {
    var phases := phase2movements.entries;
    var all := QueueLengthsOf(movementIds, jamLengths, phases);
    assert all.Success?;
    forall p | 0 <= p < |phases|
      ensures var q := CalculateQueueLengths(movementIds, jamLengths, phase2movements).value.entries[p].1;
        q.totalLength == 0.0 && q.maxLength == 0.0 && q.averageLength == 0.0
    {
      var ls := PhaseLengths(movementIds, jamLengths, phases[p].1).value;
      assert CalculateQueueLengths(movementIds, jamLengths, phase2movements).value.entries[p].1
        == WithAverage(Accumulate(ls));
      ZeroPhase(movementIds, jamLengths, phases[p].1);
    }
  }

  /** A phase whose movements all have zero jam length has zero statistics. */
  lemma ZeroPhase(movementIds: seq<string>, jamLengths: seq<real>, movements: seq<string>)
    requires forall i :: 0 <= i < |jamLengths| ==> jamLengths[i] == 0.0
    requires PhaseLengths(movementIds, jamLengths, movements).Success?
    ensures var q := WithAverage(Accumulate(PhaseLengths(movementIds, jamLengths, movements).value));
      q.totalLength == 0.0 && q.maxLength == 0.0 && q.averageLength == 0.0
  {
    var ls := PhaseLengths(movementIds, jamLengths, movements).value;
    assert |ls| == |movements|;
    forall k | 0 <= k < |ls|
      ensures ls[k] == 0.0
    {
      var jam := JamLength(movementIds, jamLengths, movements[k]);
      assert jam.Success? && ls[k] == jam.value;
      var idx := Seqs.IndexOf(movementIds, DashesToUnderscore(movements[k])).value;
      assert idx < |jamLengths| && jam.value == jamLengths[idx];
    }
    PhaseQueueMeaning(ls);
    Seqs.SumConstant(ls, 0.0);
  }

  // ---------------------------------------------------------------------------
  // predict_queue_length
  // ---------------------------------------------------------------------------

  /** Departure rate λ when the phase turns green. */
  const LeavingRate: nat := 4
  /** Arrival rate λ used for the 'max_length' statistic. */
  const MaxArrivalRate: nat := 3
  /** Arrival rate λ used for the 'average_length' statistic. */
  const AverageArrivalRate: nat := 2
  /** Queue length per vehicle. */
  const VehicleLength: int := 6

  /** The value of the Poisson draw at a given position of the random stream,
      drawn with the given rate. */
  type Rng = (nat, nat) -> nat

  /** The statistic keys kept by the projection. */
  predicate Projected(key: string) {
    key == "max_length" || key == "average_length"
  }

  /** The arrival rate for a statistic key, or None for keys that are skipped. */
  function ArrivalRate(key: string): Option<nat> {
    if key == "max_length" then Some(MaxArrivalRate)
    else if key == "average_length" then Some(AverageArrivalRate)
    else None
  }

  /** Stream positions consumed by one sample: an arrival, and under green a departure. */
  function DrawsPerSample(isGreen: bool): nat {
    if isGreen then 2 else 1
  }

  /** The vehicle-count change of sample `k` of a key whose draws start at `start`. */
  function SampleDelta(rng: Rng, start: nat, rate: nat, isGreen: bool, k: nat): int {
    if isGreen then rng(start + 2 * k, rate) as int - rng(start + 2 * k + 1, LeavingRate) as int
    else rng(start + k, rate) as int
  }

  /** The sum of the first `n` sample deltas. */
  function SampleSum(rng: Rng, start: nat, rate: nat, isGreen: bool, n: nat): int {
    if n == 0 then 0 else SampleSum(rng, start, rate, isGreen, n - 1) + SampleDelta(rng, start, rate, isGreen, n - 1)
  }

  /** `max(q + sample_sum * 6 / num_samples, 0)`. */
  function Projection(q: real, sampleSum: int, numSamples: int): real
    requires numSamples != 0
  {
    Max(0.0, q + (sampleSum * VehicleLength) as real / numSamples as real)
  }

  /** The number of loop iterations `range(num_samples)` performs. */
  function Iterations(numSamples: int): nat {
    if numSamples > 0 then numSamples else 0
  }

  /** Stream positions consumed by one projected key: every sample's draws. */
  function Stride(isGreen: bool, numSamples: int): nat {
    DrawsPerSample(isGreen) * Iterations(numSamples)
  }

  /** The stream position where the `i`-th projected key starts drawing. */
  function KeyStart(start: nat, isGreen: bool, numSamples: int, i: nat): (pos: nat)
    ensures pos >= start
  {
    if i == 0 then start else KeyStart(start, isGreen, numSamples, i - 1) + Stride(isGreen, numSamples)
  }

  /** The entries whose key is projected, in input order. */
  function ProjectedEntries(entries: seq<(string, real)>): (pe: seq<(string, real)>)
    ensures |pe| <= |entries|
    ensures forall i :: 0 <= i < |pe| ==> Projected(pe[i].0) && pe[i] in entries
  {
    if |entries| == 0 then []
    else
      var prev := ProjectedEntries(entries[..|entries| - 1]);
      var last := entries[|entries| - 1];
      if Projected(last.0) then prev + [last] else prev
  }

  /** The reference for the projection: the `i`-th projected entry `(key, q)`
      becomes `(key, max(q + sum * 6 / num_samples, 0))`, its samples drawn from
      its own stretch of the stream, and the stream ends after the last stretch. */
  predicate ProjectsAs(pe: seq<(string, real)>, isGreen: bool, numSamples: int, rng: Rng, start: nat,
                       out: seq<(string, real)>, next: nat)
  {
    && |out| == |pe|
    && next == KeyStart(start, isGreen, numSamples, |pe|)
    && forall i :: 0 <= i < |pe| ==>
         && numSamples != 0
         && ArrivalRate(pe[i].0).Some?
         && out[i] == (pe[i].0, Projection(pe[i].1,
              SampleSum(rng, KeyStart(start, isGreen, numSamples, i), ArrivalRate(pe[i].0).value, isGreen, Iterations(numSamples)),
              numSamples))
  }

  /** One more projected entry extends the reference by its projection. */
  lemma ProjectsAsSnoc(pe: seq<(string, real)>, isGreen: bool, numSamples: int, rng: Rng, start: nat,
                       out: seq<(string, real)>, next: nat, e: (string, real))
    requires ProjectsAs(pe, isGreen, numSamples, rng, start, out, next)
    requires Projected(e.0) && numSamples != 0
    ensures ProjectsAs(pe + [e], isGreen, numSamples, rng, start,
      out + [(e.0, Projection(e.1, SampleSum(rng, next, ArrivalRate(e.0).value, isGreen, Iterations(numSamples)), numSamples))],
      next + Stride(isGreen, numSamples))
  {
    assert forall i :: 0 <= i < |pe| ==> (pe + [e])[i] == pe[i];
  }

  /** `predict_queue_length` over the entries of `queue_info`, starting at
      stream position `start`. Returns the projections and the next unused
      stream position. A zero sample count divides by zero. */
  function PredictEntries(entries: seq<(string, real)>, isGreen: bool, numSamples: int, rng: Rng, start: nat)
    : (r: Result<(seq<(string, real)>, nat), PyError>)
    ensures r.Success? ==> r.value.1 >= start
    ensures r.Failure? ==> r == Failure(ZeroDivisionError) && numSamples == 0
    ensures r.Success? ==> ProjectsAs(ProjectedEntries(entries), isGreen, numSamples, rng, start, r.value.0, r.value.1)
    decreases |entries|
  {
    if |entries| == 0 then Success(([], start))
    else
      match PredictEntries(entries[..|entries| - 1], isGreen, numSamples, rng, start)
      case Failure(e) => Failure(e)
      case Success((out, next)) =>
        var (key, q) := entries[|entries| - 1];
        match ArrivalRate(key)
        case None => Success((out, next))
        case Some(rate) =>
          if numSamples == 0 then Failure(ZeroDivisionError)
          else
            var s := SampleSum(rng, next, rate, isGreen, Iterations(numSamples));
            ProjectsAsSnoc(ProjectedEntries(entries[..|entries| - 1]), isGreen, numSamples, rng, start, out, next, (key, q));
            Success((out + [(key, Projection(q, s, numSamples))], next + Stride(isGreen, numSamples)))
  }

  /** Keys and floor of the projection: exactly the 'max_length' and
      'average_length' entries are kept, in input order, each projected value is
      non-negative, and a zero sample count fails exactly when such a key exists. */
  lemma PredictEntriesShape(entries: seq<(string, real)>, isGreen: bool, numSamples: int, rng: Rng, start: nat)
    ensures var r := PredictEntries(entries, isGreen, numSamples, rng, start);
      && (r.Failure? <==> numSamples == 0 && exists i :: 0 <= i < |entries| && Projected(entries[i].0))
      && (r.Success? ==>
           && (forall i :: 0 <= i < |r.value.0| ==> r.value.0[i].1 >= 0.0 && Projected(r.value.0[i].0))
           && |r.value.0| <= |entries|
           && (forall key :: key in PyDict.Dict(r.value.0).Keys() <==> key in PyDict.Dict(entries).Keys() && Projected(key)))
  {
    PredictEntriesFails(entries, isGreen, numSamples, rng, start);
    PredictEntriesKeys(entries, isGreen, numSamples, rng, start);
    var r := PredictEntries(entries, isGreen, numSamples, rng, start);
    if r.Success? {
      var pe := ProjectedEntries(entries);
      forall i | 0 <= i < |r.value.0|
        ensures r.value.0[i].1 >= 0.0 && Projected(r.value.0[i].0)
      {
        assert Projected(pe[i].0);
      }
    }
  }

  /** A zero sample count fails exactly when a projected key exists. */
  lemma {:induction false} PredictEntriesFails(entries: seq<(string, real)>, isGreen: bool, numSamples: int, rng: Rng, start: nat)
    ensures PredictEntries(entries, isGreen, numSamples, rng, start).Failure? <==>
      numSamples == 0 && exists i :: 0 <= i < |entries| && Projected(entries[i].0)
    decreases |entries|
  {
    if |entries| > 0 {
      var init := entries[..|entries| - 1];
      PredictEntriesFails(init, isGreen, numSamples, rng, start);
      if numSamples == 0 && exists i :: 0 <= i < |init| && Projected(init[i].0) {
        var i :| 0 <= i < |init| && Projected(init[i].0);
        assert entries[i] == init[i];
      }
    }
  }

  /** The output keys are the projected input keys, in input order. */
  lemma PredictEntriesKeys(entries: seq<(string, real)>, isGreen: bool, numSamples: int, rng: Rng, start: nat)
    ensures var r := PredictEntries(entries, isGreen, numSamples, rng, start);
      r.Success? ==> forall key :: key in PyDict.Dict(r.value.0).Keys() <==> key in PyDict.Dict(entries).Keys() && Projected(key)
  {
    var r := PredictEntries(entries, isGreen, numSamples, rng, start);
    if r.Success? {
      var pe := ProjectedEntries(entries);
      ProjectedEntriesKeys(entries);
      assert PyDict.Dict(r.value.0).Keys() == PyDict.Dict(pe).Keys();
    }
  }

  /** The projected entries' keys are the input's projected keys. */
  lemma {:induction false} ProjectedEntriesKeys(entries: seq<(string, real)>)
    ensures forall key :: key in PyDict.Dict(ProjectedEntries(entries)).Keys() <==>
      key in PyDict.Dict(entries).Keys() && Projected(key)
    decreases |entries|
  {
    if |entries| > 0 {
      var init := entries[..|entries| - 1];
      var last := entries[|entries| - 1];
      ProjectedEntriesKeys(init);
      assert PyDict.Dict(entries).Keys() == PyDict.Dict(init).Keys() + [last.0];
      if Projected(last.0) {
        assert PyDict.Dict(ProjectedEntries(entries)).Keys() == PyDict.Dict(ProjectedEntries(init)).Keys() + [last.0];
      }
    }
  }

  /** Under red every delta is an arrival count, so the projection never falls
      below the current length. */
  lemma {:induction false} RedNeverShrinks(rng: Rng, start: nat, rate: nat, q: real, numSamples: int)
    requires numSamples != 0
    ensures SampleSum(rng, start, rate, false, Iterations(numSamples)) >= 0
    ensures Projection(q, SampleSum(rng, start, rate, false, Iterations(numSamples)), numSamples) >= q
  {
    RedSampleSumNonNegative(rng, start, rate, Iterations(numSamples));
    var s := SampleSum(rng, start, rate, false, Iterations(numSamples));
    if numSamples > 0 {
      assert (s * VehicleLength) as real / numSamples as real >= 0.0;
    } else {
      assert s == 0;
    }
  }

  lemma {:induction false} RedSampleSumNonNegative(rng: Rng, start: nat, rate: nat, n: nat)
    ensures SampleSum(rng, start, rate, false, n) >= 0
  {
    if n > 0 {
      RedSampleSumNonNegative(rng, start, rate, n - 1);
    }
  }

  /** `n` stream positions `start, start + stride, ...`. */
  function Positions(start: nat, stride: nat, n: nat): (ps: seq<nat>)
    ensures |ps| == n
  {
    if n == 0 then [] else Positions(start, stride, n - 1) + [start + stride * (n - 1)]
  }

  /** The `k`-th position is `start + stride · k`. */
  lemma {:induction false} PositionsAt(start: nat, stride: nat, n: nat)
    ensures forall k :: 0 <= k < n ==> Positions(start, stride, n)[k] == start + stride * k
  {
    if n > 0 {
      PositionsAt(start, stride, n - 1);
      assert forall k :: 0 <= k < n - 1 ==> Positions(start, stride, n)[k] == Positions(start, stride, n - 1)[k];
    }
  }

  /** The total of the draws at the given stream positions. */
  function DrawTotal(rng: Rng, ps: seq<nat>, rate: nat): int {
    if |ps| == 0 then 0 else DrawTotal(rng, ps[..|ps| - 1], rate) + rng(ps[|ps| - 1], rate) as int
  }

  /** One more position adds its draw to the total. */
  lemma DrawTotalSnoc(rng: Rng, start: nat, stride: nat, k: nat, rate: nat)
    ensures DrawTotal(rng, Positions(start, stride, k + 1), rate) ==
      DrawTotal(rng, Positions(start, stride, k), rate) + rng(start + stride * k, rate) as int
  {
    assert Positions(start, stride, k + 1)[..k] == Positions(start, stride, k);
  }

  /** The sample sum is the total of the arrival draws, less under green the
      total of the departure draws: arrivals sit at every `DrawsPerSample`-th
      position from `start`, departures right after each arrival. */
  lemma SampleSumAsDraws(rng: Rng, start: nat, rate: nat, isGreen: bool, n: nat)
    ensures SampleSum(rng, start, rate, isGreen, n) ==
      DrawTotal(rng, Positions(start, DrawsPerSample(isGreen), n), rate) -
      (if isGreen then DrawTotal(rng, Positions(start + 1, 2, n), LeavingRate) else 0)
  {
    if isGreen {
      GreenSampleSumAsDraws(rng, start, rate, n);
    } else {
      RedSampleSumAsDraws(rng, start, rate, n);
    }
  }

  /** Green: arrivals at even offsets from `start`, departures at odd ones. */
  lemma {:induction false} GreenSampleSumAsDraws(rng: Rng, start: nat, rate: nat, n: nat)
    ensures SampleSum(rng, start, rate, true, n) ==
      DrawTotal(rng, Positions(start, 2, n), rate) - DrawTotal(rng, Positions(start + 1, 2, n), LeavingRate)
  {
    if n > 0 {
      var k := n - 1;
      GreenSampleSumAsDraws(rng, start, rate, k);
      DrawTotalSnoc(rng, start, 2, k, rate);
      DrawTotalSnoc(rng, start + 1, 2, k, LeavingRate);
      GreenSampleSumSnoc(rng, start, rate, k);
    }
  }

  /** One more green sample adds its arrival draw and takes away the departure
      draw right after it. */
  lemma GreenSampleSumSnoc(rng: Rng, start: nat, rate: nat, k: nat)
    ensures SampleSum(rng, start, rate, true, k + 1) ==
      SampleSum(rng, start, rate, true, k) + rng(start + 2 * k, rate) as int - rng(start + 1 + 2 * k, LeavingRate) as int
  {
    assert start + 1 + 2 * k == start + 2 * k + 1;
  }

  /** Red: one arrival per position from `start`. */
  lemma {:induction false} RedSampleSumAsDraws(rng: Rng, start: nat, rate: nat, n: nat)
    ensures SampleSum(rng, start, rate, false, n) == DrawTotal(rng, Positions(start, 1, n), rate)
  {
    if n > 0 {
      var k := n - 1;
      RedSampleSumAsDraws(rng, start, rate, k);
      DrawTotalSnoc(rng, start, 1, k, rate);
    }
  }

  /** No stream position is drawn twice for one key: the arrival positions
      increase, under green the departure positions interleave with them, and
      all of them lie in `[start, start + DrawsPerSample · n)`, the stretch
      before the next key's first draw. */
  lemma StreamPositionsDisjoint(start: nat, isGreen: bool, n: nat)
    ensures var arrivals := Positions(start, DrawsPerSample(isGreen), n);
      && (forall i, j :: 0 <= i < j < n ==> arrivals[i] < arrivals[j])
      && (forall i :: 0 <= i < n ==> start <= arrivals[i] < start + DrawsPerSample(isGreen) * n)
    ensures isGreen ==>
      var arrivals := Positions(start, 2, n);
      var departures := Positions(start + 1, 2, n);
      && (forall i, j :: 0 <= i < j < n ==> departures[i] < departures[j])
      && (forall i, j :: 0 <= i < n && 0 <= j < n ==> arrivals[i] != departures[j])
      && (forall j :: 0 <= j < n ==> start < departures[j] < start + 2 * n)
  {
    PositionsAt(start, DrawsPerSample(isGreen), n);
    PositionsAt(start + 1, 2, n);
  }

  /** A draw stream that always yields its rate (every draw at its mean). */
  ghost predicate MeanValued(rng: Rng) {
    forall i, rate :: rng(i, rate) == rate
  }

  /** At the mean of every draw, the green projection of the average queue is
      12 below the current length (floored at 0) and the red one 12 above: green
      never projects a longer queue than red. */
  lemma {:induction false} GreenBelowRedAtMean(rng: Rng, q: real, numSamples: nat, start: nat)
    requires MeanValued(rng) && numSamples > 0 && q >= 0.0
    ensures Projection(q, SampleSum(rng, start, AverageArrivalRate, true, numSamples), numSamples) == Max(0.0, q - 12.0)
    ensures Projection(q, SampleSum(rng, start, AverageArrivalRate, false, numSamples), numSamples) == q + 12.0
    ensures Projection(q, SampleSum(rng, start, AverageArrivalRate, true, numSamples), numSamples) <=
            Projection(q, SampleSum(rng, start, AverageArrivalRate, false, numSamples), numSamples)
  {
    MeanSampleSum(rng, start, AverageArrivalRate, true, numSamples);
    MeanSampleSum(rng, start, AverageArrivalRate, false, numSamples);
    PerSampleShift(AverageArrivalRate - LeavingRate, numSamples);
    PerSampleShift(AverageArrivalRate, numSamples);
  }

  /** `n` samples of `c` vehicles each, spread back over the `n` samples, shift
      the queue by `c` vehicle lengths. */
  lemma PerSampleShift(c: int, n: nat)
    requires n > 0
    ensures ((c * n) * VehicleLength) as real / n as real == (c * VehicleLength) as real
  {
    var x := (c * VehicleLength) as real;
    assert ((c * n) * VehicleLength) as real == x * n as real;
  }

  /** At the mean of every draw, `n` samples add up to `n` times the arrival
      rate, less `n` times the departure rate under green. */
  lemma {:induction false} MeanSampleSum(rng: Rng, start: nat, rate: nat, isGreen: bool, n: nat)
    requires MeanValued(rng)
    ensures SampleSum(rng, start, rate, isGreen, n) == if isGreen then (rate - LeavingRate) * n else rate * n
  {
    if n > 0 {
      MeanSampleSum(rng, start, rate, isGreen, n - 1);
      var k := n - 1;
      assert rng(start + 2 * k, rate) == rate;
      assert rng(start + 2 * k + 1, LeavingRate) == LeavingRate;
      assert rng(start + k, rate) == rate;
    }
  }
}
