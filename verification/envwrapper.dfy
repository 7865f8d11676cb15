/** The LLM-facing environment wrapper (`TSCEnvWrapper`): its observation is
    the averaged occupancy keyed by reported movement, it remembers the
    previous observation, and it offers the query tools the agent calls. */
module EnvWrapper {
  import opened Wrappers
  import opened PyValues
  import opened Text
  import PyDict
  import opened Occupancy
  import StaticInfo
  import QueueStats
  import BaseWrapper
  import Detector

  /** An observation: reported movement id to its formatted occupancy. */
  type Observation = PyDict.Dict<string, OccText>

  // ---------------------------------------------------------------------------
  // transform_occ_data
  // ---------------------------------------------------------------------------

  /** `transform_occ_data`: every reported movement (no 'r' in its id) with its
      occupancy as a percentage text; `zip` stops at the shorter sequence and
      a repeated id keeps its first position and its last reading. */
  function TransformOccData(movementIds: seq<string>, occ: Row): (d: Observation)
    ensures d.Valid()
    ensures forall k :: k in d.Keys() <==>
      k in movementIds[..PyDict.Min(|movementIds|, |occ|)] && BaseWrapper.Reported(k)
    ensures forall i :: 0 <= i < |d.entries| ==> d.entries[i].1.Percent?
    decreases |movementIds|
  {
    var n := PyDict.Min(|movementIds|, |occ|);
    if n == 0 then PyDict.Empty()
    else
      var d := TransformOccData(movementIds[..n - 1], occ[..n - 1]);
      var id := movementIds[n - 1];
      assert movementIds[..n - 1][..PyDict.Min(n - 1, n - 1)] == movementIds[..n - 1];
      assert movementIds[..n] == movementIds[..n - 1] + [id];
      if !BaseWrapper.Reported(id) then d
      else
        PyDict.SetKeepsValues(d, id, Percent(occ[n - 1]), (o: OccText) => o.Percent?);
        d.Set(id, Percent(occ[n - 1]))
  }

  /** The reported movements zipped with their readings, in movement order:
      the reference for the observation's entries. */
  function ReportedPairs(movementIds: seq<string>, occ: Row): (r: seq<(string, real)>)
    ensures |r| <= PyDict.Min(|movementIds|, |occ|)
    decreases |movementIds|
  {
    var n := PyDict.Min(|movementIds|, |occ|);
    if n == 0 then []
    else
      var prev := ReportedPairs(movementIds[..n - 1], occ[..n - 1]);
      if BaseWrapper.Reported(movementIds[n - 1]) then prev + [(movementIds[n - 1], occ[n - 1])] else prev
  }

  /** With distinct movement ids, the observation holds exactly the reported
      movements in movement order, each with its own reading. */
  lemma {:induction false} TransformOccDataInOrder(movementIds: seq<string>, occ: Row)
    requires forall a, b :: 0 <= a < b < |movementIds| ==> movementIds[a] != movementIds[b]
    ensures var d := TransformOccData(movementIds, occ);
      var pairs := ReportedPairs(movementIds, occ);
      && |d.entries| == |pairs|
      && forall k :: 0 <= k < |pairs| ==> d.entries[k] == (pairs[k].0, Percent(pairs[k].1))
    decreases |movementIds|
  {
    var n := PyDict.Min(|movementIds|, |occ|);
    if n > 0 {
      var ids := movementIds[..n - 1];
      TransformOccDataInOrder(ids, occ[..n - 1]);
      var id := movementIds[n - 1];
      var d := TransformOccData(ids, occ[..n - 1]);
      assert ids[..PyDict.Min(n - 1, n - 1)] == ids;
      if BaseWrapper.Reported(id) {
        assert id !in d.Keys();
        assert d.Set(id, Percent(occ[n - 1])).entries == d.entries + [(id, Percent(occ[n - 1]))];
      }
    }
  }

  /** The same read-out as the base wrapper's with no detector status: the two
      wrappers agree whenever no fault is recorded. */
  lemma {:induction false} TransformOccDataAsBase(movementIds: seq<string>, occ: Row)
    ensures TransformOccData(movementIds, occ) == BaseWrapper.TransformOccData(movementIds, occ, PyDict.Empty())
    decreases |movementIds|
  {
    var n := PyDict.Min(|movementIds|, |occ|);
    if n > 0 {
      TransformOccDataAsBase(movementIds[..n - 1], occ[..n - 1]);
      var empty: PyDict.Dict<string, Detector.DetectorStatus> := PyDict.Empty();
      assert empty.Get(movementIds[n - 1]) == None;
    }
  }

  // ---------------------------------------------------------------------------
  // The wrapper's state, reset and the gated step
  // ---------------------------------------------------------------------------

  /** The wrapper's attributes; None where the constructor sets None. */
  datatype Wrapper = Wrapper(
    phaseNum: Option<nat>,
    movementIds: Option<seq<string>>,
    staticInformation: Option<StaticInfo.StaticInformation>,
    state: Option<Observation>,
    lastState: Option<Observation>,
    buffer: Buffer)

  /** The freshly constructed wrapper. */
  function Initial(): (w: Wrapper)
    ensures w.state.None? && w.lastState.None? && w.phaseNum.None? && w.buffer == NewBuffer()
  {
    Wrapper(None, None, None, None, None, NewBuffer())
  }

  /** What the simulator reports at reset. */
  datatype ResetInput = ResetInput(junction: StaticInfo.JunctionState, movementIds: seq<string>, occupancy: Row)

  /** `reset`: the phase count is the number of `phase2movements` entries, the
      static description is converted, and the observation is the transformed
      initial occupancy. The previous observation and the buffer are untouched. */
  function Reset(w: Wrapper, s: ResetInput): (w': Wrapper)
    requires s.junction.Valid()
    ensures w'.phaseNum == Some(|s.junction.phase2movements.entries|)
    ensures w'.movementIds == Some(s.movementIds)
    ensures w'.staticInformation == Some(StaticInfo.ConvertStateToStaticInformation(s.junction))
    ensures w'.state == Some(TransformOccData(s.movementIds, s.occupancy))
    ensures w'.lastState == w.lastState && w'.buffer == w.buffer
  {
    Wrapper(Some(|s.junction.phase2movements.entries|), Some(s.movementIds),
            Some(StaticInfo.ConvertStateToStaticInformation(s.junction)),
            Some(TransformOccData(s.movementIds, s.occupancy)), w.lastState, w.buffer)
  }

  /** One simulator substep as this wrapper reads it. */
  datatype Substep = Substep(occupancy: PyValue, canPerformAction: bool, done: bool)

  /** The occupancy lists of a run of substeps. */
  function Occupancies(substeps: seq<Substep>): (vs: seq<PyValue>)
    ensures |vs| == |substeps| && forall j :: 0 <= j < |substeps| ==> vs[j] == substeps[j].occupancy
  {
    seq(|substeps|, j requires 0 <= j < |substeps| => substeps[j].occupancy)
  }

  datatype StepOutcome =
    | Stepped(wrapper: Wrapper, observation: Observation, done: bool, consumed: nat)
    | Raised(error: PyError, consumed: nat)
    | Stalled  // the simulator never reported readiness within the given substeps

  /** The `k`-th substep is the first that can act. */
  predicate Gated(substeps: seq<Substep>, k: nat) {
    0 < k <= |substeps| && substeps[k - 1].canPerformAction &&
    forall j :: 0 <= j < k - 1 ==> !substeps[j].canPerformAction
  }

  /** The first ready substep is unique. */
  lemma GatedUnique(substeps: seq<Substep>, a: nat, b: nat)
    requires Gated(substeps, a) && Gated(substeps, b)
    ensures a == b
  {
  }

  /** `step` completes after exactly `k` substeps: the `k`-th is the first
      that can act, every recorded occupancy is a list of numbers, the buffer
      averages, and the movement ids are known. */
  predicate Completes(w: Wrapper, substeps: seq<Substep>, k: nat) {
    && Gated(substeps, k)
    && var recorded := RecordEach(w.buffer, Occupancies(substeps[..k]));
    && recorded.Success?
    && |recorded.value.elements| > 0
    && CalculateAverage(recorded.value).Success?
    && w.movementIds.Some?
  }

  /** The average `step` observes after completing at `k`. */
  function Averaged(w: Wrapper, substeps: seq<Substep>, k: nat): Row
    requires Completes(w, substeps, k)
  {
    CalculateAverage(RecordEach(w.buffer, Occupancies(substeps[..k])).value).value.0
  }

  /** Where the gating loop of `step` ends: at the first ready substep with
      the buffer, at an exception, or at the end of the given substeps. */
  datatype Gathering =
    | Gathered(buffer: Buffer, consumed: nat)
    | GatherRaised(error: PyError, consumed: nat)
    | Exhausted

  /** The gating loop of `step`: record each substep's occupancy until the
      simulator reports it can perform an action. */
  method Gather(buffer0: Buffer, substeps: seq<Substep>) returns (g: Gathering)
    ensures g.Exhausted? ==>
      && (forall j :: 0 <= j < |substeps| ==> !substeps[j].canPerformAction)
      && RecordEach(buffer0, Occupancies(substeps)).Success?
    ensures g.GatherRaised? ==>
      var c := g.consumed;
      && 0 < c <= |substeps|
      && (forall j :: 0 <= j < c - 1 ==> !substeps[j].canPerformAction)
      && RecordEach(buffer0, Occupancies(substeps[..c - 1])).Success?
      && !IsFloatList(substeps[c - 1].occupancy)
      && g.error == if substeps[c - 1].occupancy.PyList? then ValueError else TypeError
    ensures g.Gathered? ==>
      && Gated(substeps, g.consumed)
      && RecordEach(buffer0, Occupancies(substeps[..g.consumed])) == Success(g.buffer)
      && |g.buffer.elements| >= g.consumed
  {
    var buffer := buffer0;
    var i := 0;
    var ready := false;
    while !ready
      invariant 0 <= i <= |substeps|
      invariant RecordEach(buffer0, Occupancies(substeps[..i])) == Success(buffer)
      invariant |buffer.elements| >= i
      invariant ready ==> i > 0 && substeps[i - 1].canPerformAction
      invariant forall j :: 0 <= j < i - 1 ==> !substeps[j].canPerformAction
      invariant !ready ==> forall j :: 0 <= j < i ==> !substeps[j].canPerformAction
      decreases |substeps| - i, !ready
    {
      if i == |substeps| {
        assert substeps[..i] == substeps;
        return Exhausted;
      }
      assert Occupancies(substeps[..i + 1])[..i] == Occupancies(substeps[..i]);
      var added := AddElement(buffer, substeps[i].occupancy);
      if added.Failure? {
        return GatherRaised(added.error, i + 1);
      }
      buffer := added.value;
      ready := substeps[i].canPerformAction;
      i := i + 1;
    }
    g := Gathered(buffer, i);
  }

  /** `step`: advance the simulator until it can perform an action, recording
      every substep's occupancy; then average the buffer, remember the current
      observation as the previous one, and observe the transformed average. */
  method Step(w: Wrapper, substeps: seq<Substep>) returns (outcome: StepOutcome)
    ensures outcome.Stalled? ==>
      && (forall j :: 0 <= j < |substeps| ==> !substeps[j].canPerformAction)
      && RecordEach(w.buffer, Occupancies(substeps)).Success?
    ensures outcome.Raised? ==>
      && 0 < outcome.consumed <= |substeps|
      && forall j :: 0 <= j < outcome.consumed - 1 ==> !substeps[j].canPerformAction
    ensures outcome.Raised? ==>
      var c := outcome.consumed;
      || (&& RecordEach(w.buffer, Occupancies(substeps[..c - 1])).Success?
          && !IsFloatList(substeps[c - 1].occupancy)
          && outcome.error == if substeps[c - 1].occupancy.PyList? then ValueError else TypeError)
      || (&& Gated(substeps, c)
          && var recorded := RecordEach(w.buffer, Occupancies(substeps[..c]));
          && recorded.Success?
          && (|| (!Rectangular(recorded.value.elements) && outcome.error == ValueError)
              || (Rectangular(recorded.value.elements) && w.movementIds.None? && outcome.error == TypeError)))
    ensures !outcome.Stepped? ==> forall k :: !Completes(w, substeps, k)
    ensures outcome.Stepped? ==>
      && Completes(w, substeps, outcome.consumed)
      && outcome.observation == TransformOccData(w.movementIds.value, Averaged(w, substeps, outcome.consumed))
      && outcome.wrapper == w.(state := Some(outcome.observation), lastState := w.state, buffer := NewBuffer())
      && outcome.done == substeps[outcome.consumed - 1].done
    ensures outcome.Stepped? ==>
      GetPreviousOccupancy(outcome.wrapper) == GetCurrentOccupancy(w) &&
      GetCurrentOccupancy(outcome.wrapper) == Some(outcome.observation)
  {
    var g := Gather(w.buffer, substeps);
    match g
    case Exhausted =>
      forall k: nat
        ensures !Completes(w, substeps, k)
      {
        if 0 < k <= |substeps| {
          assert !substeps[k - 1].canPerformAction;
        }
      }
      return Stalled;
    case GatherRaised(e, c) =>
      forall k: nat
        ensures !Completes(w, substeps, k)
      {
        if Gated(substeps, k) {
          assert c - 1 < k;
          RecordEachFloats(w.buffer, Occupancies(substeps[..k]));
          assert Occupancies(substeps[..k])[c - 1] == substeps[c - 1].occupancy;
        }
      }
      return Raised(e, c);
    case Gathered(buffer, i) =>
      forall k: nat
        ensures Completes(w, substeps, k) ==> k == i
      {
        if Gated(substeps, k) {
          GatedUnique(substeps, k, i);
        }
      }
      var averaged := CalculateAverage(buffer);
      if averaged.Failure? {
        return Raised(averaged.error, i);
      }
      if w.movementIds.None? {
        // zip(None, ...) raises
        return Raised(TypeError, i);
      }
      var observation := TransformOccData(w.movementIds.value, averaged.value.0);
      outcome := Stepped(w.(state := Some(observation), lastState := w.state, buffer := averaged.value.1),
                         observation, substeps[i - 1].done, i);
  }

  // ---------------------------------------------------------------------------
  // Query tools
  // ---------------------------------------------------------------------------

  /** `get_available_actions`: `list(range(phase_num))`; before any reset the
      phase count is None and `range(None)` is a TypeError. */
  function GetAvailableActions(w: Wrapper): (r: Result<seq<int>, PyError>)
    ensures w.phaseNum.None? <==> r == Failure(TypeError)
    ensures r.Success? ==> |r.value| == w.phaseNum.value && forall i :: 0 <= i < |r.value| ==> r.value[i] == i
  {
    match w.phaseNum
    case None => Failure(TypeError)
    case Some(n) => Success(seq(n, i requires 0 <= i < n => i))
  }

  /** `get_current_occupancy`. */
  function GetCurrentOccupancy(w: Wrapper): Option<Observation> {
    w.state
  }

  /** `get_previous_occupancy`. */
  function GetPreviousOccupancy(w: Wrapper): Option<Observation> {
    w.lastState
  }

  /** After the first reset the current observation is the transformed reset
      occupancy and there is no previous one; `step` hands the current one over
      (see `Step`). */
  lemma OccupancyAfterFirstReset(s: ResetInput)
    requires s.junction.Valid()
    ensures GetCurrentOccupancy(Reset(Initial(), s)) == Some(TransformOccData(s.movementIds, s.occupancy))
    ensures GetPreviousOccupancy(Reset(Initial(), s)).None?
  {
  }

  // ---------------------------------------------------------------------------
  // predict_future_scene
  // ---------------------------------------------------------------------------

  /** `int(x)` toward zero on a real. */
  function Truncate(f: real): (r: int)
    ensures f >= 0.0 ==> r as real <= f < r as real + 1.0
    ensures f < 0.0 ==> r as real - 1.0 < f <= r as real
  {
    if f >= 0.0 then f.Floor else -((-f).Floor)
  }

  /** `int(v)`, or None where it raises: ints and booleans convert, floats
      truncate toward zero, strings must spell an integer. */
  function IntOf(v: PyValue): (r: Option<int>)
    ensures v.PyInt? ==> r == Some(v.i)
    ensures v.PyNone? || v.PyList? ==> r.None?
    ensures v.PyStr? ==> r == ParseInt(v.s)
  {
    match v
    case PyInt(i) => Some(i)
    case PyBool(b) => Some(if b then 1 else 0)
    case PyFloat(f) => Some(Truncate(f))
    case PyStr(s) => ParseInt(s)
    case PyNone => None
    case PyList(_) => None
  }

  /** The prediction as written: it walks the current observation as if each
      value held a junction's 'phase_queue_lengths', but each value is a
      percentage text, and indexing a string by a key is a TypeError. Only an
      empty observation gets through. */
  function PredictFutureSceneAsWritten(state: Option<Observation>, phaseIndex: PyValue)
    : (r: Result<PyDict.Dict<string, PyDict.Dict<int, PyDict.Dict<string, real>>>, PyError>)
    ensures IntOf(phaseIndex).None? ==> r == Failure(ValueError)
    ensures IntOf(phaseIndex).Some? && state.Some? && |state.value.entries| > 0 ==> r == Failure(TypeError)
  {
    if IntOf(phaseIndex).None? then Failure(ValueError)
    else if state.None? then Failure(AttributeError)
    else if |state.value.entries| == 0 then Success(PyDict.Empty())
    else Failure(TypeError)
  }

  /** The counterexample: after any reset that reports at least one movement,
      the prediction fails for every valid phase index. */
  lemma PredictFutureSceneAsWrittenFails(w: Wrapper, s: ResetInput, phaseIndex: int)
    requires s.junction.Valid()
    requires exists i :: 0 <= i < |s.movementIds| && i < |s.occupancy| && BaseWrapper.Reported(s.movementIds[i])
    ensures PredictFutureSceneAsWritten(Reset(w, s).state, PyInt(phaseIndex)) == Failure(TypeError)
  {
    var i :| 0 <= i < |s.movementIds| && i < |s.occupancy| && BaseWrapper.Reported(s.movementIds[i]);
    var d := TransformOccData(s.movementIds, s.occupancy);
    assert s.movementIds[..PyDict.Min(|s.movementIds|, |s.occupancy|)][i] == s.movementIds[i];
    assert s.movementIds[i] in d.Keys();
  }

  /** Per junction, the 'phase_queue_lengths' table that `calculate_queue_lengths` builds. */
  type QueueTable = PyDict.Dict<string, PyDict.Dict<int, QueueStats.PhaseQueue>>

  /** A phase's queue entry as the dict `predict_queue_length` receives. */
  function QueueInfo(q: QueueStats.PhaseQueue): (entries: seq<(string, real)>)
    ensures PyDict.Dict(entries).Valid()
  {
    [("total_length", q.totalLength), ("count", q.count as real),
     ("max_length", q.maxLength), ("average_length", q.averageLength)]
  }

  /** `predict_queue_length`'s default sample count. */
  const DefaultSamples: int := 10

  /** The stream position where phase `p`'s draws start, when the phases of a
      junction are projected in order from `start` with `phaseIndex` green. */
  function PhaseStart(phaseIndex: int, start: nat, p: nat): (pos: nat)
    ensures pos >= start
  {
    if p == 0 then start
    else PhaseStart(phaseIndex, start, p - 1) + 2 * 10 * QueueStats.DrawsPerSample(p - 1 == phaseIndex)
  }

  /** The projections of one junction's phases: the phase at enumeration
      position `phaseIndex` is projected green, all others red, each from the
      stream position its predecessors leave. Returns the projected entries and
      the next unused stream position. */
  function PredictPhases(phases: seq<(int, QueueStats.PhaseQueue)>, phaseIndex: int, rng: QueueStats.Rng, start: nat)
    : (r: (seq<(int, seq<(string, real)>)>, nat))
    ensures |r.0| == |phases| && r.1 == PhaseStart(phaseIndex, start, |phases|)
    ensures Projected(phases, phaseIndex, rng, start, r.0)
    decreases |phases|
  {
    if |phases| == 0 then ([], start)
    else
      var n := |phases|;
      var prev := PredictPhases(phases[..n - 1], phaseIndex, rng, start);
      var projected := PredictInfo(phases[n - 1].1, n - 1 == phaseIndex, rng, prev.1);
      ProjectedSnoc(phases, phaseIndex, rng, start, prev.0, prev.1, projected.0);
      (prev.0 + [(phases[n - 1].0, projected.0)], projected.1)
  }

  /** `out` keeps each phase's key, in order, and holds the entries of
      `predict_queue_length` on that phase, drawn from the stream position its
      predecessors leave. */
  predicate Projected(phases: seq<(int, QueueStats.PhaseQueue)>, phaseIndex: int, rng: QueueStats.Rng, start: nat,
                      out: seq<(int, seq<(string, real)>)>)
  {
    && |out| == |phases|
    && (forall p :: 0 <= p < |phases| ==> out[p].0 == phases[p].0)
    && forall p :: 0 <= p < |phases| ==>
      PhaseProjection(phases[p].1, p == phaseIndex, rng, PhaseStart(phaseIndex, start, p), out[p].1)
  }

  /** `out` is what `predict_queue_length` returns for a phase's entry, drawing
      from stream position `pos`; the two projected keys consume ten samples each. */
  predicate PhaseProjection(q: QueueStats.PhaseQueue, isGreen: bool, rng: QueueStats.Rng, pos: nat, out: seq<(string, real)>) {
    QueueStats.PredictEntries(QueueInfo(q), isGreen, DefaultSamples, rng, pos)
      == Success((out, pos + 2 * 10 * QueueStats.DrawsPerSample(isGreen)))
  }

  /** Projecting one more phase, from where the others stop, extends the projection. */
  lemma ProjectedSnoc(phases: seq<(int, QueueStats.PhaseQueue)>, phaseIndex: int, rng: QueueStats.Rng, start: nat,
                      prev: seq<(int, seq<(string, real)>)>, pos: nat, last: seq<(string, real)>)
    requires |phases| > 0
    requires Projected(phases[..|phases| - 1], phaseIndex, rng, start, prev)
    requires pos == PhaseStart(phaseIndex, start, |phases| - 1)
    requires PhaseProjection(phases[|phases| - 1].1, |phases| - 1 == phaseIndex, rng, pos, last)
    ensures Projected(phases, phaseIndex, rng, start, prev + [(phases[|phases| - 1].0, last)])
  {
    var init := phases[..|phases| - 1];
    assert forall p :: 0 <= p < |init| ==> init[p] == phases[p];
  }

  /** 'total_length' and 'count' are not projected and consume no draws. */
  lemma QueueInfoSkipsCounts(q: QueueStats.PhaseQueue, isGreen: bool, rng: QueueStats.Rng, pos: nat)
    ensures QueueStats.PredictEntries(QueueInfo(q)[..2], isGreen, DefaultSamples, rng, pos) == Success(([], pos))
  {
    var entries := QueueInfo(q);
    assert entries[..1][..0] == [];
    assert QueueStats.PredictEntries(entries[..1], isGreen, DefaultSamples, rng, pos) == Success(([], pos));
    assert entries[..2][..1] == entries[..1];
  }

  /** 'max_length' is projected at rate 3 from `pos`, with ten samples. */
  lemma QueueInfoMaxLength(q: QueueStats.PhaseQueue, isGreen: bool, rng: QueueStats.Rng, pos: nat)
    ensures QueueStats.PredictEntries(QueueInfo(q)[..3], isGreen, DefaultSamples, rng, pos)
      == Success(([("max_length", QueueStats.Projection(q.maxLength, QueueStats.SampleSum(rng, pos, 3, isGreen, 10), 10))],
                  pos + 10 * QueueStats.DrawsPerSample(isGreen)))
  {
    var entries := QueueInfo(q);
    QueueInfoSkipsCounts(q, isGreen, rng, pos);
    assert entries[..3][..2] == entries[..2];
    assert QueueStats.Iterations(DefaultSamples) == 10;
    assert entries[..3][2] == ("max_length", q.maxLength);
    assert QueueStats.ArrivalRate("max_length") == Some(3);
    var r := QueueStats.PredictEntries(entries[..3], isGreen, DefaultSamples, rng, pos);
    assert r.Success?;
    assert r.value.1 == pos + 10 * QueueStats.DrawsPerSample(isGreen);
    assert r.value.0 == [("max_length", QueueStats.Projection(q.maxLength, QueueStats.SampleSum(rng, pos, 3, isGreen, 10), 10))];
  }

  /** 'average_length' is projected at rate 2 from where 'max_length' stops. */
  lemma QueueInfoProjected(q: QueueStats.PhaseQueue, isGreen: bool, rng: QueueStats.Rng, pos: nat)
    ensures var d := QueueStats.DrawsPerSample(isGreen);
      QueueStats.PredictEntries(QueueInfo(q), isGreen, DefaultSamples, rng, pos)
      == Success(([("max_length", QueueStats.Projection(q.maxLength, QueueStats.SampleSum(rng, pos, 3, isGreen, 10), 10)),
                   ("average_length", QueueStats.Projection(q.averageLength, QueueStats.SampleSum(rng, pos + 10 * d, 2, isGreen, 10), 10))],
                  pos + 2 * 10 * d))
  {
    var entries := QueueInfo(q);
    var d := QueueStats.DrawsPerSample(isGreen);
    var maxLen := QueueStats.Projection(q.maxLength, QueueStats.SampleSum(rng, pos, 3, isGreen, 10), 10);
    QueueInfoMaxLength(q, isGreen, rng, pos);
    assert entries[..3] == entries[..|entries| - 1];
    assert entries[3] == ("average_length", q.averageLength);
    assert QueueStats.ArrivalRate("average_length") == Some(2);
    assert QueueStats.Iterations(DefaultSamples) == 10;
    var avgLen := QueueStats.Projection(q.averageLength, QueueStats.SampleSum(rng, pos + 10 * d, 2, isGreen, 10), 10);
    var r := QueueStats.PredictEntries(entries, isGreen, DefaultSamples, rng, pos);
    assert r.Success?;
    assert r.value.1 == pos + 2 * 10 * d;
    assert r.value.0 == [("max_length", maxLen), ("average_length", avgLen)];
  }

  /** One `predict_queue_length` call on a phase's entry; ten samples never
      divide by zero, and the two projected keys each consume ten samples. */
  function PredictInfo(q: QueueStats.PhaseQueue, isGreen: bool, rng: QueueStats.Rng, pos: nat)
    : (r: (seq<(string, real)>, nat))
    ensures PhaseProjection(q, isGreen, rng, pos, r.0)
    ensures r.1 == pos + 2 * 10 * QueueStats.DrawsPerSample(isGreen)
  {
    var d := QueueStats.DrawsPerSample(isGreen);
    QueueInfoProjected(q, isGreen, rng, pos);
    ([("max_length", QueueStats.Projection(q.maxLength, QueueStats.SampleSum(rng, pos, 3, isGreen, 10), 10)),
      ("average_length", QueueStats.Projection(q.averageLength, QueueStats.SampleSum(rng, pos + 10 * d, 2, isGreen, 10), 10))],
     pos + 2 * 10 * d)
  }

  /** At the mean of every draw, a green phase's maximum queue shrinks by 6 and
      its average by 12 (floored at 0), while a red phase's grow by 18 and 12. */
  lemma PredictInfoAtMean(q: QueueStats.PhaseQueue, isGreen: bool, rng: QueueStats.Rng, pos: nat)
    requires QueueStats.MeanValued(rng)
    ensures PredictInfo(q, isGreen, rng, pos).0 ==
      if isGreen then [("max_length", QueueStats.Max(0.0, q.maxLength - 6.0)),
                       ("average_length", QueueStats.Max(0.0, q.averageLength - 12.0))]
      else [("max_length", QueueStats.Max(0.0, q.maxLength + 18.0)),
            ("average_length", QueueStats.Max(0.0, q.averageLength + 12.0))]
  {
    var d := QueueStats.DrawsPerSample(isGreen);
    QueueStats.MeanSampleSum(rng, pos, 3, isGreen, 10);
    QueueStats.MeanSampleSum(rng, pos + 10 * d, 2, isGreen, 10);
  }

  /** The stream position where junction `j`'s draws start. */
  function JunctionStart(junctions: seq<(string, PyDict.Dict<int, QueueStats.PhaseQueue>)>, phaseIndex: int,
                         rng: QueueStats.Rng, start: nat, j: nat): nat
    requires j <= |junctions|
  {
    if j == 0 then start
    else JunctionStart(junctions[1..], phaseIndex, rng, PredictPhases(junctions[0].1.entries, phaseIndex, rng, start).1, j - 1)
  }

  /** A junction's projections as the nested dict the prediction returns. */
  function PhasesDict(projected: seq<(int, seq<(string, real)>)>): PyDict.Dict<int, PyDict.Dict<string, real>> {
    PyDict.Dict(seq(|projected|, p requires 0 <= p < |projected| => (projected[p].0, PyDict.Dict(projected[p].1))))
  }

  /** The projections of every junction, in junction order. */
  function PredictJunctions(junctions: seq<(string, PyDict.Dict<int, QueueStats.PhaseQueue>)>, phaseIndex: int,
                            rng: QueueStats.Rng, start: nat)
    : (r: seq<(string, PyDict.Dict<int, PyDict.Dict<string, real>>)>)
    ensures |r| == |junctions|
    ensures forall j :: 0 <= j < |junctions| ==>
      r[j] == (junctions[j].0,
               PhasesDict(PredictPhases(junctions[j].1.entries, phaseIndex, rng,
                                        JunctionStart(junctions, phaseIndex, rng, start, j)).0))
    decreases |junctions|
  {
    if |junctions| == 0 then []
    else
      var first := PredictPhases(junctions[0].1.entries, phaseIndex, rng, start);
      var rest := PredictJunctions(junctions[1..], phaseIndex, rng, first.1);
      var r := [(junctions[0].0, PhasesDict(first.0))] + rest;
      forall j | 1 <= j < |junctions|
        ensures r[j] == rest[j - 1] && junctions[j] == junctions[1..][j - 1]
      {
      }
      r
  }

  /** `defaultdict2dict` of the nested defaultdict: a junction gets an entry
      only once one of its phases is stored, so junctions with no phase are
      absent. */
  function DropEmpty(ps: seq<(string, PyDict.Dict<int, PyDict.Dict<string, real>>)>)
    : (r: seq<(string, PyDict.Dict<int, PyDict.Dict<string, real>>)>)
    ensures |r| <= |ps|
    ensures forall i :: 0 <= i < |r| ==> |r[i].1.entries| > 0 && r[i] in ps
    ensures forall i :: 0 <= i < |ps| && |ps[i].1.entries| > 0 ==> ps[i] in r
  {
    if |ps| == 0 then []
    else
      var rest := DropEmpty(ps[1..]);
      assert forall i :: 1 <= i < |ps| ==> ps[i] == ps[1..][i - 1];
      (if |ps[0].1.entries| > 0 then [ps[0]] else []) + rest
  }

  /** Dropping entries keeps the keys distinct. */
  lemma {:induction false} DropEmptyValid(ps: seq<(string, PyDict.Dict<int, PyDict.Dict<string, real>>)>)
    ensures PyDict.Dict(ps).Valid() ==> PyDict.Dict(DropEmpty(ps)).Valid()
    decreases |ps|
  {
    if |ps| > 0 && PyDict.Dict(ps).Valid() {
      var tail := ps[1..];
      assert PyDict.Dict(tail).Valid() by {
        forall i, j | 0 <= i < j < |tail| ensures tail[i].0 != tail[j].0 {
          assert tail[i] == ps[i + 1] && tail[j] == ps[j + 1];
        }
      }
      DropEmptyValid(tail);
      var rest := DropEmpty(tail);
      forall x | x in rest ensures x.0 != ps[0].0 {
        var i :| 0 <= i < |tail| && tail[i] == x;
        assert tail[i] == ps[i + 1];
      }
    }
  }

  /** The junctions of the table that have at least one phase, in table order. */
  function PopulatedKeys(junctions: seq<(string, PyDict.Dict<int, QueueStats.PhaseQueue>)>): seq<string> {
    if |junctions| == 0 then []
    else (if |junctions[0].1.entries| > 0 then [junctions[0].0] else []) + PopulatedKeys(junctions[1..])
  }

  /** Dropping from a run that starts with `x` keeps `x`'s key exactly when
      `x` has a phase. */
  lemma DropEmptyConsKeys(x: (string, PyDict.Dict<int, PyDict.Dict<string, real>>),
                          rest: seq<(string, PyDict.Dict<int, PyDict.Dict<string, real>>)>)
    ensures PyDict.Dict(DropEmpty([x] + rest)).Keys()
      == (if |x.1.entries| > 0 then [x.0] else []) + PyDict.Dict(DropEmpty(rest)).Keys()
  {
    assert ([x] + rest)[1..] == rest;
    var tail := DropEmpty(rest);
    if |x.1.entries| > 0 {
      assert DropEmpty([x] + rest) == [x] + tail;
      PyDict.KeysAppend([x], tail);
      assert PyDict.Dict([x]).Keys() == [x.0];
    } else {
      assert DropEmpty([x] + rest) == tail;
    }
  }

  /** The first junction's projection, followed by the others'. */
  lemma PredictJunctionsCons(junctions: seq<(string, PyDict.Dict<int, QueueStats.PhaseQueue>)>,
                             phaseIndex: int, rng: QueueStats.Rng, start: nat)
    requires |junctions| > 0
    ensures var first := PredictPhases(junctions[0].1.entries, phaseIndex, rng, start);
      && PredictJunctions(junctions, phaseIndex, rng, start)
         == [(junctions[0].0, PhasesDict(first.0))] + PredictJunctions(junctions[1..], phaseIndex, rng, first.1)
      && |PhasesDict(first.0).entries| == |junctions[0].1.entries|
  {
  }

  /** The prediction's junction keys are exactly the table's junctions with a
      phase, in table order. */
  lemma {:induction false} PredictJunctionsKeys(junctions: seq<(string, PyDict.Dict<int, QueueStats.PhaseQueue>)>,
                                                phaseIndex: int, rng: QueueStats.Rng, start: nat)
    ensures PyDict.Dict(DropEmpty(PredictJunctions(junctions, phaseIndex, rng, start))).Keys() == PopulatedKeys(junctions)
    decreases |junctions|
  {
    if |junctions| > 0 {
      var first := PredictPhases(junctions[0].1.entries, phaseIndex, rng, start);
      var x := (junctions[0].0, PhasesDict(first.0));
      var rest := PredictJunctions(junctions[1..], phaseIndex, rng, first.1);
      PredictJunctionsKeys(junctions[1..], phaseIndex, rng, first.1);
      PredictJunctionsCons(junctions, phaseIndex, rng, start);
      DropEmptyConsKeys(x, rest);
    }
  }

  /** A junction's phase table as the prediction nests it: same phase keys in
      the same order, each phase holding its own projection. */
  lemma PhasesDictOf(phases: seq<(int, QueueStats.PhaseQueue)>, projected: seq<(int, seq<(string, real)>)>)
    requires |projected| == |phases|
    requires forall p :: 0 <= p < |phases| ==> projected[p].0 == phases[p].0
    ensures PhasesDict(projected).Keys() == PyDict.Dict(phases).Keys()
    ensures forall p :: 0 <= p < |projected| ==> PhasesDict(projected).entries[p].1.entries == projected[p].1
  {
  }

  /** Every junction's projection keeps the junction's phase keys and holds
      each phase's projection, drawn from the stream position the earlier
      junctions leave; it is in `scene` exactly when the junction has a phase. */
  predicate ScenePredicted(junctions: seq<(string, PyDict.Dict<int, QueueStats.PhaseQueue>)>, phaseIndex: int,
                           rng: QueueStats.Rng, start: nat,
                           scene: PyDict.Dict<string, PyDict.Dict<int, PyDict.Dict<string, real>>>)
  {
    forall j :: 0 <= j < |junctions| ==>
      var projected := PredictPhases(junctions[j].1.entries, phaseIndex, rng,
                                     JunctionStart(junctions, phaseIndex, rng, start, j)).0;
      var phases := PhasesDict(projected);
      && phases.Keys() == junctions[j].1.Keys()
      && (forall p :: 0 <= p < |projected| ==> phases.entries[p].1.entries == projected[p].1)
      && (|junctions[j].1.entries| > 0 <==> (junctions[j].0, phases) in scene.entries)
  }

  /** The nested prediction, with empty junctions dropped, is the predicted
      scene. */
  lemma PredictJunctionsPresent(junctions: seq<(string, PyDict.Dict<int, QueueStats.PhaseQueue>)>,
                                phaseIndex: int, rng: QueueStats.Rng, start: nat)
    ensures ScenePredicted(junctions, phaseIndex, rng, start,
                           PyDict.Dict(DropEmpty(PredictJunctions(junctions, phaseIndex, rng, start))))
  {
    var ps := PredictJunctions(junctions, phaseIndex, rng, start);
    forall j | 0 <= j < |junctions|
      ensures var projected := PredictPhases(junctions[j].1.entries, phaseIndex, rng,
                                             JunctionStart(junctions, phaseIndex, rng, start, j)).0;
        && PhasesDict(projected).Keys() == junctions[j].1.Keys()
        && (forall p :: 0 <= p < |projected| ==> PhasesDict(projected).entries[p].1.entries == projected[p].1)
        && (|junctions[j].1.entries| > 0 <==> ps[j] in DropEmpty(ps))
    {
      var projected := PredictPhases(junctions[j].1.entries, phaseIndex, rng,
                                     JunctionStart(junctions, phaseIndex, rng, start, j)).0;
      PhasesDictOf(junctions[j].1.entries, projected);
      assert |ps[j].1.entries| == |junctions[j].1.entries|;
    }
  }

  /** `predict_future_scene` as evidently intended: for every junction's
      'phase_queue_lengths', the phase at enumeration position
      `int(phase_index)` is projected green and every other phase red; a phase
      index `int()` rejects is a ValueError. A junction without phases gets no
      entry; every other junction keeps its key, its order and its phase keys. */
  function PredictFutureScene(table: QueueTable, phaseIndex: PyValue, rng: QueueStats.Rng, start: nat)
    : (r: Result<PyDict.Dict<string, PyDict.Dict<int, PyDict.Dict<string, real>>>, PyError>)
    ensures r.Failure? <==> IntOf(phaseIndex).None?
    ensures r.Failure? ==> r.error == ValueError
    ensures r.Success? ==> r.value.Keys() == PopulatedKeys(table.entries)
    ensures r.Success? && table.Valid() ==> r.value.Valid()
    ensures r.Success? ==> ScenePredicted(table.entries, IntOf(phaseIndex).value, rng, start, r.value)
  {
    match IntOf(phaseIndex)
    case None => Failure(ValueError)
    case Some(idx) =>
      var ps := PredictJunctions(table.entries, idx, rng, start);
      PredictJunctionsKeys(table.entries, idx, rng, start);
      assert PyDict.Dict(ps).Keys() == table.Keys();
      DropEmptyValid(ps);
      PredictJunctionsPresent(table.entries, idx, rng, start);
      Success(PyDict.Dict(DropEmpty(ps)))
  }
}
