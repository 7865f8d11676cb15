/** The single-junction environment wrapper used by the RL, LLM and rule-based
    controllers (`BaseTSCEnvWrapper`): the gated `step`, the history window
    read-out, the per-phase occupancy info, the reward, and the query tools
    handed to the LLM agent. */
module BaseWrapper {
  import opened Wrappers
  import opened PyValues
  import opened Text
  import Seqs
  import PyDict
  import opened Occupancy
  import opened History
  import opened Detector

  // ---------------------------------------------------------------------------
  // transform_occ_data
  // ---------------------------------------------------------------------------

  /** The tools skip every movement id containing the character 'r' anywhere,
      which removes the right turns ("--r") along with any id that merely
      contains an 'r'. */
  predicate Reported(movementId: string) {
    'r' !in movementId
  }

  /** `transform_occ_data`: the current average occupancy keyed by movement,
      with a faulted detector's movement reported as "-1". `zip` stops at the
      shorter of the two sequences. */
  function TransformOccData(movementIds: seq<string>, occ: Row, status: PyDict.Dict<string, DetectorStatus>)
    : (d: PyDict.Dict<string, OccText>)
    requires status.Valid()
    ensures d.Valid()
    ensures forall k :: k in d.Keys() <==>
      k in movementIds[..PyDict.Min(|movementIds|, |occ|)] && Reported(k)
    decreases |movementIds|
  {
    var n := PyDict.Min(|movementIds|, |occ|);
    if n == 0 then PyDict.Empty()
    else
      var d := TransformOccData(movementIds[..n - 1], occ[..n - 1], status);
      var id := movementIds[n - 1];
      assert movementIds[..n - 1][..PyDict.Min(n - 1, n - 1)] == movementIds[..n - 1];
      assert movementIds[..n] == movementIds[..n - 1] + [id];
      if !Reported(id) then d
      else d.Set(id, if status.Get(id).GetOr(Work) == NotWork then Missing else Percent(occ[n - 1]))
  }

  /** With distinct movement ids, each reported movement carries its own reading,
      or "-1" when its detector is 'Not Work'. */
  lemma {:induction false} TransformOccDataValues(movementIds: seq<string>, occ: Row,
                                                  status: PyDict.Dict<string, DetectorStatus>, i: nat)
    requires status.Valid()
    requires forall a, b :: 0 <= a < b < |movementIds| ==> movementIds[a] != movementIds[b]
    requires i < |movementIds| && i < |occ| && Reported(movementIds[i])
    ensures TransformOccData(movementIds, occ, status).Get(movementIds[i]) ==
      Some(if status.Get(movementIds[i]).GetOr(Work) == NotWork then Missing else Percent(occ[i]))
    decreases |movementIds|
  {
    var n := PyDict.Min(|movementIds|, |occ|);
    if i < n - 1 {
      var ids := movementIds[..n - 1];
      TransformOccDataValues(ids, occ[..n - 1], status, i);
      assert ids[i] == movementIds[i] && occ[..n - 1][i] == occ[i];
      TransformOccDataFrame(movementIds, occ, status, movementIds[i]);
    } else {
      TransformOccDataLast(movementIds, occ, status);
    }
  }

  /** The last zipped movement, when reported, carries its own reading or "-1". */
  lemma TransformOccDataLast(movementIds: seq<string>, occ: Row, status: PyDict.Dict<string, DetectorStatus>)
    requires status.Valid()
    requires 0 < PyDict.Min(|movementIds|, |occ|)
    requires Reported(movementIds[PyDict.Min(|movementIds|, |occ|) - 1])
    ensures var n := PyDict.Min(|movementIds|, |occ|);
      var id := movementIds[n - 1];
      TransformOccData(movementIds, occ, status).Get(id) ==
        Some(if status.Get(id).GetOr(Work) == NotWork then Missing else Percent(occ[n - 1]))
  {
    var n := PyDict.Min(|movementIds|, |occ|);
    var id := movementIds[n - 1];
    var d := TransformOccData(movementIds[..n - 1], occ[..n - 1], status);
    var value := if status.Get(id).GetOr(Work) == NotWork then Missing else Percent(occ[n - 1]);
    assert TransformOccData(movementIds, occ, status) == d.Set(id, value);
  }

  /** Any other key reads as it did before the last zipped movement was added. */
  lemma TransformOccDataFrame(movementIds: seq<string>, occ: Row, status: PyDict.Dict<string, DetectorStatus>, x: string)
    requires status.Valid()
    requires 0 < PyDict.Min(|movementIds|, |occ|)
    requires x != movementIds[PyDict.Min(|movementIds|, |occ|) - 1]
    ensures var n := PyDict.Min(|movementIds|, |occ|);
      TransformOccData(movementIds, occ, status).Get(x) ==
        TransformOccData(movementIds[..n - 1], occ[..n - 1], status).Get(x)
  {
    var n := PyDict.Min(|movementIds|, |occ|);
    var id := movementIds[n - 1];
    var d := TransformOccData(movementIds[..n - 1], occ[..n - 1], status);
    var value := if status.Get(id).GetOr(Work) == NotWork then Missing else Percent(occ[n - 1]);
    if Reported(id) {
      assert TransformOccData(movementIds, occ, status) == d.Set(id, value);
    } else {
      assert TransformOccData(movementIds, occ, status) == d;
    }
  }

  /** Whatever the movement ids, a key reads "-1" exactly when its detector
      is 'Not Work': every assignment to a key agrees on that. */
  lemma {:induction false} TransformOccDataMissing(movementIds: seq<string>, occ: Row,
                                                   status: PyDict.Dict<string, DetectorStatus>)
    requires status.Valid()
    ensures forall m :: TransformOccData(movementIds, occ, status).Get(m).Some? ==>
      (TransformOccData(movementIds, occ, status).Get(m) == Some(Missing) <==> status.Get(m).GetOr(Work) == NotWork)
    decreases |movementIds|
  {
    var n := PyDict.Min(|movementIds|, |occ|);
    if n > 0 {
      var d := TransformOccData(movementIds, occ, status);
      var id := movementIds[n - 1];
      TransformOccDataMissing(movementIds[..n - 1], occ[..n - 1], status);
      forall m | d.Get(m).Some?
        ensures d.Get(m) == Some(Missing) <==> status.Get(m).GetOr(Work) == NotWork
      {
        if m != id {
          TransformOccDataFrame(movementIds, occ, status, m);
        } else if Reported(id) {
          TransformOccDataLast(movementIds, occ, status);
        } else {
          assert d == TransformOccData(movementIds[..n - 1], occ[..n - 1], status);
        }
      }
    }
  }

  /** The keys do not depend on the detector status. */
  lemma {:induction false} TransformOccDataKeys(movementIds: seq<string>, occ: Row,
                                                s1: PyDict.Dict<string, DetectorStatus>, s2: PyDict.Dict<string, DetectorStatus>)
    requires s1.Valid() && s2.Valid()
    ensures TransformOccData(movementIds, occ, s1).Keys() == TransformOccData(movementIds, occ, s2).Keys()
    decreases |movementIds|
  {
    var n := PyDict.Min(|movementIds|, |occ|);
    if n > 0 {
      TransformOccDataKeys(movementIds[..n - 1], occ[..n - 1], s1, s2);
    }
  }

  /** The read-out the agent sees: a movement is "-1" exactly when it is the
      faulted movement and carries a detector; every other reported movement
      shows its own reading. */
  lemma TransformOccDataMasksFault(movementIds: seq<string>, occ: Row, notWorkElement: Option<string>, i: nat)
    requires forall a, b :: 0 <= a < b < |movementIds| ==> movementIds[a] != movementIds[b]
    requires i < |movementIds| && i < |occ| && Reported(movementIds[i])
    ensures
      var ls := LsElements(movementIds);
      var status := GetDetectorState(ls, SetOccMissing(ls, notWorkElement));
      status.Valid() &&
      TransformOccData(movementIds, occ, status).Get(movementIds[i]) ==
        Some(if notWorkElement == Some(movementIds[i]) && HasDetector(movementIds[i]) then Missing else Percent(occ[i]))
  {
    var ls := LsElements(movementIds);
    var status := GetDetectorState(ls, SetOccMissing(ls, notWorkElement));
    DetectorStateAfterFault(ls, notWorkElement);
    TransformOccDataValues(movementIds, occ, status, i);
  }

  // ---------------------------------------------------------------------------
  // info_wrapper
  // ---------------------------------------------------------------------------

  /** `movement_occ`: occupancy keyed by movement, with the faulted movement
      overwritten by -1 when it is one of the keys. */
  function MovementOcc(movementIds: seq<string>, occupancy: Row, notWorkElement: Option<string>)
    : (m: PyDict.Dict<string, real>)
    ensures m.Valid()
    ensures m.Keys() == PyDict.FromZip(movementIds, occupancy).Keys()
    ensures forall k :: k in m.Keys() ==>
      m.Get(k) == if notWorkElement == Some(k) then Some(-1.0) else PyDict.FromZip(movementIds, occupancy).Get(k)
  {
    var m := PyDict.FromZip(movementIds, occupancy);
    if notWorkElement.Some? && notWorkElement.value in m.Keys() then m.Set(notWorkElement.value, -1.0) else m
  }

  /** `[movement_occ[m] for m in ms]`, raising KeyError at the first absent movement. */
  function LookupAll(m: PyDict.Dict<string, real>, ms: seq<string>): (r: Result<seq<real>, PyError>)
    requires m.Valid()
    ensures r.Success? <==> forall k :: 0 <= k < |ms| ==> ms[k] in m.Keys()
    ensures r.Failure? ==> r.error == KeyError
    ensures r.Success? ==> |r.value| == |ms| && forall k :: 0 <= k < |ms| ==> m.Get(ms[k]) == Some(r.value[k])
  {
    if |ms| == 0 then Success([])
    else
      match LookupAll(m, ms[..|ms| - 1])
      case Failure(e) => Failure(e)
      case Success(vs) =>
        match m.Get(ms[|ms| - 1])
        case None => Failure(KeyError)
        case Some(v) => Success(vs + [v])
  }

  /** The phase entries all of whose movements are keys of `m`. */
  predicate AllKnown(m: PyDict.Dict<string, real>, phases: seq<(int, seq<string>)>) {
    forall p, k :: 0 <= p < |phases| && 0 <= k < |phases[p].1| ==> phases[p].1[k] in m.Keys()
  }

  /** Every movement of `ms` is a key of `m`. */
  predicate Known(m: PyDict.Dict<string, real>, ms: seq<string>) {
    forall k :: 0 <= k < |ms| ==> ms[k] in m.Keys()
  }

  /** All movements of a run of phases are known exactly when those of all but
      the last phase are, and so are the last phase's. */
  lemma AllKnownSnoc(m: PyDict.Dict<string, real>, phases: seq<(int, seq<string>)>)
    requires |phases| > 0
    ensures AllKnown(m, phases) <==> AllKnown(m, phases[..|phases| - 1]) && Known(m, phases[|phases| - 1].1)
  {
    var init := phases[..|phases| - 1];
    assert forall p :: 0 <= p < |init| ==> init[p] == phases[p];
  }

  /** `phase_occ`: each phase's summed occupancy, in phase order. The phase
      keys are distinct, so each assignment adds a new entry at the end. */
  function PhaseOcc(m: PyDict.Dict<string, real>, phases: seq<(int, seq<string>)>)
    : (r: Result<seq<(int, real)>, PyError>)
    requires m.Valid()
    ensures r.Success? <==> AllKnown(m, phases)
    ensures r.Failure? ==> r.error == KeyError
    ensures r.Success? ==> PhaseSums(m, phases, r.value)
  {
    if |phases| == 0 then Success([])
    else
      var init := phases[..|phases| - 1];
      var last := phases[|phases| - 1];
      AllKnownSnoc(m, phases);
      match PhaseOcc(m, init)
      case Failure(e) => Failure(e)
      case Success(d) =>
        match LookupAll(m, last.1)
        case Failure(e) => Failure(e)
        case Success(vs) =>
          PhaseSumsSnoc(m, phases, d);
          Success(d + [(last.0, Seqs.Sum(vs))])
  }

  /** `sums` holds, per phase and in phase order, the phase key and the sum of
      its movements' readings. */
  predicate PhaseSums(m: PyDict.Dict<string, real>, phases: seq<(int, seq<string>)>, sums: seq<(int, real)>)
    requires m.Valid()
  {
    && |sums| == |phases|
    && forall p :: 0 <= p < |phases| ==>
      LookupAll(m, phases[p].1).Success? &&
      sums[p] == (phases[p].0, Seqs.Sum(LookupAll(m, phases[p].1).value))
  }

  /** The sums of all phases extend those of all but the last by the last one's. */
  lemma PhaseSumsSnoc(m: PyDict.Dict<string, real>, phases: seq<(int, seq<string>)>, d: seq<(int, real)>)
    requires m.Valid() && |phases| > 0
    requires PhaseSums(m, phases[..|phases| - 1], d)
    requires LookupAll(m, phases[|phases| - 1].1).Success?
    ensures
      var last := phases[|phases| - 1];
      PhaseSums(m, phases, d + [(last.0, Seqs.Sum(LookupAll(m, last.1).value))])
  {
    var init := phases[..|phases| - 1];
    assert forall p :: 0 <= p < |init| ==> init[p] == phases[p];
  }

  /** `info_wrapper`'s per-phase occupancy, keyed like `phase2movements`. */
  function InfoWrapper(movementIds: seq<string>, occupancy: Row, notWorkElement: Option<string>,
                       phase2movements: PyDict.Dict<int, seq<string>>)
    : (r: Result<PyDict.Dict<int, real>, PyError>)
    requires phase2movements.Valid()
    ensures r.Success? ==> r.value.Valid() && r.value.Keys() == phase2movements.Keys()
  {
    match PhaseOcc(MovementOcc(movementIds, occupancy, notWorkElement), phase2movements.entries)
    case Failure(e) => Failure(e)
    case Success(entries) =>
      var d := PyDict.Dict(entries);
      assert d.Keys() == phase2movements.Keys();
      Success(d)
  }

  /** The reference reading of one movement for the phase sums: -1 for the
      faulted movement, the reading at the movement's position otherwise. */
  function OccOf(movementIds: seq<string>, occupancy: Row, notWorkElement: Option<string>, m: string): real
    requires m in movementIds && |occupancy| == |movementIds|
  {
    if notWorkElement == Some(m) then -1.0 else occupancy[Seqs.IndexOf(movementIds, m).value]
  }

  /** The reference readings of a phase's movements. */
  function PhaseReadings(movementIds: seq<string>, occupancy: Row, notWorkElement: Option<string>, ms: seq<string>)
    : (vs: seq<real>)
    requires |occupancy| == |movementIds|
    requires forall k :: 0 <= k < |ms| ==> ms[k] in movementIds
    ensures |vs| == |ms|
  {
    seq(|ms|, k requires 0 <= k < |ms| => OccOf(movementIds, occupancy, notWorkElement, ms[k]))
  }

  /** A known movement's entry in `movement_occ` is its reference reading. */
  lemma MovementOccAt(movementIds: seq<string>, occupancy: Row, notWorkElement: Option<string>, m: string)
    requires forall a, b :: 0 <= a < b < |movementIds| ==> movementIds[a] != movementIds[b]
    requires |occupancy| == |movementIds|
    requires m in movementIds
    ensures MovementOcc(movementIds, occupancy, notWorkElement).Get(m) == Some(OccOf(movementIds, occupancy, notWorkElement, m))
  {
    var i := Seqs.IndexOf(movementIds, m).value;
    PyDict.FromZipGet(movementIds, occupancy, i);
    assert movementIds[..PyDict.Min(|movementIds|, |occupancy|)] == movementIds;
  }

  /** Looking a phase's movements up in `movement_occ` yields the reference readings. */
  lemma LookupAllReadings(movementIds: seq<string>, occupancy: Row, notWorkElement: Option<string>, ms: seq<string>)
    requires forall a, b :: 0 <= a < b < |movementIds| ==> movementIds[a] != movementIds[b]
    requires |occupancy| == |movementIds|
    requires forall k :: 0 <= k < |ms| ==> ms[k] in movementIds
    ensures LookupAll(MovementOcc(movementIds, occupancy, notWorkElement), ms) ==
            Success(PhaseReadings(movementIds, occupancy, notWorkElement, ms))
  {
    var m := MovementOcc(movementIds, occupancy, notWorkElement);
    var want := PhaseReadings(movementIds, occupancy, notWorkElement, ms);
    forall k | 0 <= k < |ms|
      ensures ms[k] in m.Keys() && m.Get(ms[k]) == Some(want[k])
    {
      MovementOccAt(movementIds, occupancy, notWorkElement, ms[k]);
    }
    LookupAllExact(m, ms, want);
  }

  /** Looking up keys whose values are known yields exactly those values. */
  lemma LookupAllExact(m: PyDict.Dict<string, real>, ms: seq<string>, want: seq<real>)
    requires m.Valid() && |want| == |ms|
    requires forall k :: 0 <= k < |ms| ==> ms[k] in m.Keys() && m.Get(ms[k]) == Some(want[k])
    ensures LookupAll(m, ms) == Success(want)
  {
    var r := LookupAll(m, ms);
    assert r.Success?;
    forall k | 0 <= k < |ms|
      ensures r.value[k] == want[k]
    {
      assert m.Get(ms[k]) == Some(r.value[k]);
    }
    assert r.value == want;
  }

  /** With distinct movement ids and one reading per movement, the call fails
      exactly when some phase names an unknown movement, and otherwise every
      phase's occupancy is the sum of its movements' readings with the faulted
      movement counted as -1. */
  lemma InfoWrapperSums(movementIds: seq<string>, occupancy: Row, notWorkElement: Option<string>,
                        phase2movements: PyDict.Dict<int, seq<string>>)
    requires phase2movements.Valid()
    requires forall a, b :: 0 <= a < b < |movementIds| ==> movementIds[a] != movementIds[b]
    requires |occupancy| == |movementIds|
    ensures var r := InfoWrapper(movementIds, occupancy, notWorkElement, phase2movements);
      && (r.Success? <==> forall p, k :: 0 <= p < |phase2movements.entries| && 0 <= k < |phase2movements.entries[p].1| ==>
                             phase2movements.entries[p].1[k] in movementIds)
      && (r.Success? ==> forall p :: 0 <= p < |phase2movements.entries| ==>
            (forall k :: 0 <= k < |phase2movements.entries[p].1| ==> phase2movements.entries[p].1[k] in movementIds) &&
            r.value.entries[p].1 == Seqs.Sum(PhaseReadings(movementIds, occupancy, notWorkElement, phase2movements.entries[p].1)))
  {
    assert movementIds[..PyDict.Min(|movementIds|, |occupancy|)] == movementIds;
    var phases := phase2movements.entries;
    var m := MovementOcc(movementIds, occupancy, notWorkElement);
    assert forall x :: x in m.Keys() <==> x in movementIds;
    var po := PhaseOcc(m, phases);
    var r := InfoWrapper(movementIds, occupancy, notWorkElement, phase2movements);
    assert r.Success? <==> po.Success?;
    if r.Success? {
      assert r.value.entries == po.value;
      forall p | 0 <= p < |phases|
        ensures (forall k :: 0 <= k < |phases[p].1| ==> phases[p].1[k] in movementIds) &&
          r.value.entries[p].1 == Seqs.Sum(PhaseReadings(movementIds, occupancy, notWorkElement, phases[p].1))
      {
        LookupAllReadings(movementIds, occupancy, notWorkElement, phases[p].1);
      }
    }
  }

  // ---------------------------------------------------------------------------
  // reward_wrapper
  // ---------------------------------------------------------------------------

  /** `reward_wrapper`: minus the total waiting time of the vehicles present. */
  function RewardWrapper(waitingTimes: seq<real>): (r: real)
  {
    -Seqs.Sum(waitingTimes)
  }

  /** The reward is never positive, and it is 0 exactly when nobody waits
      (in particular with no vehicles). */
  lemma RewardNonPositive(waitingTimes: seq<real>)
    requires forall i :: 0 <= i < |waitingTimes| ==> waitingTimes[i] >= 0.0
    ensures RewardWrapper(waitingTimes) <= 0.0
    ensures RewardWrapper(waitingTimes) == 0.0 <==> forall i :: 0 <= i < |waitingTimes| ==> waitingTimes[i] == 0.0
  {
    Seqs.SumNonNegative(waitingTimes);
    Seqs.SumZeroIff(waitingTimes);
  }

  // ---------------------------------------------------------------------------
  // Query tools
  // ---------------------------------------------------------------------------

  /** The "Phase-i" label of an action. */
  function PhaseLabel(i: int): string {
    "Phase-" + IntToString(i)
  }

  /** `get_available_actions`: ['Phase-0', ..., 'Phase-(phase_num - 1)']. */
  function GetAvailableActions(phaseNum: int): (actions: seq<string>)
    ensures |actions| == if phaseNum > 0 then phaseNum else 0
    ensures forall i :: 0 <= i < |actions| ==> actions[i] == PhaseLabel(i)
  {
    if phaseNum <= 0 then []
    else
      var prev := GetAvailableActions(phaseNum - 1);
      var newest := PhaseLabel(phaseNum - 1);
      assert forall i :: 0 <= i < |prev| ==> (prev + [newest])[i] == prev[i];
      prev + [newest]
  }

  /** `get_current_phase`: the label of the active phase. */
  function GetCurrentPhase(thisPhaseIndex: int): (r: string)
    ensures |r| > 6 && r[..6] == "Phase-" && ParseInt(r[6..]) == Some(thisPhaseIndex)
  {
    ParseIntOfIntToString(thisPhaseIndex);
    assert PhaseLabel(thisPhaseIndex)[6..] == IntToString(thisPhaseIndex);
    PhaseLabel(thisPhaseIndex)
  }

  /** The current-phase label is one of the available actions exactly when the
      active phase index is in [0, phase_num); the labels are pairwise distinct. */
  lemma CurrentPhaseIsAvailable(phaseNum: int, thisPhaseIndex: int)
    ensures GetCurrentPhase(thisPhaseIndex) in GetAvailableActions(phaseNum) <==> 0 <= thisPhaseIndex < phaseNum
    ensures forall a, b :: 0 <= a < b < |GetAvailableActions(phaseNum)| ==>
      GetAvailableActions(phaseNum)[a] != GetAvailableActions(phaseNum)[b]
  {
    var actions := GetAvailableActions(phaseNum);
    forall i | 0 <= i < |actions| && actions[i] == GetCurrentPhase(thisPhaseIndex)
      ensures i == thisPhaseIndex
    {
      LabelInjective(i, thisPhaseIndex);
    }
    forall a, b | 0 <= a < b < |actions|
      ensures actions[a] != actions[b]
    {
      if actions[a] == actions[b] {
        LabelInjective(a, b);
      }
    }
    if 0 <= thisPhaseIndex < phaseNum {
      assert actions[thisPhaseIndex] == GetCurrentPhase(thisPhaseIndex);
    }
  }

  lemma LabelInjective(a: int, b: int)
    requires PhaseLabel(a) == PhaseLabel(b)
    ensures a == b
  {
    assert IntToString(a) == PhaseLabel(a)[6..];
    assert IntToString(b) == PhaseLabel(b)[6..];
    IntToStringInjective(a, b);
  }

  /** Vehicle ids naming a rescue vehicle (`'rescue' in vehicle_id`). */
  function RescueCount(vehicleIds: seq<string>): (n: nat)
    ensures n <= |vehicleIds|
    ensures n == 0 <==> forall v :: v in vehicleIds ==> !Contains(v, "rescue")
  {
    if |vehicleIds| == 0 then 0
    else
      var last := vehicleIds[|vehicleIds| - 1];
      assert vehicleIds == vehicleIds[..|vehicleIds| - 1] + [last];
      RescueCount(vehicleIds[..|vehicleIds| - 1]) + (if Contains(last, "rescue") then 1 else 0)
  }

  /** A single vehicle counts once exactly when it is a rescue vehicle. */
  lemma RescueCountSingle(v: string)
    ensures RescueCount([v]) == if Contains(v, "rescue") then 1 else 0
  {
    assert [v][..0] == [];
  }

  /** The count of a concatenation is the sum of the counts: together with
      `RescueCountSingle`, every rescue vehicle counts exactly once. */
  lemma {:induction false} RescueCountConcat(xs: seq<string>, ys: seq<string>)
    ensures RescueCount(xs + ys) == RescueCount(xs) + RescueCount(ys)
    decreases |ys|
  {
    if |ys| == 0 {
      assert xs + ys == xs;
    } else {
      var ys' := ys[..|ys| - 1];
      assert (xs + ys)[..|xs + ys| - 1] == xs + ys';
      RescueCountConcat(xs, ys');
    }
  }

  /** One copy of a movement per rescue vehicle on it, in movement order; the
      vehicle lists and movements are paired as `zip` pairs them. */
  function RescueList(vehicleIdLists: seq<seq<string>>, movementIds: seq<string>): (r: seq<string>)
    decreases |vehicleIdLists|
  {
    var n := PyDict.Min(|vehicleIdLists|, |movementIds|);
    if n == 0 then []
    else
      var prev := RescueList(vehicleIdLists[..n - 1], movementIds[..n - 1]);
      prev + seq(RescueCount(vehicleIdLists[n - 1]), _ => movementIds[n - 1])
  }

  /** A movement is in the list exactly when a rescue vehicle is on it, and
      the list is empty exactly when no movement has one. */
  lemma RescueListMembers(vehicleIdLists: seq<seq<string>>, movementIds: seq<string>)
    ensures forall x :: x in RescueList(vehicleIdLists, movementIds) ==>
              exists i :: 0 <= i < |vehicleIdLists| && i < |movementIds| &&
                          movementIds[i] == x && RescueCount(vehicleIdLists[i]) > 0
    ensures forall i :: 0 <= i < |vehicleIdLists| && i < |movementIds| && RescueCount(vehicleIdLists[i]) > 0 ==>
              movementIds[i] in RescueList(vehicleIdLists, movementIds)
    ensures |RescueList(vehicleIdLists, movementIds)| == 0 <==>
              forall i :: 0 <= i < |vehicleIdLists| && i < |movementIds| ==> RescueCount(vehicleIdLists[i]) == 0
  {
    RescueListSound(vehicleIdLists, movementIds);
    RescueListComplete(vehicleIdLists, movementIds);
    var r := RescueList(vehicleIdLists, movementIds);
    if |r| > 0 {
      assert r[0] in r;
    }
  }

  /** Every listed movement has a rescue vehicle on it. */
  lemma {:induction false} RescueListSound(vehicleIdLists: seq<seq<string>>, movementIds: seq<string>)
    ensures forall x :: x in RescueList(vehicleIdLists, movementIds) ==>
              exists i :: 0 <= i < |vehicleIdLists| && i < |movementIds| &&
                          movementIds[i] == x && RescueCount(vehicleIdLists[i]) > 0
    decreases |vehicleIdLists|
  {
    var n := PyDict.Min(|vehicleIdLists|, |movementIds|);
    if n > 0 {
      var ls, ms := vehicleIdLists[..n - 1], movementIds[..n - 1];
      RescueListSound(ls, ms);
      var prev := RescueList(ls, ms);
      var copies := seq(RescueCount(vehicleIdLists[n - 1]), _ => movementIds[n - 1]);
      assert RescueList(vehicleIdLists, movementIds) == prev + copies;
      forall x | x in prev + copies
        ensures exists i :: 0 <= i < |vehicleIdLists| && i < |movementIds| &&
                            movementIds[i] == x && RescueCount(vehicleIdLists[i]) > 0
      {
        if x in prev {
          var i :| 0 <= i < |ls| && i < |ms| && ms[i] == x && RescueCount(ls[i]) > 0;
          assert movementIds[i] == x && RescueCount(vehicleIdLists[i]) > 0;
        } else {
          assert movementIds[n - 1] == x && RescueCount(vehicleIdLists[n - 1]) > 0;
        }
      }
    }
  }

  /** Every movement with a rescue vehicle on it is listed. */
  lemma {:induction false} RescueListComplete(vehicleIdLists: seq<seq<string>>, movementIds: seq<string>)
    ensures forall i :: 0 <= i < |vehicleIdLists| && i < |movementIds| && RescueCount(vehicleIdLists[i]) > 0 ==>
              movementIds[i] in RescueList(vehicleIdLists, movementIds)
    decreases |vehicleIdLists|
  {
    var n := PyDict.Min(|vehicleIdLists|, |movementIds|);
    if n > 0 {
      var ls, ms := vehicleIdLists[..n - 1], movementIds[..n - 1];
      RescueListComplete(ls, ms);
      var prev := RescueList(ls, ms);
      var count := RescueCount(vehicleIdLists[n - 1]);
      var copies := seq(count, _ => movementIds[n - 1]);
      assert RescueList(vehicleIdLists, movementIds) == prev + copies;
      forall i | 0 <= i < |vehicleIdLists| && i < |movementIds| && RescueCount(vehicleIdLists[i]) > 0
        ensures movementIds[i] in prev + copies
      {
        if i < n - 1 {
          assert ls[i] == vehicleIdLists[i] && ms[i] == movementIds[i];
          assert movementIds[i] in prev;
        } else {
          assert i == n - 1 && count > 0;
          assert copies[0] == movementIds[i];
        }
      }
    }
  }

  /** A single movement contributes one copy per rescue vehicle on it. */
  lemma RescueListSingle(vehicleIds: seq<string>, movementId: string)
    ensures RescueList([vehicleIds], [movementId]) == seq(RescueCount(vehicleIds), _ => movementId)
  {
    assert [vehicleIds][..0] == [] && [movementId][..0] == [];
  }

  /** The list for consecutive movements is the concatenation of their lists:
      with `RescueListSingle`, the result holds each movement once per rescue
      vehicle on it, in movement order. */
  lemma {:induction false} RescueListConcat(a: seq<seq<string>>, b: seq<seq<string>>, ma: seq<string>, mb: seq<string>)
    requires |a| == |ma| && |b| == |mb|
    ensures RescueList(a + b, ma + mb) == RescueList(a, ma) + RescueList(b, mb)
    decreases |b|
  {
    if |b| == 0 {
      assert a + b == a && ma + mb == ma;
    } else {
      var n := |b| - 1;
      assert (a + b)[..|a| + n] == a + b[..n];
      assert (ma + mb)[..|ma| + n] == ma + mb[..n];
      RescueListConcat(a, b[..n], ma, mb[..n]);
    }
  }

  /** `get_rescue_movement_ids`: the movements with a rescue vehicle, one copy
      per rescue vehicle, or None when there are none. */
  function GetRescueMovementIds(vehicleIdLists: seq<seq<string>>, movementIds: seq<string>): (r: Option<seq<string>>)
    ensures r.None? <==> forall i :: 0 <= i < |vehicleIdLists| && i < |movementIds| ==> RescueCount(vehicleIdLists[i]) == 0
    ensures r.Some? ==> |r.value| > 0 && forall x :: x in r.value ==>
      exists i :: 0 <= i < |vehicleIdLists| && i < |movementIds| && movementIds[i] == x && RescueCount(vehicleIdLists[i]) > 0
    ensures forall i :: 0 <= i < |vehicleIdLists| && i < |movementIds| && RescueCount(vehicleIdLists[i]) > 0 ==>
      r.Some? && movementIds[i] in r.value
    ensures r.Some? ==> r.value == RescueList(vehicleIdLists, movementIds)
  {
    var r := RescueList(vehicleIdLists, movementIds);
    RescueListMembers(vehicleIdLists, movementIds);
    if |r| == 0 then None else Some(r)
  }

  // ---------------------------------------------------------------------------
  // reset and the gated step
  // ---------------------------------------------------------------------------

  /** What the simulator reports for the junction after one substep. */
  datatype Substep = Substep(
    occupancy: PyValue,              // 'last_step_occupancy'
    canPerformAction: bool,          // 'can_perform_action'
    thisPhaseIndex: int,             // 'this_phase_index'
    vehicleIdLists: seq<seq<string>>, // 'last_step_vehicle_id_list'
    waitingTimes: seq<real>,         // 'waiting_time' of every vehicle present
    stepTime: real)                  // 'step_time'

  /** The wrapper's per-episode state. */
  datatype Env = Env(
    phaseNum: int,
    window: Window,
    movementIds: seq<string>,
    phase2movements: PyDict.Dict<int, seq<string>>,
    buffer: Buffer,
    currentAvgOcc: Row,
    ls: seq<string>,
    faults: FaultState,
    current: Substep)

  /** What `reset` establishes and every later call keeps: `ls_elements` is
      derived from the movement ids and the mask from `not_work_element`. */
  predicate ValidEnv(env: Env) {
    && env.window.Valid()
    && env.phase2movements.Valid()
    && env.ls == LsElements(env.movementIds)
    && env.faults == SetOccMissing(env.ls, env.faults.notWorkElement)
  }

  /** The static state the simulator hands over at reset. */
  datatype ResetState = ResetState(
    movementIds: seq<string>,
    phase2movements: PyDict.Dict<int, seq<string>>,
    occupancy: Row,
    snapshot: Substep)

  /** `reset`: static information, an all-working detector mask, and the
      initial occupancy appended to the (persisting) window. The returned
      observation is the window read out with no fault. */
  function Reset(phaseNum: int, window: Window, buffer: Buffer, s: ResetState): (r: (Env, Result<seq<Row>, PyError>))
    requires window.Valid() && s.phase2movements.Valid()
    ensures ValidEnv(r.0)
    ensures r.0.phaseNum == phaseNum
    ensures r.0.movementIds == s.movementIds && r.0.phase2movements == s.phase2movements
    ensures r.0.ls == LsElements(s.movementIds)
    ensures r.0.faults.notWorkElement.None? && |r.0.faults.mask| == |r.0.ls|
    ensures forall i :: 0 <= i < |r.0.faults.mask| ==> r.0.faults.mask[i] == Work
    ensures r.0.currentAvgOcc == InitialRow() && r.0.buffer == buffer && r.0.current == s.snapshot
    ensures r.0.window == Append(window, s.occupancy)
    ensures window.maxlen > 0 ==> |r.0.window.rows| > 0 && r.0.window.rows[|r.0.window.rows| - 1] == s.occupancy
    ensures Rectangular(r.0.window.rows) ==> r.1 == Success(r.0.window.rows)
    ensures !Rectangular(r.0.window.rows) ==> r.1 == Failure(ValueError)
  {
    var ls := LsElements(s.movementIds);
    var w := Append(window, s.occupancy);
    assert ResetFaults(ls) == SetOccMissing(ls, None);
    var env := Env(phaseNum, w, s.movementIds, s.phase2movements, buffer, InitialRow(), ls, ResetFaults(ls), s.snapshot);
    (env, GetState(w, s.movementIds, None))
  }

  /** `set_occ_missing` applied to the environment: the invariant is kept,
      nothing but the fault overlay changes, the next `get_state` masks the new
      movement, and the tools' read-out shows "-1" on exactly that movement
      when it carries a detector. */
  function SetOccMissingOn(env: Env, notWorkElement: Option<string>): (env': Env)
    ensures ValidEnv(env) ==> ValidEnv(env')
    ensures env'.faults.notWorkElement == notWorkElement
    ensures env' == env.(faults := env'.faults)
    ensures GetCurrentOccupancy(env').Keys() == GetCurrentOccupancy(env).Keys()
    ensures ValidEnv(env) ==> forall m :: GetCurrentOccupancy(env').Get(m).Some? ==>
      (GetCurrentOccupancy(env').Get(m) == Some(Missing) <==> notWorkElement == Some(m) && HasDetector(m))
  {
    var env' := env.(faults := SetOccMissing(env.ls, notWorkElement));
    TransformOccDataKeys(env.movementIds, env.currentAvgOcc,
      GetDetectorState(env.ls, env.faults), GetDetectorState(env'.ls, env'.faults));
    env'
  }

  /** The first ready substep is at position `k`. */
  predicate FirstReadyAt(substeps: seq<Substep>, k: nat) {
    k < |substeps| && substeps[k].canPerformAction && NoneReady(substeps, k)
  }

  /** None of the first `k` substeps could act. */
  predicate NoneReady(substeps: seq<Substep>, k: nat) {
    k <= |substeps| && forall j :: 0 <= j < k ==> !substeps[j].canPerformAction
  }

  /** One more substep either is the first ready one or extends the run of
      substeps that could not act. */
  lemma ReadyStep(substeps: seq<Substep>, i: nat)
    requires NoneReady(substeps, i) && i < |substeps|
    ensures substeps[i].canPerformAction ==> FirstReadyAt(substeps, i)
    ensures !substeps[i].canPerformAction ==> NoneReady(substeps, i + 1)
  {
  }

  /** The first `k` substeps carried valid occupancy lists. */
  predicate Recordable(substeps: seq<Substep>, k: nat) {
    k <= |substeps| && forall j :: 0 <= j < k ==> IsFloatList(substeps[j].occupancy)
  }

  /** The rows the buffer holds after recording the first `k` substeps. */
  function RecordedRows(substeps: seq<Substep>, k: nat): (rows: seq<Row>)
    requires Recordable(substeps, k)
    ensures |rows| == k
    ensures forall j :: 0 <= j < k ==> ToPyList(rows[j]) == substeps[j].occupancy
  {
    if k == 0 then [] else RecordedRows(substeps, k - 1) + [FloatsOf(substeps[k - 1].occupancy)]
  }

  /** The action argument handed to the simulator: a bare phase action, or a
      dictionary from the junction id to an inner argument. */
  datatype ActionArg = PhaseAction(action: int) | ForJunction(tlsId: string, inner: ActionArg)

  /** How many junction dictionaries wrap the bare action. */
  function Depth(a: ActionArg): nat {
    match a
    case PhaseAction(_) => 0
    case ForJunction(_, inner) => 1 + Depth(inner)
  }

  /** The bare action at the centre of an argument. */
  function Innermost(a: ActionArg): int {
    match a
    case PhaseAction(x) => x
    case ForJunction(_, inner) => Innermost(inner)
  }

  /** `action` wrapped in `depth` dictionaries keyed by `tlsId`. */
  function Wrapped(tlsId: string, action: int, depth: nat): (a: ActionArg)
    ensures Depth(a) == depth && Innermost(a) == action
  {
    if depth == 0 then PhaseAction(action) else ForJunction(tlsId, Wrapped(tlsId, action, depth - 1))
  }

  /** The arguments the gating loop passes over `k` substeps as written: the
      loop rebinds `action` to the dictionary it builds, so every substep wraps
      the previous argument once more. */
  function SubstepActionsAsWritten(tlsId: string, action: int, k: nat): (r: seq<ActionArg>)
    ensures |r| == k
    ensures forall j :: 0 <= j < k ==> Depth(r[j]) == j + 1 && Innermost(r[j]) == action
  {
    if k == 0 then []
    else
      var prev := SubstepActionsAsWritten(tlsId, action, k - 1);
      var arg := if k == 1 then PhaseAction(action) else prev[k - 2];
      assert Depth(arg) == k - 1 && Innermost(arg) == action;
      prev + [ForJunction(tlsId, arg)]
  }

  /** From the second substep on, the written loop no longer sends the
      single-junction dictionary the simulator expects. */
  lemma SubstepActionsAsWrittenNest(tlsId: string, action: int)
    ensures SubstepActionsAsWritten(tlsId, action, 2)[0] == ForJunction(tlsId, PhaseAction(action))
    ensures SubstepActionsAsWritten(tlsId, action, 2)[1] == ForJunction(tlsId, ForJunction(tlsId, PhaseAction(action)))
  {
    assert SubstepActionsAsWritten(tlsId, action, 1) == [ForJunction(tlsId, PhaseAction(action))];
  }

  /** The arguments the gating loop evidently means to pass: the same
      `{tls_id: action}` dictionary on every substep. */
  function SubstepActions(tlsId: string, action: int, k: nat): (r: seq<ActionArg>)
    ensures |r| == k
    ensures forall j :: 0 <= j < k ==> Depth(r[j]) == 1 && Innermost(r[j]) == action && r[j].tlsId == tlsId
  {
    var one := ForJunction(tlsId, PhaseAction(action));
    assert Depth(PhaseAction(action)) == 0 && Innermost(PhaseAction(action)) == action;
    assert Depth(one) == 1 + Depth(PhaseAction(action)) && Innermost(one) == Innermost(PhaseAction(action));
    seq(k, j => one)
  }

  /** One more substep sends one more copy of the dictionary. */
  lemma SubstepActionsStep(tlsId: string, action: int, i: nat)
    ensures SubstepActions(tlsId, action, i + 1) == SubstepActions(tlsId, action, i) + [ForJunction(tlsId, PhaseAction(action))]
  {
  }

  /** Recording substep `i` into a buffer holding the rows of the earlier
      substeps yields the rows of the first `i + 1` substeps. */
  lemma RecordStep(base: seq<Row>, substeps: seq<Substep>, i: nat, b: Buffer)
    requires Recordable(substeps, i) && i < |substeps|
    requires b.elements == base + RecordedRows(substeps, i)
    requires AddElement(b, substeps[i].occupancy).Success?
    ensures Recordable(substeps, i + 1)
    ensures AddElement(b, substeps[i].occupancy).value.elements == base + RecordedRows(substeps, i + 1)
  {
    assert RecordedRows(substeps, i + 1) == RecordedRows(substeps, i) + [FloatsOf(substeps[i].occupancy)];
  }

  /** Both versions agree on the first substep only. */
  lemma SubstepActionsAgreeOnFirst(tlsId: string, action: int, k: nat)
    requires k > 0
    ensures SubstepActionsAsWritten(tlsId, action, k)[0] == SubstepActions(tlsId, action, k)[0]
    ensures forall j :: 1 <= j < k ==> SubstepActionsAsWritten(tlsId, action, k)[j] != SubstepActions(tlsId, action, k)[j]
  {
    var w := SubstepActionsAsWritten(tlsId, action, k);
    var c := SubstepActions(tlsId, action, k);
    assert Depth(w[0]) == 1;
    assert w[0] == ForJunction(w[0].tlsId, w[0].inner);
    assert w[0].inner == PhaseAction(action) by {
      assert Depth(w[0].inner) == 0;
      assert Innermost(w[0].inner) == Innermost(w[0]) == action;
    }
    forall j | 1 <= j < k
      ensures w[j] != c[j]
    {
      assert Depth(w[j]) != Depth(c[j]);
    }
  }

  /** Information returned by `step`. */
  datatype StepInfo = StepInfo(stepTime: real, thisPhaseIndex: int, phaseOcc: PyDict.Dict<int, real>)

  datatype StepOutcome =
    | Stepped(env: Env, observation: seq<Row>, reward: real, info: StepInfo, consumed: nat, sent: seq<ActionArg>)
    | Raised(error: PyError, consumed: nat)
    | Stalled  // the simulator never reported readiness within the given substeps

  /** Where the gating loop of `step` ends: at a ready substep with the
      buffer, the number of substeps consumed and the arguments sent; at an
      exception; or at the end of the given substeps. */
  datatype Gated =
    | Ready(buffer: Buffer, consumed: nat, sent: seq<ActionArg>)
    | GateRaised(error: PyError, consumed: nat)
    | NeverReady

  /** The gating loop of `step`: send `{tls_id: action}` and record the
      substep's occupancy until the simulator reports it can perform an action. */
  method Gate(buffer0: Buffer, tlsId: string, action: int, substeps: seq<Substep>) returns (g: Gated)
    ensures g.NeverReady? ==> NoneReady(substeps, |substeps|) && Recordable(substeps, |substeps|)
    ensures g.GateRaised? ==>
      && 0 < g.consumed <= |substeps|
      && NoneReady(substeps, g.consumed - 1)
      && Recordable(substeps, g.consumed - 1)
      && !IsFloatList(substeps[g.consumed - 1].occupancy)
      && g.error == if substeps[g.consumed - 1].occupancy.PyList? then ValueError else TypeError
    ensures g.Ready? ==>
      && 0 < g.consumed
      && g.sent == SubstepActions(tlsId, action, g.consumed)
      && FirstReadyAt(substeps, g.consumed - 1)
      && Recordable(substeps, g.consumed)
      && g.buffer.elements == buffer0.elements + RecordedRows(substeps, g.consumed)
  {
    var buffer := buffer0;
    var i := 0;
    var ready := false;
    var sent := [];
    while !ready
      invariant 0 <= i <= |substeps|
      invariant sent == SubstepActions(tlsId, action, i)
      invariant Recordable(substeps, i)
      invariant buffer.elements == buffer0.elements + RecordedRows(substeps, i)
      invariant ready ==> i > 0 && FirstReadyAt(substeps, i - 1)
      invariant !ready ==> NoneReady(substeps, i)
      decreases |substeps| - i, !ready
    {
      if i == |substeps| {
        return NeverReady;
      }
      var added := AddElement(buffer, substeps[i].occupancy);
      if added.Failure? {
        return GateRaised(added.error, i + 1);
      }
      RecordStep(buffer0.elements, substeps, i, buffer);
      SubstepActionsStep(tlsId, action, i);
      ReadyStep(substeps, i);
      buffer := added.value;
      sent := sent + [ForJunction(tlsId, PhaseAction(action))];
      ready := substeps[i].canPerformAction;
      i := i + 1;
    }
    g := Ready(buffer, i, sent);
  }

  /** What a completed `step` produced after recording the first `k` substeps:
      the buffered rows average to the new last row of the window, the buffer
      is emptied, every other field of the environment is unchanged, the reward and info come from the final substep and the
      averaged row, and the observation is the masked window. */
  predicate StepsTo(env: Env, substeps: seq<Substep>, k: nat, outcome: StepOutcome)
    requires ValidEnv(env) && 0 < k && Recordable(substeps, k)
  {
    var rows := env.buffer.elements + RecordedRows(substeps, k);
    && outcome.Stepped?
    && Rectangular(rows)
    && CalculateAverage(Buffer(rows)).Success?
    && var avg := CalculateAverage(Buffer(rows)).value.0;
    && outcome.env == env.(window := Append(env.window, avg), buffer := NewBuffer(),
                           currentAvgOcc := avg, current := substeps[k - 1])
    && outcome.reward == RewardWrapper(substeps[k - 1].waitingTimes)
    && outcome.info.thisPhaseIndex == substeps[k - 1].thisPhaseIndex
    && InfoWrapper(env.movementIds, avg, env.faults.notWorkElement, env.phase2movements) == Success(outcome.info.phaseOcc)
    && GetState(outcome.env.window, env.movementIds, env.faults.notWorkElement) == Success(outcome.observation)
  }

  /** After `k` recorded substeps, averaging the buffer, summing the phases
      of the average and reading out the extended window all succeed. */
  predicate Concludable(env: Env, substeps: seq<Substep>, k: nat)
    requires ValidEnv(env) && 0 < k && Recordable(substeps, k)
  {
    var averaged := CalculateAverage(Buffer(env.buffer.elements + RecordedRows(substeps, k)));
    && averaged.Success?
    && InfoWrapper(env.movementIds, averaged.value.0, env.faults.notWorkElement, env.phase2movements).Success?
    && GetState(Append(env.window, averaged.value.0), env.movementIds, env.faults.notWorkElement).Success?
  }

  /** `step` completes after exactly `k` substeps: the `k`-th is the first
      that can act, every recorded occupancy is a list of numbers, and the
      conclusion succeeds. */
  predicate StepCompletes(env: Env, substeps: seq<Substep>, k: nat)
    requires ValidEnv(env)
  {
    0 < k && FirstReadyAt(substeps, k - 1) && Recordable(substeps, k) && Concludable(env, substeps, k)
  }

  /** The first ready substep is unique. */
  lemma FirstReadyUnique(substeps: seq<Substep>, a: nat, b: nat)
    requires FirstReadyAt(substeps, a) && FirstReadyAt(substeps, b)
    ensures a == b
  {
  }

  /** The part of `step` after the gating loop: average the buffer, append the
      row to the window, compute reward and info, and read out the window. */
  method Conclude(env: Env, substeps: seq<Substep>, k: nat, buffer: Buffer, sent: seq<ActionArg>)
    returns (outcome: StepOutcome)
    requires ValidEnv(env) && 0 < k && Recordable(substeps, k)
    requires buffer.elements == env.buffer.elements + RecordedRows(substeps, k)
    ensures outcome.Raised? || outcome.Stepped?
    ensures outcome.Stepped? <==> Concludable(env, substeps, k)
    ensures outcome.consumed == k
    ensures outcome.Stepped? ==> outcome.sent == sent && StepsTo(env, substeps, k, outcome) && ValidEnv(outcome.env)
  {
    var last := substeps[k - 1];
    assert buffer == Buffer(env.buffer.elements + RecordedRows(substeps, k));
    var averaged := CalculateAverage(buffer);
    if averaged.Failure? {
      return Raised(averaged.error, k);
    }
    var avg := averaged.value.0;
    var reward := RewardWrapper(last.waitingTimes);
    var phaseOcc := InfoWrapper(env.movementIds, avg, env.faults.notWorkElement, env.phase2movements);
    if phaseOcc.Failure? {
      return Raised(phaseOcc.error, k);
    }
    var window := Append(env.window, avg);
    var observation := GetState(window, env.movementIds, env.faults.notWorkElement);
    if observation.Failure? {
      return Raised(observation.error, k);
    }
    var env' := env.(window := window, buffer := averaged.value.1, currentAvgOcc := avg, current := last);
    outcome := Stepped(env', observation.value, reward, StepInfo(last.stepTime, last.thisPhaseIndex, phaseOcc.value), k, sent);
    assert buffer == Buffer(env.buffer.elements + RecordedRows(substeps, k));
  }

  /** `step`: advance the simulator until it can perform an action, recording
      every substep's occupancy and sending `{tls_id: action}` each time; then
      conclude as `StepsTo` describes. */
  method Step(env: Env, tlsId: string, action: int, substeps: seq<Substep>) returns (outcome: StepOutcome)
    requires ValidEnv(env)
    ensures outcome.Stalled? ==>
      (forall j :: 0 <= j < |substeps| ==> !substeps[j].canPerformAction) && Recordable(substeps, |substeps|)
    ensures outcome.Raised? ==>
      && 0 < outcome.consumed <= |substeps|
      && forall j :: 0 <= j < outcome.consumed - 1 ==> !substeps[j].canPerformAction
    ensures outcome.Raised? ==>
      || (&& Recordable(substeps, outcome.consumed - 1)
          && !IsFloatList(substeps[outcome.consumed - 1].occupancy)
          && outcome.error == if substeps[outcome.consumed - 1].occupancy.PyList? then ValueError else TypeError)
      || (&& FirstReadyAt(substeps, outcome.consumed - 1)
          && Recordable(substeps, outcome.consumed)
          && !Concludable(env, substeps, outcome.consumed))
    ensures !outcome.Stepped? ==> forall k :: !StepCompletes(env, substeps, k)
    ensures outcome.Stepped? ==> ValidEnv(outcome.env) && StepCompletes(env, substeps, outcome.consumed)
    ensures outcome.Stepped? ==>
      && 0 < outcome.consumed
      && outcome.sent == SubstepActions(tlsId, action, outcome.consumed)
      && FirstReadyAt(substeps, outcome.consumed - 1)
      && Recordable(substeps, outcome.consumed)
      && StepsTo(env, substeps, outcome.consumed, outcome)
  {
    var g := Gate(env.buffer, tlsId, action, substeps);
    match g
    case NeverReady =>
      forall k: nat
        ensures !StepCompletes(env, substeps, k)
      {
        if 0 < k && k - 1 < |substeps| {
          assert !substeps[k - 1].canPerformAction;
        }
      }
      return Stalled;
    case GateRaised(e, c) =>
      forall k: nat
        ensures !StepCompletes(env, substeps, k)
      {
        if 0 < k < c && k - 1 < |substeps| {
          assert !substeps[k - 1].canPerformAction;
        }
      }
      return Raised(e, c);
    case Ready(buffer, k, sent) =>
      outcome := Conclude(env, substeps, k, buffer, sent);
      forall k': nat
        ensures StepCompletes(env, substeps, k') ==> k' == k
      {
        if 0 < k' && FirstReadyAt(substeps, k' - 1) {
          FirstReadyUnique(substeps, k' - 1, k - 1);
        }
      }
  }

  /** `get_current_occupancy` on the base wrapper: the current average keyed by
      the reported movements, with "-1" exactly on the faulted movement when it
      carries a detector. */
  function GetCurrentOccupancy(env: Env): (r: PyDict.Dict<string, OccText>)
    ensures r.Valid()
    ensures forall k :: k in r.Keys() <==>
      k in env.movementIds[..PyDict.Min(|env.movementIds|, |env.currentAvgOcc|)] && Reported(k)
    ensures ValidEnv(env) ==> forall m :: r.Get(m).Some? ==>
      (r.Get(m) == Some(Missing) <==> env.faults.notWorkElement == Some(m) && HasDetector(m))
  {
    var status := GetDetectorState(env.ls, env.faults);
    TransformOccDataMissing(env.movementIds, env.currentAvgOcc, status);
    DetectorStateAfterFault(env.ls, env.faults.notWorkElement);
    TransformOccData(env.movementIds, env.currentAvgOcc, status)
  }
}
