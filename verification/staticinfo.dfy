/** `convert_state_to_static_information`: the junction's static description
    (turning movements with their lane counts, and each phase's movements) as
    the agent and the similarity measure read it. */
module StaticInfo {
  import opened Wrappers
  import opened Text
  import PyDict

  /** The two directions that are reported; right turns ('r') are dropped. */
  datatype Direction = LeftTurn | Through {
    /** The text stored under "direction". */
    function Label(): string {
      match this
      case LeftTurn => "Left Turn"
      case Through => "Through"
    }
  }

  /** One "movement_infos" entry: {"direction": ..., "number_of_lanes": ...}. */
  datatype MovementInfo = MovementInfo(direction: Direction, numberOfLanes: int)

  /** The parts of a junction state the conversion reads. */
  datatype JunctionState = JunctionState(
    movementDirections: PyDict.Dict<string, string>,
    movementLaneNumbers: PyDict.Dict<string, int>,
    phase2movements: PyDict.Dict<int, seq<string>>)
  {
    /** Each of the three is a Python dict. */
    predicate Valid() {
      movementDirections.Valid() && movementLaneNumbers.Valid() && phase2movements.Valid()
    }
  }

  /** The converted description: "movement_infos" and "phase_infos" (each phase's
      {"movements": [...]} is kept as its list). */
  datatype StaticInformation = StaticInformation(
    movementInfos: PyDict.Dict<string, MovementInfo>,
    phaseInfos: PyDict.Dict<string, seq<string>>)

  /** The reported direction of a direction code: 'l' and 's' only. */
  function DirectionOf(code: string): (d: Option<Direction>)
    ensures d == Some(LeftTurn) <==> code == "l"
    ensures d == Some(Through) <==> code == "s"
    ensures d.Some? ==> d.value.Label() == (if code == "l" then "Left Turn" else "Through")
  {
    if code == "l" then Some(LeftTurn)
    else if code == "s" then Some(Through)
    else None
  }

  /** The key of phase `p`: the code's "Phase " prefix (capitalised). */
  function PhaseKey(p: int): string {
    "Phase " + IntToString(p)
  }

  /** A direction entry that is reported ('l' or 's'). */
  predicate Kept(d: (string, string)) {
    DirectionOf(d.1).Some?
  }

  /** The movement-info entry a reported direction entry becomes. */
  function InfoOf(d: (string, string), lanes: PyDict.Dict<string, int>): (e: (string, MovementInfo))
    requires lanes.Valid() && Kept(d)
    ensures e.0 == d.0
  {
    (d.0, MovementInfo(DirectionOf(d.1).value, lanes.Get(d.0).GetOr(0)))
  }

  /** The movement-info entries, in the order of `movement_directions`. */
  function MovementEntries(directions: seq<(string, string)>, lanes: PyDict.Dict<string, int>)
    : (r: seq<(string, MovementInfo)>)
    requires lanes.Valid()
  {
    if |directions| == 0 then []
    else
      var prev := MovementEntries(directions[..|directions| - 1], lanes);
      var d := directions[|directions| - 1];
      if Kept(d) then prev + [InfoOf(d, lanes)] else prev
  }

  /** The entries are exactly the reported direction entries, converted. */
  lemma {:induction false} MovementEntriesMembers(directions: seq<(string, string)>, lanes: PyDict.Dict<string, int>)
    requires lanes.Valid()
    ensures forall e :: e in MovementEntries(directions, lanes) <==>
      exists i :: 0 <= i < |directions| && Kept(directions[i]) && e == InfoOf(directions[i], lanes)
  {
    if |directions| > 0 {
      var n := |directions|;
      var init := directions[..n - 1];
      MovementEntriesMembers(init, lanes);
      forall i | 0 <= i < n - 1
        ensures directions[i] == init[i]
      {
      }
    }
  }

  /** Distinct movement ids in, distinct keys out. */
  lemma {:induction false} MovementEntriesDistinct(directions: seq<(string, string)>, lanes: PyDict.Dict<string, int>)
    requires lanes.Valid() && PyDict.Dict(directions).Valid()
    ensures PyDict.Dict(MovementEntries(directions, lanes)).Valid()
  {
    if |directions| > 0 {
      var n := |directions|;
      var init := directions[..n - 1];
      var d := directions[n - 1];
      assert PyDict.Dict(init).Valid();
      MovementEntriesDistinct(init, lanes);
      MovementEntriesMembers(init, lanes);
      var prev := MovementEntries(init, lanes);
      if Kept(d) {
        forall k | 0 <= k < |prev|
          ensures prev[k].0 != d.0
        {
          assert prev[k] in prev;
          var i :| 0 <= i < |init| && Kept(init[i]) && prev[k] == InfoOf(init[i], lanes);
          assert init[i] == directions[i];
        }
      }
    }
  }

  /** Movement infos hold exactly the left-turn and through movements, each with
      its direction and its lane count (0 when the lane table lacks it); keys
      stay distinct. */
  lemma MovementEntriesMeaning(directions: seq<(string, string)>, lanes: PyDict.Dict<string, int>)
    requires lanes.Valid()
    requires PyDict.Dict(directions).Valid()
    ensures var infos := PyDict.Dict(MovementEntries(directions, lanes));
      && infos.Valid()
      && (forall i :: 0 <= i < |directions| ==>
            if Kept(directions[i]) then infos.Get(directions[i].0) == Some(InfoOf(directions[i], lanes).1)
            else directions[i].0 !in infos.Keys())
      && (forall m :: m in infos.Keys() ==> m in PyDict.Dict(directions).Keys())
  {
    var r := MovementEntries(directions, lanes);
    var infos := PyDict.Dict(r);
    MovementEntriesMembers(directions, lanes);
    MovementEntriesDistinct(directions, lanes);
    forall i | 0 <= i < |directions|
      ensures if Kept(directions[i]) then infos.Get(directions[i].0) == Some(InfoOf(directions[i], lanes).1)
              else directions[i].0 !in infos.Keys()
    {
      if Kept(directions[i]) {
        var e := InfoOf(directions[i], lanes);
        assert e in r;
        var k :| 0 <= k < |r| && r[k] == e;
        assert infos.entries[k].0 == directions[i].0;
      } else {
        forall k | 0 <= k < |r|
          ensures r[k].0 != directions[i].0
        {
          assert r[k] in r;
          var j :| 0 <= j < |directions| && Kept(directions[j]) && r[k] == InfoOf(directions[j], lanes);
          assert j != i;
        }
      }
    }
    forall m | m in infos.Keys()
      ensures m in PyDict.Dict(directions).Keys()
    {
      var k :| 0 <= k < |r| && r[k].0 == m;
      assert r[k] in r;
      var j :| 0 <= j < |directions| && Kept(directions[j]) && r[k] == InfoOf(directions[j], lanes);
      assert PyDict.Dict(directions).Keys()[j] == m;
    }
  }

  /** The phase-info entries, in phase order. */
  function PhaseEntries(phases: seq<(int, seq<string>)>): (r: seq<(string, seq<string>)>)
    ensures |r| == |phases|
    ensures forall p :: 0 <= p < |phases| ==> r[p].0 == PhaseKey(phases[p].0)
    ensures forall p :: 0 <= p < |phases| ==> |r[p].1| == |phases[p].1|
    ensures forall p, k :: 0 <= p < |phases| && 0 <= k < |phases[p].1| ==>
      r[p].1[k] == DashesToUnderscore(phases[p].1[k])
  {
    seq(|phases|, p requires 0 <= p < |phases| =>
      (PhaseKey(phases[p].0),
       seq(|phases[p].1|, k requires 0 <= k < |phases[p].1| => DashesToUnderscore(phases[p].1[k]))))
  }

  /** Distinct phases give distinct "Phase p" keys, so no phase overwrites another. */
  lemma PhaseKeysDistinct(phases: PyDict.Dict<int, seq<string>>)
    requires phases.Valid()
    ensures PyDict.Dict(PhaseEntries(phases.entries)).Valid()
  {
    var r := PhaseEntries(phases.entries);
    forall i, j | 0 <= i < j < |r|
      ensures r[i].0 != r[j].0
    {
      var a := phases.entries[i].0;
      var b := phases.entries[j].0;
      assert a != b;
      if r[i].0 == r[j].0 {
        assert PhaseKey(a) == PhaseKey(b);
        PhaseKeyInjective(a, b);
      }
    }
  }

  lemma PhaseKeyInjective(a: int, b: int)
    requires PhaseKey(a) == PhaseKey(b)
    ensures a == b
  {
    var pre := "Phase ";
    assert PhaseKey(a)[|pre|..] == IntToString(a);
    assert PhaseKey(b)[|pre|..] == IntToString(b);
    IntToStringInjective(a, b);
  }

  /** `convert_state_to_static_information`: the reported movements with their
      direction and lane count (0 when the lane table lacks them), right turns and
      other codes dropped; every phase `p` under "Phase p" with its movements
      rewritten from "edge--d" to "edge_d", order and length kept. */
  function ConvertStateToStaticInformation(state: JunctionState): (info: StaticInformation)
    requires state.Valid()
    ensures info.movementInfos.Valid() && info.phaseInfos.Valid()
    ensures forall i :: 0 <= i < |state.movementDirections.entries| ==>
      var (m, code) := state.movementDirections.entries[i];
      if code == "l" || code == "s" then
        info.movementInfos.Get(m) ==
          Some(MovementInfo(if code == "l" then LeftTurn else Through, state.movementLaneNumbers.Get(m).GetOr(0)))
      else m !in info.movementInfos.Keys()
    ensures forall m :: m in info.movementInfos.Keys() ==> m in state.movementDirections.Keys()
    ensures |info.phaseInfos.entries| == |state.phase2movements.entries|
    ensures forall p :: 0 <= p < |state.phase2movements.entries| ==>
      var (phase, movements) := state.phase2movements.entries[p];
      && info.phaseInfos.Keys()[p] == PhaseKey(phase)
      && info.phaseInfos.Get(PhaseKey(phase)) == Some(info.phaseInfos.entries[p].1)
      && |info.phaseInfos.entries[p].1| == |movements|
      && forall k :: 0 <= k < |movements| ==> info.phaseInfos.entries[p].1[k] == DashesToUnderscore(movements[k])
  {
    MovementEntriesMeaning(state.movementDirections.entries, state.movementLaneNumbers);
    PhaseKeysDistinct(state.phase2movements);
    StaticInformation(
      PyDict.Dict(MovementEntries(state.movementDirections.entries, state.movementLaneNumbers)),
      PyDict.Dict(PhaseEntries(state.phase2movements.entries)))
  }

  /** The docstring's junction: direction codes "r", "s", "l" for one edge keep
      only "s" and "l", the through movement with its 2 lanes and the left turn,
      absent from the lane table, with 0. */
  lemma MovementInfosExample()
    ensures MovementEntries([("E2_r", "r"), ("E2_s", "s"), ("E2_l", "l")], PyDict.Dict([("E2_s", 2), ("E2_r", 1)]))
            == [("E2_s", MovementInfo(Through, 2)), ("E2_l", MovementInfo(LeftTurn, 0))]
  {
    var dirs := [("E2_r", "r"), ("E2_s", "s"), ("E2_l", "l")];
    var lanes := PyDict.Dict([("E2_s", 2), ("E2_r", 1)]);
    assert lanes.Keys() == ["E2_s", "E2_r"];
    assert lanes.Get("E2_s") == Some(2);
    assert lanes.Get("E2_l") == None;
    assert MovementEntries(dirs[..1], lanes) == [] by {
      assert dirs[..1][..0] == [];
    }
    assert dirs[..2][..1] == dirs[..1];
    assert MovementEntries(dirs[..2], lanes) == [("E2_s", MovementInfo(Through, 2))];
  }

  /** The docstring's phase 0, ["E2--s", "E1--s"], becomes "Phase 0" with ["E2_s", "E1_s"]. */
  lemma PhaseInfosExample()
    ensures PhaseEntries([(0, ["E2--s", "E1--s"])]) == [("Phase 0", ["E2_s", "E1_s"])]
  {
    assert DashesToUnderscore("E2--s") == "E2_s" by {
      assert "E2--s"[1..] == "2--s";
      assert "2--s"[1..] == "--s";
      assert "--s"[2..] == "s";
      assert "s"[1..] == "";
    }
    assert DashesToUnderscore("E1--s") == "E1_s" by {
      assert "E1--s"[1..] == "1--s";
      assert "1--s"[1..] == "--s";
      assert "--s"[2..] == "s";
      assert "s"[1..] == "";
    }
    assert PhaseKey(0) == "Phase 0" by {
      assert NatToString(0) == "0";
    }
    var r := PhaseEntries([(0, ["E2--s", "E1--s"])]);
    assert r[0].1 == ["E2_s", "E1_s"];
  }
}
