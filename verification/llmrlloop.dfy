/** The mixed experiment loop: random phases early on, the language-model agent
    inside a middle window (where the perturbations are applied), and the
    reinforcement-learning policy otherwise. */
module LlmRlLoop {
  import opened Wrappers
  import Perturbation

  /** Which controller picks the phase of an iteration. */
  datatype Controller = RandomChoice | LlmAgent | RlPolicy

  /** The language-model agent runs strictly between these times; before the
      first the phase is random. */
  const AgentFrom: real := 150.0
  const AgentUntil: real := 300.0

  /** Inside the agent window, the edge is blocked strictly between these times. */
  const SpeedFrom: real := 170.0
  const SpeedUntil: real := 200.0

  /** Inside the agent window, the detector is broken strictly between these times. */
  const FaultFrom: real := 220.0
  const FaultUntil: real := 250.0

  /** The controller of an iteration whose `sim_step` is `s`: the agent window is
      checked first, then `s < 150`; the boundary 150 itself and everything from
      300 on fall through to the policy. */
  function ControllerAt(s: real): (c: Controller)
    ensures c == RandomChoice <==> s < AgentFrom
    ensures c == LlmAgent <==> AgentFrom < s < AgentUntil
    ensures c == RlPolicy <==> s == AgentFrom || s >= AgentUntil
  {
    if AgentFrom < s < AgentUntil then LlmAgent
    else if s < AgentFrom then RandomChoice
    else RlPolicy
  }

  /** The stage a controller belongs to in the schedule. */
  function Stage(c: Controller): nat {
    match c
    case RandomChoice => 0
    case LlmAgent => 1
    case RlPolicy => 2
  }

  /** Away from the boundary 150, later iterations never return to an earlier
      controller: random, then agent, then policy. */
  lemma ControllerMonotone(s1: real, s2: real)
    requires s1 <= s2 && s1 != AgentFrom
    ensures Stage(ControllerAt(s1)) <= Stage(ControllerAt(s2))
  {
  }

  /** At exactly 150 the policy is consulted, and a later iteration goes back
      to the agent. */
  lemma BoundaryGoesToPolicy()
    ensures ControllerAt(150.0) == RlPolicy && ControllerAt(151.0) == LlmAgent
    ensures ControllerAt(149.0) == RandomChoice && ControllerAt(300.0) == RlPolicy
  {
  }

  /** The phase an iteration steps with, given the value the random generator
      draws, the phase the agent's answer names and the policy's action.
      `np.random.randint(phase_num)` raises ValueError unless `phase_num > 0`. */
  function PhaseId(s: real, phaseNum: int, draw: nat, agentPhase: int, policyAction: int)
    : (r: Result<int, PyError>)
    ensures ControllerAt(s) == RandomChoice ==>
      (r.Success? <==> phaseNum > 0) && (r.Success? ==> 0 <= r.value < phaseNum)
    ensures ControllerAt(s) == RandomChoice && r.Failure? ==> r.error == ValueError
    ensures ControllerAt(s) == LlmAgent ==> r == Success(agentPhase)
    ensures ControllerAt(s) == RlPolicy ==> r == Success(policyAction)
  {
    match ControllerAt(s)
    case RandomChoice => if phaseNum > 0 then Success(draw % phaseNum) else Failure(ValueError)
    case LlmAgent => Success(agentPhase)
    case RlPolicy => Success(policyAction)
  }

  /** The perturbation calls an iteration makes: none at all outside the agent
      window, so whatever was last set stays in force. */
  function IterationSettings(s: real, edgeBlock: Option<string>, detectorBreak: Option<string>)
    : (p: Option<Perturbation.Settings>)
    ensures p.Some? <==> ControllerAt(s) == LlmAgent
    ensures p.Some? ==>
      && (p.value.speed.Some? <==> edgeBlock.Some?)
      && (p.value.fault.Some? <==> detectorBreak.Some?)
      && (p.value.speed.Some? ==> (p.value.speed.value == Perturbation.BlockedSpeed <==> SpeedFrom < s < SpeedUntil))
      && (p.value.fault.Some? ==> p.value.fault.value == if FaultFrom < s < FaultUntil then detectorBreak.value else "")
  {
    if AgentFrom < s < AgentUntil then
      Some(Perturbation.SettingsAt(s, edgeBlock, detectorBreak, SpeedFrom, SpeedUntil, FaultFrom, FaultUntil))
    else None
  }

  /** The `set_occ_missing` argument in force after iterations with sim steps
      `times`: the one the latest agent-window iteration passed, or None when no
      iteration has made the call yet (the state `reset` leaves). */
  function FaultInForce(times: seq<real>, detectorBreak: string): (k: Option<string>)
    ensures k.Some? <==> exists i :: 0 <= i < |times| && ControllerAt(times[i]) == LlmAgent
    ensures k.Some? ==> k.value == detectorBreak || k.value == ""
  {
    if |times| == 0 then None
    else
      var last := times[|times| - 1];
      match IterationSettings(last, None, Some(detectorBreak))
      case Some(p) => p.fault
      case None =>
        var k := FaultInForce(times[..|times| - 1], detectorBreak);
        assert forall i :: 0 <= i < |times| - 1 ==> times[..|times| - 1][i] == times[i];
        k
  }

  /** The step times the environment reports never go back. */
  predicate NonDecreasing(times: seq<real>) {
    forall a, b :: 0 <= a < b < |times| ==> times[a] <= times[b]
  }

  /** With time moving forward: no fault is in force while every step time is
      at most 220, the fault is in force whenever the latest step is inside
      (220, 250), and it is cleared once the latest step is in [250, 300). */
  lemma {:induction false} FaultSchedule(times: seq<real>, detectorBreak: string)
    requires NonDecreasing(times) && |times| > 0
    ensures var s := times[|times| - 1];
      && (s <= FaultFrom ==> FaultInForce(times, detectorBreak) != Some(detectorBreak) || detectorBreak == "")
      && (FaultFrom < s < FaultUntil ==> FaultInForce(times, detectorBreak) == Some(detectorBreak))
      && (FaultUntil <= s < AgentUntil ==> FaultInForce(times, detectorBreak) == Some(""))
  {
    var n := |times|;
    var s := times[n - 1];
    if s <= FaultFrom && detectorBreak != "" {
      NoFaultBefore(times, detectorBreak);
    }
  }

  lemma {:induction false} NoFaultBefore(times: seq<real>, detectorBreak: string)
    requires NonDecreasing(times) && |times| > 0 && times[|times| - 1] <= FaultFrom
    requires detectorBreak != ""
    ensures FaultInForce(times, detectorBreak) != Some(detectorBreak)
  {
    var n := |times|;
    if n > 1 && ControllerAt(times[n - 1]) != LlmAgent {
      NoFaultBefore(times[..n - 1], detectorBreak);
    }
  }

  /** Steps 60 seconds apart can skip the clearing part of the window: the
      fault set at 240 is still in force when the policy takes over at 300. */
  lemma FaultOutlivesWindow()
    ensures ControllerAt(300.0) == RlPolicy
    ensures FaultInForce([0.0, 60.0, 120.0, 180.0, 240.0, 300.0], "E1--s") == Some("E1--s")
  {
    var times := [0.0, 60.0, 120.0, 180.0, 240.0, 300.0];
    assert times[..5][4] == 240.0;
    assert times[..|times| - 1] == times[..5];
  }
}
