/** The fixed-time controller's decision rule: keep the current phase (action
    1) until 30 seconds have passed since the last switch, then switch to the
    next phase (action 0) and restart the clock. */
module FixTime {

  /** The controller's loop variables: the action for the next step and
      `last_change_light_time`. */
  datatype ControllerState = ControllerState(action: int, lastChange: real)

  /** Switching is allowed once this many seconds have passed. */
  const MinGreen: real := 30.0

  /** The variables before the first step: action 1, last change at 0. */
  function Init(): ControllerState {
    ControllerState(1, 0.0)
  }

  /** One iteration of the loop, given the step time the environment reports. */
  function Decide(s: ControllerState, stepTime: real): (s': ControllerState)
    ensures s'.action == 0 || s'.action == 1
    ensures s'.action == 0 <==> stepTime - s.lastChange >= MinGreen
    ensures s'.action == 1 ==> s'.lastChange == s.lastChange
    ensures s'.action == 0 ==> s'.lastChange == stepTime
  {
    if stepTime - s.lastChange < MinGreen then ControllerState(1, s.lastChange)
    else ControllerState(0, stepTime)
  }

  /** The variables after each step of an episode whose steps report `times`. */
  function Trace(times: seq<real>): (tr: seq<ControllerState>)
    ensures |tr| == |times|
  {
    if |times| == 0 then []
    else
      var prev := Trace(times[..|times| - 1]);
      prev + [Decide(if |prev| == 0 then Init() else prev[|prev| - 1], times[|times| - 1])]
  }

  /** The step times the environment reports never go back. */
  predicate NonDecreasing(times: seq<real>) {
    forall a, b :: 0 <= a < b < |times| ==> times[a] <= times[b]
  }

  /** Over an episode: no switch before time 30, any two switches at least 30
      apart, and the last switch time never exceeds the latest step time. */
  lemma {:induction false} SwitchSpacing(times: seq<real>)
    requires NonDecreasing(times)
    ensures var tr := Trace(times);
      && (forall a :: 0 <= a < |tr| && tr[a].action == 0 ==> times[a] >= MinGreen)
      && (forall a, b :: 0 <= a < b < |tr| && tr[a].action == 0 && tr[b].action == 0 ==> times[b] - times[a] >= MinGreen)
      && (forall a :: 0 <= a < |tr| ==> tr[a].lastChange >= 0.0)
      && (forall a, k :: 0 <= a <= k < |tr| && tr[a].action == 0 ==> tr[k].lastChange >= times[a])
  {
    if |times| > 0 {
      var n := |times|;
      var init := times[..n - 1];
      SwitchSpacing(init);
      var prev := Trace(init);
      var tr := Trace(times);
      assert tr[..n - 1] == prev;
      var before := if n == 1 then Init() else prev[n - 2];
      assert tr[n - 1] == Decide(before, times[n - 1]);
      assert before.lastChange >= 0.0;
      forall a | 0 <= a < n - 1 && tr[a].action == 0
        ensures before.lastChange >= times[a]
      {
        assert prev[a] == tr[a];
      }
    }
  }

  /** Steps every 10 seconds from 10 to 70 switch at 30 and at 60 only. */
  lemma TraceExample()
    ensures var tr := Trace([10.0, 20.0, 30.0, 40.0, 50.0, 60.0, 70.0]);
      seq(|tr|, k requires 0 <= k < |tr| => tr[k].action) == [1, 1, 0, 1, 1, 0, 1]
  {
    var times := [10.0, 20.0, 30.0, 40.0, 50.0, 60.0, 70.0];
    assert times[..1][..0] == [];
    assert Trace(times[..1]) == [ControllerState(1, 0.0)];
    assert times[..2][..1] == times[..1];
    assert Trace(times[..2]) == [ControllerState(1, 0.0), ControllerState(1, 0.0)];
    assert times[..3][..2] == times[..2];
    assert Trace(times[..3])[2] == ControllerState(0, 30.0);
    assert times[..4][..3] == times[..3];
    assert Trace(times[..4])[3] == ControllerState(1, 30.0);
    assert times[..5][..4] == times[..4];
    assert Trace(times[..5])[4] == ControllerState(1, 30.0);
    assert times[..6][..5] == times[..5];
    assert Trace(times[..6])[5] == ControllerState(0, 60.0);
    assert times[..6] == times[..|times| - 1];
    var tr := Trace(times);
    assert tr[..6] == Trace(times[..6]);
    assert tr[6] == ControllerState(1, 60.0);
  }
}
