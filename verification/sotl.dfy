/** The occupancy-driven controller: after each step it compares the mean
    occupancy of the phase that would come next with that of the current
    phase. As written, both branches of the comparison choose to switch; the
    comment on the second branch says "keep", and `SotlDecide` is that
    corrected rule. */
module Sotl {
  import opened Wrappers
  import PyDict

  /** The loop variables: the action for the next step, and
      `last_change_light_time`, which the loop never initialises. */
  datatype ControllerState = ControllerState(action: int, lastChange: Option<real>)

  /** The variables before the first step. */
  function Init(): ControllerState {
    ControllerState(1, None)
  }

  /** Python's `a % b`: the result takes the sign of `b`. */
  function PyMod(a: int, b: int): (r: int)
    requires b != 0
    ensures b > 0 ==> 0 <= r < b
    ensures b < 0 ==> b < r <= 0
    ensures b > 0 ==> r == a % b
  {
    if b > 0 then a % b else -((-a) % (-b))
  }

  /** Python's remainders against a negative and a positive divisor. */
  lemma PyModExamples()
    ensures PyMod(7, -3) == -2 && PyMod(-7, 3) == 2 && PyMod(-7, -3) == -1
  {
  }

  /** `(this_phase_index + 1) % phase_num`; zero phases divide by zero. */
  function NextPhase(thisPhase: int, phaseNum: int): (r: Result<int, PyError>)
    ensures r.Failure? <==> phaseNum == 0
    ensures r.Failure? ==> r.error == ZeroDivisionError
    ensures r.Success? && phaseNum > 0 ==> 0 <= r.value < phaseNum
    ensures r.Success? && 0 <= thisPhase < phaseNum - 1 ==> r.value == thisPhase + 1
    ensures r.Success? && phaseNum > 0 && thisPhase == phaseNum - 1 ==> r.value == 0
  {
    if phaseNum == 0 then Failure(ZeroDivisionError) else Success(PyMod(thisPhase + 1, phaseNum))
  }

  /** The two occupancies the rule compares, next phase first, each a dictionary
      lookup that raises KeyError when the phase is missing. */
  function Occupancies(thisPhase: int, phaseNum: int, phaseOcc: PyDict.Dict<int, real>)
    : (r: Result<(real, real), PyError>)
    requires phaseOcc.Valid()
    ensures r.Success? <==> phaseNum != 0 && NextPhase(thisPhase, phaseNum).value in phaseOcc.Keys()
                                          && thisPhase in phaseOcc.Keys()
    ensures phaseNum == 0 ==> r == Failure(ZeroDivisionError)
    ensures phaseNum != 0 && r.Failure? ==> r.error == KeyError
    ensures r.Success? ==> r.value == (phaseOcc.Get(NextPhase(thisPhase, phaseNum).value).value,
                                       phaseOcc.Get(thisPhase).value)
  {
    var next :- NextPhase(thisPhase, phaseNum);
    match (phaseOcc.Get(next), phaseOcc.Get(thisPhase))
    case (Some(n), Some(t)) => Success((n, t))
    case _ => Failure(KeyError)
  }

  /** One iteration of the loop as the source writes it: the comparison decides
      only whether the time is recorded, and every step asks to switch. */
  function DecideAsWritten(s: ControllerState, stepTime: real, thisPhase: int, phaseNum: int,
                           phaseOcc: PyDict.Dict<int, real>): (r: Result<ControllerState, PyError>)
    requires phaseOcc.Valid()
    ensures r.Failure? <==> Occupancies(thisPhase, phaseNum, phaseOcc).Failure?
    ensures r.Success? ==> r.value.action == 0
    ensures r.Success? ==> var (next, current) := Occupancies(thisPhase, phaseNum, phaseOcc).value;
      && (next > current ==> r.value.lastChange == s.lastChange)
      && (next <= current ==> r.value.lastChange == Some(stepTime))
  {
    var (next, current) :- Occupancies(thisPhase, phaseNum, phaseOcc);
    if next > current then Success(ControllerState(0, s.lastChange))
    else Success(ControllerState(0, Some(stepTime)))
  }

  /** Two phases, the current one busier than the next: the loop still switches,
      where the comment on that branch says it keeps the phase. */
  lemma DecideAsWrittenSwitchesFromBusierPhase()
    ensures var occ := PyDict.Dict([(0, 0.8), (1, 0.1)]);
      && occ.Valid()
      && DecideAsWritten(Init(), 5.0, 0, 2, occ) == Success(ControllerState(0, Some(5.0)))
      && SotlDecide(Init(), 5.0, 0, 2, occ) == Success(ControllerState(1, Some(5.0)))
  {
    var occ := PyDict.Dict([(0, 0.8), (1, 0.1)]);
    assert occ.Get(1) == Some(0.1);
    assert occ.Get(0) == Some(0.8);
  }

  /** One iteration with the evident intent: switch (action 0) when the next
      phase is busier, otherwise keep the phase (action 1) and note the time. */
  function SotlDecide(s: ControllerState, stepTime: real, thisPhase: int, phaseNum: int,
                      phaseOcc: PyDict.Dict<int, real>): (r: Result<ControllerState, PyError>)
    requires phaseOcc.Valid()
    ensures r.Failure? <==> Occupancies(thisPhase, phaseNum, phaseOcc).Failure?
    ensures r.Failure? ==> r.error == Occupancies(thisPhase, phaseNum, phaseOcc).error
    ensures r.Success? ==> var (next, current) := Occupancies(thisPhase, phaseNum, phaseOcc).value;
      && (r.value.action == 0 || r.value.action == 1)
      && (r.value.action == 0 <==> next > current)
      && (r.value.action == 0 ==> r.value.lastChange == s.lastChange)
      && (r.value.action == 1 ==> r.value.lastChange == Some(stepTime))
  {
    var (next, current) :- Occupancies(thisPhase, phaseNum, phaseOcc);
    if next > current then Success(ControllerState(0, s.lastChange))
    else Success(ControllerState(1, Some(stepTime)))
  }

  /** The corrected rule differs from the written one only in the action of the
      keep branch: failures and the recorded time agree. */
  lemma SotlDecideDiffersOnlyInKeep(s: ControllerState, stepTime: real, thisPhase: int, phaseNum: int,
                                    phaseOcc: PyDict.Dict<int, real>)
    requires phaseOcc.Valid()
    ensures var w := DecideAsWritten(s, stepTime, thisPhase, phaseNum, phaseOcc);
      var c := SotlDecide(s, stepTime, thisPhase, phaseNum, phaseOcc);
      && (w.Failure? <==> c.Failure?)
      && (w.Success? ==> w.value.lastChange == c.value.lastChange)
      && (w.Success? ==> (w.value == c.value <==> c.value.action == 0))
  {
  }
}
