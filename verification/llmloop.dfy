/** The experiment loop that lets the language model pick every phase: how the
    model's decision text becomes an action, with its fallback, and the
    perturbation windows applied before each step. */
module LlmLoop {
  import opened Wrappers
  import opened Text
  import Perturbation

  /** The action sent with the first step. */
  const InitialAction: int := 0

  /** The action used whenever the decision cannot be read as a valid phase. */
  const FallbackAction: int := 1

  /** The edge is blocked strictly between these times. */
  const SpeedFrom: real := 50.0
  const SpeedUntil: real := 100.0

  /** The detector is broken strictly between these times. */
  const FaultFrom: real := 200.0
  const FaultUntil: real := 400.0

  /** Python's `int(c)` on a one-character string succeeds exactly on a decimal
      digit, giving its value. */
  lemma ParseIntOfChar(c: char)
    ensures ParseInt([c]) == if IsDigit(c) then Some(DigitValue(c)) else None
  {
    if IsSpace(c) {
      assert StripLeft([c]) == StripLeft([c][1..]);
      assert [c][1..] == [];
      assert Strip([c]) == [];
    } else {
      assert StripLeft([c]) == [c];
      assert StripRight([c]) == [c];
      assert Strip([c]) == [c];
      if IsDigit(c) {
        assert [c][..0] == [];
        assert DigitsValue([c]) == DigitValue(c);
      }
    }
  }

  /** The action taken from the parsed `decision` field (None when the field is
      missing or not a string): its last character read as an integer, kept
      only when it names one of the `phaseNum` phases; every failure (empty
      text, a non-digit last character, an out-of-range phase) falls back. */
  function ParseDecision(decision: Option<string>, phaseNum: int): (a: int)
    ensures a == FallbackAction || 0 <= a < phaseNum
    ensures 0 <= a < 10
    ensures a != FallbackAction ==>
      && decision.Some? && |decision.value| > 0
      && IsDigit(decision.value[|decision.value| - 1])
      && a == DigitValue(decision.value[|decision.value| - 1])
    ensures decision.Some? && |decision.value| > 0 && IsDigit(decision.value[|decision.value| - 1])
            && DigitValue(decision.value[|decision.value| - 1]) < phaseNum
            ==> a == DigitValue(decision.value[|decision.value| - 1])
  {
    match decision
    case None => FallbackAction
    case Some(d) =>
      if |d| == 0 then FallbackAction
      else
        ParseIntOfChar(d[|d| - 1]);
        match ParseInt([d[|d| - 1]])
        case None => FallbackAction
        case Some(v) => if 0 <= v < phaseNum then v else FallbackAction
  }

  /** A decision ending in the digit of a valid phase selects that phase,
      whatever text precedes it. */
  lemma ParseDecisionSelects(prefix: string, phase: nat, phaseNum: int)
    requires phase < 10 && phase < phaseNum
    ensures ParseDecision(Some(prefix + [DigitChar(phase)]), phaseNum) == phase
  {
    var d := prefix + [DigitChar(phase)];
    assert d[|d| - 1] == DigitChar(phase);
    assert DigitValue(DigitChar(phase)) == phase;
  }

  /** Only the last character is read: "12" with twelve phases selects phase 2,
      so phases from 10 on can never be chosen; text ending in a letter falls back. */
  lemma ParseDecisionExamples()
    ensures ParseDecision(Some("12"), 12) == 2
    ensures ParseDecision(Some("Phase 3"), 4) == 3
    ensures ParseDecision(Some("Phase 7"), 4) == FallbackAction
    ensures ParseDecision(Some("none"), 4) == FallbackAction
    ensures ParseDecision(Some(""), 4) == FallbackAction
  {
    ParseDecisionSelects("1", 2, 12);
    ParseDecisionSelects("Phase ", 3, 4);
    assert !IsDigit("none"[3]);
  }

  /** The perturbation calls made at the top of an iteration whose `sim_step` is `s`. */
  function IterationSettings(s: real, edgeBlock: Option<string>, detectorBreak: Option<string>)
    : (p: Perturbation.Settings)
    ensures p.speed.Some? <==> edgeBlock.Some?
    ensures p.fault.Some? <==> detectorBreak.Some?
    ensures p.speed.Some? ==> (p.speed.value == Perturbation.BlockedSpeed <==> SpeedFrom < s < SpeedUntil)
    ensures p.fault.Some? ==> (p.fault.value == detectorBreak.value <==> (FaultFrom < s < FaultUntil || detectorBreak.value == ""))
    ensures p.fault.Some? && !(FaultFrom < s < FaultUntil) ==> p.fault.value == ""
  {
    Perturbation.SettingsAt(s, edgeBlock, detectorBreak, SpeedFrom, SpeedUntil, FaultFrom, FaultUntil)
  }
}
