/** The scripted perturbations the experiment loops apply by simulation time:
    an edge slowed to a crawl inside one time window, and a detector fault
    inside another, both switched back outside their windows. */
module Perturbation {
  import opened Wrappers
  import Detector

  /** The speed a blocked edge is set to, and the speed it is restored to. */
  const BlockedSpeed: int := 1
  const FreeSpeed: int := 13

  /** An open time window `lo < s < hi`. */
  predicate Inside(s: real, lo: real, hi: real) {
    lo < s < hi
  }

  /** The speed passed to `set_edge_speed` at time `s`. */
  function EdgeSpeed(s: real, lo: real, hi: real): (v: int)
    ensures v == BlockedSpeed || v == FreeSpeed
    ensures v == BlockedSpeed <==> Inside(s, lo, hi)
  {
    if Inside(s, lo, hi) then BlockedSpeed else FreeSpeed
  }

  /** The element passed to `set_occ_missing` at time `s`: the broken detector
      inside the window, the empty string (clearing the fault) outside it. */
  function FaultArgument(s: real, lo: real, hi: real, detectorBreak: string): (k: string)
    ensures Inside(s, lo, hi) ==> k == detectorBreak
    ensures !Inside(s, lo, hi) ==> k == ""
  {
    if Inside(s, lo, hi) then detectorBreak else ""
  }

  /** The calls one iteration makes: a speed for the blocked edge and an
      argument for `set_occ_missing`, each absent when that perturbation is
      not configured. */
  datatype Settings = Settings(speed: Option<int>, fault: Option<string>)

  /** The settings at time `s`, given the configured edge and detector and the
      two windows. */
  function SettingsAt(s: real, edgeBlock: Option<string>, detectorBreak: Option<string>,
                      speedLo: real, speedHi: real, faultLo: real, faultHi: real): (p: Settings)
    ensures p.speed.Some? <==> edgeBlock.Some?
    ensures p.fault.Some? <==> detectorBreak.Some?
    ensures p.speed.Some? ==> (p.speed.value == BlockedSpeed <==> Inside(s, speedLo, speedHi))
    ensures p.fault.Some? ==> p.fault.value == FaultArgument(s, faultLo, faultHi, detectorBreak.value)
  {
    Settings(if edgeBlock.Some? then Some(EdgeSpeed(s, speedLo, speedHi)) else None,
             if detectorBreak.Some? then Some(FaultArgument(s, faultLo, faultHi, detectorBreak.value)) else None)
  }

  /** What the detector-state tool reports after the iteration's call: the broken
      detector reads 'Not Work' exactly inside the window, and every other
      detector always reads 'Work'. */
  lemma FaultReadBack(movementIds: seq<string>, s: real, lo: real, hi: real, detectorBreak: string)
    ensures var ls := Detector.LsElements(movementIds);
      var f := Detector.SetOccMissing(ls, Some(FaultArgument(s, lo, hi, detectorBreak)));
      forall e :: e in ls ==>
        Detector.GetDetectorState(ls, f).Get(e)
          == Some(if e == detectorBreak && Inside(s, lo, hi) then Detector.NotWork else Detector.Work)
  {
    var ls := Detector.LsElements(movementIds);
    var arg := FaultArgument(s, lo, hi, detectorBreak);
    Detector.DetectorStateAfterFault(ls, Some(arg));
    forall e | e in ls
      ensures e != ""
    {
      assert Detector.HasDetector(e);
    }
  }
}
