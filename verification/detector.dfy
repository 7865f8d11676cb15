/** The detector-fault overlay: which left-turn and through movements have a
    detector (`ls_elements`), the per-detector mask built by `set_occ_missing`,
    and the status dictionary read back by `get_detector_state`. */
module Detector {
  import opened Wrappers
  import opened Text
  import PyDict

  datatype DetectorStatus = Work | NotWork

  /** A movement whose id ends in "--l" or "--s" carries a detector. */
  predicate HasDetector(movementId: string) {
    EndsWith(movementId, "--l") || EndsWith(movementId, "--s")
  }

  /** `ls_elements`: the detector-carrying movements, in movement order. */
  function LsElements(movementIds: seq<string>): (ls: seq<string>)
    ensures forall e :: e in ls <==> e in movementIds && HasDetector(e)
    ensures |ls| <= |movementIds|
  {
    if |movementIds| == 0 then []
    else
      var rest := LsElements(movementIds[..|movementIds| - 1]);
      var last := movementIds[|movementIds| - 1];
      assert movementIds == movementIds[..|movementIds| - 1] + [last];
      if HasDetector(last) then rest + [last] else rest
  }

  /** Filtering distributes over concatenation, so the detector-carrying
      movements keep their relative order. */
  lemma {:induction false} LsElementsConcat(xs: seq<string>, ys: seq<string>)
    ensures LsElements(xs + ys) == LsElements(xs) + LsElements(ys)
    decreases |ys|
  {
    if |ys| == 0 {
      assert xs + ys == xs;
    } else {
      var ys' := ys[..|ys| - 1];
      assert (xs + ys)[..|xs + ys| - 1] == xs + ys';
      LsElementsConcat(xs, ys');
    }
  }

  /** A single movement is kept exactly when it carries a detector. */
  lemma LsElementsSingle(movementId: string)
    ensures LsElements([movementId]) == if HasDetector(movementId) then [movementId] else []
  {
    assert [movementId][..0] == [];
  }

  /** The fault overlay: the per-detector mask and the faulted movement. */
  datatype FaultState = FaultState(mask: seq<DetectorStatus>, notWorkElement: Option<string>)

  /** `set_occ_missing(k)`: a detector is 'Not Work' exactly when its movement
      equals `k`; `k` is also kept for the read-time masks. */
  function SetOccMissing(ls: seq<string>, notWorkElement: Option<string>): (f: FaultState)
    ensures |f.mask| == |ls|
    ensures forall i :: 0 <= i < |ls| ==> (f.mask[i] == NotWork <==> notWorkElement == Some(ls[i]))
    ensures f.notWorkElement == notWorkElement
  {
    FaultState(seq(|ls|, i requires 0 <= i < |ls| => if notWorkElement == Some(ls[i]) then NotWork else Work),
               notWorkElement)
  }

  /** The overlay after `reset`: every detector works, nothing is faulted. */
  function ResetFaults(ls: seq<string>): (f: FaultState)
    ensures f.notWorkElement.None?
    ensures |f.mask| == |ls| && forall i :: 0 <= i < |ls| ==> f.mask[i] == Work
  {
    FaultState(seq(|ls|, _ => Work), None)
  }

  /** `get_detector_state`: `ls_elements` paired position-wise with the mask. */
  function GetDetectorState(ls: seq<string>, f: FaultState): (r: PyDict.Dict<string, DetectorStatus>)
    ensures r.Valid()
    ensures forall e :: e in r.Keys() <==> e in ls[..PyDict.Min(|ls|, |f.mask|)]
    ensures forall i :: 0 <= i < PyDict.Min(|ls|, |f.mask|) && ls[i] !in ls[i + 1..PyDict.Min(|ls|, |f.mask|)] ==>
      r.Get(ls[i]) == Some(f.mask[i])
  {
    PyDict.FromZipLatestAll(ls, f.mask);
    PyDict.FromZip(ls, f.mask)
  }

  /** The status read back for a detector is 'Not Work' exactly for the faulted movement. */
  lemma DetectorStateAfterFault(ls: seq<string>, notWorkElement: Option<string>)
    ensures forall e :: e in ls ==>
      GetDetectorState(ls, SetOccMissing(ls, notWorkElement)).Get(e) ==
      Some(if notWorkElement == Some(e) then NotWork else Work)
    ensures forall e :: e !in ls ==> GetDetectorState(ls, SetOccMissing(ls, notWorkElement)).Get(e).None?
  {
    var f := SetOccMissing(ls, notWorkElement);
    PyDict.FromZipKeyed(ls, f.mask, e => if notWorkElement == Some(e) then NotWork else Work);
    assert ls[..PyDict.Min(|ls|, |f.mask|)] == ls;
  }

  /** Passing None or '' to `set_occ_missing` marks every detector as working,
      because no detector-carrying movement id is empty; this is the reset state. */
  lemma ClearingFaultRestoresReset(movementIds: seq<string>, cleared: Option<string>)
    requires cleared == None || cleared == Some("")
    ensures SetOccMissing(LsElements(movementIds), cleared).mask == ResetFaults(LsElements(movementIds)).mask
  {
    var ls := LsElements(movementIds);
    forall i | 0 <= i < |ls|
      ensures cleared != Some(ls[i])
    {
      assert HasDetector(ls[i]);
    }
  }
}
