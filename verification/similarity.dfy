/** The deterministic parts of the junction-similarity measure: the indices of
    the `n` smallest scores, the per-phase lane totals of a static description,
    and the emergency-vehicle comparison. */
module Similarity {
  import opened Wrappers
  import opened PyValues
  import Seqs
  import PyDict
  import StaticInfo

  // ---------------------------------------------------------------------------
  // find_min_indices
  // ---------------------------------------------------------------------------

  /** The order a stable sort by value produces on positions: smaller value
      first, equal values in position order. */
  predicate Before(lst: seq<real>, i: nat, j: nat)
    requires i < |lst| && j < |lst|
  {
    lst[i] < lst[j] || (lst[i] == lst[j] && i < j)
  }

  /** Every entry is a position of `lst`. */
  predicate Positions(lst: seq<real>, s: seq<nat>) {
    forall a :: 0 <= a < |s| ==> s[a] < |lst|
  }

  /** `s` is strictly increasing in the stable order. */
  predicate SortedBy(lst: seq<real>, s: seq<nat>)
    requires Positions(lst, s)
  {
    forall a, b :: 0 <= a < b < |s| ==> Before(lst, s[a], s[b])
  }

  /** Inserting position `i`, larger than every position already sorted, after
      every position whose value is at most `lst[i]`. */
  function Insert(lst: seq<real>, s: seq<nat>, i: nat): (r: seq<nat>)
    requires i < |lst| && Positions(lst, s) && SortedBy(lst, s)
    requires forall a :: 0 <= a < |s| ==> s[a] < i
    ensures |r| == |s| + 1 && Positions(lst, r) && SortedBy(lst, r)
    ensures forall k :: k in r <==> k in s || k == i
  {
    if |s| == 0 then [i]
    else if lst[i] < lst[s[0]] then [i] + s
    else
      var t := Insert(lst, s[1..], i);
      assert forall k :: k in s <==> k == s[0] || k in s[1..];
      forall b | 0 <= b < |t|
        ensures Before(lst, s[0], t[b])
      {
        assert t[b] in t;
        if t[b] != i {
          var a :| 1 <= a < |s| && s[a] == t[b];
        }
      }
      [s[0]] + t
  }

  /** `sorted(enumerate(lst[:m]), key=value)` as positions. */
  function SortPositions(lst: seq<real>, m: nat): (r: seq<nat>)
    requires m <= |lst|
    ensures |r| == m && Positions(lst, r) && SortedBy(lst, r)
    ensures forall k: nat :: k in r <==> k < m
  {
    if m == 0 then []
    else
      var s := SortPositions(lst, m - 1);
      assert forall a :: 0 <= a < |s| ==> s[a] in s;
      Insert(lst, s, m - 1)
  }

  /** The length of `s[:n]` for a sequence of length `len`, with Python's
      slicing of a negative bound. */
  function SliceLength(len: nat, n: int): (k: nat)
    ensures k <= len
    ensures n >= 0 ==> k == if n < len then n else len
  {
    if n >= 0 then (if n < len then n else len)
    else if len + n > 0 then len + n else 0
  }

  /** `find_min_indices(lst, n)`. */
  function FindMinIndices(lst: seq<real>, n: int): (r: seq<nat>)
    ensures |r| == SliceLength(|lst|, n)
    ensures Positions(lst, r) && SortedBy(lst, r)
    ensures forall a, b :: 0 <= a < b < |r| ==> r[a] != r[b]
    ensures forall a, b :: 0 <= a < b < |r| ==> lst[r[a]] <= lst[r[b]]
    ensures forall a, b :: 0 <= a < b < |r| && lst[r[a]] == lst[r[b]] ==> r[a] < r[b]
    ensures forall j, a :: 0 <= j < |lst| && j !in r && 0 <= a < |r| ==> lst[j] >= lst[r[a]]
  {
    var all := SortPositions(lst, |lst|);
    var r := all[..SliceLength(|lst|, n)];
    forall j, a | 0 <= j < |lst| && j !in r && 0 <= a < |r|
      ensures lst[j] >= lst[r[a]]
    {
      assert j in all;
      var b :| 0 <= b < |all| && all[b] == j;
      assert b >= |r|;
    }
    r
  }

  /** A stable sort is unique: two position lists that hold every position once
      and are both increasing in the stable order are equal. So the selection is
      the prefix of THE stable order, not just some order by value. */
  lemma {:induction false} StableOrderUnique(lst: seq<real>, s: seq<nat>, t: seq<nat>)
    requires Positions(lst, s) && Positions(lst, t) && SortedBy(lst, s) && SortedBy(lst, t)
    requires |s| == |t| && forall k :: k in s <==> k in t
    ensures s == t
    decreases |s|
  {
    if |s| > 0 {
      assert s[0] in t;
      assert t[0] in s;
      var a :| 0 <= a < |t| && t[a] == s[0];
      var b :| 0 <= b < |s| && s[b] == t[0];
      assert Before(lst, t[0], s[0]) || a == 0;
      assert Before(lst, s[0], t[0]) || b == 0;
      forall k
        ensures k in s[1..] <==> k in t[1..]
      {
        if k in s[1..] {
          var a :| 1 <= a < |s| && s[a] == k;
          assert Before(lst, s[0], s[a]);
          assert s[a] in s;
          var c :| 0 <= c < |t| && t[c] == k;
          assert c != 0;
          assert t[1..][c - 1] == k;
        }
        if k in t[1..] {
          var a :| 1 <= a < |t| && t[a] == k;
          assert Before(lst, t[0], t[a]);
          assert t[a] in t;
          var c :| 0 <= c < |s| && s[c] == k;
          assert c != 0;
          assert s[1..][c - 1] == k;
        }
      }
      StableOrderUnique(lst, s[1..], t[1..]);
    }
  }

  /** Any ordering of all positions that a stable sort by value could produce
      starts with the selected indices. */
  lemma FindMinIndicesIsStablePrefix(lst: seq<real>, n: int, order: seq<nat>)
    requires Positions(lst, order) && SortedBy(lst, order)
    requires |order| == |lst| && forall k: nat :: k in order <==> k < |lst|
    ensures FindMinIndices(lst, n) == order[..SliceLength(|lst|, n)]
  {
    var all := SortPositions(lst, |lst|);
    StableOrderUnique(lst, all, order);
  }

  /** Scores [0.5, 0.2, 0.5, 0.1] with n = 3 select positions 3, 1, 0: the tie
      at 0.5 is broken by position. */
  lemma FindMinIndicesExample()
    ensures FindMinIndices([0.5, 0.2, 0.5, 0.1], 3) == [3, 1, 0]
  {
    var lst := [0.5, 0.2, 0.5, 0.1];
    var order: seq<nat> := [3, 1, 0, 2];
    assert forall k: nat :: k in order <==> k < |lst|;
    FindMinIndicesIsStablePrefix(lst, 3, order);
  }

  // ---------------------------------------------------------------------------
  // get_statistic_info
  // ---------------------------------------------------------------------------

  /** Every movement is a key of the layout. */
  predicate Listed(layout: PyDict.Dict<string, StaticInfo.MovementInfo>, movements: seq<string>) {
    forall k :: 0 <= k < |movements| ==> movements[k] in layout.Keys()
  }

  /** The lane counts of a phase's movements, in order; an unknown movement is a KeyError. */
  function LaneCounts(layout: PyDict.Dict<string, StaticInfo.MovementInfo>, movements: seq<string>)
    : (r: Result<seq<int>, PyError>)
    requires layout.Valid()
    ensures r.Success? <==> Listed(layout, movements)
    ensures r.Failure? ==> r.error == KeyError
    ensures r.Success? ==>
      && |r.value| == |movements|
      && forall k :: 0 <= k < |movements| ==> r.value[k] == layout.Get(movements[k]).value.numberOfLanes
  {
    if |movements| == 0 then Success([])
    else
      match LaneCounts(layout, movements[..|movements| - 1])
      case Failure(e) => Failure(e)
      case Success(ls) =>
        match layout.Get(movements[|movements| - 1])
        case None => Failure(KeyError)
        case Some(info) => Success(ls + [info.numberOfLanes])
  }

  /** Every movement of every phase entry is in the layout. */
  predicate InLayout(layout: PyDict.Dict<string, StaticInfo.MovementInfo>, entries: seq<(string, seq<string>)>) {
    forall p :: 0 <= p < |entries| ==> Listed(layout, entries[p].1)
  }

  /** All phase entries are in the layout exactly when all but the last are
      and the last one's movements are. */
  lemma InLayoutSnoc(layout: PyDict.Dict<string, StaticInfo.MovementInfo>, entries: seq<(string, seq<string>)>)
    requires |entries| > 0
    ensures InLayout(layout, entries) <==>
      InLayout(layout, entries[..|entries| - 1]) && Listed(layout, entries[|entries| - 1].1)
  {
    var init := entries[..|entries| - 1];
    assert forall p :: 0 <= p < |init| ==> init[p] == entries[p];
  }

  /** `get_statistic_info`: per phase, in phase order, the total lane count of its
      movements; a movement absent from the layout is a KeyError. */
  function GetStatisticInfo(layout: PyDict.Dict<string, StaticInfo.MovementInfo>,
                            phases: PyDict.Dict<string, seq<string>>)
    : (r: Result<seq<int>, PyError>)
    requires layout.Valid()
    ensures r.Success? <==> InLayout(layout, phases.entries)
    ensures r.Failure? ==> r.error == KeyError
    ensures r.Success? ==>
      && |r.value| == |phases.entries|
      && forall p :: 0 <= p < |phases.entries| ==> r.value[p] == Seqs.IntSum(LaneCounts(layout, phases.entries[p].1).value)
    decreases |phases.entries|
  {
    var n := |phases.entries|;
    if n == 0 then Success([])
    else
      var init := PyDict.Dict(phases.entries[..n - 1]);
      InLayoutSnoc(layout, phases.entries);
      assert forall p :: 0 <= p < n - 1 ==> init.entries[p] == phases.entries[p];
      match GetStatisticInfo(layout, init)
      case Failure(e) => Failure(e)
      case Success(totals) =>
        match LaneCounts(layout, phases.entries[n - 1].1)
        case Failure(e) => Failure(e)
        case Success(ls) => Success(totals + [Seqs.IntSum(ls)])
  }

  /** A uniform layout, every movement with `lanes` lanes: each phase's total is
      its movement count times `lanes`. */
  lemma UniformLanes(layout: PyDict.Dict<string, StaticInfo.MovementInfo>,
                     phases: PyDict.Dict<string, seq<string>>, lanes: int)
    requires layout.Valid()
    requires forall i :: 0 <= i < |layout.entries| ==> layout.entries[i].1.numberOfLanes == lanes
    requires GetStatisticInfo(layout, phases).Success?
    ensures forall p :: 0 <= p < |phases.entries| ==>
      GetStatisticInfo(layout, phases).value[p] == |phases.entries[p].1| * lanes
  {
    forall p | 0 <= p < |phases.entries|
      ensures GetStatisticInfo(layout, phases).value[p] == |phases.entries[p].1| * lanes
    {
      var ls := LaneCounts(layout, phases.entries[p].1).value;
      forall k | 0 <= k < |ls|
        ensures ls[k] == lanes
      {
        var m := phases.entries[p].1[k];
        var i :| 0 <= i < |layout.entries| && layout.entries[i].0 == m;
      }
      IntSumConstant(ls, lanes);
    }
  }

  lemma {:induction false} IntSumConstant(xs: seq<int>, c: int)
    requires forall i :: 0 <= i < |xs| ==> xs[i] == c
    ensures Seqs.IntSum(xs) == |xs| * c
  {
    if |xs| > 0 {
      IntSumConstant(xs[..|xs| - 1], c);
    }
  }

  // ---------------------------------------------------------------------------
  // check_emergency
  // ---------------------------------------------------------------------------

  /** `check_emergency(a, b)`: 0 when both scenes have an emergency vehicle or
      neither has (by Python truthiness), 1 otherwise; hence symmetric. */
  function CheckEmergency(a: PyValue, b: PyValue): (r: int)
    ensures r == 0 || r == 1
    ensures r == 0 <==> Truthy(a) == Truthy(b)
  {
    if (!Truthy(a) && !Truthy(b)) || (Truthy(a) && Truthy(b)) then 0 else 1
  }
}
