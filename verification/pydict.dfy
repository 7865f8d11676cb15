/** Python's insertion-ordered `dict`, kept as its list of entries. Keys are
    pairwise distinct; assigning an existing key replaces its value in place,
    assigning a new key appends it. Iteration (`items()`, `values()`,
    `enumerate(d.items())`) follows the entry order. */
module PyDict {
  import opened Wrappers
  import Seqs

  datatype Dict<K(==,!new), V> = Dict(entries: seq<(K, V)>) {

    /** Every key occurs once, as in any Python dict. */
    predicate Valid() {
      forall i, j :: 0 <= i < j < |entries| ==> entries[i].0 != entries[j].0
    }

    /** The keys in iteration order. */
    function Keys(): (ks: seq<K>)
      ensures |ks| == |entries|
      ensures forall i :: 0 <= i < |entries| ==> ks[i] == entries[i].0
    {
      seq(|entries|, i requires 0 <= i < |entries| => entries[i].0)
    }

    /** The values in iteration order. */
    function Values(): (vs: seq<V>)
      ensures |vs| == |entries|
      ensures forall i :: 0 <= i < |entries| ==> vs[i] == entries[i].1
    {
      seq(|entries|, i requires 0 <= i < |entries| => entries[i].1)
    }

    /** `d.get(k)`: the value stored under `k`, or None. */
    function Get(k: K): (r: Option<V>)
      requires Valid()
      ensures r.None? <==> k !in Keys()
      ensures forall i :: 0 <= i < |entries| && entries[i].0 == k ==> r == Some(entries[i].1)
    {
      match Seqs.IndexOf(Keys(), k)
      case None => None
      case Some(i) => Some(entries[i].1)
    }

    /** `d[k] = v`. */
    function Set(k: K, v: V): (d: Dict<K, V>)
      requires Valid()
      ensures d.Valid()
      ensures d.Get(k) == Some(v)
      ensures forall k' :: k' != k ==> d.Get(k') == Get(k')
      ensures k in Keys() ==> d.Keys() == Keys()
      ensures k !in Keys() ==> d.Keys() == Keys() + [k]
    {
      match Seqs.IndexOf(Keys(), k)
      case Some(i) =>
        var d := Dict(entries[i := (k, v)]);
        assert d.Keys() == Keys();
        d
      case None =>
        var d := Dict(entries + [(k, v)]);
        assert d.Keys() == Keys() + [k];
        d
    }
  }

  /** The keys of two runs of entries laid end to end. */
  lemma KeysAppend<K(!new), V>(a: seq<(K, V)>, b: seq<(K, V)>)
    ensures Dict(a + b).Keys() == Dict(a).Keys() + Dict(b).Keys()
  {
  }

  /** A property every value of `d` has, and `v` has too, holds of every value
      after `d[k] = v`. */
  lemma SetKeepsValues<K(!new), V>(d: Dict<K, V>, k: K, v: V, P: V -> bool)
    requires d.Valid() && P(v)
    requires forall i :: 0 <= i < |d.entries| ==> P(d.entries[i].1)
    ensures forall i :: 0 <= i < |d.Set(k, v).entries| ==> P(d.Set(k, v).entries[i].1)
  {
    match Seqs.IndexOf(d.Keys(), k)
    case Some(j) =>
      assert d.Set(k, v).entries == d.entries[j := (k, v)];
    case None =>
      assert d.Set(k, v).entries == d.entries + [(k, v)];
  }

  /** The empty dict `{}`. */
  function Empty<K(==,!new), V>(): (d: Dict<K, V>)
    ensures d.Valid() && d.Keys() == []
  {
    Dict([])
  }

  /** `{k: v for k, v in zip(ks, vs)}`: later duplicates overwrite earlier ones,
      and `zip` stops at the shorter sequence. */
  function FromZip<K(==,!new), V>(ks: seq<K>, vs: seq<V>): (d: Dict<K, V>)
    ensures d.Valid()
    ensures forall k :: k in d.Keys() <==> k in ks[..Min(|ks|, |vs|)]
    decreases |ks|
  {
    var n := Min(|ks|, |vs|);
    if n == 0 then Empty()
    else
      var d := FromZip(ks[..n - 1], vs[..n - 1]);
      assert ks[..n - 1][..Min(n - 1, n - 1)] == ks[..n - 1];
      assert ks[..n] == ks[..n - 1] + [ks[n - 1]];
      SetKeys(d, ks[n - 1], vs[n - 1]);
      d.Set(ks[n - 1], vs[n - 1])
  }

  /** After `d[k] = v` the keys are the old keys and `k`. */
  lemma SetKeys<K(!new), V>(d: Dict<K, V>, k: K, v: V)
    requires d.Valid()
    ensures forall x :: x in d.Set(k, v).Keys() <==> x in d.Keys() || x == k
  {
    if k in d.Keys() {
      assert d.Set(k, v).Keys() == d.Keys();
    } else {
      assert d.Set(k, v).Keys() == d.Keys() + [k];
    }
  }

  function Min(a: int, b: int): int {
    if a <= b then a else b
  }

  /** With distinct keys, `dict(zip(ks, vs))` maps each key to the value at its position. */
  lemma FromZipGet<K(!new), V>(ks: seq<K>, vs: seq<V>, i: nat)
    requires i < |ks| && i < |vs|
    requires forall a, b :: 0 <= a < b < |ks| ==> ks[a] != ks[b]
    ensures FromZip(ks, vs).Get(ks[i]) == Some(vs[i])
  {
    var n := Min(|ks|, |vs|);
    var later := ks[i + 1..n];
    forall j | 0 <= j < |later|
      ensures later[j] != ks[i]
    {
      assert later[j] == ks[i + 1 + j];
    }
    FromZipLatest(ks, vs, i);
  }

  /** Later pairs overwrite earlier ones: a key that does not recur later in
      the zipped part maps to the value at its position. */
  lemma {:induction false} FromZipLatest<K(!new), V>(ks: seq<K>, vs: seq<V>, i: nat)
    requires i < Min(|ks|, |vs|)
    requires ks[i] !in ks[i + 1..Min(|ks|, |vs|)]
    ensures FromZip(ks, vs).Get(ks[i]) == Some(vs[i])
    decreases |ks|
  {
    var n := Min(|ks|, |vs|);
    if i < n - 1 {
      ZippedPrefix(ks, vs, i);
      FromZipLatest(ks[..n - 1], vs[..n - 1], i);
      FromZipFrame(ks, vs, ks[i]);
    } else {
      FromZipLast(ks, vs);
    }
  }

  /** `FromZipLatest` at every position at once. */
  lemma FromZipLatestAll<K(!new), V>(ks: seq<K>, vs: seq<V>)
    ensures forall i :: 0 <= i < Min(|ks|, |vs|) && ks[i] !in ks[i + 1..Min(|ks|, |vs|)] ==>
      FromZip(ks, vs).Get(ks[i]) == Some(vs[i])
  {
    forall i | 0 <= i < Min(|ks|, |vs|) && ks[i] !in ks[i + 1..Min(|ks|, |vs|)]
      ensures FromZip(ks, vs).Get(ks[i]) == Some(vs[i])
    {
      FromZipLatest(ks, vs, i);
    }
  }

  /** Dropping the last zipped pair keeps position `i` and its "no later
      duplicate" condition, and the dropped key differs from `ks[i]`. */
  lemma ZippedPrefix<K, V>(ks: seq<K>, vs: seq<V>, i: nat)
    requires i < Min(|ks|, |vs|) - 1
    requires ks[i] !in ks[i + 1..Min(|ks|, |vs|)]
    ensures var n := Min(|ks|, |vs|);
      && Min(|ks[..n - 1]|, |vs[..n - 1]|) == n - 1
      && ks[..n - 1][i] == ks[i] && vs[..n - 1][i] == vs[i]
      && ks[..n - 1][i] !in ks[..n - 1][i + 1..n - 1]
      && ks[i] != ks[n - 1]
  {
    var n := Min(|ks|, |vs|);
    assert ks[..n - 1][i + 1..n - 1] == ks[i + 1..n - 1];
    assert ks[i + 1..n] == ks[i + 1..n - 1] + [ks[n - 1]];
  }

  /** The last zipped key maps to the last zipped value. */
  lemma FromZipLast<K(!new), V>(ks: seq<K>, vs: seq<V>)
    requires 0 < Min(|ks|, |vs|)
    ensures var n := Min(|ks|, |vs|); FromZip(ks, vs).Get(ks[n - 1]) == Some(vs[n - 1])
  {
    var n := Min(|ks|, |vs|);
    assert FromZip(ks, vs) == FromZip(ks[..n - 1], vs[..n - 1]).Set(ks[n - 1], vs[n - 1]);
  }

  /** Any other key maps as it did before the last pair was zipped in. */
  lemma FromZipFrame<K(!new), V>(ks: seq<K>, vs: seq<V>, x: K)
    requires 0 < Min(|ks|, |vs|) && x != ks[Min(|ks|, |vs|) - 1]
    ensures var n := Min(|ks|, |vs|); FromZip(ks, vs).Get(x) == FromZip(ks[..n - 1], vs[..n - 1]).Get(x)
  {
    var n := Min(|ks|, |vs|);
    var d := FromZip(ks[..n - 1], vs[..n - 1]);
    assert FromZip(ks, vs) == d.Set(ks[n - 1], vs[n - 1]);
  }

  /** When each value is a function of its key, duplicates do not matter:
      `dict(zip(ks, vs))` maps every key to that function's value. */
  lemma {:induction false} FromZipKeyed<K(!new), V>(ks: seq<K>, vs: seq<V>, f: K -> V)
    requires |vs| == |ks|
    requires forall i :: 0 <= i < |ks| ==> vs[i] == f(ks[i])
    ensures forall k :: k in ks ==> FromZip(ks, vs).Get(k) == Some(f(k))
    decreases |ks|
  {
    if |ks| > 0 {
      var n := |ks|;
      FromZipKeyed(ks[..n - 1], vs[..n - 1], f);
      assert ks == ks[..n - 1] + [ks[n - 1]];
    }
  }
}
