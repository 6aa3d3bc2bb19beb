/** Python's insertion-ordered `dict`: the keys in the order they were first
    inserted, each bound to the value written last. */
module Dict {
  import opened Wrappers

  datatype Dict<V> = Dict(keys: seq<string>, at: map<string, V>) {

    /** The order lists every key exactly once. */
    ghost predicate Valid() {
      && (forall i, j :: 0 <= i < j < |keys| ==> keys[i] != keys[j])
      && (forall k :: k in at <==> k in keys)
    }

    /** `d.get(k)` */
    function Get(k: string): (r: Option<V>)
      ensures r.Some? <==> k in at
      ensures r.Some? ==> r.value == at[k]
    {
      if k in at then Some(at[k]) else None
    }

    /** `d[k] = v`: an existing key keeps its place, a new key goes last. */
    function Put(k: string, v: V): (d: Dict<V>)
      requires Valid()
      ensures d.Valid()
      ensures d.at == at[k := v]
      ensures k in at ==> d.keys == keys
      ensures k !in at ==> d.keys == keys + [k]
    {
      if k in at then Dict(keys, at[k := v]) else Dict(keys + [k], at[k := v])
    }
  }

  function Empty<V>(): (d: Dict<V>)
    ensures d.Valid() && d.keys == []
  {
    Dict([], map[])
  }

  /** The keys of a sequence of pairs, in order. */
  function Keys<K, V>(ps: seq<(K, V)>): (ks: seq<K>)
    ensures |ks| == |ps|
    ensures forall i :: 0 <= i < |ps| ==> ks[i] == ps[i].0
  {
    seq(|ps|, i requires 0 <= i < |ps| => ps[i].0)
  }

  /** Position of the first occurrence of `k`. */
  ghost function FirstIndex<K>(xs: seq<K>, k: K): (r: nat)
    requires k in xs
    ensures r < |xs| && xs[r] == k
    ensures forall j :: 0 <= j < r ==> xs[j] != k
  {
    if xs[0] == k then 0 else 1 + FirstIndex(xs[1..], k)
  }

  /** Position of the last pair whose key is `k`. */
  ghost function LastIndex<K, V>(ps: seq<(K, V)>, k: K): (r: nat)
    requires k in Keys(ps)
    ensures r < |ps| && ps[r].0 == k
    ensures forall j :: r < j < |ps| ==> ps[j].0 != k
  {
    var n := |ps| - 1;
    if ps[n].0 == k then n
    else
      assert Keys(ps) == Keys(ps[..n]) + [ps[n].0];
      LastIndex(ps[..n], k)
  }

  /** No later pair of `ps` carries the key of pair `i`. */
  ghost predicate IsLastKey<V>(ps: seq<(string, V)>, i: int)
    requires 0 <= i < |ps|
  {
    forall j :: i < j < |ps| ==> ps[j].0 != ps[i].0
  }

  /** `{k: v for (k, v) in ps}`: the keys are exactly those of `ps`, and
      each is bound to the value of the LAST pair carrying it. */
  function FromPairs<V>(ps: seq<(string, V)>): (d: Dict<V>)
    ensures d.Valid()
    ensures forall k :: k in d.at <==> k in Keys(ps)
    ensures forall i :: 0 <= i < |ps| && IsLastKey(ps, i) ==> d.at[ps[i].0] == ps[i].1
  {
    if ps == [] then Empty()
    else
      var n := |ps| - 1;
      assert ps == ps[..n] + [ps[n]];
      PutLast(ps[..n], ps[n].0, ps[n].1, FromPairs(ps[..n]));
      FromPairs(ps[..n]).Put(ps[n].0, ps[n].1)
  }

  /** One more pair: its key gets its value, and it is the last pair with
      that key. */
  lemma PutLast<V>(ps: seq<(string, V)>, k: string, v: V, d0: Dict<V>)
    requires d0.Valid()
    requires forall x :: x in d0.at <==> x in Keys(ps)
    requires forall i :: 0 <= i < |ps| && IsLastKey(ps, i) ==> d0.at[ps[i].0] == ps[i].1
    ensures var qs, d := ps + [(k, v)], d0.Put(k, v);
      && (forall x :: x in d.at <==> x in Keys(qs))
      && (forall i :: 0 <= i < |qs| && IsLastKey(qs, i) ==> d.at[qs[i].0] == qs[i].1)
  {
    var qs, d := ps + [(k, v)], d0.Put(k, v);
    assert Keys(qs) == Keys(ps) + [k];
    forall i | 0 <= i < |qs| && IsLastKey(qs, i)
      ensures d.at[qs[i].0] == qs[i].1
    {
      if i < |ps| {
        assert qs[i] == ps[i] && qs[|ps|].0 == k;
        assert IsLastKey(ps, i) by {
          forall j | i < j < |ps| ensures ps[j].0 != ps[i].0 {
            assert qs[j] == ps[j];
          }
        }
      }
    }
  }

  /** The last pair with a key gives that key's value. */
  lemma FromPairsAt<V>(ps: seq<(string, V)>, i: int)
    requires 0 <= i < |ps| && IsLastKey(ps, i)
    ensures ps[i].0 in FromPairs(ps).at && FromPairs(ps).at[ps[i].0] == ps[i].1
  {
    assert Keys(ps)[i] == ps[i].0;
  }

  /** Every key of the dict is bound to the value of some pair with that key
      after which the key does not recur. */
  lemma FromPairsValue<V>(ps: seq<(string, V)>, k: string)
    requires k in Keys(ps)
    ensures k in FromPairs(ps).at
    ensures 0 <= LastIndex(ps, k) < |ps| && IsLastKey(ps, LastIndex(ps, k))
    ensures FromPairs(ps).at[k] == ps[LastIndex(ps, k)].1
  {
  }

  lemma FirstIndexPrefix<K>(xs: seq<K>, y: K, k: K)
    requires k in xs
    ensures FirstIndex(xs + [y], k) == FirstIndex(xs, k)
  {
    var i := FirstIndex(xs, k);
    var i' := FirstIndex(xs + [y], k);
    assert (xs + [y])[i] == k;
    assert i' < |xs| ==> xs[i'] == k;
  }

  /** Every element of `keys` occurs in `xs`, and `keys` lists them in
      the order of their first occurrences there. */
  ghost predicate FirstOccurrenceOrder<K>(xs: seq<K>, keys: seq<K>) {
    && (forall i :: 0 <= i < |keys| ==> keys[i] in xs)
    && (forall i, j :: 0 <= i < j < |keys| ==> FirstIndex(xs, keys[i]) < FirstIndex(xs, keys[j]))
  }

  lemma FirstOccurrenceOrderExtend<K>(xs: seq<K>, keys: seq<K>, y: K)
    requires FirstOccurrenceOrder(xs, keys)
    ensures FirstOccurrenceOrder(xs + [y], keys)
    ensures y !in xs ==> FirstOccurrenceOrder(xs + [y], keys + [y])
  {
    forall i | 0 <= i < |keys|
      ensures FirstIndex(xs + [y], keys[i]) == FirstIndex(xs, keys[i]) < |xs|
    {
      FirstIndexPrefix(xs, y, keys[i]);
    }
    if y !in xs {
      var ks := keys + [y];
      assert FirstIndex(xs + [y], y) == |xs|;
      forall i, j | 0 <= i < j < |ks|
        ensures FirstIndex(xs + [y], ks[i]) < FirstIndex(xs + [y], ks[j])
      {
        assert ks[i] == keys[i];
        if j < |keys| {
          assert ks[j] == keys[j];
        }
      }
    }
  }

  /** The dict's keys are ordered by where each first appears in `ps`. */
  lemma {:induction false} FromPairsOrder<V>(ps: seq<(string, V)>)
    ensures FirstOccurrenceOrder(Keys(ps), FromPairs(ps).keys)
  {
    if ps != [] {
      var n := |ps| - 1;
      var k := ps[n].0;
      FromPairsOrder(ps[..n]);
      var d0 := FromPairs(ps[..n]);
      assert Keys(ps) == Keys(ps[..n]) + [k];
      FirstOccurrenceOrderExtend(Keys(ps[..n]), d0.keys, k);
    }
  }

  /** Python's `len(d)`: the number of distinct keys among the pairs. */
  lemma FromPairsSize<V>(ps: seq<(string, V)>)
    ensures |FromPairs(ps).keys| == |set k | k in Keys(ps)|
  {
    var d := FromPairs(ps);
    DistinctCard(d.keys);
    assert (set k | k in d.keys) == (set k | k in Keys(ps));
  }

  /** A duplicate-free sequence has as many elements as its set. */
  lemma {:induction false} DistinctCard<K>(xs: seq<K>)
    requires forall i, j :: 0 <= i < j < |xs| ==> xs[i] != xs[j]
    ensures |set k | k in xs| == |xs|
  {
    if xs != [] {
      var n := |xs| - 1;
      DistinctCard(xs[..n]);
      assert (set k | k in xs) == (set k | k in xs[..n]) + {xs[n]};
      assert xs[n] !in xs[..n];
    }
  }
}
