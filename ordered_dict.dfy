/**
 * Python's insertion-ordered `dict`, as the dict comprehensions of the weld
 * use it: a key keeps the position of its first insertion, and a later
 * assignment to the same key overwrites its value.
 */
module OrderedDict {
  import opened Seqs

  /** The keys in first-insertion order, and the current value of each key. */
  datatype ODict<K(==), V> = ODict(keys: seq<K>, vals: map<K, V>) {

    /** Each key is listed once, and the listed keys are exactly those that have a value. */
    predicate Valid() {
      && Distinct(keys)
      && (forall i :: 0 <= i < |keys| ==> keys[i] in vals)
      && (forall k :: k in vals ==> k in keys)
    }

    /** `d[k] = v`: a new key goes to the end; an existing key keeps its place and takes the new value. */
    function Insert(k: K, v: V): (d: ODict<K, V>)
      ensures Valid() ==> d.Valid()
      ensures k in d.vals && d.vals[k] == v
      ensures forall x :: x in vals && x != k ==> x in d.vals && d.vals[x] == vals[x]
      ensures |keys| <= |d.keys| && d.keys[..|keys|] == keys
      ensures k in vals ==> d.keys == keys
      ensures k !in vals ==> d.keys == keys + [k]
      ensures d.vals.Keys == vals.Keys + {k}
    {
      if k in vals then ODict(keys, vals[k := v])
      else
        DistinctSnoc(keys, k);
        ODict(keys + [k], vals[k := v])
    }
  }

  /** The key of each pair, in order. */
  function PairKeys<K, V>(ps: seq<(K, V)>): (ks: seq<K>)
    ensures |ks| == |ps|
  {
    seq(|ps|, i requires 0 <= i < |ps| => ps[i].0)
  }

  /** The dict a comprehension `{k: v for ...}` builds from the pairs it produces, in order. */
  function FromPairs<K(==), V>(ps: seq<(K, V)>): (d: ODict<K, V>)
    ensures d.Valid()
  {
    if ps == [] then ODict([], map[])
    else FromPairs(ps[..|ps| - 1]).Insert(ps[|ps| - 1].0, ps[|ps| - 1].1)
  }

  /** `{k: start + i for i, k in enumerate(ks)}`. */
  function Enumerate<K(==)>(ks: seq<K>, start: nat): ODict<K, nat> {
    FromPairs(seq(|ks|, i requires 0 <= i < |ks| => (ks[i], (start + i) as nat)))
  }

  lemma PairKeysPrefix<K, V>(ps: seq<(K, V)>, n: nat)
    requires n <= |ps|
    ensures PairKeys(ps[..n]) == PairKeys(ps)[..n]
  {
  }

  /** Inserting `k` extends the first-seen order of the keys produced so far by `k`. */
  lemma InsertFirstSeen<K, V>(d: ODict<K, V>, s: seq<K>, k: K, v: V)
    requires d.Valid() && FirstSeenOrder(d.keys, s)
    ensures FirstSeenOrder(d.Insert(k, v).keys, s + [k])
  {
    var t, ks := s + [k], d.Insert(k, v).keys;
    assert t[..|s|] == s;
    forall x | x in s
      ensures IndexOf(t, x) == IndexOf(s, x)
    {
      IndexOfPrefix(t, |s|, x);
    }
    if k in d.vals {
      assert ks == d.keys;
    } else {
      assert ks == d.keys + [k] && k !in s;
      assert IndexOf(t, k) == |s|;
      forall i, j | 0 <= i < j < |ks|
        ensures IndexOf(t, ks[i]) < IndexOf(t, ks[j])
      {
        assert ks[i] == d.keys[i] && ks[i] in s;
        if j == |d.keys| {
          assert ks[j] == k;
        } else {
          assert ks[j] == d.keys[j];
        }
      }
    }
  }

  /**
   * The keys of the built dict are the distinct keys of the pairs, in the order
   * each was first produced.
   */
  lemma {:induction false} FromPairsKeys<K, V>(ps: seq<(K, V)>)
    ensures FirstSeenOrder(FromPairs(ps).keys, PairKeys(ps))
  {
    if ps != [] {
      var n := |ps|;
      var p := ps[..n - 1];
      var k := ps[n - 1].0;
      PairKeysPrefix(ps, n - 1);
      assert PairKeys(ps) == PairKeys(p) + [k];
      FromPairsKeys(p);
      assert FromPairs(ps) == FromPairs(p).Insert(k, ps[n - 1].1);
      InsertFirstSeen(FromPairs(p), PairKeys(p), k, ps[n - 1].1);
    }
  }

  /**
   * The built dict has at most as many keys as there are pairs, and exactly as
   * many when no key is produced twice.
   */
  lemma {:induction false} FromPairsKeyCount<K, V>(ps: seq<(K, V)>)
    ensures |FromPairs(ps).keys| <= |ps|
    ensures |FromPairs(ps).keys| == |ps| <==> Distinct(PairKeys(ps))
  {
    if ps != [] {
      var n := |ps|;
      var p := ps[..n - 1];
      var k := ps[n - 1].0;
      var pk', pk := PairKeys(p), PairKeys(ps);
      PairKeysPrefix(ps, n - 1);
      assert pk == pk' + [k];
      FromPairsKeyCount(p);
      FromPairsKeys(p);
      var d' := FromPairs(p);
      assert FromPairs(ps) == d'.Insert(k, ps[n - 1].1);
      DistinctSnoc(pk', k);
      if k in d'.vals {
        assert |FromPairs(ps).keys| == |d'.keys|;
      } else {
        assert |FromPairs(ps).keys| == |d'.keys| + 1;
        assert k !in pk';
      }
    }
  }

  /** Last write wins: the value of each key is the one of the last pair that produced it. */
  lemma {:induction false} FromPairsValues<K, V>(ps: seq<(K, V)>)
    ensures forall k :: k in FromPairs(ps).vals ==>
              k in PairKeys(ps) && FromPairs(ps).vals[k] == ps[LastIndexOf(PairKeys(ps), k)].1
  {
    if ps != [] {
      var n := |ps|;
      var p := ps[..n - 1];
      FromPairsValues(p);
      PairKeysPrefix(ps, n - 1);
      var pk', pk := PairKeys(p), PairKeys(ps);
      assert pk == pk' + [ps[n - 1].0];
      forall k | k in FromPairs(ps).vals
        ensures k in pk && FromPairs(ps).vals[k] == ps[LastIndexOf(pk, k)].1
      {
        if k != ps[n - 1].0 {
          assert k in pk';
          var i := LastIndexOf(pk', k);
          assert pk[i] == k;
          assert LastIndexOf(pk, k) == i;
        }
      }
    }
  }

  /** The key order of the built dict depends only on the keys of the pairs, not on their values. */
  lemma {:induction false} FromPairsSameKeys<K, V, W>(ps: seq<(K, V)>, qs: seq<(K, W)>)
    requires PairKeys(ps) == PairKeys(qs)
    ensures FromPairs(ps).keys == FromPairs(qs).keys
  {
    if ps != [] {
      var n := |ps|;
      PairKeysPrefix(ps, n - 1);
      PairKeysPrefix(qs, n - 1);
      FromPairsSameKeys(ps[..n - 1], qs[..n - 1]);
      assert ps[n - 1].0 == PairKeys(ps)[n - 1] == qs[n - 1].0;
    }
  }

  /** Enumerating distinct keys lists them in the same order and maps each to `start` plus its position. */
  lemma EnumerateIndex<K>(ks: seq<K>, start: nat)
    requires Distinct(ks)
    ensures Enumerate(ks, start).keys == ks
    ensures forall i :: 0 <= i < |ks| ==> ks[i] in Enumerate(ks, start).vals && Enumerate(ks, start).vals[ks[i]] == start + i
    ensures forall k :: k in Enumerate(ks, start).vals <==> k in ks
  {
    var ps := seq(|ks|, i requires 0 <= i < |ks| => (ks[i], (start + i) as nat));
    var e := FromPairs(ps);
    assert PairKeys(ps) == ks;
    FromPairsValues(ps);
    FromPairsDistinctKeys(ps);
    forall i | 0 <= i < |ks|
      ensures ks[i] in e.vals && e.vals[ks[i]] == start + i
    {
      DistinctIndex(ks, i);
      assert ks[i] in e.keys;
    }
  }

  /** When no key is produced twice, the dict lists the keys exactly as produced. */
  lemma {:induction false} FromPairsDistinctKeys<K, V>(ps: seq<(K, V)>)
    requires Distinct(PairKeys(ps))
    ensures FromPairs(ps).keys == PairKeys(ps)
  {
    if ps != [] {
      var n := |ps|;
      var p := ps[..n - 1];
      var pk', pk := PairKeys(p), PairKeys(ps);
      var k := ps[n - 1].0;
      PairKeysPrefix(ps, n - 1);
      assert pk == pk' + [k];
      DistinctSnoc(pk', k);
      FromPairsDistinctKeys(p);
      var d' := FromPairs(p);
      assert k !in d'.vals;
      assert FromPairs(ps) == d'.Insert(k, ps[n - 1].1);
    }
  }

  /** The keys of pairs produced group by group are the keys of each group, group by group. */
  lemma {:induction false} PairKeysFlatten<K, V>(pss: seq<seq<(K, V)>>, kss: seq<seq<K>>)
    requires |pss| == |kss|
    requires forall k :: 0 <= k < |pss| ==> PairKeys(pss[k]) == kss[k]
    ensures PairKeys(Flatten(pss)) == Flatten(kss)
  {
    if pss != [] {
      var n := |pss|;
      PairKeysFlatten(pss[..n - 1], kss[..n - 1]);
      var a, b := Flatten(pss[..n - 1]), pss[n - 1];
      assert PairKeys(a + b) == PairKeys(a) + PairKeys(b);
    }
  }
}
