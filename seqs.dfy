/**
 * Sequence vocabulary shared by the weld and join models: distinctness, first
 * and last occurrence of a value, and the concatenation of a list of lists
 * (the nested comprehensions `[... for mesh in meshes for x in ...]`).
 */
module Seqs {

  /** `s[i]`, named so that facts about pairs of positions are only drawn on request. */
  function At<T>(s: seq<T>, i: nat): T
    requires i < |s|
  {
    s[i]
  }

  /** No value occurs twice in `s`. */
  predicate Distinct<T(==)>(s: seq<T>) {
    forall i: nat, j: nat {:trigger At(s, i), At(s, j)} :: i < j < |s| ==> At(s, i) != At(s, j)
  }

  /** In a sequence without repetitions, two different positions hold two different values. */
  lemma DistinctApart<T>(s: seq<T>, i: nat, j: nat)
    requires Distinct(s) && i < j < |s|
    ensures s[i] != s[j]
  {
    assert At(s, i) != At(s, j);
  }

  /** In a sequence without repetitions, two positions hold the same value exactly when they are the same position. */
  lemma DistinctSame<T>(s: seq<T>, i: nat, j: nat)
    requires Distinct(s) && i < |s| && j < |s|
    ensures s[i] == s[j] <==> i == j
  {
    if i < j {
      DistinctApart(s, i, j);
    } else if j < i {
      DistinctApart(s, j, i);
    }
  }

  /** In a sequence without repetitions, two positions holding `x` and `y` are the same position exactly when `x == y`. */
  lemma DistinctLookup<T>(s: seq<T>, i: nat, j: nat, x: T, y: T)
    requires Distinct(s) && i < |s| && j < |s| && s[i] == x && s[j] == y
    ensures i == j <==> x == y
  {
    DistinctSame(s, i, j);
  }

  /** A sequence whose positions hold pairwise different values has no repetitions. */
  lemma DistinctWhenApart<T>(s: seq<T>)
    requires forall i, j :: 0 <= i < j < |s| ==> s[i] != s[j]
    ensures Distinct(s)
  {
  }

  lemma DistinctSnoc<T>(s: seq<T>, x: T)
    ensures Distinct(s + [x]) <==> Distinct(s) && x !in s
  {
    var t := s + [x];
    if Distinct(t) {
      forall i: nat, j: nat | i < j < |s|
        ensures At(s, i) != At(s, j)
      {
        DistinctApart(t, i, j);
      }
      if x in s {
        var i :| 0 <= i < |s| && s[i] == x;
        DistinctApart(t, i, |s|);
      }
    }
    if Distinct(s) && x !in s {
      forall i: nat, j: nat | i < j < |t|
        ensures At(t, i) != At(t, j)
      {
        if j < |s| {
          DistinctApart(s, i, j);
        }
      }
    }
  }

  /** Position of the first occurrence of `x` in `s`. */
  function IndexOf<T(==)>(s: seq<T>, x: T): (i: nat)
    requires x in s
    ensures i < |s| && s[i] == x
    ensures forall j :: 0 <= j < i ==> s[j] != x
  {
    if s[0] == x then 0 else 1 + IndexOf(s[1..], x)
  }

  /** Position of the last occurrence of `x` in `s`. */
  function LastIndexOf<T(==)>(s: seq<T>, x: T): (i: nat)
    requires x in s
    ensures i < |s| && s[i] == x
    ensures forall j :: i < j < |s| ==> s[j] != x
  {
    if s[|s| - 1] == x then |s| - 1
    else
      assert s == s[..|s| - 1] + [s[|s| - 1]];
      LastIndexOf(s[..|s| - 1], x)
  }

  /** In a sequence without repetitions, every position is both the first and the last one of its value. */
  lemma DistinctIndex<T>(s: seq<T>, i: nat)
    requires Distinct(s) && i < |s|
    ensures IndexOf(s, s[i]) == i && LastIndexOf(s, s[i]) == i
  {
    var k, l := IndexOf(s, s[i]), LastIndexOf(s, s[i]);
    if k < i {
      DistinctApart(s, k, i);
    }
    if i < l {
      DistinctApart(s, i, l);
    }
  }

  /** Looking a value up in a prefix that contains it finds the same first position. */
  lemma IndexOfPrefix<T>(s: seq<T>, n: nat, x: T)
    requires n <= |s| && x in s[..n]
    ensures IndexOf(s[..n], x) == IndexOf(s, x)
  {
    var i := IndexOf(s[..n], x);
    assert s[..n][i] == s[i];
  }

  /** The values of `s` in order, with duplicates of earlier values skipped. */
  predicate FirstSeenOrder<T(==)>(ks: seq<T>, s: seq<T>) {
    && Distinct(ks)
    && (forall x | x in ks :: x in s)
    && (forall x | x in s :: x in ks)
    && (forall i, j :: 0 <= i < j < |ks| ==> IndexOf(s, ks[i]) < IndexOf(s, ks[j]))
  }

  /** Concatenation of a list of lists, in order. */
  function Flatten<T>(ss: seq<seq<T>>): seq<T> {
    if ss == [] then [] else Flatten(ss[..|ss| - 1]) + ss[|ss| - 1]
  }

  lemma {:induction false} FlattenAppend<T>(a: seq<seq<T>>, b: seq<seq<T>>)
    ensures Flatten(a + b) == Flatten(a) + Flatten(b)
  {
    if b == [] {
      assert a + b == a;
    } else {
      var c := b[..|b| - 1];
      assert (a + b)[..|a + b| - 1] == a + c;
      FlattenAppend(a, c);
    }
  }

  /**
   * Element j of part k sits in the concatenation right after everything
   * contributed by the parts before k.
   */
  lemma FlattenIndex<T>(ss: seq<seq<T>>, k: nat, j: nat)
    requires k < |ss| && j < |ss[k]|
    ensures |Flatten(ss[..k])| + j < |Flatten(ss)|
    ensures Flatten(ss)[|Flatten(ss[..k])| + j] == ss[k][j]
  {
    assert ss == ss[..k] + [ss[k]] + ss[k + 1..];
    FlattenAppend(ss[..k] + [ss[k]], ss[k + 1..]);
    FlattenAppend(ss[..k], [ss[k]]);
    assert Flatten([ss[k]]) == ss[k] by {
      assert [ss[k]][..0] == [];
    }
  }

  /** Extending the list of parts by one part appends that part. */
  lemma FlattenSnoc<T>(ss: seq<seq<T>>, k: nat)
    requires k < |ss|
    ensures Flatten(ss[..k + 1]) == Flatten(ss[..k]) + ss[k]
  {
    assert ss[..k + 1][..k] == ss[..k];
  }

  /** Every position of the concatenation lies in exactly one part: part k, at offset i. */
  lemma {:induction false} FlattenLocate<T>(ss: seq<seq<T>>, p: nat) returns (k: nat, i: nat)
    requires p < |Flatten(ss)|
    ensures k < |ss| && i < |ss[k]| && p == |Flatten(ss[..k])| + i
  {
    var n := |ss|;
    var init := ss[..n - 1];
    if p < |Flatten(init)| {
      k, i := FlattenLocate(init, p);
      assert init[..k] == ss[..k];
    } else {
      k, i := n - 1, p - |Flatten(init)|;
    }
  }
}
