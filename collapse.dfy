/**
 * The degenerate-edge collapse that both welds apply to every remapped face:
 * `[u for u, v in pairwise(face + face[:1]) if u != v]`. Walking the face loop
 * once around, a corner is kept only when the next corner of the loop holds a
 * different vertex index.
 */
module Collapse {

  /** `face + face[:1]`: the loop closed by repeating its first corner; an empty face stays empty. */
  function Closed<T>(face: seq<T>): seq<T> {
    if face == [] then face else face + face[..1]
  }

  /** `[u for u, v in pairwise(s) if u != v]`: the first member of every adjacent pair whose members differ. */
  function KeepChanges<T(==)>(s: seq<T>): seq<T> {
    if |s| < 2 then [] else (if s[0] != s[1] then [s[0]] else []) + KeepChanges(s[1..])
  }

  /** The collapsed face. */
  function CollapseFace<T(==)>(face: seq<T>): seq<T> {
    KeepChanges(Closed(face))
  }

  /** Position of the corner after corner `i` in the loop. */
  function Next<T>(face: seq<T>, i: nat): (j: nat)
    requires i < |face|
    ensures j < |face|
  {
    if i + 1 < |face| then i + 1 else 0
  }

  /** Corner `i` holds a different index than the next corner of the loop (the last corner's next one is the first). */
  predicate DiffersFromNext<T(==)>(face: seq<T>, i: nat)
    requires i < |face|
  {
    face[i] != face[Next(face, i)]
  }

  /** No corner of the loop holds the same index as the next one. */
  predicate NoCyclicRepeats<T(==)>(face: seq<T>) {
    forall i :: 0 <= i < |face| ==> DiffersFromNext(face, i)
  }

  /**
   * Reference definition of what the collapse keeps: the positions from `i` on,
   * in increasing order, whose corner differs from its cyclic successor.
   */
  function ChangesFrom<T(==)>(face: seq<T>, i: nat): (ps: seq<nat>)
    requires i <= |face|
    ensures |ps| <= |face| - i
    ensures forall j :: 0 <= j < |ps| ==> i <= ps[j] < |face|
    ensures forall j, l :: 0 <= j < l < |ps| ==> ps[j] < ps[l]
    ensures forall x :: i <= x < |face| ==> (x in ps <==> DiffersFromNext(face, x))
    decreases |face| - i
  {
    if i == |face| then []
    else (if DiffersFromNext(face, i) then [i] else []) + ChangesFrom(face, i + 1)
  }

  /** The corners of `face` at positions `ps`, in that order. */
  function Pick<T>(face: seq<T>, ps: seq<nat>): seq<T>
    requires forall j :: 0 <= j < |ps| ==> ps[j] < |face|
  {
    seq(|ps|, j requires 0 <= j < |ps| => face[ps[j]])
  }

  lemma PickAppend<T>(face: seq<T>, a: seq<nat>, b: seq<nat>)
    requires forall j :: 0 <= j < |a| ==> a[j] < |face|
    requires forall j :: 0 <= j < |b| ==> b[j] < |face|
    ensures Pick(face, a + b) == Pick(face, a) + Pick(face, b)
  {
  }

  lemma {:induction false} KeepChangesClosedFrom<T>(face: seq<T>, i: nat)
    requires i <= |face|
    ensures KeepChanges(Closed(face)[i..]) == Pick(face, ChangesFrom(face, i))
    decreases |face| - i
  {
    var n := |face|;
    var s := Closed(face);
    if i < n {
      var head := if DiffersFromNext(face, i) then [i] else [];
      var rest := ChangesFrom(face, i + 1);
      assert Pick(face, ChangesFrom(face, i)) == Pick(face, head) + Pick(face, rest) by {
        assert ChangesFrom(face, i) == head + rest;
        PickAppend(face, head, rest);
      }
      assert KeepChanges(s[i..]) == Pick(face, head) + KeepChanges(s[i + 1..]) by {
        assert s[i..][1..] == s[i + 1..];
        assert s[i] == face[i] && s[i + 1] == face[Next(face, i)];
      }
      KeepChangesClosedFrom(face, i + 1);
    } else if n > 0 {
      assert s[i..] == [face[0]];
    }
  }

  /**
   * The collapse keeps exactly the corners whose cyclic successor holds a
   * different index, in their original order: its result is the input face
   * with the other corners dropped.
   */
  lemma CollapseKeepsChanges<T>(face: seq<T>)
    ensures |CollapseFace(face)| == |ChangesFrom(face, 0)| <= |face|
    ensures forall j :: 0 <= j < |CollapseFace(face)| ==>
              CollapseFace(face)[j] == face[ChangesFrom(face, 0)[j]]
  {
    KeepChangesClosedFrom(face, 0);
    assert Closed(face)[0..] == Closed(face);
  }

  /**
   * Shape of the pairwise filter on a non-empty walk: it starts with the walk's
   * first element, its last element differs from the walk's last element, it
   * never repeats an element twice in a row, and it is empty only when the
   * walk ends where it started.
   */
  lemma {:induction false} KeepChangesShape<T>(s: seq<T>)
    requires |s| >= 1
    ensures KeepChanges(s) == [] ==> s[0] == s[|s| - 1]
    ensures KeepChanges(s) != [] ==>
              KeepChanges(s)[0] == s[0] && KeepChanges(s)[|KeepChanges(s)| - 1] != s[|s| - 1]
    ensures forall k :: 0 <= k < |KeepChanges(s)| - 1 ==> KeepChanges(s)[k] != KeepChanges(s)[k + 1]
  {
    if |s| >= 2 {
      var t := s[1..];
      KeepChangesShape(t);
      assert t[|t| - 1] == s[|s| - 1];
      var r, r' := KeepChanges(s), KeepChanges(t);
      if s[0] != s[1] {
        assert r == [s[0]] + r';
        forall k | 0 <= k < |r| - 1
          ensures r[k] != r[k + 1]
        {
          if k > 0 {
            assert r[k] == r'[k - 1] && r[k + 1] == r'[k];
          }
        }
      } else {
        assert r == r';
      }
    }
  }

  /**
   * No two cyclically adjacent corners of a collapsed face are equal; in
   * particular a collapsed face never has exactly one corner.
   */
  lemma CollapseNoCyclicRepeats<T>(face: seq<T>)
    ensures NoCyclicRepeats(CollapseFace(face))
    ensures |CollapseFace(face)| != 1
  {
    var r := CollapseFace(face);
    if face != [] {
      var s := Closed(face);
      KeepChangesShape(s);
      assert s[0] == s[|s| - 1];
      assert forall i :: 0 <= i < |r| ==> DiffersFromNext(r, i);
    }
  }

  lemma {:induction false} KeepChangesAllDiffer<T>(s: seq<T>)
    requires |s| >= 1
    requires forall i :: 0 <= i < |s| - 1 ==> s[i] != s[i + 1]
    ensures KeepChanges(s) == s[..|s| - 1]
  {
    if |s| >= 2 {
      KeepChangesAllDiffer(s[1..]);
      assert s[..|s| - 1] == [s[0]] + s[1..][..|s| - 2];
    }
  }

  /** A face without cyclically adjacent repeats comes out of the collapse unchanged. */
  lemma CollapseFixesClean<T>(face: seq<T>)
    requires NoCyclicRepeats(face)
    ensures CollapseFace(face) == face
  {
    if face != [] {
      var s := Closed(face);
      var n := |face|;
      forall i | 0 <= i < |s| - 1
        ensures s[i] != s[i + 1]
      {
        assert DiffersFromNext(face, i);
        assert s[i] == face[i];
        assert s[i + 1] == face[Next(face, i)];
      }
      KeepChangesAllDiffer(s);
      assert s[..n] == face;
    }
  }

  /** The collapse leaves a face alone exactly when it has no cyclically adjacent repeats. */
  lemma CollapseFixedIff<T>(face: seq<T>)
    ensures CollapseFace(face) == face <==> NoCyclicRepeats(face)
  {
    CollapseNoCyclicRepeats(face);
    if NoCyclicRepeats(face) {
      CollapseFixesClean(face);
    }
  }

  /** Collapsing twice is collapsing once. */
  lemma CollapseIdempotent<T>(face: seq<T>)
    ensures CollapseFace(CollapseFace(face)) == CollapseFace(face)
  {
    CollapseNoCyclicRepeats(face);
    CollapseFixesClean(CollapseFace(face));
  }

  lemma {:induction false} KeepChangesConstant<T>(s: seq<T>)
    requires forall i :: 0 <= i < |s| ==> s[i] == s[0]
    ensures KeepChanges(s) == []
  {
    if |s| >= 2 {
      KeepChangesConstant(s[1..]);
    }
  }

  /** A face whose corners all hold the same index, a one-corner face among them, collapses to nothing. */
  lemma CollapseUniform<T>(face: seq<T>)
    requires forall i, j :: 0 <= i < |face| && 0 <= j < |face| ==> face[i] == face[j]
    ensures CollapseFace(face) == []
  {
    if face != [] {
      var s := Closed(face);
      assert forall i :: 0 <= i < |s| ==> s[i] == face[0];
      KeepChangesConstant(s);
    }
  }
}
