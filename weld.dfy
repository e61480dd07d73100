/**
 * `mesh_weld`: merge the vertices of one mesh whose coordinates share a
 * geometric key. `geo` stands for `geometric_key(_, precision)`, which is
 * imported and not part of this model; only its results are compared.
 */
module Weld {
  import opened Seqs
  import opened OrderedDict
  import opened Collapse
  import opened Meshes

  /** The geometric key of each coordinate, in order. */
  function GeoOf<Coord, Key>(xs: seq<Coord>, geo: Coord -> Key): (ks: seq<Key>)
    ensures |ks| == |xs|
  {
    seq(|xs|, i requires 0 <= i < |xs| => geo(xs[i]))
  }

  /** The geometric key of every vertex, in `mesh.vertices()` order. */
  function GeoKeys<VKey, Coord, Key>(m: Mesh<VKey, Coord>, geo: Coord -> Key): (ks: seq<Key>)
    requires m.Valid()
    ensures |ks| == |m.vertex.keys|
  {
    GeoOf(m.Coordinates(), geo)
  }

  /** The pairs `(geo(xyz, precision), key)` for `key, xyz in key_xyz.items()`. */
  function KeyPairs<VKey, Coord, Key>(m: Mesh<VKey, Coord>, geo: Coord -> Key): seq<(Key, VKey)>
    requires m.Valid()
  {
    seq(|m.vertex.keys|, i requires 0 <= i < |m.vertex.keys| =>
      (geo(m.vertex.vals[m.vertex.keys[i]]), m.vertex.keys[i]))
  }

  /** `gkey_key`: each geometric key with the vertex that was assigned to it last. */
  function Representatives<VKey, Coord, Key(==)>(m: Mesh<VKey, Coord>, geo: Coord -> Key): ODict<Key, VKey>
    requires m.Valid()
  {
    FromPairs(KeyPairs(m, geo))
  }

  /** `gkey_index`: the distinct geometric keys numbered in first-seen order. */
  function KeyIndex<VKey, Coord, Key(==)>(m: Mesh<VKey, Coord>, geo: Coord -> Key): ODict<Key, nat>
    requires m.Valid()
  {
    Enumerate(Representatives(m, geo).keys, 0)
  }

  /**
   * The geometric keys of the welded vertices are the distinct keys of the
   * input vertices in first-seen order, and the vertex that represents a key
   * is the last input vertex with that key.
   */
  lemma RepresentativesSpec<VKey, Coord, Key>(m: Mesh<VKey, Coord>, geo: Coord -> Key)
    requires m.Valid()
    ensures FirstSeenOrder(Representatives(m, geo).keys, GeoKeys(m, geo))
    ensures forall g :: g in Representatives(m, geo).vals ==>
              g in GeoKeys(m, geo) &&
              Representatives(m, geo).vals[g] == m.vertex.keys[LastIndexOf(GeoKeys(m, geo), g)]
  {
    var ps := KeyPairs(m, geo);
    assert PairKeys(ps) == GeoKeys(m, geo);
    FromPairsKeys(ps);
    FromPairsValues(ps);
  }

  /** No geometric key is listed twice among the representatives. */
  lemma RepresentativesDistinct<VKey, Coord, Key>(m: Mesh<VKey, Coord>, geo: Coord -> Key)
    requires m.Valid()
    ensures Distinct(Representatives(m, geo).keys)
  {
    RepresentativesSpec(m, geo);
  }

  /** The key of every vertex is represented. */
  lemma GeoKeyRepresented<VKey, Coord, Key>(m: Mesh<VKey, Coord>, geo: Coord -> Key, v: VKey)
    requires m.Valid() && v in m.vertex.vals
    ensures geo(m.vertex.vals[v]) in Representatives(m, geo).keys
  {
    RepresentativesSpec(m, geo);
    assert GeoKeys(m, geo)[IndexOf(m.vertex.keys, v)] == geo(m.vertex.vals[v]);
  }

  /** The key of vertex `v` has a number, below the number of distinct keys, that leads back to the key. */
  lemma KeyIndexAt<VKey, Coord, Key>(m: Mesh<VKey, Coord>, geo: Coord -> Key, v: VKey)
    requires m.Valid() && v in m.vertex.vals
    ensures geo(m.vertex.vals[v]) in KeyIndex(m, geo).vals
    ensures KeyIndex(m, geo).vals[geo(m.vertex.vals[v])] < |Representatives(m, geo).keys|
    ensures Representatives(m, geo).keys[KeyIndex(m, geo).vals[geo(m.vertex.vals[v])]] == geo(m.vertex.vals[v])
  {
    var reps := Representatives(m, geo);
    var g := geo(m.vertex.vals[v]);
    GeoKeyRepresented(m, geo, v);
    RepresentativesDistinct(m, geo);
    var i := IndexOf(reps.keys, g);
    assert g in KeyIndex(m, geo).vals && KeyIndex(m, geo).vals[g] == i by {
      EnumerateIndex(reps.keys, 0);
    }
  }

  /** The key of every vertex of the mesh has a number. */
  lemma KeyIndexCovers<VKey, Coord, Key>(m: Mesh<VKey, Coord>, geo: Coord -> Key)
    requires m.Valid()
    ensures forall v :: v in m.vertex.vals ==>
              geo(m.vertex.vals[v]) in KeyIndex(m, geo).vals &&
              KeyIndex(m, geo).vals[geo(m.vertex.vals[v])] < |Representatives(m, geo).keys| &&
              Representatives(m, geo).keys[KeyIndex(m, geo).vals[geo(m.vertex.vals[v])]] == geo(m.vertex.vals[v])
  {
    forall v | v in m.vertex.vals
      ensures geo(m.vertex.vals[v]) in KeyIndex(m, geo).vals
      ensures KeyIndex(m, geo).vals[geo(m.vertex.vals[v])] < |Representatives(m, geo).keys|
      ensures Representatives(m, geo).keys[KeyIndex(m, geo).vals[geo(m.vertex.vals[v])]] == geo(m.vertex.vals[v])
    {
      KeyIndexAt(m, geo, v);
    }
  }

  /** Every representative is a vertex of the mesh. */
  lemma RepresentativesAreVertices<VKey, Coord, Key>(m: Mesh<VKey, Coord>, geo: Coord -> Key)
    requires m.Valid()
    ensures forall g :: g in Representatives(m, geo).vals ==> Representatives(m, geo).vals[g] in m.vertex.vals
  {
    RepresentativesSpec(m, geo);
  }

  /** The faces of `m` with every corner replaced by the number `index` gives its vertex's geometric key. */
  function RemapThrough<VKey, Coord, Key>(m: Mesh<VKey, Coord>, geo: Coord -> Key, index: map<Key, nat>): seq<seq<nat>>
    requires m.Valid()
    requires forall v :: v in m.vertex.vals ==> geo(m.vertex.vals[v]) in index
  {
    seq(|m.faces|, f requires 0 <= f < |m.faces| =>
      seq(|m.faces[f]|, j requires 0 <= j < |m.faces[f]| => index[geo(m.vertex.vals[m.faces[f][j]])]))
  }

  /** `faces` before the collapse: every corner replaced by the number `gkey_index` gives its vertex's geometric key. */
  function RemappedFaces<VKey, Coord, Key(==)>(m: Mesh<VKey, Coord>, geo: Coord -> Key): seq<seq<nat>>
    requires m.Valid()
  {
    KeyIndexCovers(m, geo);
    RemapThrough(m, geo, KeyIndex(m, geo).vals)
  }

  /** `mesh_weld(mesh, precision)`: the vertex list and the collapsed face list of the welded mesh. */
  function MeshWeld<VKey, Coord, Key(==)>(m: Mesh<VKey, Coord>, geo: Coord -> Key): MeshData<Coord>
    requires m.Valid()
  {
    var reps := Representatives(m, geo);
    RepresentativesAreVertices(m, geo);
    var raw := RemappedFaces(m, geo);
    MeshData(
      seq(|reps.keys|, i requires 0 <= i < |reps.keys| => m.vertex.vals[reps.vals[reps.keys[i]]]),
      seq(|raw|, f requires 0 <= f < |raw| => CollapseFace(raw[f])))
  }

  /** Output vertex i is the coordinate of the last input vertex whose key is the i-th distinct key. */
  lemma MeshWeldVertexAt<VKey, Coord, Key>(m: Mesh<VKey, Coord>, geo: Coord -> Key, i: nat)
    requires m.Valid() && i < |Representatives(m, geo).keys|
    ensures i < |MeshWeld(m, geo).vertices|
    ensures Representatives(m, geo).keys[i] in GeoKeys(m, geo)
    ensures MeshWeld(m, geo).vertices[i] ==
              m.vertex.vals[m.vertex.keys[LastIndexOf(GeoKeys(m, geo), Representatives(m, geo).keys[i])]]
  {
    var reps := Representatives(m, geo);
    RepresentativesSpec(m, geo);
    assert reps.keys[i] in reps.vals;
  }

  /**
   * One output vertex per distinct geometric key, so never more than the input
   * has, and exactly as many when no two input vertices share a key. Output
   * vertex i is the coordinate of the last input vertex whose key is the i-th
   * distinct key in first-seen order.
   */
  lemma MeshWeldVertices<VKey, Coord, Key>(m: Mesh<VKey, Coord>, geo: Coord -> Key)
    requires m.Valid()
    ensures |MeshWeld(m, geo).vertices| == |Representatives(m, geo).keys| <= |m.vertex.keys|
    ensures |MeshWeld(m, geo).vertices| == |m.vertex.keys| <==> Distinct(GeoKeys(m, geo))
    ensures forall i :: 0 <= i < |MeshWeld(m, geo).vertices| ==>
              Representatives(m, geo).keys[i] in GeoKeys(m, geo) &&
              MeshWeld(m, geo).vertices[i] ==
                m.vertex.vals[m.vertex.keys[LastIndexOf(GeoKeys(m, geo), Representatives(m, geo).keys[i])]]
  {
    var ps := KeyPairs(m, geo);
    var reps := Representatives(m, geo);
    var gk := GeoKeys(m, geo);
    var r := MeshWeld(m, geo);
    assert |reps.keys| <= |m.vertex.keys| && (|reps.keys| == |m.vertex.keys| <==> Distinct(gk)) by {
      assert PairKeys(ps) == gk;
      FromPairsKeyCount(ps);
    }
    forall i | 0 <= i < |r.vertices|
      ensures reps.keys[i] in gk
      ensures r.vertices[i] == m.vertex.vals[m.vertex.keys[LastIndexOf(gk, reps.keys[i])]]
    {
      MeshWeldVertexAt(m, geo, i);
    }
  }

  /**
   * Each welded vertex carries its own geometric key: output vertex i has the
   * i-th distinct key, so no two output vertices share a key.
   */
  lemma MeshWeldVertexKeys<VKey, Coord, Key>(m: Mesh<VKey, Coord>, geo: Coord -> Key)
    requires m.Valid()
    ensures forall i :: 0 <= i < |MeshWeld(m, geo).vertices| ==>
              i < |Representatives(m, geo).keys| && geo(MeshWeld(m, geo).vertices[i]) == Representatives(m, geo).keys[i]
    ensures forall i, j :: 0 <= i < j < |MeshWeld(m, geo).vertices| ==>
              geo(MeshWeld(m, geo).vertices[i]) != geo(MeshWeld(m, geo).vertices[j])
  {
    var reps := Representatives(m, geo);
    var gk := GeoKeys(m, geo);
    var r := MeshWeld(m, geo);
    RepresentativesSpec(m, geo);
    forall i | 0 <= i < |r.vertices|
      ensures geo(r.vertices[i]) == reps.keys[i]
    {
      var g := reps.keys[i];
      assert g in reps.vals;
      var l := LastIndexOf(gk, g);
      assert gk[l] == geo(m.vertex.vals[m.vertex.keys[l]]);
    }
  }

  /**
   * Before the collapse there is one face per input face, of the same length,
   * and every corner is the number of its vertex's geometric key.
   */
  lemma RemappedFacesSpec<VKey, Coord, Key>(m: Mesh<VKey, Coord>, geo: Coord -> Key)
    requires m.Valid()
    ensures |RemappedFaces(m, geo)| == |m.faces|
    ensures forall f :: 0 <= f < |m.faces| ==> |RemappedFaces(m, geo)[f]| == |m.faces[f]|
    ensures forall f, j :: 0 <= f < |m.faces| && 0 <= j < |m.faces[f]| ==>
              RemappedFaces(m, geo)[f][j] < |MeshWeld(m, geo).vertices| &&
              Representatives(m, geo).keys[RemappedFaces(m, geo)[f][j]] == geo(m.vertex.vals[m.faces[f][j]])
  {
    KeyIndexCovers(m, geo);
  }

  /** Corner j of face f before the collapse, alone: the number of its vertex's geometric key. */
  lemma RemappedCornerKey<VKey, Coord, Key>(m: Mesh<VKey, Coord>, geo: Coord -> Key, f: nat, j: nat)
    requires m.Valid() && f < |m.faces| && j < |m.faces[f]|
    ensures f < |RemappedFaces(m, geo)| && j < |RemappedFaces(m, geo)[f]|
    ensures RemappedFaces(m, geo)[f][j] < |Representatives(m, geo).keys|
    ensures Representatives(m, geo).keys[RemappedFaces(m, geo)[f][j]] == geo(m.vertex.vals[m.faces[f][j]])
  {
    KeyIndexCovers(m, geo);
    assert m.faces[f][j] in m.faces[f];
  }

  /** Two corners, of the same face or of two faces, share an index exactly when their vertices share a geometric key. */
  lemma RemappedCornersAgree<VKey, Coord, Key>(m: Mesh<VKey, Coord>, geo: Coord -> Key,
                                              f: nat, j: nat, g: nat, l: nat)
    requires m.Valid()
    requires f < |m.faces| && j < |m.faces[f]| && g < |m.faces| && l < |m.faces[g]|
    ensures RemappedFaces(m, geo)[f][j] == RemappedFaces(m, geo)[g][l] <==>
            geo(m.vertex.vals[m.faces[f][j]]) == geo(m.vertex.vals[m.faces[g][l]])
  {
    RemappedFacesSpec(m, geo);
    RepresentativesSpec(m, geo);
  }

  /**
   * The welded mesh has one face per input face, in order; each is its
   * remapped face collapsed, indexes the vertex list, and has no two cyclically
   * adjacent equal corners.
   */
  lemma MeshWeldFaces<VKey, Coord, Key>(m: Mesh<VKey, Coord>, geo: Coord -> Key)
    requires m.Valid()
    ensures |MeshWeld(m, geo).faces| == |m.faces|
    ensures forall f :: 0 <= f < |m.faces| ==>
              MeshWeld(m, geo).faces[f] == CollapseFace(RemappedFaces(m, geo)[f]) &&
              NoCyclicRepeats(MeshWeld(m, geo).faces[f])
    ensures MeshWeld(m, geo).IndicesInRange()
  {
    var r := MeshWeld(m, geo);
    var raw := RemappedFaces(m, geo);
    RemappedFacesSpec(m, geo);
    forall f | 0 <= f < |m.faces|
      ensures NoCyclicRepeats(r.faces[f])
      ensures forall j :: 0 <= j < |r.faces[f]| ==> r.faces[f][j] < |r.vertices|
    {
      CollapseNoCyclicRepeats(raw[f]);
      CollapseKeepsChanges(raw[f]);
    }
  }
}
