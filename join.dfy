/**
 * `meshes_join`: put several meshes into one index space without merging
 * anything. Each mesh's vertices are numbered after all vertices emitted
 * before it, and its faces are rewritten with those numbers.
 */
module Join {
  import opened Seqs
  import opened OrderedDict
  import opened Meshes

  predicate AllValid<VKey, Coord>(meshes: seq<Mesh<VKey, Coord>>) {
    forall k :: 0 <= k < |meshes| ==> meshes[k].Valid()
  }

  /** Number of vertices of the meshes before mesh `k`. */
  function VerticesBefore<VKey, Coord>(meshes: seq<Mesh<VKey, Coord>>, k: nat): nat
    requires k <= |meshes|
  {
    if k == 0 then 0 else VerticesBefore(meshes, k - 1) + |meshes[k - 1].vertex.keys|
  }

  /** Number of faces of the meshes before mesh `k`. */
  function FacesBefore<VKey, Coord>(meshes: seq<Mesh<VKey, Coord>>, k: nat): nat
    requires k <= |meshes|
  {
    if k == 0 then 0 else FacesBefore(meshes, k - 1) + |meshes[k - 1].faces|
  }

  /** The faces of `m` with each corner replaced by `offset` plus the position of its vertex in `m.vertices()`. */
  function OffsetFaces<VKey, Coord>(m: Mesh<VKey, Coord>, offset: nat): seq<seq<nat>>
    requires m.Valid()
  {
    seq(|m.faces|, f requires 0 <= f < |m.faces| =>
      seq(|m.faces[f]|, j requires 0 <= j < |m.faces[f]| => offset + IndexOf(m.vertex.keys, m.faces[f][j])))
  }

  /** The coordinates of each mesh, mesh by mesh. */
  function MeshCoordinates<VKey, Coord>(meshes: seq<Mesh<VKey, Coord>>): seq<seq<Coord>>
    requires AllValid(meshes)
  {
    seq(|meshes|, k requires 0 <= k < |meshes| => meshes[k].Coordinates())
  }

  /** The renumbered faces of each mesh, mesh by mesh. */
  function MeshOffsetFaces<VKey, Coord>(meshes: seq<Mesh<VKey, Coord>>): seq<seq<seq<nat>>>
    requires AllValid(meshes)
  {
    seq(|meshes|, k requires 0 <= k < |meshes| => OffsetFaces(meshes[k], VerticesBefore(meshes, k)))
  }

  /** Specification of the joined vertex list: every mesh's coordinates, in mesh order. */
  function JoinedVertices<VKey, Coord>(meshes: seq<Mesh<VKey, Coord>>): seq<Coord>
    requires AllValid(meshes)
  {
    Flatten(MeshCoordinates(meshes))
  }

  /** Specification of the joined face list: every mesh's renumbered faces, in mesh order. */
  function JoinedFaces<VKey, Coord>(meshes: seq<Mesh<VKey, Coord>>): seq<seq<nat>>
    requires AllValid(meshes)
  {
    Flatten(MeshOffsetFaces(meshes))
  }

  /** `key_index` numbers every face corner by `offset` plus the position of its vertex. */
  lemma KeyIndexOfCorners<VKey, Coord>(m: Mesh<VKey, Coord>, offset: nat)
    requires m.Valid()
    ensures forall f, j :: 0 <= f < |m.faces| && 0 <= j < |m.faces[f]| ==>
              m.faces[f][j] in Enumerate(m.vertex.keys, offset).vals &&
              Enumerate(m.vertex.keys, offset).vals[m.faces[f][j]] == offset + IndexOf(m.vertex.keys, m.faces[f][j])
  {
    var keys := m.vertex.keys;
    EnumerateIndex(keys, offset);
    forall f, j | 0 <= f < |m.faces| && 0 <= j < |m.faces[f]|
      ensures m.faces[f][j] in Enumerate(keys, offset).vals
      ensures Enumerate(keys, offset).vals[m.faces[f][j]] == offset + IndexOf(keys, m.faces[f][j])
    {
      assert m.faces[f][j] in m.faces[f];
      var i := IndexOf(keys, m.faces[f][j]);
      assert Enumerate(keys, offset).vals[keys[i]] == offset + i;
    }
  }

  /** `[[key_index[key] for key in face] for face in faces]`. */
  function Renumber<VKey>(faces: seq<seq<VKey>>, index: map<VKey, nat>): seq<seq<nat>>
    requires forall f, j :: 0 <= f < |faces| && 0 <= j < |faces[f]| ==> faces[f][j] in index
  {
    seq(|faces|, f requires 0 <= f < |faces| =>
      seq(|faces[f]|, j requires 0 <= j < |faces[f]| => index[faces[f][j]]))
  }

  /** Renumbering a mesh's faces through its `key_index` gives its faces shifted by the offset. */
  lemma RenumberedByKeyIndex<VKey, Coord>(m: Mesh<VKey, Coord>, offset: nat)
    requires m.Valid()
    ensures forall f, j :: 0 <= f < |m.faces| && 0 <= j < |m.faces[f]| ==>
              m.faces[f][j] in Enumerate(m.vertex.keys, offset).vals
    ensures Renumber(m.faces, Enumerate(m.vertex.keys, offset).vals) == OffsetFaces(m, offset)
  {
    KeyIndexOfCorners(m, offset);
    var a := Renumber(m.faces, Enumerate(m.vertex.keys, offset).vals);
    var b := OffsetFaces(m, offset);
    forall f | 0 <= f < |m.faces|
      ensures a[f] == b[f]
    {
    }
  }

  /**
   * `meshes_join(meshes)`: grows the vertex and face lists mesh by mesh, using
   * the length of the vertex list so far as the offset of the next mesh.
   */
  method MeshesJoin<VKey, Coord>(meshes: seq<Mesh<VKey, Coord>>) returns (r: MeshData<Coord>)
    requires AllValid(meshes)
    ensures r.vertices == JoinedVertices(meshes)
    ensures r.faces == JoinedFaces(meshes)
  {
    var vertices: seq<Coord> := [];
    var faces: seq<seq<nat>> := [];
    for k := 0 to |meshes|
      invariant vertices == Flatten(MeshCoordinates(meshes)[..k])
      invariant faces == Flatten(MeshOffsetFaces(meshes)[..k])
      invariant |vertices| == VerticesBefore(meshes, k)
    {
      var mesh := meshes[k];
      var keys := mesh.vertex.keys;
      var keyIndex := Enumerate(keys, |vertices|);
      RenumberedByKeyIndex(mesh, |vertices|);
      var added := Renumber(mesh.faces, keyIndex.vals);
      FlattenSnoc(MeshCoordinates(meshes), k);
      FlattenSnoc(MeshOffsetFaces(meshes), k);
      vertices := vertices + mesh.Coordinates();
      faces := faces + added;
    }
    assert MeshCoordinates(meshes)[..|meshes|] == MeshCoordinates(meshes);
    assert MeshOffsetFaces(meshes)[..|meshes|] == MeshOffsetFaces(meshes);
    r := MeshData(vertices, faces);
  }

  lemma {:induction false} VerticesBeforeGrows<VKey, Coord>(meshes: seq<Mesh<VKey, Coord>>, k: nat, k2: nat)
    requires k < k2 <= |meshes|
    ensures VerticesBefore(meshes, k) + |meshes[k].vertex.keys| <= VerticesBefore(meshes, k2)
    decreases k2
  {
    if k + 1 < k2 {
      VerticesBeforeGrows(meshes, k, k2 - 1);
    }
  }

  lemma {:induction false} VertexPrefixLength<VKey, Coord>(meshes: seq<Mesh<VKey, Coord>>, k: nat)
    requires AllValid(meshes) && k <= |meshes|
    ensures |Flatten(MeshCoordinates(meshes)[..k])| == VerticesBefore(meshes, k)
  {
    if k > 0 {
      VertexPrefixLength(meshes, k - 1);
      FlattenSnoc(MeshCoordinates(meshes), k - 1);
    }
  }

  lemma {:induction false} FacePrefixLength<VKey, Coord>(meshes: seq<Mesh<VKey, Coord>>, k: nat)
    requires AllValid(meshes) && k <= |meshes|
    ensures |Flatten(MeshOffsetFaces(meshes)[..k])| == FacesBefore(meshes, k)
  {
    if k > 0 {
      var ms := MeshOffsetFaces(meshes);
      FacePrefixLength(meshes, k - 1);
      FlattenSnoc(ms, k - 1);
      assert |ms[k - 1]| == |meshes[k - 1].faces|;
    }
  }

  /**
   * The joined mesh has as many vertices as all meshes together, and as many
   * faces as all meshes together.
   */
  lemma JoinedCounts<VKey, Coord>(meshes: seq<Mesh<VKey, Coord>>)
    requires AllValid(meshes)
    ensures |JoinedVertices(meshes)| == VerticesBefore(meshes, |meshes|)
    ensures |JoinedFaces(meshes)| == FacesBefore(meshes, |meshes|)
  {
    assert |JoinedVertices(meshes)| == VerticesBefore(meshes, |meshes|) by {
      VertexPrefixLength(meshes, |meshes|);
      assert MeshCoordinates(meshes)[..|meshes|] == MeshCoordinates(meshes);
    }
    assert |JoinedFaces(meshes)| == FacesBefore(meshes, |meshes|) by {
      FacePrefixLength(meshes, |meshes|);
      assert MeshOffsetFaces(meshes)[..|meshes|] == MeshOffsetFaces(meshes);
    }
  }

  /** Vertex i of mesh k becomes joined vertex `VerticesBefore(k) + i`, with its own coordinates. */
  lemma JoinedVertexAt<VKey, Coord>(meshes: seq<Mesh<VKey, Coord>>, k: nat, i: nat)
    requires AllValid(meshes) && k < |meshes| && i < |meshes[k].vertex.keys|
    ensures VerticesBefore(meshes, k) + i < |JoinedVertices(meshes)|
    ensures JoinedVertices(meshes)[VerticesBefore(meshes, k) + i] == meshes[k].vertex.vals[meshes[k].vertex.keys[i]]
  {
    VertexPrefixLength(meshes, k);
    FlattenIndex(MeshCoordinates(meshes), k, i);
  }

  /** Face f of mesh k becomes joined face `FacesBefore(k) + f`, of the same length. */
  lemma JoinedFaceAt<VKey, Coord>(meshes: seq<Mesh<VKey, Coord>>, k: nat, f: nat)
    requires AllValid(meshes) && k < |meshes| && f < |meshes[k].faces|
    ensures FacesBefore(meshes, k) + f < |JoinedFaces(meshes)|
    ensures JoinedFaces(meshes)[FacesBefore(meshes, k) + f] == OffsetFaces(meshes[k], VerticesBefore(meshes, k))[f]
    ensures |JoinedFaces(meshes)[FacesBefore(meshes, k) + f]| == |meshes[k].faces[f]|
  {
    FacePrefixLength(meshes, k);
    FlattenIndex(MeshOffsetFaces(meshes), k, f);
  }

  lemma JoinedCornerIndex<VKey, Coord>(meshes: seq<Mesh<VKey, Coord>>, k: nat, f: nat, j: nat)
    requires AllValid(meshes) && k < |meshes| && f < |meshes[k].faces| && j < |meshes[k].faces[f]|
    ensures FacesBefore(meshes, k) + f < |JoinedFaces(meshes)|
    ensures j < |JoinedFaces(meshes)[FacesBefore(meshes, k) + f]|
    ensures meshes[k].faces[f][j] in meshes[k].vertex.keys
    ensures JoinedFaces(meshes)[FacesBefore(meshes, k) + f][j] ==
            VerticesBefore(meshes, k) + IndexOf(meshes[k].vertex.keys, meshes[k].faces[f][j])
  {
    meshes[k].CornerIsVertex(f, j);
    JoinedFaceAt(meshes, k, f);
  }

  lemma JoinedCornerVertex<VKey, Coord>(meshes: seq<Mesh<VKey, Coord>>, k: nat, f: nat, j: nat)
    requires AllValid(meshes) && k < |meshes| && f < |meshes[k].faces| && j < |meshes[k].faces[f]|
    ensures meshes[k].faces[f][j] in meshes[k].vertex.keys
    ensures VerticesBefore(meshes, k) + IndexOf(meshes[k].vertex.keys, meshes[k].faces[f][j]) < |JoinedVertices(meshes)|
    ensures JoinedVertices(meshes)[VerticesBefore(meshes, k) + IndexOf(meshes[k].vertex.keys, meshes[k].faces[f][j])] ==
            meshes[k].vertex.vals[meshes[k].faces[f][j]]
  {
    meshes[k].CornerIsVertex(f, j);
    JoinedVertexAt(meshes, k, IndexOf(meshes[k].vertex.keys, meshes[k].faces[f][j]));
  }

  /**
   * Corner j of that face is its vertex's position in mesh k plus the number
   * of vertices of the meshes before k, and indexes that vertex's coordinates.
   */
  lemma JoinedCornerAt<VKey, Coord>(meshes: seq<Mesh<VKey, Coord>>, k: nat, f: nat, j: nat)
    requires AllValid(meshes) && k < |meshes| && f < |meshes[k].faces| && j < |meshes[k].faces[f]|
    ensures FacesBefore(meshes, k) + f < |JoinedFaces(meshes)|
    ensures j < |JoinedFaces(meshes)[FacesBefore(meshes, k) + f]|
    ensures meshes[k].faces[f][j] in meshes[k].vertex.keys
    ensures JoinedFaces(meshes)[FacesBefore(meshes, k) + f][j] ==
            VerticesBefore(meshes, k) + IndexOf(meshes[k].vertex.keys, meshes[k].faces[f][j])
    ensures JoinedFaces(meshes)[FacesBefore(meshes, k) + f][j] < |JoinedVertices(meshes)|
    ensures JoinedVertices(meshes)[JoinedFaces(meshes)[FacesBefore(meshes, k) + f][j]] ==
            meshes[k].vertex.vals[meshes[k].faces[f][j]]
  {
    JoinedCornerIndex(meshes, k, f, j);
    JoinedCornerVertex(meshes, k, f, j);
  }

  /** No deduplication: two different input vertices get two different joined indices. */
  lemma JoinKeepsVerticesApart<VKey, Coord>(meshes: seq<Mesh<VKey, Coord>>, k: nat, i: nat, k2: nat, i2: nat)
    requires k < |meshes| && i < |meshes[k].vertex.keys|
    requires k2 < |meshes| && i2 < |meshes[k2].vertex.keys|
    requires (k, i) != (k2, i2)
    ensures VerticesBefore(meshes, k) + i != VerticesBefore(meshes, k2) + i2
  {
    if k < k2 {
      VerticesBeforeGrows(meshes, k, k2);
    } else if k2 < k {
      VerticesBeforeGrows(meshes, k2, k);
    }
  }

  /** Joined face p is face f of mesh k, where p is the number of faces before mesh k plus f. */
  lemma LocateJoinedFace<VKey, Coord>(meshes: seq<Mesh<VKey, Coord>>, p: nat) returns (k: nat, f: nat)
    requires AllValid(meshes) && p < |JoinedFaces(meshes)|
    ensures k < |meshes| && f < |meshes[k].faces| && p == FacesBefore(meshes, k) + f
  {
    k, f := FlattenLocate(MeshOffsetFaces(meshes), p);
    FacePrefixLength(meshes, k);
  }

  /** A corner of a joined face indexes the joined vertex list. */
  lemma JoinedCornerInRange<VKey, Coord>(meshes: seq<Mesh<VKey, Coord>>, p: nat, j: nat)
    requires AllValid(meshes) && p < |JoinedFaces(meshes)| && j < |JoinedFaces(meshes)[p]|
    ensures JoinedFaces(meshes)[p][j] < |JoinedVertices(meshes)|
  {
    var k, f := LocateJoinedFace(meshes, p);
    JoinedFaceAt(meshes, k, f);
    JoinedCornerAt(meshes, k, f, j);
  }

  /** Every corner of every joined face indexes the joined vertex list. */
  lemma JoinedIndicesInRange<VKey, Coord>(meshes: seq<Mesh<VKey, Coord>>)
    requires AllValid(meshes)
    ensures MeshData(JoinedVertices(meshes), JoinedFaces(meshes)).IndicesInRange()
  {
    forall p, j | 0 <= p < |JoinedFaces(meshes)| && 0 <= j < |JoinedFaces(meshes)[p]|
      ensures JoinedFaces(meshes)[p][j] < |JoinedVertices(meshes)|
    {
      JoinedCornerInRange(meshes, p, j);
    }
  }
}
