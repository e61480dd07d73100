/**
 * `meshes_join_and_weld`: join several meshes and weld them in one pass. The
 * geometric keys of all vertices of all meshes, mesh by mesh, are collected in
 * one dict; the output vertices are decoded back from those keys by `rev`
 * (`reverse_geometric_key`), not taken from any input vertex.
 */
module JoinWeld {
  import opened Seqs
  import opened OrderedDict
  import opened Collapse
  import opened Meshes
  import opened Weld
  import opened Join

  lemma GeoOfAppend<Coord, Key>(xs: seq<Coord>, ys: seq<Coord>, geo: Coord -> Key)
    ensures GeoOf(xs + ys, geo) == GeoOf(xs, geo) + GeoOf(ys, geo)
  {
  }

  /** The geometric keys of each mesh, mesh by mesh. */
  function MeshGeoKeys<VKey, Coord, Key>(meshes: seq<Mesh<VKey, Coord>>, geo: Coord -> Key): seq<seq<Key>>
    requires AllValid(meshes)
  {
    seq(|meshes|, k requires 0 <= k < |meshes| => GeoKeys(meshes[k], geo))
  }

  /** The geometric key of every vertex of every mesh, in `for mesh in meshes for vkey in mesh.vertices()` order. */
  function AllGeoKeys<VKey, Coord, Key>(meshes: seq<Mesh<VKey, Coord>>, geo: Coord -> Key): seq<Key>
    requires AllValid(meshes)
  {
    Flatten(MeshGeoKeys(meshes, geo))
  }

  /** The pairs `(geometric_key(xyz), vkey)` the first comprehension produces, in order. */
  function AllKeyPairs<VKey, Coord, Key>(meshes: seq<Mesh<VKey, Coord>>, geo: Coord -> Key): seq<(Key, VKey)>
    requires AllValid(meshes)
  {
    Flatten(seq(|meshes|, k requires 0 <= k < |meshes| => KeyPairs(meshes[k], geo)))
  }

  /** The first `vertex_map`: each geometric key with the last vertex key that produced it. */
  function VertexMap<VKey, Coord, Key(==)>(meshes: seq<Mesh<VKey, Coord>>, geo: Coord -> Key): ODict<Key, VKey>
    requires AllValid(meshes)
  {
    FromPairs(AllKeyPairs(meshes, geo))
  }

  /** The second `vertex_map`: the keys of the first one numbered in their order. */
  function GeoIndex<VKey, Coord, Key(==)>(meshes: seq<Mesh<VKey, Coord>>, geo: Coord -> Key): ODict<Key, nat>
    requires AllValid(meshes)
  {
    Enumerate(VertexMap(meshes, geo).keys, 0)
  }

  /** The remapped faces of each mesh, mesh by mesh. */
  function MeshRemappedFaces<VKey, Coord, Key(==)>(meshes: seq<Mesh<VKey, Coord>>, geo: Coord -> Key): seq<seq<seq<nat>>>
    requires AllValid(meshes)
  {
    GeoIndexCovers(meshes, geo);
    seq(|meshes|, k requires 0 <= k < |meshes| => RemapThrough(meshes[k], geo, GeoIndex(meshes, geo).vals))
  }

  /** `faces` before the collapse: the remapped faces of all meshes, by mesh and then by face. */
  function JoinedRemappedFaces<VKey, Coord, Key(==)>(meshes: seq<Mesh<VKey, Coord>>, geo: Coord -> Key): seq<seq<nat>>
    requires AllValid(meshes)
  {
    Flatten(MeshRemappedFaces(meshes, geo))
  }

  /** `meshes_join_and_weld(meshes, precision)`: the vertex list and collapsed face list of the result. */
  function MeshesJoinAndWeld<VKey, Coord, Key(==)>(meshes: seq<Mesh<VKey, Coord>>, geo: Coord -> Key, rev: Key -> Coord): MeshData<Coord>
    requires AllValid(meshes)
  {
    var keys := VertexMap(meshes, geo).keys;
    var raw := JoinedRemappedFaces(meshes, geo);
    MeshData(
      seq(|keys|, i requires 0 <= i < |keys| => rev(keys[i])),
      seq(|raw|, f requires 0 <= f < |raw| => CollapseFace(raw[f])))
  }

  lemma {:induction false} GeoKeysPrefix<VKey, Coord, Key>(meshes: seq<Mesh<VKey, Coord>>, geo: Coord -> Key, k: nat)
    requires AllValid(meshes) && k <= |meshes|
    ensures Flatten(MeshGeoKeys(meshes, geo)[..k]) == GeoOf(Flatten(MeshCoordinates(meshes)[..k]), geo)
  {
    if k > 0 {
      GeoKeysPrefix(meshes, geo, k - 1);
      FlattenSnoc(MeshGeoKeys(meshes, geo), k - 1);
      FlattenSnoc(MeshCoordinates(meshes), k - 1);
      assert MeshGeoKeys(meshes, geo)[k - 1] == GeoOf(MeshCoordinates(meshes)[k - 1], geo);
      GeoOfAppend(Flatten(MeshCoordinates(meshes)[..k - 1]), MeshCoordinates(meshes)[k - 1], geo);
    }
  }

  /**
   * The keys collected across the meshes are the geometric keys of the vertex
   * list `meshes_join` would produce, position by position.
   */
  lemma AllGeoKeysOfJoined<VKey, Coord, Key>(meshes: seq<Mesh<VKey, Coord>>, geo: Coord -> Key)
    requires AllValid(meshes)
    ensures AllGeoKeys(meshes, geo) == GeoOf(JoinedVertices(meshes), geo)
  {
    GeoKeysPrefix(meshes, geo, |meshes|);
    assert MeshGeoKeys(meshes, geo)[..|meshes|] == MeshGeoKeys(meshes, geo);
    assert MeshCoordinates(meshes)[..|meshes|] == MeshCoordinates(meshes);
  }

  /** The keys of the produced pairs are the collected geometric keys. */
  lemma AllPairKeys<VKey, Coord, Key>(meshes: seq<Mesh<VKey, Coord>>, geo: Coord -> Key)
    requires AllValid(meshes)
    ensures PairKeys(AllKeyPairs(meshes, geo)) == AllGeoKeys(meshes, geo)
  {
    var pss := seq(|meshes|, k requires 0 <= k < |meshes| => KeyPairs(meshes[k], geo));
    forall k | 0 <= k < |meshes|
      ensures PairKeys(pss[k]) == MeshGeoKeys(meshes, geo)[k]
    {
    }
    PairKeysFlatten(pss, MeshGeoKeys(meshes, geo));
  }

  lemma {:induction false} GeoKeysPrefixLength<VKey, Coord, Key>(meshes: seq<Mesh<VKey, Coord>>, geo: Coord -> Key, k: nat)
    requires AllValid(meshes) && k <= |meshes|
    ensures |Flatten(MeshGeoKeys(meshes, geo)[..k])| == VerticesBefore(meshes, k)
  {
    if k > 0 {
      GeoKeysPrefixLength(meshes, geo, k - 1);
      FlattenSnoc(MeshGeoKeys(meshes, geo), k - 1);
    }
  }

  /** Vertex i of mesh k contributes the key at position `VerticesBefore(k) + i` of the collected keys. */
  lemma AllGeoKeysAt<VKey, Coord, Key>(meshes: seq<Mesh<VKey, Coord>>, geo: Coord -> Key, k: nat, i: nat)
    requires AllValid(meshes) && k < |meshes| && i < |meshes[k].vertex.keys|
    ensures VerticesBefore(meshes, k) + i < |AllGeoKeys(meshes, geo)|
    ensures AllGeoKeys(meshes, geo)[VerticesBefore(meshes, k) + i] == geo(meshes[k].vertex.vals[meshes[k].vertex.keys[i]])
  {
    GeoKeysPrefixLength(meshes, geo, k);
    FlattenIndex(MeshGeoKeys(meshes, geo), k, i);
  }

  /** The collected keys are listed in first-seen order by the vertex map. */
  lemma VertexMapKeys<VKey, Coord, Key>(meshes: seq<Mesh<VKey, Coord>>, geo: Coord -> Key)
    requires AllValid(meshes)
    ensures FirstSeenOrder(VertexMap(meshes, geo).keys, AllGeoKeys(meshes, geo))
  {
    AllPairKeys(meshes, geo);
    FromPairsKeys(AllKeyPairs(meshes, geo));
  }

  /** The vertex map lists no key twice. */
  lemma VertexMapDistinct<VKey, Coord, Key>(meshes: seq<Mesh<VKey, Coord>>, geo: Coord -> Key)
    requires AllValid(meshes)
    ensures Distinct(VertexMap(meshes, geo).keys)
  {
  }

  /** The key of every vertex of every mesh is a key of the vertex map. */
  lemma GeoKeyListed<VKey, Coord, Key>(meshes: seq<Mesh<VKey, Coord>>, geo: Coord -> Key, k: nat, v: VKey)
    requires AllValid(meshes) && k < |meshes| && v in meshes[k].vertex.vals
    ensures geo(meshes[k].vertex.vals[v]) in VertexMap(meshes, geo).keys
  {
    var i := IndexOf(meshes[k].vertex.keys, v);
    AllGeoKeysAt(meshes, geo, k, i);
    VertexMapKeys(meshes, geo);
  }

  /** The key of vertex v of mesh k has a number, and that number leads back to the key. */
  lemma GeoIndexAt<VKey, Coord, Key>(meshes: seq<Mesh<VKey, Coord>>, geo: Coord -> Key, k: nat, v: VKey)
    requires AllValid(meshes) && k < |meshes| && v in meshes[k].vertex.vals
    ensures geo(meshes[k].vertex.vals[v]) in GeoIndex(meshes, geo).vals
    ensures GeoIndex(meshes, geo).vals[geo(meshes[k].vertex.vals[v])] < |VertexMap(meshes, geo).keys|
    ensures VertexMap(meshes, geo).keys[GeoIndex(meshes, geo).vals[geo(meshes[k].vertex.vals[v])]] ==
            geo(meshes[k].vertex.vals[v])
  {
    var keys := VertexMap(meshes, geo).keys;
    var g := geo(meshes[k].vertex.vals[v]);
    GeoKeyListed(meshes, geo, k, v);
    VertexMapDistinct(meshes, geo);
    EnumerateIndex(keys, 0);
    var i := IndexOf(keys, g);
    assert GeoIndex(meshes, geo).vals[keys[i]] == i;
  }

  /** The key of every vertex of every mesh has a number, and that number leads back to the key. */
  lemma GeoIndexCovers<VKey, Coord, Key>(meshes: seq<Mesh<VKey, Coord>>, geo: Coord -> Key)
    requires AllValid(meshes)
    ensures forall k, v :: 0 <= k < |meshes| && v in meshes[k].vertex.vals ==>
              var g := geo(meshes[k].vertex.vals[v]);
              g in GeoIndex(meshes, geo).vals &&
              GeoIndex(meshes, geo).vals[g] < |VertexMap(meshes, geo).keys| &&
              VertexMap(meshes, geo).keys[GeoIndex(meshes, geo).vals[g]] == g
  {
    forall k, v | 0 <= k < |meshes| && v in meshes[k].vertex.vals
      ensures geo(meshes[k].vertex.vals[v]) in GeoIndex(meshes, geo).vals
      ensures GeoIndex(meshes, geo).vals[geo(meshes[k].vertex.vals[v])] < |VertexMap(meshes, geo).keys|
      ensures VertexMap(meshes, geo).keys[GeoIndex(meshes, geo).vals[geo(meshes[k].vertex.vals[v])]] ==
              geo(meshes[k].vertex.vals[v])
    {
      GeoIndexAt(meshes, geo, k, v);
    }
  }

  /**
   * One output vertex per distinct geometric key over all meshes, so never
   * more than the meshes have together, and exactly as many when no two input
   * vertices share a key. The keys are taken in first-seen order across the
   * mesh list, none twice, and output vertex i is `rev` of the i-th key.
   */
  lemma JoinAndWeldVertices<VKey, Coord, Key>(meshes: seq<Mesh<VKey, Coord>>, geo: Coord -> Key, rev: Key -> Coord)
    requires AllValid(meshes)
    ensures FirstSeenOrder(VertexMap(meshes, geo).keys, AllGeoKeys(meshes, geo))
    ensures |MeshesJoinAndWeld(meshes, geo, rev).vertices| == |VertexMap(meshes, geo).keys| <= VerticesBefore(meshes, |meshes|)
    ensures |MeshesJoinAndWeld(meshes, geo, rev).vertices| == VerticesBefore(meshes, |meshes|) <==> Distinct(AllGeoKeys(meshes, geo))
    ensures forall i :: 0 <= i < |MeshesJoinAndWeld(meshes, geo, rev).vertices| ==>
              MeshesJoinAndWeld(meshes, geo, rev).vertices[i] == rev(VertexMap(meshes, geo).keys[i])
  {
    VertexMapKeys(meshes, geo);
    AllPairKeys(meshes, geo);
    FromPairsKeyCount(AllKeyPairs(meshes, geo));
    AllGeoKeysOfJoined(meshes, geo);
    JoinedCounts(meshes);
  }

  lemma {:induction false} RemappedPrefixLength<VKey, Coord, Key>(meshes: seq<Mesh<VKey, Coord>>, geo: Coord -> Key, k: nat)
    requires AllValid(meshes) && k <= |meshes|
    ensures |Flatten(MeshRemappedFaces(meshes, geo)[..k])| == FacesBefore(meshes, k)
  {
    if k > 0 {
      RemappedPrefixLength(meshes, geo, k - 1);
      FlattenSnoc(MeshRemappedFaces(meshes, geo), k - 1);
    }
  }

  /**
   * Before the collapse, face f of mesh k is face `FacesBefore(k) + f`: the
   * faces are ordered by mesh and then by face, and keep their length.
   */
  lemma RemappedFaceAt<VKey, Coord, Key>(meshes: seq<Mesh<VKey, Coord>>, geo: Coord -> Key, k: nat, f: nat)
    requires AllValid(meshes) && k < |meshes| && f < |meshes[k].faces|
    ensures FacesBefore(meshes, k) + f < |JoinedRemappedFaces(meshes, geo)|
    ensures |JoinedRemappedFaces(meshes, geo)[FacesBefore(meshes, k) + f]| == |meshes[k].faces[f]|
  {
    RemappedPrefixLength(meshes, geo, k);
    FlattenIndex(MeshRemappedFaces(meshes, geo), k, f);
  }

  /** Before the collapse, corner j of face f of mesh k is the number of the geometric key of that corner's vertex. */
  lemma RemappedCornerAt<VKey, Coord, Key>(meshes: seq<Mesh<VKey, Coord>>, geo: Coord -> Key, k: nat, f: nat, j: nat)
    requires AllValid(meshes) && k < |meshes| && f < |meshes[k].faces| && j < |meshes[k].faces[f]|
    ensures FacesBefore(meshes, k) + f < |JoinedRemappedFaces(meshes, geo)|
    ensures j < |JoinedRemappedFaces(meshes, geo)[FacesBefore(meshes, k) + f]|
    ensures JoinedRemappedFaces(meshes, geo)[FacesBefore(meshes, k) + f][j] < |VertexMap(meshes, geo).keys|
    ensures VertexMap(meshes, geo).keys[JoinedRemappedFaces(meshes, geo)[FacesBefore(meshes, k) + f][j]] ==
            geo(meshes[k].vertex.vals[meshes[k].faces[f][j]])
  {
    RemappedFaceAt(meshes, geo, k, f);
    RemappedPrefixLength(meshes, geo, k);
    FlattenIndex(MeshRemappedFaces(meshes, geo), k, f);
    GeoIndexCovers(meshes, geo);
    var m := meshes[k];
    var face := JoinedRemappedFaces(meshes, geo)[FacesBefore(meshes, k) + f];
    assert face == RemapThrough(m, geo, GeoIndex(meshes, geo).vals)[f];
    assert m.faces[f][j] in m.faces[f];
  }

  /** The index a corner gets before the collapse, and the geometric key it numbers. */
  lemma RemappedCornerIndex<VKey, Coord, Key>(meshes: seq<Mesh<VKey, Coord>>, geo: Coord -> Key, k: nat, f: nat, j: nat) returns (c: nat)
    requires AllValid(meshes) && k < |meshes| && f < |meshes[k].faces| && j < |meshes[k].faces[f]|
    ensures FacesBefore(meshes, k) + f < |JoinedRemappedFaces(meshes, geo)|
    ensures j < |JoinedRemappedFaces(meshes, geo)[FacesBefore(meshes, k) + f]|
    ensures c == JoinedRemappedFaces(meshes, geo)[FacesBefore(meshes, k) + f][j]
    ensures c < |VertexMap(meshes, geo).keys| && VertexMap(meshes, geo).keys[c] == geo(meshes[k].vertex.vals[meshes[k].faces[f][j]])
  {
    RemappedCornerAt(meshes, geo, k, f, j);
    c := JoinedRemappedFaces(meshes, geo)[FacesBefore(meshes, k) + f][j];
  }

  /**
   * Before the collapse, two corners, from the same mesh or from two different
   * meshes, share an index exactly when their vertices' coordinates share a
   * geometric key.
   */
  lemma JoinAndWeldCornersAgree<VKey, Coord, Key>(meshes: seq<Mesh<VKey, Coord>>, geo: Coord -> Key,
                                                 k: nat, f: nat, j: nat, k2: nat, f2: nat, j2: nat)
    requires AllValid(meshes)
    requires k < |meshes| && f < |meshes[k].faces| && j < |meshes[k].faces[f]|
    requires k2 < |meshes| && f2 < |meshes[k2].faces| && j2 < |meshes[k2].faces[f2]|
    ensures var raw := JoinedRemappedFaces(meshes, geo);
            && FacesBefore(meshes, k) + f < |raw| && j < |raw[FacesBefore(meshes, k) + f]|
            && FacesBefore(meshes, k2) + f2 < |raw| && j2 < |raw[FacesBefore(meshes, k2) + f2]|
            && (raw[FacesBefore(meshes, k) + f][j] == raw[FacesBefore(meshes, k2) + f2][j2] <==>
                geo(meshes[k].vertex.vals[meshes[k].faces[f][j]]) == geo(meshes[k2].vertex.vals[meshes[k2].faces[f2][j2]]))
  {
    var a := RemappedCornerIndex(meshes, geo, k, f, j);
    var b := RemappedCornerIndex(meshes, geo, k2, f2, j2);
    VertexMapDistinct(meshes, geo);
    DistinctLookup(VertexMap(meshes, geo).keys, a, b, geo(meshes[k].vertex.vals[meshes[k].faces[f][j]]),
                   geo(meshes[k2].vertex.vals[meshes[k2].faces[f2][j2]]));
  }

  /** Remapped face p is face f of mesh k, where p is the number of faces before mesh k plus f. */
  lemma LocateRemappedFace<VKey, Coord, Key>(meshes: seq<Mesh<VKey, Coord>>, geo: Coord -> Key, p: nat) returns (k: nat, f: nat)
    requires AllValid(meshes) && p < |JoinedRemappedFaces(meshes, geo)|
    ensures k < |meshes| && f < |meshes[k].faces| && p == FacesBefore(meshes, k) + f
  {
    k, f := FlattenLocate(MeshRemappedFaces(meshes, geo), p);
    RemappedPrefixLength(meshes, geo, k);
  }

  /** Before the collapse, a corner of any face numbers one of the keys of the vertex map. */
  lemma RemappedCornerInRange<VKey, Coord, Key>(meshes: seq<Mesh<VKey, Coord>>, geo: Coord -> Key, p: nat, j: nat)
    requires AllValid(meshes) && p < |JoinedRemappedFaces(meshes, geo)| && j < |JoinedRemappedFaces(meshes, geo)[p]|
    ensures JoinedRemappedFaces(meshes, geo)[p][j] < |VertexMap(meshes, geo).keys|
  {
    var k, f := LocateRemappedFace(meshes, geo, p);
    RemappedFaceAt(meshes, geo, k, f);
    RemappedCornerAt(meshes, geo, k, f, j);
  }

  /**
   * One output face per input face of every mesh, by mesh and then by face
   * (face f of mesh k is at `FacesBefore(k) + f`); each is its remapped face
   * collapsed, has no two cyclically adjacent equal corners, and indexes the
   * output vertex list.
   */
  lemma JoinAndWeldFaces<VKey, Coord, Key>(meshes: seq<Mesh<VKey, Coord>>, geo: Coord -> Key, rev: Key -> Coord)
    requires AllValid(meshes)
    ensures |MeshesJoinAndWeld(meshes, geo, rev).faces| == FacesBefore(meshes, |meshes|)
    ensures forall p :: 0 <= p < |MeshesJoinAndWeld(meshes, geo, rev).faces| ==>
              MeshesJoinAndWeld(meshes, geo, rev).faces[p] == CollapseFace(JoinedRemappedFaces(meshes, geo)[p]) &&
              NoCyclicRepeats(MeshesJoinAndWeld(meshes, geo, rev).faces[p])
    ensures MeshesJoinAndWeld(meshes, geo, rev).IndicesInRange()
  {
    var r := MeshesJoinAndWeld(meshes, geo, rev);
    var raw := JoinedRemappedFaces(meshes, geo);
    assert |raw| == FacesBefore(meshes, |meshes|) by {
      RemappedPrefixLength(meshes, geo, |meshes|);
      assert MeshRemappedFaces(meshes, geo)[..|meshes|] == MeshRemappedFaces(meshes, geo);
    }
    forall p | 0 <= p < |r.faces|
      ensures NoCyclicRepeats(r.faces[p])
      ensures forall j :: 0 <= j < |r.faces[p]| ==> r.faces[p][j] < |r.vertices|
    {
      CollapseNoCyclicRepeats(raw[p]);
      CollapseKeepsChanges(raw[p]);
      forall i | 0 <= i < |raw[p]|
        ensures raw[p][i] < |r.vertices|
      {
        RemappedCornerInRange(meshes, geo, p, i);
      }
    }
  }

  /** `0, 1, ..., n - 1`. */
  function Positions(n: nat): (ps: seq<nat>)
    ensures |ps| == n && forall i :: 0 <= i < n ==> ps[i] == i
  {
    seq(n, i requires 0 <= i < n => i as nat)
  }

  lemma PositionsListed(n: nat)
    ensures forall k: nat | k < n :: k in Positions(n)
    ensures Distinct(Positions(n))
  {
    DistinctWhenApart(Positions(n));
    forall k: nat | k < n
      ensures k in Positions(n)
    {
      assert Positions(n)[k] == k;
    }
  }

  /**
   * `jm` is the output of `meshes_join` read back as a mesh: its vertex keys
   * are the positions in the joined vertex list, each with the coordinates at
   * that position, and its faces are the joined faces.
   */
  ghost predicate ReadsJoined<VKey, Coord>(jm: Mesh<nat, Coord>, meshes: seq<Mesh<VKey, Coord>>)
    requires AllValid(meshes)
  {
    && jm.Valid()
    && |jm.vertex.keys| == |JoinedVertices(meshes)|
    && jm.faces == JoinedFaces(meshes)
    && forall i :: 0 <= i < |jm.vertex.keys| ==>
         jm.vertex.keys[i] == i && i in jm.vertex.vals && jm.vertex.vals[i] == JoinedVertices(meshes)[i]
  }

  /** Such a reading exists: number the joined vertices by position. */
  function JoinedMesh<VKey, Coord>(meshes: seq<Mesh<VKey, Coord>>): (jm: Mesh<nat, Coord>)
    requires AllValid(meshes)
    ensures ReadsJoined(jm, meshes)
  {
    var vs := JoinedVertices(meshes);
    JoinedIndicesInRange(meshes);
    PositionsListed(|vs|);
    Mesh(ODict(Positions(|vs|), map i: nat | i < |vs| :: vs[i]), JoinedFaces(meshes))
  }

  /** Reading the joined mesh back, its geometric keys are the keys collected across the meshes. */
  lemma JoinedMeshKeys<VKey, Coord, Key>(meshes: seq<Mesh<VKey, Coord>>, jm: Mesh<nat, Coord>, geo: Coord -> Key)
    requires AllValid(meshes) && ReadsJoined(jm, meshes)
    ensures GeoKeys(jm, geo) == AllGeoKeys(meshes, geo)
    ensures Representatives(jm, geo).keys == VertexMap(meshes, geo).keys
  {
    AllGeoKeysOfJoined(meshes, geo);
    assert GeoKeys(jm, geo) == GeoOf(JoinedVertices(meshes), geo);
    assert PairKeys(KeyPairs(jm, geo)) == GeoKeys(jm, geo);
    AllPairKeys(meshes, geo);
    FromPairsSameKeys(KeyPairs(jm, geo), AllKeyPairs(meshes, geo));
  }

  /**
   * Face list `a` has the shape of `fs`, and corner j of face p of `a` numbers,
   * in `keys`, the geometric key of the vertex of `vs` that `fs` names there.
   */
  ghost predicate KeyedLike<Coord, Key>(a: seq<seq<nat>>, keys: seq<Key>, fs: seq<seq<nat>>, vs: seq<Coord>, geo: Coord -> Key) {
    && |a| == |fs|
    && (forall p :: 0 <= p < |fs| ==> |a[p]| == |fs[p]|)
    && (forall p, j :: 0 <= p < |fs| && 0 <= j < |fs[p]| ==>
          fs[p][j] < |vs| && a[p][j] < |keys| && keys[a[p][j]] == geo(vs[fs[p][j]]))
  }

  /** Against a key list without repeats, at most one face list is keyed like `fs`. */
  lemma KeyedLikeUnique<Coord, Key>(a: seq<seq<nat>>, b: seq<seq<nat>>, keys: seq<Key>,
                                    fs: seq<seq<nat>>, vs: seq<Coord>, geo: Coord -> Key)
    requires Distinct(keys)
    requires KeyedLike(a, keys, fs, vs, geo) && KeyedLike(b, keys, fs, vs, geo)
    ensures a == b
  {
    forall p | 0 <= p < |fs|
      ensures a[p] == b[p]
    {
      forall j | 0 <= j < |fs[p]|
        ensures a[p][j] == b[p][j]
      {
        DistinctSame(keys, a[p][j], b[p][j]);
      }
    }
  }

  /** Before the collapse, face p of the one-pass version has the length of joined face p. */
  lemma JoinAndWeldFaceAt<VKey, Coord, Key>(meshes: seq<Mesh<VKey, Coord>>, geo: Coord -> Key, p: nat)
    requires AllValid(meshes) && p < |JoinedFaces(meshes)|
    ensures p < |JoinedRemappedFaces(meshes, geo)|
    ensures |JoinedRemappedFaces(meshes, geo)[p]| == |JoinedFaces(meshes)[p]|
  {
    var k, f := LocateJoinedFace(meshes, p);
    JoinedFaceAt(meshes, k, f);
    RemappedFaceAt(meshes, geo, k, f);
  }

  /**
   * Before the collapse, corner j of face f of mesh k numbers the geometric key
   * of the joined vertex that the same corner of the joined face names.
   */
  lemma JoinAndWeldCornerOf<VKey, Coord, Key>(meshes: seq<Mesh<VKey, Coord>>, geo: Coord -> Key, k: nat, f: nat, j: nat)
    requires AllValid(meshes) && k < |meshes| && f < |meshes[k].faces| && j < |meshes[k].faces[f]|
    ensures FacesBefore(meshes, k) + f < |JoinedFaces(meshes)| && j < |JoinedFaces(meshes)[FacesBefore(meshes, k) + f]|
    ensures FacesBefore(meshes, k) + f < |JoinedRemappedFaces(meshes, geo)|
    ensures j < |JoinedRemappedFaces(meshes, geo)[FacesBefore(meshes, k) + f]|
    ensures JoinedFaces(meshes)[FacesBefore(meshes, k) + f][j] < |JoinedVertices(meshes)|
    ensures JoinedRemappedFaces(meshes, geo)[FacesBefore(meshes, k) + f][j] < |VertexMap(meshes, geo).keys|
    ensures VertexMap(meshes, geo).keys[JoinedRemappedFaces(meshes, geo)[FacesBefore(meshes, k) + f][j]] ==
            geo(JoinedVertices(meshes)[JoinedFaces(meshes)[FacesBefore(meshes, k) + f][j]])
  {
    JoinedCornerAt(meshes, k, f, j);
    RemappedCornerAt(meshes, geo, k, f, j);
  }

  /**
   * Before the collapse, corner j of face p of the one-pass version numbers the
   * geometric key of the joined vertex that corner j of joined face p names.
   */
  lemma JoinAndWeldCornerAt<VKey, Coord, Key>(meshes: seq<Mesh<VKey, Coord>>, geo: Coord -> Key, p: nat, j: nat)
    requires AllValid(meshes) && p < |JoinedFaces(meshes)| && j < |JoinedFaces(meshes)[p]|
    ensures p < |JoinedRemappedFaces(meshes, geo)| && j < |JoinedRemappedFaces(meshes, geo)[p]|
    ensures JoinedFaces(meshes)[p][j] < |JoinedVertices(meshes)|
    ensures JoinedRemappedFaces(meshes, geo)[p][j] < |VertexMap(meshes, geo).keys|
    ensures VertexMap(meshes, geo).keys[JoinedRemappedFaces(meshes, geo)[p][j]] ==
            geo(JoinedVertices(meshes)[JoinedFaces(meshes)[p][j]])
  {
    var k, f := LocateJoinedFace(meshes, p);
    assert j < |meshes[k].faces[f]| by {
      JoinedFaceAt(meshes, k, f);
    }
    JoinAndWeldCornerOf(meshes, geo, k, f, j);
  }

  /** Before the collapse, the one-pass faces number the keys of the vertex map as the joined faces name joined vertices. */
  lemma JoinAndWeldKeyedLikeJoin<VKey, Coord, Key>(meshes: seq<Mesh<VKey, Coord>>, geo: Coord -> Key)
    requires AllValid(meshes)
    ensures KeyedLike(JoinedRemappedFaces(meshes, geo), VertexMap(meshes, geo).keys,
                      JoinedFaces(meshes), JoinedVertices(meshes), geo)
  {
    var raw, fs := JoinedRemappedFaces(meshes, geo), JoinedFaces(meshes);
    assert |raw| == |fs| by {
      JoinedCounts(meshes);
      RemappedPrefixLength(meshes, geo, |meshes|);
      assert MeshRemappedFaces(meshes, geo)[..|meshes|] == MeshRemappedFaces(meshes, geo);
    }
    forall p | 0 <= p < |fs|
      ensures |raw[p]| == |fs[p]|
    {
      JoinAndWeldFaceAt(meshes, geo, p);
    }
    forall p, j | 0 <= p < |fs| && 0 <= j < |fs[p]|
      ensures fs[p][j] < |JoinedVertices(meshes)| && raw[p][j] < |VertexMap(meshes, geo).keys|
      ensures VertexMap(meshes, geo).keys[raw[p][j]] == geo(JoinedVertices(meshes)[fs[p][j]])
    {
      JoinAndWeldCornerAt(meshes, geo, p, j);
    }
  }

  /** A corner of the joined mesh names the joined vertex at that position. */
  lemma JoinedMeshCorner<VKey, Coord>(meshes: seq<Mesh<VKey, Coord>>, jm: Mesh<nat, Coord>, p: nat, j: nat)
    requires AllValid(meshes) && ReadsJoined(jm, meshes) && p < |jm.faces| && j < |jm.faces[p]|
    ensures jm.faces[p][j] < |JoinedVertices(meshes)|
    ensures jm.vertex.vals[jm.faces[p][j]] == JoinedVertices(meshes)[jm.faces[p][j]]
  {
    JoinedCornerInRange(meshes, p, j);
  }

  /** Welding the joined mesh numbers its representatives' keys as the joined faces name joined vertices. */
  lemma WeldOfJoinKeyedLikeJoin<VKey, Coord, Key>(meshes: seq<Mesh<VKey, Coord>>, jm: Mesh<nat, Coord>, geo: Coord -> Key)
    requires AllValid(meshes) && ReadsJoined(jm, meshes)
    ensures KeyedLike(RemappedFaces(jm, geo), Representatives(jm, geo).keys,
                      JoinedFaces(meshes), JoinedVertices(meshes), geo)
  {
    var raw, fs := RemappedFaces(jm, geo), JoinedFaces(meshes);
    RemappedFacesSpec(jm, geo);
    forall p, j | 0 <= p < |fs| && 0 <= j < |fs[p]|
      ensures fs[p][j] < |JoinedVertices(meshes)| && raw[p][j] < |Representatives(jm, geo).keys|
      ensures Representatives(jm, geo).keys[raw[p][j]] == geo(JoinedVertices(meshes)[fs[p][j]])
    {
      JoinedMeshCorner(meshes, jm, p, j);
      RemappedCornerKey(jm, geo, p, j);
    }
  }

  /**
   * Joining and welding in one pass gives the faces that welding the joined
   * mesh gives, and as many vertices, with the same geometric keys; where
   * `mesh_weld` keeps the coordinates of the last vertex with each key, the
   * one-pass version decodes the key itself with `rev`.
   */
  lemma JoinAndWeldIsWeldOfJoin<VKey, Coord, Key>(meshes: seq<Mesh<VKey, Coord>>, jm: Mesh<nat, Coord>,
                                                 geo: Coord -> Key, rev: Key -> Coord)
    requires AllValid(meshes) && ReadsJoined(jm, meshes)
    ensures MeshesJoinAndWeld(meshes, geo, rev).faces == MeshWeld(jm, geo).faces
    ensures |MeshesJoinAndWeld(meshes, geo, rev).vertices| == |MeshWeld(jm, geo).vertices|
    ensures forall i :: 0 <= i < |MeshesJoinAndWeld(meshes, geo, rev).vertices| ==>
              MeshesJoinAndWeld(meshes, geo, rev).vertices[i] == rev(geo(MeshWeld(jm, geo).vertices[i]))
  {
    JoinedMeshKeys(meshes, jm, geo);
    MeshWeldVertexKeys(jm, geo);
    assert RemappedFaces(jm, geo) == JoinedRemappedFaces(meshes, geo) by {
      WeldOfJoinKeyedLikeJoin(meshes, jm, geo);
      JoinAndWeldKeyedLikeJoin(meshes, geo);
      VertexMapDistinct(meshes, geo);
      KeyedLikeUnique(RemappedFaces(jm, geo), JoinedRemappedFaces(meshes, geo), VertexMap(meshes, geo).keys,
                      JoinedFaces(meshes), JoinedVertices(meshes), geo);
    }
  }
}
