/**
 * What the join and weld read from an input mesh, and what they hand to
 * `cls.from_vertices_and_faces`.
 */
module Meshes {
  import opened OrderedDict

  /**
   * An input mesh as its query methods show it: `vertices()` in order, each
   * with its `vertex_coordinates`, and the `face_vertices` of every face in
   * `faces()` order.
   */
  datatype Mesh<VKey(==), Coord> = Mesh(vertex: ODict<VKey, Coord>, faces: seq<seq<VKey>>) {

    /** Vertex keys are listed once each, and every face corner is a vertex key of this mesh. */
    predicate Valid() {
      && vertex.Valid()
      && (forall f, v :: 0 <= f < |faces| && v in faces[f] ==> v in vertex.vals)
    }

    /** Every face corner is listed among the vertex keys. */
    lemma CornerIsVertex(f: nat, j: nat)
      requires Valid() && f < |faces| && j < |faces[f]|
      ensures faces[f][j] in vertex.keys
    {
      assert faces[f][j] in faces[f];
    }

    /** `[mesh.vertex_coordinates(key) for key in mesh.vertices()]`. */
    function Coordinates(): (xyz: seq<Coord>)
      requires Valid()
      ensures |xyz| == |vertex.keys|
      ensures forall i :: 0 <= i < |vertex.keys| ==> xyz[i] == vertex.vals[vertex.keys[i]]
    {
      seq(|vertex.keys|, i requires 0 <= i < |vertex.keys| => vertex.vals[vertex.keys[i]])
    }
  }

  /** The vertex list and face list passed to `cls.from_vertices_and_faces`. */
  datatype MeshData<Coord> = MeshData(vertices: seq<Coord>, faces: seq<seq<nat>>) {

    /** Every face corner indexes the vertex list. */
    predicate IndicesInRange() {
      forall f, j :: 0 <= f < |faces| && 0 <= j < |faces[f]| ==> faces[f][j] < |vertices|
    }
  }
}
