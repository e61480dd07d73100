# Mesh join and weld

A Dafny model of the mesh joining and welding routines of COMPAS
(`src/compas/datastructures/mesh/join.py`):

- `mesh_weld` merges the vertices of one mesh that share a geometric key.
  The welded mesh has one vertex per distinct key. That vertex takes the
  coordinates of the **last** input vertex with the key, and the keys come in
  **first-seen** order. Every face is renumbered, then collapsed.
- `meshes_join` puts several meshes into one index space without merging
  anything. Each mesh's vertices are numbered after all vertices emitted
  before it.
- `meshes_join_and_weld` collects the geometric keys of all vertices of all
  meshes in one dict. Its output vertices are `reverse_geometric_key` of those
  keys, not the coordinates of any input vertex. It renumbers every face of
  every mesh, then collapses it.
- The collapse `[u for u, v in pairwise(face + face[:1]) if u != v]` walks the
  face loop once around. It keeps a corner only when the next corner holds a
  different index.

How the model is laid out:

- `geometric_key(_, precision)` is a function parameter `geo: Coord -> Key`,
  with the precision folded in.
- `reverse_geometric_key` is a parameter `rev: Key -> Coord`.
- Coordinates, geometric keys and vertex keys are type parameters. Only
  equality is used on keys.
- A Python dict built by a comprehension is an `OrderedDict.ODict`: its keys in
  first-insertion order, plus a map. This is the dict of Python 3.7 and later.
  - `FromPairs` folds the produced `(key, value)` pairs in order.
  - A later pair overwrites the value of an earlier one with the same key.
  - A key keeps the position of its first insertion.
- An input mesh (`Meshes.Mesh`) is what its query methods show: `vertices()` in
  order, each with its `vertex_coordinates`, and `face_vertices` of every face
  in `faces()` order.
- The result (`Meshes.MeshData`) is the pair of lists handed to
  `cls.from_vertices_and_faces`.
- Modules:
  - `Weld`, `Join` and `JoinWeld` model the three routines.
  - `Collapse` models the shared collapse.
  - `Seqs` and `OrderedDict` hold the sequence and dict vocabulary.
- `mesh_weld` and `meshes_join_and_weld` are chains of comprehensions. They are
  functions.
- `meshes_join` grows its two lists in a loop. It is the method
  `Join.MeshesJoin`, proved against the specification functions
  `JoinedVertices` and `JoinedFaces`.
- `JoinWeld.JoinedMesh` reads the output of `meshes_join` back as a mesh whose
  vertex keys are the list positions. This reading is used to relate
  `meshes_join_and_weld` to `mesh_weld` of the joined mesh.

## Model

| member | source | states |
|---|---|---|
| Collapse.ChangesFrom | src/compas/datastructures/mesh/join.py:44 | reference definition: the positions, in increasing order, whose corner differs from its cyclic successor |
| Collapse.CollapseKeepsChanges | src/compas/datastructures/mesh/join.py:44 | the collapse keeps exactly the corners that differ from their cyclic successor, in their original order; the result is a subsequence of the face, never longer |
| Collapse.KeepChangesShape | src/compas/datastructures/mesh/join.py:44 | the pairwise filter starts with the walk's first element, never repeats an element twice in a row, ends with an element other than the walk's last one, and is empty only if the walk ends where it started |
| Collapse.CollapseNoCyclicRepeats | src/compas/datastructures/mesh/join.py:107 | no two cyclically adjacent corners of a collapsed face are equal, and a collapsed face never has exactly one corner |
| Collapse.CollapseUniform | src/compas/datastructures/mesh/join.py:44 | a face whose corners are all equal, including a one-corner face, collapses to the empty face |
| Collapse.CollapseFixesClean | src/compas/datastructures/mesh/join.py:44 | a face with no cyclically adjacent repeats comes out unchanged |
| Collapse.CollapseFixedIff | src/compas/datastructures/mesh/join.py:107 | the collapse leaves a face unchanged if and only if it has no cyclically adjacent repeats |
| Collapse.CollapseIdempotent | src/compas/datastructures/mesh/join.py:107 | collapsing twice equals collapsing once |
| OrderedDict.ODict.Insert | src/compas/datastructures/mesh/join.py:40 | `d[k] = v`: a new key is appended as the only new key; an existing key leaves the key list unchanged and takes the new value; the keys with a value are the old ones plus `k`; other keys keep their values; dict validity is kept |
| OrderedDict.FromPairsKeys | src/compas/datastructures/mesh/join.py:40 | a comprehension's dict lists the distinct produced keys, once each, in first-produced order |
| OrderedDict.FromPairsValues | src/compas/datastructures/mesh/join.py:40 | last write wins: each key's value is the value of the last pair that produced the key |
| OrderedDict.FromPairsKeyCount | src/compas/datastructures/mesh/join.py:100 | the dict has at most as many keys as pairs were produced, and exactly as many if and only if no key was produced twice |
| OrderedDict.FromPairsSameKeys | src/compas/datastructures/mesh/join.py:100 | the key order depends only on the produced keys, not on the values |
| OrderedDict.FromPairsDistinctKeys | src/compas/datastructures/mesh/join.py:73 | when no key is produced twice, the dict lists the keys exactly as produced |
| OrderedDict.EnumerateIndex | src/compas/datastructures/mesh/join.py:41 | `{k: start + i for i, k in enumerate(ks)}` over distinct keys lists them in order, maps the i-th key to `start + i`, and holds no other key |
| OrderedDict.PairKeysFlatten | src/compas/datastructures/mesh/join.py:100 | the keys produced by a nested `for ... for ...` comprehension are the keys of each inner group, group after group |
| Weld.RepresentativesSpec | src/compas/datastructures/mesh/join.py:40 | `gkey_key` lists the distinct geometric keys in first-seen order, and maps each to the last vertex, in `vertices()` order, with that key |
| Weld.KeyIndexAt | src/compas/datastructures/mesh/join.py:41 | the key of one vertex has a number in `gkey_index`, below the number of distinct keys, and the number leads back to that key |
| Weld.KeyIndexCovers | src/compas/datastructures/mesh/join.py:41 | `gkey_index` numbers the key of every vertex, below the number of distinct keys, and the number leads back to that key |
| Weld.RepresentativesAreVertices | src/compas/datastructures/mesh/join.py:42 | every representative is a vertex of the mesh, so `key_xyz[key]` is defined |
| Weld.MeshWeldVertices | src/compas/datastructures/mesh/join.py:39-42 | one output vertex per distinct key, so at most the input count, and equal to it if and only if no two input vertices share a key; output vertex i is the coordinate of the last input vertex whose key is the i-th distinct key |
| Weld.MeshWeldVertexAt | src/compas/datastructures/mesh/join.py:42 | output vertex i is the coordinate of the last input vertex whose key is the i-th distinct key |
| Weld.MeshWeldVertexKeys | src/compas/datastructures/mesh/join.py:40-42 | output vertex i has the i-th distinct key, so no two output vertices share a key |
| Weld.RemappedFacesSpec | src/compas/datastructures/mesh/join.py:43 | before the collapse, one face per input face of the same length, and every corner is the number of its vertex's geometric key, below the output vertex count |
| Weld.RemappedCornerKey | src/compas/datastructures/mesh/join.py:43 | one corner before the collapse: the number of the geometric key of its vertex |
| Weld.RemappedCornersAgree | src/compas/datastructures/mesh/join.py:43 | before the collapse, two corners share an index if and only if their vertices share a geometric key |
| Weld.MeshWeldFaces | src/compas/datastructures/mesh/join.py:43-44 | one output face per input face, in `faces()` order; each is its remapped face collapsed, has no cyclically adjacent repeats, and indexes the vertex list |
| Join.MeshesJoin | src/compas/datastructures/mesh/join.py:69-77 | the loop produces exactly the specification lists: every mesh's coordinates in mesh order, and every mesh's faces renumbered with the vertex count before that mesh as offset |
| Join.KeyIndexOfCorners | src/compas/datastructures/mesh/join.py:73 | `key_index` maps each corner's vertex to the offset plus that vertex's position in `vertices()` |
| Join.RenumberedByKeyIndex | src/compas/datastructures/mesh/join.py:75 | renumbering a mesh's faces through `key_index` shifts every corner's vertex position by the offset |
| Join.JoinedCounts | src/compas/datastructures/mesh/join.py:72-75 | the joined mesh has as many vertices and as many faces as all input meshes together |
| Join.JoinedVertexAt | src/compas/datastructures/mesh/join.py:74 | vertex i of mesh k becomes joined vertex `VerticesBefore(k) + i`, with its own coordinates |
| Join.JoinedFaceAt | src/compas/datastructures/mesh/join.py:73-75 | face f of mesh k becomes joined face `FacesBefore(k) + f`: the same face, of the same length, with each corner renumbered as the vertex count before mesh k plus its vertex's position in `vertices()` |
| Join.JoinedCornerAt | src/compas/datastructures/mesh/join.py:73-75 | corner j of face f of mesh k, in the joined output, indexes a joined vertex holding the coordinates of the same input vertex |
| Join.JoinKeepsVerticesApart | src/compas/datastructures/mesh/join.py:73 | no deduplication: two different input vertices get two different joined indices |
| Join.JoinedIndicesInRange | src/compas/datastructures/mesh/join.py:75 | every corner of every joined face indexes the joined vertex list |
| JoinWeld.AllPairKeys | src/compas/datastructures/mesh/join.py:100 | the keys produced by the first `vertex_map` comprehension are the geometric keys of all vertices, mesh by mesh |
| JoinWeld.AllGeoKeysOfJoined | src/compas/datastructures/mesh/join.py:100 | those keys are, position by position, the geometric keys of the vertex list `meshes_join` produces |
| JoinWeld.AllGeoKeysAt | src/compas/datastructures/mesh/join.py:100 | vertex i of mesh k contributes the key at position `VerticesBefore(k) + i` |
| JoinWeld.VertexMapKeys | src/compas/datastructures/mesh/join.py:100 | `vertex_map` lists the distinct keys over all meshes, once each, in first-seen order across the mesh list |
| JoinWeld.GeoIndexCovers | src/compas/datastructures/mesh/join.py:104 | the renumbered `vertex_map` numbers the key of every vertex of every mesh, and the number leads back to the key |
| JoinWeld.JoinAndWeldVertices | src/compas/datastructures/mesh/join.py:100-104 | output vertex i is `reverse_geometric_key` of the i-th distinct key in first-seen order; the count is at most the total input vertex count, and equal to it if and only if no two input vertices share a key |
| JoinWeld.RemappedFaceAt | src/compas/datastructures/mesh/join.py:106 | before the collapse, face f of mesh k is face `FacesBefore(k) + f`, ordered by mesh then by face, of the same length |
| JoinWeld.RemappedCornerAt | src/compas/datastructures/mesh/join.py:106 | before the collapse, each corner is the number of its vertex's geometric key |
| JoinWeld.JoinAndWeldCornersAgree | src/compas/datastructures/mesh/join.py:106 | before the collapse, two corners, from the same mesh or from different meshes, share an index if and only if their vertices' coordinates share a geometric key |
| JoinWeld.JoinAndWeldFaces | src/compas/datastructures/mesh/join.py:106-107 | one output face per input face of every mesh; each is its remapped face collapsed, has no cyclically adjacent repeats, and indexes the output vertex list |
| JoinWeld.JoinAndWeldCornerAt | src/compas/datastructures/mesh/join.py:106 | before the collapse, corner j of output face p numbers the geometric key of the joined vertex that corner j of joined face p names |
| JoinWeld.JoinAndWeldKeyedLikeJoin | src/compas/datastructures/mesh/join.py:100-106 | before the collapse, the one-pass faces have the shape of the joined faces, and each corner numbers, among the keys of `vertex_map`, the key of the joined vertex the joined face names there |
| JoinWeld.WeldOfJoinKeyedLikeJoin | src/compas/datastructures/mesh/join.py:40-43 | welding the joined mesh renumbers the joined faces the same way, among its own representatives' keys |
| JoinWeld.JoinAndWeldIsWeldOfJoin | src/compas/datastructures/mesh/join.py:80-109 | for any mesh that reads the output of `meshes_join` back with list positions as vertex keys, the one-pass version gives the faces of welding that mesh, and as many vertices; its vertex i is `reverse_geometric_key` of the key of that mesh's welded vertex i |

## Left out

- The internals of `geometric_key`, `reverse_geometric_key` and `pairwise` (join.py lines 5–7) are left out. They come from `compas.utilities`, which is not part of this model. The two key functions are uninterpreted parameters, so rounding and idempotence facts about them are not stated. `pairwise` is modelled only through its use in the collapse.
- Floating-point coordinates are left out. `Coord` is abstract.
- `cls.from_vertices_and_faces` is not part of this model, and neither are the query methods `vertices()`, `faces()`, `vertex_coordinates` and `face_vertices`. They are calls into an unseen mesh class. Their results are plain sequences and maps, and each routine returns the two lists it would pass to `from_vertices_and_faces`.
- The choice of `cls` is left out, including `type(mesh)` and `type(meshes[0])` (lines 35–36, 66–67, 96–97). So is the `IndexError` that `meshes[0]` raises on an empty list when no `cls` is given. The join routines are modelled for every list, the empty one included.
- The mesh class's own invariant is assumed rather than checked. Vertex keys are listed once, and every face corner is a vertex of the mesh. `Mesh.Valid` is a precondition because `join.py` relies on this invariant without checking it.
- The code raises no error of its own, and neither does the model: there is no empty-input or invalid-precision error.
- `JoinedMesh` and `ReadsJoined` assume that the mesh built by `from_vertices_and_faces` from the output of `meshes_join` numbers its vertices by list position and keeps every face exactly as given, in order. This behaviour belongs to `from_vertices_and_faces`. It is used only to relate `meshes_join_and_weld` to `mesh_weld`.
- Dict iteration order is assumed to be insertion order, as in Python 3.7 and later. `join.py` lines 1–3 also keep Python 2 working, and there a dict iterates its keys in hash order. Under Python 2 the output vertex lists of `mesh_weld` and `meshes_join_and_weld`, and the index each output face uses, follow that hash order instead. The vertex order proved in `Weld.RepresentativesSpec`, `Weld.MeshWeldVertices`, `JoinWeld.VertexMapKeys` and `JoinWeld.JoinAndWeldVertices` is the Python 3.7+ order. Under Python 2 the walk over `key_xyz.items()` is in hash order too, so when several vertices share a key, which of them represents it can also differ. The set of keys, the output vertex count, and which corners share an index are the same under either order.
- The empty `__main__` block (lines 116–118) is left out.
