# Mesh PickWalker correspondence walker, modelled in Dafny

This project models the core of the Blender add-on *Mesh PickWalker*: the
`MESH_OT_compute_mapping` operator in `meshwalkerMove.py`. The user picks one
face and two neighbouring vertices on a source mesh A and on a target mesh B.
The operator walks both meshes in lockstep, face by face, outward from those
picks. It builds a map from A vertex indices to B vertex indices and then
moves every mapped B vertex onto its A partner's position, in world or object
space.

Modules, one per file:

- `MeshModel` (`mesh_model.dfy`): the meshes as arenas. Vertices, edges and
  faces are indices. An edge has two endpoints and its link faces. A face has
  its boundary vertices and edges in bmesh order. `ValidMesh` says every
  stored index exists, which bmesh references always do.
- `FaceStep` (`face_step.dfy`): `get_next_vertex` and `get_opposite_face`.
  Each is a pure first-match function. `GetNextVertex` also repeats the
  source's two loops (collect the connected edges, then search them) and is
  proved equal to the function.
- `FaceWalk` (`face_walk.dfy`): `walk_face_double`. `Walk` is the recursive
  specification. `WalkFaceDouble` is the `while True` loop, proved equal to
  it. Lemmas state step validity, chaining, distinctness, the bound and the
  stop and mismatch conditions.
- `VertexMap` (`vertex_map.dfy`): the Python dict `vertex_map`. It holds the
  values and the key insertion order, which is the order `items()` follows.
  It also covers the writes of processed items (last write wins) and the
  reverse map built by the dict comprehension.
- `Correspondence` (`correspondence.dfy`): the first-in first-out traversal
  in `execute`. `Traverse` is the specification; its termination measure is
  (unprocessed A edges, queue length). `BuildMapping` is the loop. Lemmas
  cover dedup on A edges, the map contents and the bound.
- `Transfer` (`transfer.dfy`): the reverse map and the in-place move of B
  positions (`MoveVertices` over an `array`). `ComputeMapping` is `execute`
  from the index lookups to the transfer.

Positions are a type parameter `P`. World mode's matrix arithmetic, A's
local-to-world matrix followed by the inverse of B's, is a function argument
`worldToB: P -> P`. Whether B's matrix can be inverted is a boolean argument.

Behaviour of the code that the model keeps:

- A face walk also emits the seed edge. The loop only stops when a current
  vertex comes round again, so a quad walked from a seed pair gives four
  items, not three.
- A walk that ends in a mismatch still returns the items gathered before it,
  and those items are enqueued.
- An edge with more than two link faces is not treated as a boundary.
  `get_opposite_face` takes the first link face that differs from the current
  one.
- A singular world matrix for B aborts in object mode too. The unconditional
  world-space pass at `meshwalkerMove.py:275-283` runs before the mode
  dispatch, and `inverted()` raises there before any vertex is written. In
  `ComputeMapping` this is `SingularMatrix` whatever the mode.
- Picked indices that do not exist make `bm.faces[i]` / `bm.verts[i]` raise,
  and nothing is written. In `ComputeMapping` this is `IndexOutOfRange`.

## Model

| member | source | states |
|---|---|---|
| `FaceStep.NextStep` | meshwalkerMove.py:143-160 | A returned step is a face edge that contains the current vertex. The vertex it leads to is that edge's other endpoint; it lies on the face, differs from the previous vertex and exists in the mesh. |
| `FaceStep.NextStepFirst` | meshwalkerMove.py:143-160 | `get_next_vertex` returns None exactly when no face edge contains the current vertex with its other endpoint on the face and different from the previous vertex. Otherwise it returns the first such edge in face-edge order. |
| `FaceStep.SearchFindsFirst` | meshwalkerMove.py:155-160 | The search returns the first qualifying edge of the list, and the vertex that edge leads to. It returns nothing exactly when no edge of the list qualifies. |
| `FaceStep.SearchConnected` | meshwalkerMove.py:149-159 | Filtering the face edges down to those containing the current vertex does not change which step is found. |
| `FaceStep.ConnectedEdges` | meshwalkerMove.py:149-152 | The first loop collects exactly the face edges that contain the current vertex, in face order. |
| `FaceStep.FirstStep` | meshwalkerMove.py:155-160 | The second loop returns exactly the first collected edge that is a step (other endpoint on the face, not the previous vertex), or None. |
| `FaceStep.GetNextVertex` | meshwalkerMove.py:143-160 | The two loops (collect the connected edges, then return the first good one) return exactly `NextStep`. |
| `FaceStep.FirstOther` | meshwalkerMove.py:205 | Returns the first element different from the current face. Returns None exactly when every element equals it. |
| `FaceStep.OppositeFace` | meshwalkerMove.py:203-205 | Returns a link face of the edge that exists and differs from the current face, the first such in link order. Returns None exactly when every link face is the current face (a boundary edge). |
| `FaceWalk.Walk` | meshwalkerMove.py:168-201 | The defining function of the lockstep face walk. Its properties are stated by `WalkOnFace`, `WalkChained`, `WalkDistinct`, `WalkStops` and `WalkSelf`. |
| `FaceWalk.WalkOnFace` | meshwalkerMove.py:182-197 | Every emitted A side lies on face A and every B side on face B: its edge is a face edge and its current vertex a face vertex. |
| `FaceWalk.WalkChained` | meshwalkerMove.py:182-197 | On both sides, item i is the `get_next_vertex` step from the pair before it. Its previous vertex is the current vertex of that pair, so consecutive items chain. A and B advance once per item and are paired by position. |
| `FaceWalk.WalkDistinct` | meshwalkerMove.py:168-197 | On each side the previous vertices of the items are pairwise distinct and were not seen before. The item count equals the number of distinct vertices marked seen on each side. It is at most the number of face vertices plus the start vertex. |
| `FaceWalk.WalkStops` | meshwalkerMove.py:168-201 | At the pairs the walk ends on, a mismatch is reported exactly when one side's current vertex was seen and the other's was not. The walk ends only when a current vertex was seen or a side has no next step. The items gathered before that are returned. |
| `FaceWalk.WalkSelf` | meshwalkerMove.py:168-201 | A face walked against itself, from the same pair and with the same seen vertices, pairs every A side with the identical B side and reports no mismatch. |
| `FaceWalk.WalkFaceDouble` | meshwalkerMove.py:162-201 | The `while True` loop returns exactly the items and mismatch flag of `WalkFace`. |
| `VertexMap.Put` | meshwalkerMove.py:241-242 | The dict assignment keeps the dict well formed. The value at the key is replaced. An existing key keeps its place in iteration order, and a new key goes last. |
| `VertexMap.SeedDict` | meshwalkerMove.py:241-242 | The defining function of the two seed assignments. Its contents are stated by `SeedDictVals`. |
| `VertexMap.SeedDictVals` | meshwalkerMove.py:241-242 | After the two seed assignments the dict holds exactly the two seed entries. When both seed vertices are the same, vertex 2's partner wins. |
| `VertexMap.Record` | meshwalkerMove.py:257-258 | The defining function of one processed item's two writes, previous vertex first. Its effect over a run is stated by `RecordAllKeys`, `RecordAllLastWrite`, `RecordAllUntouched` and `RecordAllIdentity`. |
| `VertexMap.RecordAll` | meshwalkerMove.py:257-258 | The writes of a run of processed items, in order. It keeps the dict well formed; its contents are stated by `RecordAllKeys`, `RecordAllLastWrite`, `RecordAllUntouched` and `RecordAllIdentity`. |
| `VertexMap.RecordAllKeys` | meshwalkerMove.py:257-258 | After a run of processed items, a key is present exactly when it was present before or some item wrote it as one of its pair endpoints. |
| `VertexMap.RecordAllLastWrite` | meshwalkerMove.py:257-258 | Last write wins: a key holds the B vertex written by the last item that writes it. The current-vertex write beats the previous-vertex write of the same item. |
| `VertexMap.RecordAllUntouched` | meshwalkerMove.py:253-258 | A key that no item writes keeps its old value. |
| `VertexMap.RecordAllIdentity` | meshwalkerMove.py:257-258 | Items that pair every vertex with itself keep a map in which every key maps to itself. |
| `VertexMap.RevOf` | meshwalkerMove.py:273 | The dict comprehension over keys in iteration order. Every entry maps a B vertex back to a key with that value; `RevOfLast` states which key. |
| `VertexMap.Reverse` | meshwalkerMove.py:273 | Every reverse entry maps a B vertex to an A key whose value is that B vertex. |
| `VertexMap.RevOfLast` | meshwalkerMove.py:273 | Over the keys in iteration order, a B vertex is in the reverse map exactly when some key maps to it. Its entry is the last such key in that order. |
| `VertexMap.ReverseLast` | meshwalkerMove.py:273 | The reverse map's keys are exactly the dict's values. Each points back to the last key, in dict iteration order, with that value. |
| `VertexMap.ReverseIdentity` | meshwalkerMove.py:273 | The reverse of a map in which every key maps to itself has the same keys, each again mapping to itself. |
| `Correspondence.Expand` | meshwalkerMove.py:261-270 | New work appears, or a mismatch is reported, only when both edges have an opposite face. All new items lie on those opposite faces and are valid items of the two meshes. |
| `Correspondence.ExpandSelf` | meshwalkerMove.py:261-270 | An item that pairs a side with itself leads on both meshes to the same opposite face, so the walk it enqueues pairs every side with itself and reports no mismatch. |
| `Correspondence.Traverse` | meshwalkerMove.py:249-270 | The defining function of the first-in first-out loop. Its properties are stated by `TraverseSeen`, `TraverseOnce`, `TraverseBound`, `TraverseRecords`, `TraverseProcessedValid` and `TraverseSelf`. |
| `Correspondence.TraverseSeen` | meshwalkerMove.py:249-254 | The processed-edge set only grows, by exactly the A edges of the processed items. None of those edges had been processed before. |
| `Correspondence.TraverseOnce` | meshwalkerMove.py:253-254 | No mesh-A edge is processed twice. |
| `Correspondence.TraverseBound` | meshwalkerMove.py:249-254 | The loop processes at most one item per mesh-A edge not yet seen. |
| `Correspondence.TraverseRecords` | meshwalkerMove.py:249-258 | The final map is the starting map followed by the two writes of each processed item, in processing order. An item whose A edge was already seen changes nothing, whatever its B edge. |
| `Correspondence.TraverseProcessedValid` | meshwalkerMove.py:249-258 | Every processed item names faces, edges and vertices that exist in the two meshes. |
| `Correspondence.TraverseSelf` | meshwalkerMove.py:249-270 | A mesh traversed against itself from a queue of self-paired items processes only self-paired items and counts no mismatch. |
| `Correspondence.RecordAllInRange` | meshwalkerMove.py:257-258 | Writing the pairs of valid items keeps every key a mesh-A vertex and every value a mesh-B vertex. |
| `Correspondence.Correspond` | meshwalkerMove.py:237-270 | The map the traversal builds from the seeds is a well-formed dict from existing A vertices to existing B vertices, and it always holds both seed vertices. |
| `Correspondence.CorrespondRecords` | meshwalkerMove.py:241-258 | The final map is the two seed entries followed by the two writes of each processed item, in processing order. |
| `Correspondence.MappingKeys` | meshwalkerMove.py:237-258 | A vertex is a key of the final map exactly when it is a seed vertex or an endpoint of a processed pair. |
| `Correspondence.MappingLastWrite` | meshwalkerMove.py:257-258 | A key holds the B vertex written by the last processed item that writes it. |
| `Correspondence.MappingSeedValue` | meshwalkerMove.py:241-242 | A seed vertex that no processed item writes keeps its seed partner. When both seed vertices are the same, vertex 2's partner wins. |
| `Correspondence.ProcessedOnce` | meshwalkerMove.py:249-254 | Over the whole run no mesh-A edge is processed twice, so at most as many items are processed as mesh A has edges. |
| `Correspondence.CorrespondSelf` | meshwalkerMove.py:237-270 | A mesh mapped onto itself from the same picks yields no mismatch, only self-paired processed items, and a map in which every vertex maps to itself. |
| `Correspondence.BuildMapping` | meshwalkerMove.py:237-270 | The seeding, the seed walk and the FIFO loop (`pop(0)`, dedup, writes, `extend`) yield exactly the map and mismatch count of `Correspond`. |
| `Transfer.Transferred` | meshwalkerMove.py:124-140 | The defining function of one move pass over B's vertices. Its properties are stated by `TransferFrame`, `TransferIdempotent`, `MovedVertices` and `SelfTransferUnchanged`. |
| `Transfer.TransferFrame` | meshwalkerMove.py:135-140 | Only B vertices whose index is a reverse-map key change. In object space a mapped vertex takes A's position; in world space, `worldToB` of it. |
| `Transfer.TransferIdempotent` | meshwalkerMove.py:135-140 | Mesh A is never written, so applying the transfer a second time gives the same positions. |
| `Transfer.MoveVertices` | meshwalkerMove.py:124-140 | The loop over B's vertices leaves the array equal to `Transferred` of its old contents. |
| `Transfer.MovedVertices` | meshwalkerMove.py:273-288 | A B vertex moves exactly when it is a value of the correspondence map. It moves to the placed position of the last key, in dict iteration order, that maps to it. |
| `Transfer.SelfTransferUnchanged` | meshwalkerMove.py:135-140 | A mesh mapped onto itself from the same picks and moved in object space keeps every vertex position. |
| `Transfer.ComputeMapping` | meshwalkerMove.py:229-288 | Missing picks abort with B unchanged, and so does a singular B matrix (in either mode). Otherwise B becomes the transfer of the traversal's reverse map in the chosen space. The mismatch count is the traversal's. |

## Left out

- The selection-capture operators, the panel, `register`/`unregister` and the scene string properties (host UI glue). Their outputs are the `Seeds` value.
- Finding the objects by name and the "Please store both meshes first" cancellation: this is host state. Parsing the stored strings with `int()` is also left out, so the picks are given as natural numbers and an empty or negative stored string is not modelled.
- Building and committing the bmesh (`bmesh.new`, `from_mesh`, `ensure_lookup_table`, `to_mesh`, `free`): foreign library calls. The meshes are the arena values given as inputs, and B's positions are the array written in place.
- Matrix arithmetic (`matrix_world @ co`, `inverted()`): floating-point 4x4 algebra. It is replaced by the function argument `worldToB` and the flag `invertibleB`.
- The duplicated world-space pass at `meshwalkerMove.py:275-283`: only its final effect is modelled. That effect is the abort on a singular matrix, since the dispatched pass overwrites the same vertex set it wrote.
- The text of `self.report` messages. A face mismatch is a boolean from the face walk; the run returns how many there were.
- Transfer.ComputeMapping: does not model which positions mesh B would hold if the commit were partial. The source never commits after an exception, so B is unchanged.
