/**
  Arena model of the two meshes the walker reads. Vertices, edges and faces
  are identified by their index in the mesh, as bmesh elements are by
  `.index`; every reference between elements is such an index.
 */
module MeshModel {

  /** An edge: its two endpoint vertices and the faces that border it. */
  datatype Edge = Edge(v0: nat, v1: nat, linkFaces: seq<nat>)

  /** A face: its boundary vertices and its boundary edges, in bmesh order. */
  datatype Face = Face(verts: seq<nat>, edges: seq<nat>)

  /** The topology of one mesh; vertex positions are kept apart from it. */
  datatype Mesh = Mesh(vertCount: nat, edges: seq<Edge>, faces: seq<Face>)

  /** The walk's directional state: `cur` is being extended, `prev` must not be revisited. */
  datatype VertexPair = Pair(prev: nat, cur: nat)

  /** One step around a face: the edge taken and the vertex it leads to. */
  datatype Step = Step(edge: nat, next: nat)

  /** One mesh's half of a queue item: face, edge and the pair that crossed the edge. */
  datatype Side = Side(face: nat, edge: nat, pair: VertexPair)

  /** A queue item of the dual walk: the A side and the B side, paired by position. */
  datatype Item = Item(a: Side, b: Side)

  /** Every index stored in the mesh refers to an element of that mesh. */
  predicate ValidMesh(m: Mesh) {
    && (forall e :: 0 <= e < |m.edges| ==>
          && m.edges[e].v0 < m.vertCount
          && m.edges[e].v1 < m.vertCount
          && forall k :: 0 <= k < |m.edges[e].linkFaces| ==> m.edges[e].linkFaces[k] < |m.faces|)
    && (forall f :: 0 <= f < |m.faces| ==>
          && (forall k :: 0 <= k < |m.faces[f].verts| ==> m.faces[f].verts[k] < m.vertCount)
          && (forall k :: 0 <= k < |m.faces[f].edges| ==> m.faces[f].edges[k] < |m.edges|))
  }

  /** The endpoint of `e` other than `v` (bmesh `other_vert`, used only when `v` is an endpoint). */
  function OtherVert(e: Edge, v: nat): nat {
    if e.v0 == v then e.v1 else e.v0
  }

  /** Whether `v` is one of the endpoints of `e` (`v in edge.verts`). */
  predicate HasVert(e: Edge, v: nat) {
    e.v0 == v || e.v1 == v
  }

  /** A side whose face, edge and vertices all exist in `m`. */
  predicate ValidSide(m: Mesh, s: Side) {
    s.face < |m.faces| && s.edge < |m.edges| && s.pair.prev < m.vertCount && s.pair.cur < m.vertCount
  }

  predicate ValidItem(mA: Mesh, mB: Mesh, it: Item) {
    ValidSide(mA, it.a) && ValidSide(mB, it.b)
  }

  predicate ValidQueue(mA: Mesh, mB: Mesh, q: seq<Item>) {
    forall i :: 0 <= i < |q| ==> ValidItem(mA, mB, q[i])
  }

  /** Every item pairs a side with itself, as when a mesh is walked against
      itself from the same picks. */
  predicate Diagonal(q: seq<Item>) {
    forall i :: 0 <= i < |q| ==> q[i].a == q[i].b
  }
}
