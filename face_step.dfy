/**
  The two first-match lookups the walker makes on one mesh: the next edge
  and vertex around a face (`get_next_vertex`) and the face across an edge
  (`get_opposite_face`).
 */
module FaceStep {
  import opened Wrappers
  import opened MeshModel

  /** `e` is an edge of the search that leaves `pair.cur`, stays on face `f`
      and does not lead back to `pair.prev`. */
  predicate IsStepEdge(m: Mesh, f: nat, pair: VertexPair, e: nat) {
    && e < |m.edges|
    && f < |m.faces|
    && HasVert(m.edges[e], pair.cur)
    && OtherVert(m.edges[e], pair.cur) in m.faces[f].verts
    && OtherVert(m.edges[e], pair.cur) != pair.prev
  }

  predicate EdgesInRange(m: Mesh, es: seq<nat>) {
    forall k :: 0 <= k < |es| ==> es[k] < |m.edges|
  }

  /** The first edge of `es` that is a step from `pair` on face `f`, with the vertex it leads to. */
  function Search(m: Mesh, f: nat, pair: VertexPair, es: seq<nat>): Option<Step>
    requires EdgesInRange(m, es)
  {
    if es == [] then None
    else if IsStepEdge(m, f, pair, es[0]) then Some(Step(es[0], OtherVert(m.edges[es[0]], pair.cur)))
    else Search(m, f, pair, es[1..])
  }

  /** `Search` finds the first step edge of `es`, and finds nothing exactly
      when no edge of `es` is a step. */
  lemma {:induction false} SearchFindsFirst(m: Mesh, f: nat, pair: VertexPair, es: seq<nat>)
    requires EdgesInRange(m, es)
    ensures Search(m, f, pair, es).None? <==> forall k :: 0 <= k < |es| ==> !IsStepEdge(m, f, pair, es[k])
    ensures Search(m, f, pair, es).Some? ==>
      var s := Search(m, f, pair, es).value;
      && s.edge < |m.edges|
      && s.next == OtherVert(m.edges[s.edge], pair.cur)
      && exists k :: 0 <= k < |es| && es[k] == s.edge && IsStepEdge(m, f, pair, es[k])
                     && forall j :: 0 <= j < k ==> !IsStepEdge(m, f, pair, es[j])
  {
    if es != [] && !IsStepEdge(m, f, pair, es[0]) {
      SearchFindsFirst(m, f, pair, es[1..]);
      assert forall k :: 1 <= k < |es| ==> es[k] == es[1..][k - 1];
      if Search(m, f, pair, es).Some? {
        var s := Search(m, f, pair, es).value;
        var k :| 0 <= k < |es[1..]| && es[1..][k] == s.edge && IsStepEdge(m, f, pair, es[1..][k])
                 && forall j :: 0 <= j < k ==> !IsStepEdge(m, f, pair, es[1..][j]);
        assert es[k + 1] == s.edge;
      }
    }
  }

  /** `get_next_vertex`: the first edge of the face, in the face's edge order,
      that contains the current vertex and whose other endpoint lies on the
      face and is not the previous vertex; None when there is no such edge.
      `NextStepFirst` states that it is the first such edge. */
  function NextStep(m: Mesh, f: nat, pair: VertexPair): (r: Option<Step>)
    requires ValidMesh(m) && f < |m.faces|
    ensures r.Some? ==>
      && r.value.edge in m.faces[f].edges
      && HasVert(m.edges[r.value.edge], pair.cur)
      && r.value.next == OtherVert(m.edges[r.value.edge], pair.cur)
      && r.value.next in m.faces[f].verts
      && r.value.next != pair.prev
      && r.value.next < m.vertCount
  {
    SearchFindsFirst(m, f, pair, m.faces[f].edges);
    Search(m, f, pair, m.faces[f].edges)
  }

  /** `NextStep` is None exactly when no face edge is a step, and otherwise
      returns the first step edge in the face's edge order. */
  lemma NextStepFirst(m: Mesh, f: nat, pair: VertexPair)
    requires ValidMesh(m) && f < |m.faces|
    ensures NextStep(m, f, pair).None? <==>
      forall k :: 0 <= k < |m.faces[f].edges| ==> !IsStepEdge(m, f, pair, m.faces[f].edges[k])
    ensures NextStep(m, f, pair).Some? ==>
      exists k :: 0 <= k < |m.faces[f].edges| && m.faces[f].edges[k] == NextStep(m, f, pair).value.edge
                  && IsStepEdge(m, f, pair, m.faces[f].edges[k])
                  && forall j :: 0 <= j < k ==> !IsStepEdge(m, f, pair, m.faces[f].edges[j])
  {
    SearchFindsFirst(m, f, pair, m.faces[f].edges);
  }

  /** The edges of `es` that contain `v`, in order (the `connected_edges` list). */
  function Connected(m: Mesh, v: nat, es: seq<nat>): (r: seq<nat>)
    requires EdgesInRange(m, es)
    ensures EdgesInRange(m, r)
    ensures forall k :: 0 <= k < |r| ==> HasVert(m.edges[r[k]], v)
  {
    if es == [] then []
    else (if HasVert(m.edges[es[0]], v) then [es[0]] else []) + Connected(m, v, es[1..])
  }

  /** Dropping the edges that do not contain the current vertex does not
      change which edge is the first step. */
  lemma {:induction false} SearchConnected(m: Mesh, f: nat, pair: VertexPair, es: seq<nat>)
    requires EdgesInRange(m, es)
    ensures Search(m, f, pair, Connected(m, pair.cur, es)) == Search(m, f, pair, es)
  {
    if es != [] {
      SearchConnected(m, f, pair, es[1..]);
      var c := Connected(m, pair.cur, es);
      if HasVert(m.edges[es[0]], pair.cur) {
        assert c[0] == es[0] && c[1..] == Connected(m, pair.cur, es[1..]);
      } else {
        assert c == Connected(m, pair.cur, es[1..]);
      }
    }
  }

  /** The first loop of `get_next_vertex`: collect the edges of `es` that
      contain `v`, in order. */
  method ConnectedEdges(m: Mesh, v: nat, es: seq<nat>) returns (connected: seq<nat>)
    requires EdgesInRange(m, es)
    ensures connected == Connected(m, v, es)
  {
    connected := [];
    for i := 0 to |es|
      invariant connected + Connected(m, v, es[i..]) == Connected(m, v, es)
    {
      assert es[i..][1..] == es[i + 1..];
      if HasVert(m.edges[es[i]], v) {
        assert (connected + [es[i]]) + Connected(m, v, es[i + 1..]) == connected + ([es[i]] + Connected(m, v, es[i + 1..]));
        connected := connected + [es[i]];
      }
    }
    assert es[|es|..] == [];
  }

  /** The second loop of `get_next_vertex`: return the first edge of `es`
      whose other endpoint is on the face and is not the previous vertex. */
  method FirstStep(m: Mesh, f: nat, pair: VertexPair, es: seq<nat>) returns (r: Option<Step>)
    requires f < |m.faces| && EdgesInRange(m, es)
    requires forall k :: 0 <= k < |es| ==> HasVert(m.edges[es[k]], pair.cur)
    ensures r == Search(m, f, pair, es)
  {
    for j := 0 to |es|
      invariant Search(m, f, pair, es[j..]) == Search(m, f, pair, es)
    {
      var edge := es[j];
      var other := OtherVert(m.edges[edge], pair.cur);
      assert es[j..][0] == edge && es[j..][1..] == es[j + 1..];
      if other in m.faces[f].verts && other != pair.prev {
        assert IsStepEdge(m, f, pair, edge);
        return Some(Step(edge, other));
      }
    }
    assert es[|es|..] == [];
    return None;
  }

  /** `get_next_vertex` as written: first collect the face edges that contain
      the current vertex, then return the first whose other endpoint is on
      the face and is not the previous vertex. */
  method GetNextVertex(m: Mesh, f: nat, pair: VertexPair) returns (r: Option<Step>)
    requires ValidMesh(m) && f < |m.faces|
    ensures r == NextStep(m, f, pair)
  {
    var connected := ConnectedEdges(m, pair.cur, m.faces[f].edges);
    SearchConnected(m, f, pair, m.faces[f].edges);
    r := FirstStep(m, f, pair, connected);
  }

  /** The first face of `fs` that is not `cur`. */
  function FirstOther(fs: seq<nat>, cur: nat): (r: Option<nat>)
    ensures r.None? <==> forall k :: 0 <= k < |fs| ==> fs[k] == cur
    ensures r.Some? ==>
      && r.value != cur
      && exists k :: 0 <= k < |fs| && fs[k] == r.value && forall j :: 0 <= j < k ==> fs[j] == cur
  {
    if fs == [] then None
    else if fs[0] != cur then Some(fs[0])
    else
      var r := FirstOther(fs[1..], cur);
      assert forall k :: 1 <= k < |fs| ==> fs[k] == fs[1..][k - 1];
      r
  }

  /** `get_opposite_face`: the first link face of edge `e` other than `cur`,
      or None when every link face is `cur` (a boundary edge). */
  function OppositeFace(m: Mesh, e: nat, cur: nat): (r: Option<nat>)
    requires ValidMesh(m) && e < |m.edges|
    ensures r.None? <==> forall k :: 0 <= k < |m.edges[e].linkFaces| ==> m.edges[e].linkFaces[k] == cur
    ensures r.Some? ==> r.value in m.edges[e].linkFaces && r.value != cur && r.value < |m.faces|
    ensures r.Some? ==>
      exists k :: 0 <= k < |m.edges[e].linkFaces| && m.edges[e].linkFaces[k] == r.value
                  && forall j :: 0 <= j < k ==> m.edges[e].linkFaces[j] == cur
  {
    FirstOther(m.edges[e].linkFaces, cur)
  }
}
