/**
  The traversal part of `execute`: seed the map with the two picked vertex
  pairs, walk the two seed faces, then process the queue first-in
  first-out, skipping an item whose mesh-A edge was already processed,
  recording both vertex pairs of every other item (last write wins) and,
  when both of its edges have an opposite face, enqueueing the walk of the
  two opposite faces.
 */
module Correspondence {
  import opened Wrappers
  import opened MeshModel
  import opened FaceStep
  import opened FaceWalk
  import opened VertexMap

  /** The user's picks: a face and two vertices on each mesh. */
  datatype Seeds = Seeds(faceA: nat, vert1A: nat, vert2A: nat, faceB: nat, vert1B: nat, vert2B: nat)

  /** The picks name elements that exist (`bm.faces[i]`, `bm.verts[i]` succeed). */
  predicate SeedsInRange(mA: Mesh, mB: Mesh, s: Seeds) {
    && s.faceA < |mA.faces| && s.vert1A < mA.vertCount && s.vert2A < mA.vertCount
    && s.faceB < |mB.faces| && s.vert1B < mB.vertCount && s.vert2B < mB.vertCount
  }

  /** What the traversal ends with: the processed A edges, the map, the items
      processed (in order), and the number of face mismatches reported. */
  datatype Outcome = Outcome(seen: set<nat>, vmap: Dict, processed: seq<Item>, mismatches: nat)

  /** The indices `0 .. n-1`. */
  function Range(n: nat): (r: set<nat>)
    ensures forall e: nat :: e in r <==> e < n
    ensures |r| == n
  {
    if n == 0 then {} else Range(n - 1) + {n - 1}
  }

  /** The edge indices of mesh `m`. */
  function EdgeIds(m: Mesh): set<nat> {
    Range(|m.edges|)
  }

  lemma EdgeCountDrops(m: Mesh, seen: set<nat>, e: nat)
    requires e < |m.edges| && e !in seen
    ensures |EdgeIds(m) - (seen + {e})| < |EdgeIds(m) - seen|
  {
    assert EdgeIds(m) - (seen + {e}) == (EdgeIds(m) - seen) - {e};
  }

  lemma QueueRest(mA: Mesh, mB: Mesh, queue: seq<Item>, more: seq<Item>)
    requires queue != [] && ValidQueue(mA, mB, queue) && ValidQueue(mA, mB, more)
    ensures ValidQueue(mA, mB, queue[1..]) && ValidQueue(mA, mB, queue[1..] + more)
  {
    var q := queue[1..] + more;
    forall i | 0 <= i < |q| ensures ValidItem(mA, mB, q[i]) {
      if i < |queue| - 1 { assert q[i] == queue[i + 1]; } else { assert q[i] == more[i - |queue| + 1]; }
    }
  }

  lemma QueueCons(mA: Mesh, mB: Mesh, it: Item, items: seq<Item>)
    requires ValidItem(mA, mB, it) && ValidQueue(mA, mB, items)
    ensures ValidQueue(mA, mB, [it] + items)
  {
    assert forall i :: 1 <= i <= |items| ==> ([it] + items)[i] == items[i - 1];
  }

  lemma WalkItemsValid(mA: Mesh, fA: nat, pA: VertexPair, mB: Mesh, fB: nat, pB: VertexPair)
    requires WalkArgs(mA, fA, pA) && WalkArgs(mB, fB, pB)
    ensures ValidQueue(mA, mB, WalkFace(mA, fA, pA, mB, fB, pB).items)
  {
    WalkOnFace(mA, fA, pA, mB, fB, pB, {}, {});
  }

  /** The work processing `it` enqueues: nothing when either edge is a
      boundary edge (no opposite face); otherwise the lockstep walk of the two
      opposite faces from the pairs that crossed the edges. */
  function Expand(mA: Mesh, mB: Mesh, it: Item): (r: WalkResult)
    requires ValidMesh(mA) && ValidMesh(mB) && ValidItem(mA, mB, it)
    ensures ValidQueue(mA, mB, r.items)
    ensures (r.items != [] || r.mismatch) ==>
      && OppositeFace(mA, it.a.edge, it.a.face).Some? && OppositeFace(mB, it.b.edge, it.b.face).Some?
      && OnFaces(mA, OppositeFace(mA, it.a.edge, it.a.face).value, mB, OppositeFace(mB, it.b.edge, it.b.face).value, r.items)
  {
    var oppA := OppositeFace(mA, it.a.edge, it.a.face);
    var oppB := OppositeFace(mB, it.b.edge, it.b.face);
    if oppA.Some? && oppB.Some? then
      var w := WalkFace(mA, oppA.value, it.a.pair, mB, oppB.value, it.b.pair);
      WalkItemsValid(mA, oppA.value, it.a.pair, mB, oppB.value, it.b.pair);
      WalkOnFace(mA, oppA.value, it.a.pair, mB, oppB.value, it.b.pair, {}, {});
      w
    else
      WalkResult([], false)
  }

  /** The main loop, from a queue, the processed A edges and the map so far. */
  function Traverse(mA: Mesh, mB: Mesh, queue: seq<Item>, seen: set<nat>, vmap: Dict): (r: Outcome)
    requires ValidMesh(mA) && ValidMesh(mB) && ValidQueue(mA, mB, queue)
    decreases |EdgeIds(mA) - seen|, |queue|
  {
    if queue == [] then Outcome(seen, vmap, [], 0)
    else
      var it := queue[0];
      if it.a.edge in seen then
        QueueRest(mA, mB, queue, []);
        Traverse(mA, mB, queue[1..], seen, vmap)
      else
        var more := Expand(mA, mB, it);
        EdgeCountDrops(mA, seen, it.a.edge);
        QueueRest(mA, mB, queue, more.items);
        var r := Traverse(mA, mB, queue[1..] + more.items, seen + {it.a.edge}, Record(vmap, it));
        Outcome(r.seen, r.vmap, [it] + r.processed, r.mismatches + if more.mismatch then 1 else 0)
  }

  /** The whole traversal of `execute`, from the seeds. The map it builds is a
      well-formed dict from mesh-A vertices to mesh-B vertices that always
      holds both seed vertices. */
  function Correspond(mA: Mesh, mB: Mesh, s: Seeds): (r: Outcome)
    requires ValidMesh(mA) && ValidMesh(mB) && SeedsInRange(mA, mB, s)
    ensures ValidDict(r.vmap) && InRange(r.vmap, mA.vertCount, mB.vertCount)
    ensures s.vert1A in r.vmap.vals && s.vert2A in r.vmap.vals
  {
    var w := WalkFace(mA, s.faceA, Pair(s.vert1A, s.vert2A), mB, s.faceB, Pair(s.vert1B, s.vert2B));
    WalkItemsValid(mA, s.faceA, Pair(s.vert1A, s.vert2A), mB, s.faceB, Pair(s.vert1B, s.vert2B));
    var seeds := SeedDict(s.vert1A, s.vert1B, s.vert2A, s.vert2B);
    var r := Traverse(mA, mB, w.items, {}, seeds);
    TraverseRecords(mA, mB, w.items, {}, seeds);
    TraverseProcessedValid(mA, mB, w.items, {}, seeds);
    SeedDictInRange(s.vert1A, s.vert1B, s.vert2A, s.vert2B, mA.vertCount, mB.vertCount);
    RecordAllInRange(mA, mB, seeds, r.processed);
    RecordAllKeys(seeds, r.processed, s.vert1A);
    RecordAllKeys(seeds, r.processed, s.vert2A);
    Outcome(r.seen, r.vmap, r.processed, r.mismatches + if w.mismatch then 1 else 0)
  }

  /** Writing the pairs of valid items keeps every key a mesh-A vertex and
      every value a mesh-B vertex. */
  lemma {:induction false} RecordAllInRange(mA: Mesh, mB: Mesh, d: Dict, items: seq<Item>)
    requires InRange(d, mA.vertCount, mB.vertCount) && ValidQueue(mA, mB, items)
    ensures InRange(RecordAll(d, items), mA.vertCount, mB.vertCount)
    decreases items
  {
    if items != [] {
      assert ValidItem(mA, mB, items[0]);
      assert ValidQueue(mA, mB, items[1..]) by {
        assert forall i :: 0 <= i < |items| - 1 ==> items[1..][i] == items[i + 1];
      }
      RecordAllInRange(mA, mB, Record(d, items[0]), items[1..]);
    }
  }

  /** The final map is the seed dict followed by the writes of the processed
      items, in processing order. */
  lemma CorrespondRecords(mA: Mesh, mB: Mesh, s: Seeds)
    requires ValidMesh(mA) && ValidMesh(mB) && SeedsInRange(mA, mB, s)
    ensures Correspond(mA, mB, s).vmap ==
      RecordAll(SeedDict(s.vert1A, s.vert1B, s.vert2A, s.vert2B), Correspond(mA, mB, s).processed)
  {
    var w := WalkFace(mA, s.faceA, Pair(s.vert1A, s.vert2A), mB, s.faceB, Pair(s.vert1B, s.vert2B));
    WalkItemsValid(mA, s.faceA, Pair(s.vert1A, s.vert2A), mB, s.faceB, Pair(s.vert1B, s.vert2B));
    var seeds := SeedDict(s.vert1A, s.vert1B, s.vert2A, s.vert2B);
    TraverseRecords(mA, mB, w.items, {}, seeds);
    var t := Traverse(mA, mB, w.items, {}, seeds);
    assert Correspond(mA, mB, s).processed == t.processed && Correspond(mA, mB, s).vmap == t.vmap;
  }

  lemma SeededKeys(s: Seeds, p: seq<Item>, k: nat)
    ensures k in RecordAll(SeedDict(s.vert1A, s.vert1B, s.vert2A, s.vert2B), p).vals <==>
      k == s.vert1A || k == s.vert2A || AnyWrites(p, k)
  {
    SeedDictVals(s.vert1A, s.vert1B, s.vert2A, s.vert2B);
    RecordAllKeys(SeedDict(s.vert1A, s.vert1B, s.vert2A, s.vert2B), p, k);
  }

  /** Map contents: every key of the final map is a seed vertex or an
      endpoint of a processed pair, and each of those is a key. */
  lemma MappingKeys(mA: Mesh, mB: Mesh, s: Seeds, k: nat)
    requires ValidMesh(mA) && ValidMesh(mB) && SeedsInRange(mA, mB, s)
    ensures k in Correspond(mA, mB, s).vmap.vals <==>
      k == s.vert1A || k == s.vert2A || AnyWrites(Correspond(mA, mB, s).processed, k)
  {
    CorrespondRecords(mA, mB, s);
    SeededKeys(s, Correspond(mA, mB, s).processed, k);
  }

  /** Last write wins: a key takes the B vertex written by the last processed
      item that writes it. */
  lemma MappingLastWrite(mA: Mesh, mB: Mesh, s: Seeds, k: nat, i: nat)
    requires ValidMesh(mA) && ValidMesh(mB) && SeedsInRange(mA, mB, s)
    requires var p := Correspond(mA, mB, s).processed;
      i < |p| && Writes(p[i], k) && forall j :: i < j < |p| ==> !Writes(p[j], k)
    ensures var r := Correspond(mA, mB, s);
      k in r.vmap.vals && r.vmap.vals[k] == WrittenValue(r.processed[i], k)
  {
    CorrespondRecords(mA, mB, s);
    RecordAllLastWrite(SeedDict(s.vert1A, s.vert1B, s.vert2A, s.vert2B), Correspond(mA, mB, s).processed, k, i);
  }

  /** A seed vertex that no processed item writes keeps its seed partner
      (vertex 2's partner when the two seed vertices are the same). */
  lemma MappingSeedValue(mA: Mesh, mB: Mesh, s: Seeds, k: nat)
    requires ValidMesh(mA) && ValidMesh(mB) && SeedsInRange(mA, mB, s)
    requires k == s.vert1A || k == s.vert2A
    requires var p := Correspond(mA, mB, s).processed;
      forall i :: 0 <= i < |p| ==> !Writes(p[i], k)
    ensures var r := Correspond(mA, mB, s);
      k in r.vmap.vals && r.vmap.vals[k] == if k == s.vert2A then s.vert2B else s.vert1B
  {
    CorrespondRecords(mA, mB, s);
    SeedDictInRange(s.vert1A, s.vert1B, s.vert2A, s.vert2B, mA.vertCount, mB.vertCount);
    RecordAllUntouched(SeedDict(s.vert1A, s.vert1B, s.vert2A, s.vert2B), Correspond(mA, mB, s).processed, k);
  }

  /** Dedup over the whole run: no mesh-A edge is processed twice, so at most
      as many items are processed as mesh A has edges. */
  lemma ProcessedOnce(mA: Mesh, mB: Mesh, s: Seeds)
    requires ValidMesh(mA) && ValidMesh(mB) && SeedsInRange(mA, mB, s)
    ensures DistinctEdgesA(Correspond(mA, mB, s).processed)
    ensures |Correspond(mA, mB, s).processed| <= |mA.edges|
  {
    var w := WalkFace(mA, s.faceA, Pair(s.vert1A, s.vert2A), mB, s.faceB, Pair(s.vert1B, s.vert2B));
    WalkItemsValid(mA, s.faceA, Pair(s.vert1A, s.vert2A), mB, s.faceB, Pair(s.vert1B, s.vert2B));
    var seeds := SeedDict(s.vert1A, s.vert1B, s.vert2A, s.vert2B);
    TraverseOnce(mA, mB, w.items, {}, seeds);
    TraverseBound(mA, mB, w.items, {}, seeds);
    assert EdgeIds(mA) - {} == EdgeIds(mA);
    assert Correspond(mA, mB, s).processed == Traverse(mA, mB, w.items, {}, seeds).processed;
  }

  /** The mesh-A edges of a sequence of items. */
  function EdgesA(items: seq<Item>): set<nat> {
    set i | 0 <= i < |items| :: items[i].a.edge
  }

  lemma EdgesACons(it: Item, items: seq<Item>)
    ensures EdgesA([it] + items) == {it.a.edge} + EdgesA(items)
  {
    var all := [it] + items;
    forall x | x in EdgesA(all) ensures x in {it.a.edge} + EdgesA(items) {
      var i :| 0 <= i < |all| && all[i].a.edge == x;
      if i > 0 { assert items[i - 1].a.edge == x; }
    }
    forall x | x in EdgesA(items) ensures x in EdgesA(all) {
      var i :| 0 <= i < |items| && items[i].a.edge == x;
      assert all[i + 1].a.edge == x;
    }
    assert all[0].a.edge == it.a.edge;
  }

  /** The processed set only grows, by exactly the A edges of the processed
      items, none of which had been processed before. */
  lemma {:induction false} TraverseSeen(mA: Mesh, mB: Mesh, queue: seq<Item>, seen: set<nat>, vmap: Dict)
    requires ValidMesh(mA) && ValidMesh(mB) && ValidQueue(mA, mB, queue)
    ensures Traverse(mA, mB, queue, seen, vmap).seen == seen + EdgesA(Traverse(mA, mB, queue, seen, vmap).processed)
    ensures forall i :: 0 <= i < |Traverse(mA, mB, queue, seen, vmap).processed| ==>
              Traverse(mA, mB, queue, seen, vmap).processed[i].a.edge !in seen
    decreases |EdgeIds(mA) - seen|, |queue|
  {
    if queue != [] {
      var it := queue[0];
      if it.a.edge in seen {
        QueueRest(mA, mB, queue, []);
        TraverseSeen(mA, mB, queue[1..], seen, vmap);
        assert Traverse(mA, mB, queue, seen, vmap) == Traverse(mA, mB, queue[1..], seen, vmap);
      } else {
        var more := Expand(mA, mB, it);
        EdgeCountDrops(mA, seen, it.a.edge);
        QueueRest(mA, mB, queue, more.items);
        var seen' := seen + {it.a.edge};
        var q' := queue[1..] + more.items;
        TraverseSeen(mA, mB, q', seen', Record(vmap, it));
        var r := Traverse(mA, mB, q', seen', Record(vmap, it));
        var t := Traverse(mA, mB, queue, seen, vmap);
        assert t.processed == [it] + r.processed && t.seen == r.seen;
        SeenCons(it, r.processed, r.seen, seen);
      }
    }
  }

  lemma SeenCons(it: Item, processed: seq<Item>, finalSeen: set<nat>, seen: set<nat>)
    requires it.a.edge !in seen
    requires finalSeen == seen + {it.a.edge} + EdgesA(processed)
    requires forall i :: 0 <= i < |processed| ==> processed[i].a.edge !in seen + {it.a.edge}
    ensures finalSeen == seen + EdgesA([it] + processed)
    ensures forall i :: 0 <= i < |[it] + processed| ==> ([it] + processed)[i].a.edge !in seen
  {
    EdgesACons(it, processed);
    var all := [it] + processed;
    forall i | 0 <= i < |all| ensures all[i].a.edge !in seen {
      if i > 0 { assert all[i] == processed[i - 1]; }
    }
  }

  /** Dedup on mesh-A edges: no A edge is processed twice. */
  lemma {:induction false} TraverseOnce(mA: Mesh, mB: Mesh, queue: seq<Item>, seen: set<nat>, vmap: Dict)
    requires ValidMesh(mA) && ValidMesh(mB) && ValidQueue(mA, mB, queue)
    ensures DistinctEdgesA(Traverse(mA, mB, queue, seen, vmap).processed)
    decreases |EdgeIds(mA) - seen|, |queue|
  {
    if queue != [] {
      var it := queue[0];
      if it.a.edge in seen {
        QueueRest(mA, mB, queue, []);
        TraverseOnce(mA, mB, queue[1..], seen, vmap);
        assert Traverse(mA, mB, queue, seen, vmap) == Traverse(mA, mB, queue[1..], seen, vmap);
      } else {
        var more := Expand(mA, mB, it);
        EdgeCountDrops(mA, seen, it.a.edge);
        QueueRest(mA, mB, queue, more.items);
        var seen' := seen + {it.a.edge};
        TraverseOnce(mA, mB, queue[1..] + more.items, seen', Record(vmap, it));
        TraverseSeen(mA, mB, queue[1..] + more.items, seen', Record(vmap, it));
        var r := Traverse(mA, mB, queue[1..] + more.items, seen', Record(vmap, it));
        var all := [it] + r.processed;
        var t := Traverse(mA, mB, queue, seen, vmap);
        assert t.processed == all;
        OnceCons(it, r.processed);
      }
    }
  }

  /** No two items share a mesh-A edge. */
  predicate DistinctEdgesA(items: seq<Item>) {
    forall i, j :: 0 <= i < j < |items| ==> items[i].a.edge != items[j].a.edge
  }

  lemma OnceCons(it: Item, processed: seq<Item>)
    requires DistinctEdgesA(processed)
    requires forall i :: 0 <= i < |processed| ==> processed[i].a.edge != it.a.edge
    ensures DistinctEdgesA([it] + processed)
  {
    var all := [it] + processed;
    forall i, j | 0 <= i < j < |all| ensures all[i].a.edge != all[j].a.edge {
      assert all[j] == processed[j - 1];
      if i > 0 { assert all[i] == processed[i - 1]; }
    }
  }

  /** The loop processes at most one item per mesh-A edge not yet seen. */
  lemma {:induction false} TraverseBound(mA: Mesh, mB: Mesh, queue: seq<Item>, seen: set<nat>, vmap: Dict)
    requires ValidMesh(mA) && ValidMesh(mB) && ValidQueue(mA, mB, queue)
    ensures |Traverse(mA, mB, queue, seen, vmap).processed| <= |EdgeIds(mA) - seen|
    decreases |EdgeIds(mA) - seen|, |queue|
  {
    if queue != [] {
      var it := queue[0];
      if it.a.edge in seen {
        QueueRest(mA, mB, queue, []);
        TraverseBound(mA, mB, queue[1..], seen, vmap);
        assert Traverse(mA, mB, queue, seen, vmap) == Traverse(mA, mB, queue[1..], seen, vmap);
      } else {
        var more := Expand(mA, mB, it);
        EdgeCountDrops(mA, seen, it.a.edge);
        QueueRest(mA, mB, queue, more.items);
        TraverseBound(mA, mB, queue[1..] + more.items, seen + {it.a.edge}, Record(vmap, it));
      }
    }
  }

  /** The map the traversal ends with is the map it started with, followed by
      the writes of exactly the processed items, in processing order: a
      skipped item changes nothing. */
  lemma {:induction false} TraverseRecords(mA: Mesh, mB: Mesh, queue: seq<Item>, seen: set<nat>, vmap: Dict)
    requires ValidMesh(mA) && ValidMesh(mB) && ValidQueue(mA, mB, queue)
    ensures Traverse(mA, mB, queue, seen, vmap).vmap == RecordAll(vmap, Traverse(mA, mB, queue, seen, vmap).processed)
    decreases |EdgeIds(mA) - seen|, |queue|
  {
    if queue != [] {
      var it := queue[0];
      if it.a.edge in seen {
        QueueRest(mA, mB, queue, []);
        TraverseRecords(mA, mB, queue[1..], seen, vmap);
        assert Traverse(mA, mB, queue, seen, vmap) == Traverse(mA, mB, queue[1..], seen, vmap);
      } else {
        var more := Expand(mA, mB, it);
        EdgeCountDrops(mA, seen, it.a.edge);
        QueueRest(mA, mB, queue, more.items);
        TraverseRecords(mA, mB, queue[1..] + more.items, seen + {it.a.edge}, Record(vmap, it));
        var r := Traverse(mA, mB, queue[1..] + more.items, seen + {it.a.edge}, Record(vmap, it));
        var all := [it] + r.processed;
        assert all[0] == it && all[1..] == r.processed;
      }
    }
  }

  /** Every processed item is a valid item of the two meshes. */
  lemma {:induction false} TraverseProcessedValid(mA: Mesh, mB: Mesh, queue: seq<Item>, seen: set<nat>, vmap: Dict)
    requires ValidMesh(mA) && ValidMesh(mB) && ValidQueue(mA, mB, queue)
    ensures ValidQueue(mA, mB, Traverse(mA, mB, queue, seen, vmap).processed)
    decreases |EdgeIds(mA) - seen|, |queue|
  {
    if queue != [] {
      var it := queue[0];
      if it.a.edge in seen {
        QueueRest(mA, mB, queue, []);
        TraverseProcessedValid(mA, mB, queue[1..], seen, vmap);
        assert Traverse(mA, mB, queue, seen, vmap) == Traverse(mA, mB, queue[1..], seen, vmap);
      } else {
        var more := Expand(mA, mB, it);
        EdgeCountDrops(mA, seen, it.a.edge);
        QueueRest(mA, mB, queue, more.items);
        TraverseProcessedValid(mA, mB, queue[1..] + more.items, seen + {it.a.edge}, Record(vmap, it));
        var r := Traverse(mA, mB, queue[1..] + more.items, seen + {it.a.edge}, Record(vmap, it));
        assert Traverse(mA, mB, queue, seen, vmap).processed == [it] + r.processed;
        QueueCons(mA, mB, it, r.processed);
      }
    }
  }

  /** `execute`'s traversal loop: pop the front item, skip it if its A edge
      was already processed, otherwise mark the edge, write both pairs into
      the map and enqueue the walk of the opposite faces when both exist. */
  method BuildMapping(mA: Mesh, mB: Mesh, s: Seeds) returns (vmap: Dict, mismatches: nat)
    requires ValidMesh(mA) && ValidMesh(mB) && SeedsInRange(mA, mB, s)
    ensures vmap == Correspond(mA, mB, s).vmap
    ensures mismatches == Correspond(mA, mB, s).mismatches
  {
    vmap := Empty;
    var seen: set<nat> := {};
    vmap := Put(vmap, s.vert1A, s.vert1B);
    vmap := Put(vmap, s.vert2A, s.vert2B);
    var queue, mis := WalkFaceDouble(mA, s.faceA, Pair(s.vert1A, s.vert2A), mB, s.faceB, Pair(s.vert1B, s.vert2B));
    WalkItemsValid(mA, s.faceA, Pair(s.vert1A, s.vert2A), mB, s.faceB, Pair(s.vert1B, s.vert2B));
    mismatches := if mis then 1 else 0;
    while queue != []
      invariant ValidQueue(mA, mB, queue)
      invariant Traverse(mA, mB, queue, seen, vmap).vmap == Correspond(mA, mB, s).vmap
      invariant mismatches + Traverse(mA, mB, queue, seen, vmap).mismatches == Correspond(mA, mB, s).mismatches
      decreases |EdgeIds(mA) - seen|, |queue|
    {
      var it := queue[0];
      ghost var queue0, vmap0 := queue, vmap;
      queue := queue[1..];
      QueueRest(mA, mB, queue0, []);
      if it.a.edge !in seen {
        ghost var more := Expand(mA, mB, it);
        QueueRest(mA, mB, queue0, more.items);
        EdgeCountDrops(mA, seen, it.a.edge);
        seen := seen + {it.a.edge};
        vmap := Put(vmap, it.a.pair.prev, it.b.pair.prev);
        vmap := Put(vmap, it.a.pair.cur, it.b.pair.cur);
        var oppA := OppositeFace(mA, it.a.edge, it.a.face);
        var oppB := OppositeFace(mB, it.b.edge, it.b.face);
        if oppA.Some? && oppB.Some? {
          var next, nextMismatch := WalkFaceDouble(mA, oppA.value, it.a.pair, mB, oppB.value, it.b.pair);
          WalkItemsValid(mA, oppA.value, it.a.pair, mB, oppB.value, it.b.pair);
          queue := queue + next;
          if nextMismatch {
            mismatches := mismatches + 1;
          }
        }
        assert vmap == Record(vmap0, it);
        assert queue == queue0[1..] + more.items;
      }
    }
  }

  /** An item paired with itself crosses to the same opposite face on both
      sides, so the walk it enqueues pairs every step with itself. */
  lemma ExpandSelf(m: Mesh, it: Item)
    requires ValidMesh(m) && ValidItem(m, m, it) && it.a == it.b
    ensures Diagonal(Expand(m, m, it).items) && !Expand(m, m, it).mismatch
  {
    var opp := OppositeFace(m, it.a.edge, it.a.face);
    if opp.Some? {
      WalkSelf(m, opp.value, it.a.pair, {});
    }
  }

  lemma DiagonalRest(queue: seq<Item>, more: seq<Item>)
    requires queue != [] && Diagonal(queue) && Diagonal(more)
    ensures Diagonal(queue[1..] + more)
  {
    var q := queue[1..] + more;
    forall i | 0 <= i < |q| ensures q[i].a == q[i].b {
      if i < |queue| - 1 { assert q[i] == queue[i + 1]; } else { assert q[i] == more[i - |queue| + 1]; }
    }
  }

  /** Traversing a mesh against itself from a queue of self-paired items
      processes only self-paired items and reports no mismatch. */
  lemma {:induction false} TraverseSelf(m: Mesh, queue: seq<Item>, seen: set<nat>, vmap: Dict)
    requires ValidMesh(m) && ValidQueue(m, m, queue) && Diagonal(queue)
    ensures Diagonal(Traverse(m, m, queue, seen, vmap).processed)
    ensures Traverse(m, m, queue, seen, vmap).mismatches == 0
    decreases |EdgeIds(m) - seen|, |queue|
  {
    if queue != [] {
      var it := queue[0];
      if it.a.edge in seen {
        QueueRest(m, m, queue, []);
        DiagonalRest(queue, []);
        assert queue[1..] + [] == queue[1..];
        TraverseSelf(m, queue[1..], seen, vmap);
        assert Traverse(m, m, queue, seen, vmap) == Traverse(m, m, queue[1..], seen, vmap);
      } else {
        var more := Expand(m, m, it);
        ExpandSelf(m, it);
        EdgeCountDrops(m, seen, it.a.edge);
        QueueRest(m, m, queue, more.items);
        DiagonalRest(queue, more.items);
        TraverseSelf(m, queue[1..] + more.items, seen + {it.a.edge}, Record(vmap, it));
        var r := Traverse(m, m, queue[1..] + more.items, seen + {it.a.edge}, Record(vmap, it));
        assert Traverse(m, m, queue, seen, vmap).processed == [it] + r.processed;
        DiagonalCons(it, r.processed);
      }
    }
  }

  /** Picks that agree on a mesh walked against itself: the same face and
      the same two vertices on both sides. */
  predicate SelfSeeds(s: Seeds) {
    s.faceB == s.faceA && s.vert1B == s.vert1A && s.vert2B == s.vert2A
  }

  lemma CorrespondSelfItems(m: Mesh, s: Seeds)
    requires ValidMesh(m) && SeedsInRange(m, m, s) && SelfSeeds(s)
    ensures Diagonal(Correspond(m, m, s).processed) && Correspond(m, m, s).mismatches == 0
  {
    var p := Pair(s.vert1A, s.vert2A);
    var w := WalkFace(m, s.faceA, p, m, s.faceA, p);
    WalkItemsValid(m, s.faceA, p, m, s.faceA, p);
    WalkSelf(m, s.faceA, p, {});
    var seeds := SeedDict(s.vert1A, s.vert1B, s.vert2A, s.vert2B);
    TraverseSelf(m, w.items, {}, seeds);
    var t := Traverse(m, m, w.items, {}, seeds);
    assert Correspond(m, m, s).processed == t.processed && Correspond(m, m, s).mismatches == t.mismatches;
  }

  lemma SeededIdentity(s: Seeds, p: seq<Item>)
    requires SelfSeeds(s) && Diagonal(p)
    ensures Identity(RecordAll(SeedDict(s.vert1A, s.vert1B, s.vert2A, s.vert2B), p))
  {
    SeedDictVals(s.vert1A, s.vert1B, s.vert2A, s.vert2B);
    RecordAllIdentity(SeedDict(s.vert1A, s.vert1B, s.vert2A, s.vert2B), p);
  }

  /** A mesh walked against itself from the same picks: every processed item
      pairs a side with itself, no face mismatch is reported, and every vertex
      of the map maps to itself. */
  lemma CorrespondSelf(m: Mesh, s: Seeds)
    requires ValidMesh(m) && SeedsInRange(m, m, s) && SelfSeeds(s)
    ensures Diagonal(Correspond(m, m, s).processed)
    ensures Correspond(m, m, s).mismatches == 0
    ensures Identity(Correspond(m, m, s).vmap)
  {
    CorrespondSelfItems(m, s);
    CorrespondRecords(m, m, s);
    SeededIdentity(s, Correspond(m, m, s).processed);
  }
}
