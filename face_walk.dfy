/**
  `walk_face_double`: walk around one face of each mesh in lockstep,
  starting from a vertex pair on each side, until either loop closes or a
  side has no next step.
 */
module FaceWalk {
  import opened Wrappers
  import opened MeshModel
  import opened FaceStep

  /** The queue items gathered, and whether a face mismatch was reported. */
  datatype WalkResult = WalkResult(items: seq<Item>, mismatch: bool)

  function FaceVerts(m: Mesh, f: nat): set<nat>
    requires f < |m.faces|
  {
    set v | v in m.faces[f].verts
  }

  /** The vertices the A-side walk can still add to its seen set. */
  function Measure(m: Mesh, f: nat, cur: nat, seen: set<nat>): nat
    requires f < |m.faces|
  {
    |(FaceVerts(m, f) + {cur}) - seen|
  }

  lemma MeasureDrops(m: Mesh, f: nat, cur: nat, next: nat, seen: set<nat>)
    requires f < |m.faces| && cur !in seen && next in m.faces[f].verts
    ensures Measure(m, f, next, seen + {cur}) < Measure(m, f, cur, seen)
  {
    var before := (FaceVerts(m, f) + {cur}) - seen;
    var after := (FaceVerts(m, f) + {next}) - (seen + {cur});
    assert after <= before - {cur};
    assert |before - {cur}| == |before| - 1;
    SubsetCard(after, before - {cur});
  }

  lemma {:induction false} SubsetCard<T>(a: set<T>, b: set<T>)
    requires a <= b
    ensures |a| <= |b|
  {
    if a != {} {
      var x :| x in a;
      SubsetCard(a - {x}, b - {x});
    }
  }

  /** What the walk may start from on one mesh. */
  predicate WalkArgs(m: Mesh, f: nat, p: VertexPair) {
    ValidMesh(m) && f < |m.faces| && p.cur < m.vertCount
  }

  /** A side produced while walking face `f` of `m`. */
  predicate SideOn(m: Mesh, f: nat, s: Side) {
    && f < |m.faces|
    && s.face == f
    && s.edge in m.faces[f].edges
    && s.pair.prev < m.vertCount
    && s.pair.cur in m.faces[f].verts
  }

  /** The walk from pairs `pA`, `pB` with the vertices already seen on each side:
      stop when A's current vertex was seen (a mismatch if B's was not), or when
      B's was seen (a mismatch), or when either side has no next step;
      otherwise mark both current vertices seen, emit one item and advance. */
  function Walk(mA: Mesh, fA: nat, pA: VertexPair, mB: Mesh, fB: nat, pB: VertexPair,
                seenA: set<nat>, seenB: set<nat>): (r: WalkResult)
    requires WalkArgs(mA, fA, pA) && WalkArgs(mB, fB, pB)
    decreases Measure(mA, fA, pA.cur, seenA)
  {
    if pA.cur in seenA then WalkResult([], pB.cur !in seenB)
    else if pB.cur in seenB then WalkResult([], true)
    else
      var nA := NextStep(mA, fA, pA);
      var nB := NextStep(mB, fB, pB);
      if nA.Some? && nB.Some? then
        var qA := Pair(pA.cur, nA.value.next);
        var qB := Pair(pB.cur, nB.value.next);
        MeasureDrops(mA, fA, pA.cur, nA.value.next, seenA);
        var rest := Walk(mA, fA, qA, mB, fB, qB, seenA + {pA.cur}, seenB + {pB.cur});
        WalkResult([Item(Side(fA, nA.value.edge, qA), Side(fB, nB.value.edge, qB))] + rest.items, rest.mismatch)
      else
        WalkResult([], false)
  }

  predicate OnFaces(mA: Mesh, fA: nat, mB: Mesh, fB: nat, items: seq<Item>) {
    forall i :: 0 <= i < |items| ==> SideOn(mA, fA, items[i].a) && SideOn(mB, fB, items[i].b)
  }

  lemma OnFacesCons(mA: Mesh, fA: nat, mB: Mesh, fB: nat, it: Item, items: seq<Item>)
    requires SideOn(mA, fA, it.a) && SideOn(mB, fB, it.b) && OnFaces(mA, fA, mB, fB, items)
    ensures OnFaces(mA, fA, mB, fB, [it] + items)
  {
    assert forall i :: 1 <= i <= |items| ==> ([it] + items)[i] == items[i - 1];
  }

  /** Every emitted A side lies on face `fA` and every B side on face `fB`:
      its edge is a face edge and its current vertex a face vertex. */
  lemma {:induction false} WalkOnFace(mA: Mesh, fA: nat, pA: VertexPair, mB: Mesh, fB: nat, pB: VertexPair,
                                      seenA: set<nat>, seenB: set<nat>)
    requires WalkArgs(mA, fA, pA) && WalkArgs(mB, fB, pB)
    ensures OnFaces(mA, fA, mB, fB, Walk(mA, fA, pA, mB, fB, pB, seenA, seenB).items)
    decreases Measure(mA, fA, pA.cur, seenA)
  {
    var r := Walk(mA, fA, pA, mB, fB, pB, seenA, seenB);
    var nA := if pA.cur in seenA || pB.cur in seenB then None else NextStep(mA, fA, pA);
    var nB := if pA.cur in seenA || pB.cur in seenB then None else NextStep(mB, fB, pB);
    if nA.Some? && nB.Some? {
      var qA := Pair(pA.cur, nA.value.next);
      var qB := Pair(pB.cur, nB.value.next);
      MeasureDrops(mA, fA, pA.cur, nA.value.next, seenA);
      var rest := Walk(mA, fA, qA, mB, fB, qB, seenA + {pA.cur}, seenB + {pB.cur});
      var it := Item(Side(fA, nA.value.edge, qA), Side(fB, nB.value.edge, qB));
      assert r == WalkResult([it] + rest.items, rest.mismatch);
      WalkOnFace(mA, fA, qA, mB, fB, qB, seenA + {pA.cur}, seenB + {pB.cur});
      assert SideOn(mA, fA, it.a) && SideOn(mB, fB, it.b);
      OnFacesCons(mA, fA, mB, fB, it, rest.items);
    }
  }

  /** The walk as `walk_face_double` starts it: nothing seen yet on either side. */
  function WalkFace(mA: Mesh, fA: nat, pA: VertexPair, mB: Mesh, fB: nat, pB: VertexPair): WalkResult
    requires WalkArgs(mA, fA, pA) && WalkArgs(mB, fB, pB)
  {
    Walk(mA, fA, pA, mB, fB, pB, {}, {})
  }

  function SidesA(items: seq<Item>): (r: seq<Side>)
  {
    seq(|items|, i requires 0 <= i < |items| => items[i].a)
  }

  function SidesB(items: seq<Item>): (r: seq<Side>)
  {
    seq(|items|, i requires 0 <= i < |items| => items[i].b)
  }

  /** The pair a side's walk stood on before its `i`-th step; for `i == |sides|`,
      the pair it ended on. */
  function Before(p0: VertexPair, sides: seq<Side>, i: nat): VertexPair
    requires i <= |sides|
  {
    if i == 0 then p0 else sides[i - 1].pair
  }

  /** The vertices a side's walk marked seen: the previous vertex of every item. */
  function Prevs(sides: seq<Side>): set<nat>
  {
    set i | 0 <= i < |sides| :: sides[i].pair.prev
  }

  /** Every side is a step of `get_next_vertex` from the pair before it, and
      consecutive items chain: each item's previous vertex is the current
      vertex of the pair before it. */
  predicate Chained(m: Mesh, f: nat, p0: VertexPair, sides: seq<Side>) {
    && ValidMesh(m) && f < |m.faces|
    && forall i :: 0 <= i < |sides| ==>
         && sides[i].face == f
         && sides[i].pair.prev == Before(p0, sides, i).cur
         && NextStep(m, f, Before(p0, sides, i)) == Some(Step(sides[i].edge, sides[i].pair.cur))
  }

  predicate DistinctPrevs(sides: seq<Side>) {
    forall i, j :: 0 <= i < j < |sides| ==> sides[i].pair.prev != sides[j].pair.prev
  }

  lemma SidesCons(it: Item, items: seq<Item>)
    ensures SidesA([it] + items) == [it.a] + SidesA(items)
    ensures SidesB([it] + items) == [it.b] + SidesB(items)
  {
  }

  lemma PrevsCons(s: Side, sides: seq<Side>)
    ensures Prevs([s] + sides) == {s.pair.prev} + Prevs(sides)
  {
    var all := [s] + sides;
    forall x | x in Prevs(all) ensures x in {s.pair.prev} + Prevs(sides) {
      var i :| 0 <= i < |all| && all[i].pair.prev == x;
      if i > 0 { assert sides[i - 1].pair.prev == x; }
    }
    forall x | x in Prevs(sides) ensures x in Prevs(all) {
      var i :| 0 <= i < |sides| && sides[i].pair.prev == x;
      assert all[i + 1].pair.prev == x;
    }
    assert all[0].pair.prev == s.pair.prev;
  }

  lemma BeforeCons(p0: VertexPair, s: Side, sides: seq<Side>)
    ensures forall i :: 0 <= i <= |sides| ==> Before(p0, [s] + sides, i + 1) == Before(s.pair, sides, i)
  {
  }

  lemma ChainCons(m: Mesh, f: nat, p0: VertexPair, s: Side, sides: seq<Side>)
    requires Chained(m, f, s.pair, sides)
    requires s.face == f && s.pair.prev == p0.cur && NextStep(m, f, p0) == Some(Step(s.edge, s.pair.cur))
    ensures Chained(m, f, p0, [s] + sides)
  {
    var all := [s] + sides;
    BeforeCons(p0, s, sides);
    forall i | 0 <= i < |all|
      ensures all[i].face == f && all[i].pair.prev == Before(p0, all, i).cur
      ensures NextStep(m, f, Before(p0, all, i)) == Some(Step(all[i].edge, all[i].pair.cur))
    {
      if i > 0 {
        assert all[i] == sides[i - 1];
        assert Before(p0, all, i) == Before(s.pair, sides, i - 1);
      }
    }
  }

  lemma DistinctCons(s: Side, sides: seq<Side>, seen: set<nat>)
    requires DistinctPrevs(sides) && |Prevs(sides)| == |sides|
    requires s.pair.prev !in seen && Prevs(sides) !! seen + {s.pair.prev}
    ensures DistinctPrevs([s] + sides) && Prevs([s] + sides) !! seen
    ensures |Prevs([s] + sides)| == |[s] + sides|
  {
    var all := [s] + sides;
    PrevsCons(s, sides);
    assert s.pair.prev !in Prevs(sides);
    forall i, j | 0 <= i < j < |all| ensures all[i].pair.prev != all[j].pair.prev {
      assert all[j] == sides[j - 1];
      if i > 0 {
        assert all[i] == sides[i - 1];
      } else {
        assert sides[j - 1].pair.prev in Prevs(sides);
      }
    }
  }

  /** Step validity and chaining, on both sides. */
  lemma {:induction false} WalkChained(mA: Mesh, fA: nat, pA: VertexPair, mB: Mesh, fB: nat, pB: VertexPair,
                                       seenA: set<nat>, seenB: set<nat>)
    requires WalkArgs(mA, fA, pA) && WalkArgs(mB, fB, pB)
    ensures Chained(mA, fA, pA, SidesA(Walk(mA, fA, pA, mB, fB, pB, seenA, seenB).items))
    ensures Chained(mB, fB, pB, SidesB(Walk(mA, fA, pA, mB, fB, pB, seenA, seenB).items))
    decreases Measure(mA, fA, pA.cur, seenA)
  {
    var r := Walk(mA, fA, pA, mB, fB, pB, seenA, seenB);
    var nA := if pA.cur in seenA || pB.cur in seenB then None else NextStep(mA, fA, pA);
    var nB := if pA.cur in seenA || pB.cur in seenB then None else NextStep(mB, fB, pB);
    if nA.Some? && nB.Some? {
      var qA := Pair(pA.cur, nA.value.next);
      var qB := Pair(pB.cur, nB.value.next);
      MeasureDrops(mA, fA, pA.cur, nA.value.next, seenA);
      var rest := Walk(mA, fA, qA, mB, fB, qB, seenA + {pA.cur}, seenB + {pB.cur});
      var it := Item(Side(fA, nA.value.edge, qA), Side(fB, nB.value.edge, qB));
      assert r == WalkResult([it] + rest.items, rest.mismatch);
      WalkChained(mA, fA, qA, mB, fB, qB, seenA + {pA.cur}, seenB + {pB.cur});
      SidesCons(it, rest.items);
      ChainCons(mA, fA, pA, it.a, SidesA(rest.items));
      ChainCons(mB, fB, pB, it.b, SidesB(rest.items));
    }
  }

  /** Each item adds one new vertex to each side's seen set, so the previous
      vertices are pairwise distinct, were not seen before, and the number of
      items is at most the number of distinct vertices the A side can visit. */
  lemma {:induction false} WalkDistinct(mA: Mesh, fA: nat, pA: VertexPair, mB: Mesh, fB: nat, pB: VertexPair,
                                        seenA: set<nat>, seenB: set<nat>)
    requires WalkArgs(mA, fA, pA) && WalkArgs(mB, fB, pB)
    ensures var r := Walk(mA, fA, pA, mB, fB, pB, seenA, seenB);
      && DistinctPrevs(SidesA(r.items)) && DistinctPrevs(SidesB(r.items))
      && Prevs(SidesA(r.items)) !! seenA && Prevs(SidesB(r.items)) !! seenB
      && |Prevs(SidesA(r.items))| == |r.items| == |Prevs(SidesB(r.items))|
      && |r.items| <= Measure(mA, fA, pA.cur, seenA)
    decreases Measure(mA, fA, pA.cur, seenA)
  {
    var r := Walk(mA, fA, pA, mB, fB, pB, seenA, seenB);
    var nA := if pA.cur in seenA || pB.cur in seenB then None else NextStep(mA, fA, pA);
    var nB := if pA.cur in seenA || pB.cur in seenB then None else NextStep(mB, fB, pB);
    if nA.Some? && nB.Some? {
      var qA := Pair(pA.cur, nA.value.next);
      var qB := Pair(pB.cur, nB.value.next);
      MeasureDrops(mA, fA, pA.cur, nA.value.next, seenA);
      var rest := Walk(mA, fA, qA, mB, fB, qB, seenA + {pA.cur}, seenB + {pB.cur});
      var it := Item(Side(fA, nA.value.edge, qA), Side(fB, nB.value.edge, qB));
      assert r == WalkResult([it] + rest.items, rest.mismatch);
      WalkDistinct(mA, fA, qA, mB, fB, qB, seenA + {pA.cur}, seenB + {pB.cur});
      SidesCons(it, rest.items);
      DistinctCons(it.a, SidesA(rest.items), seenA);
      DistinctCons(it.b, SidesB(rest.items), seenB);
    } else {
      assert Prevs(SidesA(r.items)) == {} && Prevs(SidesB(r.items)) == {};
    }
  }

  /** The pair a side's walk ended on. */
  function EndPair(p0: VertexPair, sides: seq<Side>): VertexPair {
    Before(p0, sides, |sides|)
  }

  /** A side's loop closed: the vertex it ended on had already been seen. */
  predicate Closed(p0: VertexPair, seen: set<nat>, sides: seq<Side>) {
    EndPair(p0, sides).cur in seen + Prevs(sides)
  }

  lemma EndCons(p0: VertexPair, s: Side, sides: seq<Side>, seen: set<nat>)
    ensures EndPair(p0, [s] + sides) == EndPair(s.pair, sides)
    ensures Closed(p0, seen, [s] + sides) == Closed(s.pair, seen + {s.pair.prev}, sides)
  {
    PrevsCons(s, sides);
    BeforeCons(p0, s, sides);
    assert seen + Prevs([s] + sides) == (seen + {s.pair.prev}) + Prevs(sides);
  }

  /** Why the walk ended, on the pair each side ended on: a side's loop
      closed, or a side had no next step; and a mismatch is reported exactly
      when one side's loop closed and the other's did not. */
  lemma {:induction false} WalkStops(mA: Mesh, fA: nat, pA: VertexPair, mB: Mesh, fB: nat, pB: VertexPair,
                                     seenA: set<nat>, seenB: set<nat>)
    requires WalkArgs(mA, fA, pA) && WalkArgs(mB, fB, pB)
    ensures var r := Walk(mA, fA, pA, mB, fB, pB, seenA, seenB);
      var endA, endB := EndPair(pA, SidesA(r.items)), EndPair(pB, SidesB(r.items));
      var closedA, closedB := Closed(pA, seenA, SidesA(r.items)), Closed(pB, seenB, SidesB(r.items));
      && endA.cur < mA.vertCount && endB.cur < mB.vertCount
      && (r.mismatch <==> closedA != closedB)
      && (closedA || closedB || NextStep(mA, fA, endA).None? || NextStep(mB, fB, endB).None?)
    decreases Measure(mA, fA, pA.cur, seenA)
  {
    var r := Walk(mA, fA, pA, mB, fB, pB, seenA, seenB);
    var nA := if pA.cur in seenA || pB.cur in seenB then None else NextStep(mA, fA, pA);
    var nB := if pA.cur in seenA || pB.cur in seenB then None else NextStep(mB, fB, pB);
    if nA.Some? && nB.Some? {
      var qA := Pair(pA.cur, nA.value.next);
      var qB := Pair(pB.cur, nB.value.next);
      MeasureDrops(mA, fA, pA.cur, nA.value.next, seenA);
      var rest := Walk(mA, fA, qA, mB, fB, qB, seenA + {pA.cur}, seenB + {pB.cur});
      var it := Item(Side(fA, nA.value.edge, qA), Side(fB, nB.value.edge, qB));
      assert r == WalkResult([it] + rest.items, rest.mismatch);
      WalkStops(mA, fA, qA, mB, fB, qB, seenA + {pA.cur}, seenB + {pB.cur});
      SidesCons(it, rest.items);
      EndCons(pA, it.a, SidesA(rest.items), seenA);
      EndCons(pB, it.b, SidesB(rest.items), seenB);
    } else {
      assert SidesA(r.items) == [] && SidesB(r.items) == [];
      assert Prevs([]) == {};
    }
  }

  lemma DiagonalCons(it: Item, items: seq<Item>)
    requires it.a == it.b && Diagonal(items)
    ensures Diagonal([it] + items)
  {
    assert forall i :: 1 <= i <= |items| ==> ([it] + items)[i] == items[i - 1];
  }

  /** A face walked against itself, from the same pair with the same seen
      vertices, pairs every step with itself and reports no mismatch. */
  lemma {:induction false} WalkSelf(m: Mesh, f: nat, p: VertexPair, seen: set<nat>)
    requires WalkArgs(m, f, p)
    ensures Diagonal(Walk(m, f, p, m, f, p, seen, seen).items)
    ensures !Walk(m, f, p, m, f, p, seen, seen).mismatch
    decreases Measure(m, f, p.cur, seen)
  {
    var r := Walk(m, f, p, m, f, p, seen, seen);
    if p.cur !in seen {
      var n := NextStep(m, f, p);
      if n.Some? {
        var q := Pair(p.cur, n.value.next);
        MeasureDrops(m, f, p.cur, n.value.next, seen);
        var rest := Walk(m, f, q, m, f, q, seen + {p.cur}, seen + {p.cur});
        var it := Item(Side(f, n.value.edge, q), Side(f, n.value.edge, q));
        assert r == WalkResult([it] + rest.items, rest.mismatch);
        WalkSelf(m, f, q, seen + {p.cur});
        DiagonalCons(it, rest.items);
      }
    }
  }

  lemma AppendAssoc<T>(a: seq<T>, b: seq<T>, c: seq<T>)
    ensures a + (b + c) == (a + b) + c
  {
  }

  /** `walk_face_double` as written: a loop that stops on a closed loop or a
      missing step, reporting a mismatch when only one side has closed. */
  method WalkFaceDouble(mA: Mesh, fA: nat, pairA: VertexPair, mB: Mesh, fB: nat, pairB: VertexPair)
    returns (items: seq<Item>, mismatch: bool)
    requires WalkArgs(mA, fA, pairA) && WalkArgs(mB, fB, pairB)
    ensures WalkResult(items, mismatch) == WalkFace(mA, fA, pairA, mB, fB, pairB)
  {
    ghost var total := WalkFace(mA, fA, pairA, mB, fB, pairB);
    var seenA: set<nat> := {};
    var seenB: set<nat> := {};
    var pA, pB := pairA, pairB;
    items := [];
    while true
      invariant WalkArgs(mA, fA, pA) && WalkArgs(mB, fB, pB)
      invariant items + Walk(mA, fA, pA, mB, fB, pB, seenA, seenB).items == total.items
      invariant Walk(mA, fA, pA, mB, fB, pB, seenA, seenB).mismatch == total.mismatch
      decreases Measure(mA, fA, pA.cur, seenA)
    {
      ghost var w := Walk(mA, fA, pA, mB, fB, pB, seenA, seenB);
      if pA.cur in seenA {
        assert w == WalkResult([], pB.cur !in seenB);
        mismatch := pB.cur !in seenB;
        break;
      }
      if pB.cur in seenB {
        assert w == WalkResult([], true);
        mismatch := true;
        break;
      }
      var nextA := GetNextVertex(mA, fA, pA);
      var nextB := GetNextVertex(mB, fB, pB);
      if nextA.Some? && nextB.Some? {
        var qA := Pair(pA.cur, nextA.value.next);
        var qB := Pair(pB.cur, nextB.value.next);
        var it := Item(Side(fA, nextA.value.edge, qA), Side(fB, nextB.value.edge, qB));
        MeasureDrops(mA, fA, pA.cur, nextA.value.next, seenA);
        ghost var rest := Walk(mA, fA, qA, mB, fB, qB, seenA + {pA.cur}, seenB + {pB.cur});
        assert w == WalkResult([it] + rest.items, rest.mismatch);
        AppendAssoc(items, [it], rest.items);
        seenA := seenA + {pA.cur};
        seenB := seenB + {pB.cur};
        items := items + [it];
        pA, pB := qA, qB;
      } else {
        assert w == WalkResult([], false);
        mismatch := false;
        break;
      }
    }
    assert items == total.items;
  }
}
