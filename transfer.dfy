/**
  The end of `execute`: build the reverse map and move every mapped mesh-B
  vertex onto the position of its mesh-A partner, in world or object space
  (`move_vertices_world_space`, `move_vertices_object_space`).
 */
module Transfer {
  import opened MeshModel
  import opened VertexMap
  import opened Correspondence

  /** The space mode chosen in the panel. */
  datatype Space = World | Object

  /** How `execute` ends: finished, aborted because a picked index does not
      exist, or aborted because mesh B's world matrix has no inverse. */
  datatype Status = Finished | IndexOutOfRange | SingularMatrix

  /** Every A vertex the reverse map points at exists. */
  predicate Sources(rev: map<nat, nat>, countA: nat) {
    forall b :: b in rev ==> rev[b] < countA
  }

  /** The positions of mesh B after the transfer: a vertex whose index is a key
      of the reverse map gets the placed position of its A partner; every
      other vertex keeps its position. */
  function Transferred<P>(posA: seq<P>, posB: seq<P>, rev: map<nat, nat>, place: P -> P): seq<P>
    requires Sources(rev, |posA|)
  {
    seq(|posB|, i requires 0 <= i < |posB| => if i in rev then place(posA[rev[i]]) else posB[i])
  }

  /** Where a mode puts A's position in B's local space: in world space,
      A's local-to-world matrix followed by the inverse of B's (given here as
      the function `worldToB`); in object space, A's local coordinates unchanged. */
  function Placement<P>(space: Space, worldToB: P -> P): P -> P {
    match space
    case World => worldToB
    case Object => (p: P) => p
  }

  /** Transfer frame: only mapped B vertices change; a mapped vertex takes its
      partner's placed position, which in object space is A's position itself. */
  lemma TransferFrame<P>(posA: seq<P>, posB: seq<P>, rev: map<nat, nat>, space: Space, worldToB: P -> P, i: nat)
    requires Sources(rev, |posA|) && i < |posB|
    ensures var r := Transferred(posA, posB, rev, Placement(space, worldToB));
      && |r| == |posB|
      && (i !in rev ==> r[i] == posB[i])
      && (i in rev && space == Object ==> r[i] == posA[rev[i]])
      && (i in rev && space == World ==> r[i] == worldToB(posA[rev[i]]))
  {
  }

  /** Mesh A is never written, so transferring again changes nothing. */
  lemma TransferIdempotent<P>(posA: seq<P>, posB: seq<P>, rev: map<nat, nat>, place: P -> P)
    requires Sources(rev, |posA|)
    ensures Transferred(posA, Transferred(posA, posB, rev, place), rev, place) == Transferred(posA, posB, rev, place)
  {
  }

  /** The transfer loop over mesh B's vertices, writing in place. */
  method MoveVertices<P>(posA: seq<P>, posB: array<P>, rev: map<nat, nat>, place: P -> P)
    requires Sources(rev, |posA|)
    modifies posB
    ensures posB[..] == Transferred(posA, old(posB[..]), rev, place)
  {
    for i := 0 to posB.Length
      invariant forall j :: 0 <= j < i ==> posB[j] == if j in rev then place(posA[rev[j]]) else old(posB[j])
      invariant forall j :: i <= j < posB.Length ==> posB[j] == old(posB[j])
    {
      if i in rev {
        posB[i] := place(posA[rev[i]]);
      }
    }
  }

  /** The B vertices that move and where they go: a B vertex moves exactly
      when it is a value of the correspondence map, and it goes to the placed
      position of the key of the last entry, in the map's iteration order,
      whose value it is. */
  lemma MovedVertices<P>(d: Dict, posA: seq<P>, posB: seq<P>, place: P -> P, b: nat)
    requires ValidDict(d) && InRange(d, |posA|, |posB|) && b < |posB|
    ensures var r := Transferred(posA, posB, Reverse(d), place);
      && (b !in d.vals.Values ==> r[b] == posB[b])
      && (b in d.vals.Values ==>
            exists i :: 0 <= i < |d.keys| && d.vals[d.keys[i]] == b && r[b] == place(posA[d.keys[i]])
                        && forall j :: i < j < |d.keys| ==> d.vals[d.keys[j]] != b)
  {
    ReverseLast(d, b);
  }

  /** `execute` after the mesh objects are found: look up the picks, build the
      map, then move the mapped B vertices in the chosen space. The
      unconditional world-space pass runs in both modes, so a singular world
      matrix of mesh B aborts both, before any vertex is written. */
  method ComputeMapping<P>(mA: Mesh, mB: Mesh, s: Seeds, posA: seq<P>, posB: array<P>,
                           space: Space, worldToB: P -> P, invertibleB: bool)
    returns (status: Status, mismatches: nat)
    requires ValidMesh(mA) && ValidMesh(mB)
    requires |posA| == mA.vertCount && posB.Length == mB.vertCount
    modifies posB
    ensures status == IndexOutOfRange <==> !SeedsInRange(mA, mB, s)
    ensures status == SingularMatrix <==> SeedsInRange(mA, mB, s) && !invertibleB
    ensures status != Finished ==> posB[..] == old(posB[..])
    ensures status == IndexOutOfRange ==> mismatches == 0
    ensures SeedsInRange(mA, mB, s) ==> mismatches == Correspond(mA, mB, s).mismatches
    ensures status == Finished ==>
      posB[..] == Transferred(posA, old(posB[..]), Reverse(Correspond(mA, mB, s).vmap), Placement(space, worldToB))
  {
    if !SeedsInRange(mA, mB, s) {
      return IndexOutOfRange, 0;
    }
    var vmap;
    vmap, mismatches := BuildMapping(mA, mB, s);
    var reverseMap := Reverse(vmap);
    if !invertibleB {
      return SingularMatrix, mismatches;
    }
    MoveVertices(posA, posB, reverseMap, Placement(space, worldToB));
    status := Finished;
  }

  /** A mesh walked against itself from the same picks and moved in object
      space keeps every vertex where it is. */
  lemma SelfTransferUnchanged<P>(m: Mesh, s: Seeds, pos: seq<P>, worldToB: P -> P)
    requires ValidMesh(m) && SeedsInRange(m, m, s) && SelfSeeds(s) && |pos| == m.vertCount
    ensures Sources(Reverse(Correspond(m, m, s).vmap), |pos|)
    ensures Transferred(pos, pos, Reverse(Correspond(m, m, s).vmap), Placement(Object, worldToB)) == pos
  {
    var d := Correspond(m, m, s).vmap;
    CorrespondSelf(m, s);
    var rev := Reverse(d);
    forall b | b in rev ensures rev[b] == b {
      ReverseIdentity(d, b);
    }
  }
}
