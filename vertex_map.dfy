/**
  The correspondence map `vertex_map` (A vertex index to B vertex index) as
  the Python dict it is: the values, and the order in which the keys were
  first inserted, which is the order `items()` visits them in. Also the
  reverse map built from it.
 */
module VertexMap {
  import opened MeshModel

  datatype Dict = Dict(keys: seq<nat>, vals: map<nat, nat>)

  /** The keys are listed once each, and they are exactly the keys with values. */
  predicate ValidDict(d: Dict) {
    && (forall i, j :: 0 <= i < j < |d.keys| ==> d.keys[i] != d.keys[j])
    && (forall k :: k in d.vals ==> k in d.keys)
    && (forall i :: 0 <= i < |d.keys| ==> d.keys[i] in d.vals)
  }

  const Empty: Dict := Dict([], map[])

  /** `d[k] = v`: the value is overwritten, and a key already present keeps
      its place in the iteration order; a new key goes last. */
  function Put(d: Dict, k: nat, v: nat): (r: Dict)
    ensures ValidDict(d) ==> ValidDict(r)
    ensures r.vals == d.vals[k := v]
    ensures forall i :: 0 <= i < |d.keys| ==> i < |r.keys| && r.keys[i] == d.keys[i]
    ensures |r.keys| == if k in d.vals then |d.keys| else |d.keys| + 1
    ensures |r.keys| == |d.keys| + 1 ==> r.keys[|d.keys|] == k
  {
    if k in d.vals then Dict(d.keys, d.vals[k := v]) else Dict(d.keys + [k], d.vals[k := v])
  }

  /** The two seed entries, vertex 1 then vertex 2. */
  function SeedDict(a1: nat, b1: nat, a2: nat, b2: nat): Dict {
    Put(Put(Empty, a1, b1), a2, b2)
  }

  /** Every key is below `nA` and every value below `nB`. */
  predicate InRange(d: Dict, nA: nat, nB: nat) {
    forall k :: k in d.vals ==> k < nA && d.vals[k] < nB
  }

  /** The seed dict holds the two seed entries, vertex 2's winning when the
      two seed vertices are the same. */
  lemma SeedDictVals(a1: nat, b1: nat, a2: nat, b2: nat)
    ensures ValidDict(SeedDict(a1, b1, a2, b2))
    ensures SeedDict(a1, b1, a2, b2).vals == map[a1 := b1][a2 := b2]
  {
  }

  lemma SeedDictInRange(a1: nat, b1: nat, a2: nat, b2: nat, nA: nat, nB: nat)
    requires a1 < nA && a2 < nA && b1 < nB && b2 < nB
    ensures InRange(SeedDict(a1, b1, a2, b2), nA, nB)
  {
    SeedDictVals(a1, b1, a2, b2);
  }

  /** Some item of `items` writes key `k`. */
  predicate AnyWrites(items: seq<Item>, k: nat) {
    exists i :: 0 <= i < |items| && Writes(items[i], k)
  }

  /** Whether processing item `it` writes key `k`. */
  predicate Writes(it: Item, k: nat) {
    k == it.a.pair.prev || k == it.a.pair.cur
  }

  /** The value processing `it` leaves at a key it writes: the current-vertex
      write comes second, so it wins when both endpoints are the same key. */
  function WrittenValue(it: Item, k: nat): nat {
    if k == it.a.pair.cur then it.b.pair.cur else it.b.pair.prev
  }

  /** The two writes of one processed item: previous vertices, then current vertices. */
  function Record(d: Dict, it: Item): Dict {
    Put(Put(d, it.a.pair.prev, it.b.pair.prev), it.a.pair.cur, it.b.pair.cur)
  }

  /** The writes of a sequence of processed items, in order. */
  function RecordAll(d: Dict, items: seq<Item>): (r: Dict)
    ensures ValidDict(d) ==> ValidDict(r)
    decreases items
  {
    if items == [] then d else RecordAll(Record(d, items[0]), items[1..])
  }

  lemma RecordFacts(d: Dict, it: Item, k: nat)
    ensures k in Record(d, it).vals <==> k in d.vals || Writes(it, k)
    ensures Writes(it, k) ==> Record(d, it).vals[k] == WrittenValue(it, k)
    ensures !Writes(it, k) && k in d.vals ==> Record(d, it).vals[k] == d.vals[k]
  {
  }

  /** A key is in the map after the writes exactly when it was before or
      some item wrote it. */
  lemma {:induction false} RecordAllKeys(d: Dict, items: seq<Item>, k: nat)
    ensures k in RecordAll(d, items).vals <==> k in d.vals || AnyWrites(items, k)
    decreases items
  {
    if items != [] {
      var rest := items[1..];
      var d' := Record(d, items[0]);
      assert RecordAll(d, items) == RecordAll(d', rest);
      RecordAllKeys(d', rest, k);
      RecordFacts(d, items[0], k);
      WritesCons(items, k);
    }
  }

  lemma WritesCons(items: seq<Item>, k: nat)
    requires items != []
    ensures AnyWrites(items, k) <==> Writes(items[0], k) || AnyWrites(items[1..], k)
  {
    var rest := items[1..];
    if exists i :: 0 <= i < |rest| && Writes(rest[i], k) {
      var i :| 0 <= i < |rest| && Writes(rest[i], k);
      assert items[i + 1] == rest[i];
    }
    if exists i :: 0 <= i < |items| && Writes(items[i], k) {
      var i :| 0 <= i < |items| && Writes(items[i], k);
      if i > 0 { assert rest[i - 1] == items[i]; }
    }
  }

  /** Last write wins: the value at a key is the one written by the last
      item that writes it. */
  lemma {:induction false} RecordAllLastWrite(d: Dict, items: seq<Item>, k: nat, i: nat)
    requires i < |items| && Writes(items[i], k)
    requires forall j :: i < j < |items| ==> !Writes(items[j], k)
    ensures k in RecordAll(d, items).vals && RecordAll(d, items).vals[k] == WrittenValue(items[i], k)
    decreases items
  {
    var rest := items[1..];
    RecordFacts(d, items[0], k);
    if i > 0 {
      assert forall j :: i - 1 < j < |rest| ==> rest[j] == items[j + 1];
      RecordAllLastWrite(Record(d, items[0]), rest, k, i - 1);
    } else {
      assert forall j :: 0 <= j < |rest| ==> rest[j] == items[j + 1];
      RecordAllUntouched(Record(d, items[0]), rest, k);
    }
  }

  /** A key no item writes keeps its old value. */
  lemma {:induction false} RecordAllUntouched(d: Dict, items: seq<Item>, k: nat)
    requires k in d.vals
    requires forall j :: 0 <= j < |items| ==> !Writes(items[j], k)
    ensures k in RecordAll(d, items).vals && RecordAll(d, items).vals[k] == d.vals[k]
    decreases items
  {
    if items != [] {
      var rest := items[1..];
      RecordFacts(d, items[0], k);
      assert forall j :: 0 <= j < |rest| ==> rest[j] == items[j + 1];
      RecordAllUntouched(Record(d, items[0]), rest, k);
    }
  }

  /** Every key maps to itself. */
  predicate Identity(d: Dict) {
    forall k :: k in d.vals ==> d.vals[k] == k
  }

  /** Writing items that pair every vertex with itself keeps the map the identity. */
  lemma {:induction false} RecordAllIdentity(d: Dict, items: seq<Item>)
    requires Identity(d) && Diagonal(items)
    ensures Identity(RecordAll(d, items))
    decreases items
  {
    if items != [] {
      var it := items[0];
      assert it.a == it.b;
      var d' := Record(d, it);
      assert Identity(d') by {
        forall k | k in d'.vals ensures d'.vals[k] == k {
          RecordFacts(d, it, k);
        }
      }
      assert Diagonal(items[1..]) by {
        assert forall i :: 0 <= i < |items| - 1 ==> items[1..][i] == items[i + 1];
      }
      RecordAllIdentity(d', items[1..]);
    }
  }

  /** The reverse of an identity map is the identity. */
  lemma ReverseIdentity(d: Dict, b: nat)
    requires ValidDict(d) && Identity(d)
    ensures b in Reverse(d) <==> b in d.vals
    ensures b in Reverse(d) ==> Reverse(d)[b] == b
  {
    ReverseLast(d, b);
    if b in d.vals {
      assert d.vals[b] == b;
    }
  }

  /** `{v_b: v_a for v_a, v_b in vertex_map.items()}` over the keys `ks` in order. */
  function RevOf(ks: seq<nat>, vals: map<nat, nat>): (r: map<nat, nat>)
    requires forall i :: 0 <= i < |ks| ==> ks[i] in vals
    ensures forall b :: b in r ==> r[b] in vals && vals[r[b]] == b
  {
    if ks == [] then map[]
    else RevOf(ks[..|ks| - 1], vals)[vals[ks[|ks| - 1]] := ks[|ks| - 1]]
  }

  /** The reverse map `reverse_map`, from B vertex to A vertex. */
  function Reverse(d: Dict): (r: map<nat, nat>)
    requires ValidDict(d)
    ensures forall b :: b in r ==> r[b] in d.vals && d.vals[r[b]] == b
  {
    RevOf(d.keys, d.vals)
  }

  lemma {:induction false} RevOfLast(ks: seq<nat>, vals: map<nat, nat>, b: nat)
    requires forall i :: 0 <= i < |ks| ==> ks[i] in vals
    ensures b in RevOf(ks, vals) <==> exists i :: 0 <= i < |ks| && vals[ks[i]] == b
    ensures b in RevOf(ks, vals) ==>
      exists i :: 0 <= i < |ks| && ks[i] == RevOf(ks, vals)[b] && vals[ks[i]] == b
                  && forall j :: i < j < |ks| ==> vals[ks[j]] != b
  {
    if ks != [] {
      var n := |ks| - 1;
      var init := ks[..n];
      var r0 := RevOf(init, vals);
      var r := RevOf(ks, vals);
      assert r == r0[vals[ks[n]] := ks[n]];
      RevOfLast(init, vals, b);
      assert forall i :: 0 <= i < n ==> init[i] == ks[i];
      if vals[ks[n]] == b {
        assert b in r && r[b] == ks[n];
      } else {
        assert b in r <==> b in r0;
        if b in r0 {
          var i :| 0 <= i < |init| && init[i] == r0[b] && vals[init[i]] == b
                   && forall j :: i < j < |init| ==> vals[init[j]] != b;
          assert ks[i] == r[b] && vals[ks[i]] == b;
          assert forall j :: i < j < |ks| ==> vals[ks[j]] != b;
        }
        if exists i :: 0 <= i < |ks| && vals[ks[i]] == b {
          var i :| 0 <= i < |ks| && vals[ks[i]] == b;
          assert i < n && vals[init[i]] == b;
        }
      }
    }
  }

  /** Each B vertex that is a value of the map is a key of the reverse map,
      and nothing else is; it maps back to the key of the last entry, in the
      dict's iteration order, whose value it is. */
  lemma ReverseLast(d: Dict, b: nat)
    requires ValidDict(d)
    ensures b in Reverse(d) <==> b in d.vals.Values
    ensures b in Reverse(d) ==>
      exists i :: 0 <= i < |d.keys| && d.keys[i] == Reverse(d)[b] && d.vals[d.keys[i]] == b
                  && forall j :: i < j < |d.keys| ==> d.vals[d.keys[j]] != b
  {
    assert forall i :: 0 <= i < |d.keys| ==> d.keys[i] in d.vals;
    RevOfLast(d.keys, d.vals, b);
    if b in d.vals.Values {
      var k :| k in d.vals && d.vals[k] == b;
      var i :| 0 <= i < |d.keys| && d.keys[i] == k;
    }
  }
}
