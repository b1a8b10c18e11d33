/** Islands of a Hashiwokakero board and their bridge maps.

    Islands live in an arena (a sequence) and refer to each other by index.
    `Neighbors` holds one map per island: island `a`'s map sends the index of a
    neighbouring island to the number of bridges between the two. An absent
    entry means "no bridge". Both islands of a bridge keep their own entry, so
    the two views must be kept equal (`Symmetric`). */
module Islands {

  /** A puzzle node: fixed cell and the number of bridge units it needs. */
  datatype Island = Island(row: int, col: int, required: int)

  /** Per-island neighbour maps, indexed like the island arena. */
  type Neighbors = seq<map<nat, int>>

  /** The value stored under `k`, or 0 when there is none (a dict's `get(k, 0)`). */
  function Get(m: map<nat, int>, k: nat): int
  {
    if k in m then m[k] else 0
  }

  /** The multiplicity island `a` records for island `b`. */
  function Mult(nb: Neighbors, a: nat, b: nat): int
  {
    if a < |nb| then Get(nb[a], b) else 0
  }

  // ---------------------------------------------------------------------------
  // Invariants of the bridge maps
  // ---------------------------------------------------------------------------

  /** Every key of every map is the index of an island of the arena. */
  ghost predicate KeysInArena(nb: Neighbors)
  {
    forall a, b :: 0 <= a < |nb| && b in nb[a] ==> b < |nb|
  }

  /** Stored multiplicities are 1 or 2: a bridge count of 0 is never stored. */
  ghost predicate InRange(nb: Neighbors)
  {
    forall a, b :: 0 <= a < |nb| && b in nb[a] ==> 1 <= nb[a][b] <= 2
  }

  /** Both islands of a bridge record the same multiplicity. */
  ghost predicate Symmetric(nb: Neighbors)
  {
    forall a, b :: Mult(nb, a, b) == Mult(nb, b, a)
  }

  ghost predicate Consistent(nb: Neighbors)
  {
    KeysInArena(nb) && InRange(nb) && Symmetric(nb)
  }

  /** No island has more bridges than it requires. */
  ghost predicate Bounded(islands: seq<Island>, nb: Neighbors)
    requires |islands| == |nb|
  {
    forall a :: 0 <= a < |nb| ==> Degree(nb, a) <= islands[a].required
  }

  // ---------------------------------------------------------------------------
  // Degree
  // ---------------------------------------------------------------------------

  /** Sum of the entries of `m` under the keys 0 .. n-1. */
  function SumTo(m: map<nat, int>, n: nat): int
  {
    if n == 0 then 0 else SumTo(m, n - 1) + Get(m, n - 1)
  }

  /** The current degree of island `a`: the sum of its bridge multiplicities. */
  function Degree(nb: Neighbors, a: nat): int
    requires a < |nb|
  {
    SumTo(nb[a], |nb|)
  }

  /** Reference definition: the sum of all the values of a map. */
  ghost function MapSum(m: map<nat, int>): int
    decreases |m|
  {
    if m == map[] then 0
    else
      var k :| k in m;
      assert |m - {k}| < |m| by { assert m.Keys - {k} < m.Keys; }
      m[k] + MapSum(m - {k})
  }

  /** Taking any one key out of a map takes its value out of the sum. */
  lemma {:induction false} MapSumRemove(m: map<nat, int>, k: nat)
    requires k in m
    ensures MapSum(m) == m[k] + MapSum(m - {k})
    decreases |m|
  {
    var j :| j in m && MapSum(m) == m[j] + MapSum(m - {j});
    if j != k {
      var mj, mk := m - {j}, m - {k};
      assert |mj| < |m| by { assert mj.Keys < m.Keys; }
      assert |mk| < |m| by { assert mk.Keys < m.Keys; }
      MapSumRemove(mj, k);
      MapSumRemove(mk, j);
      assert mj - {k} == mk - {j};
    }
  }

  lemma MapSumUpdate(m: map<nat, int>, k: nat, v: int)
    ensures MapSum(m[k := v]) == MapSum(m) - Get(m, k) + v
  {
    MapSumRemove(m[k := v], k);
    if k in m {
      MapSumRemove(m, k);
      assert m[k := v] - {k} == m - {k};
    } else {
      assert m[k := v] - {k} == m;
    }
  }

  lemma {:induction false} SumToAgree(m1: map<nat, int>, m2: map<nat, int>, n: nat)
    requires forall k :: 0 <= k < n ==> Get(m1, k) == Get(m2, k)
    ensures SumTo(m1, n) == SumTo(m2, n)
  {
    if n > 0 {
      SumToAgree(m1, m2, n - 1);
    }
  }

  /** When every key is below `n`, the sum over 0 .. n-1 is the sum of all values. */
  lemma {:induction false} SumToIsMapSum(m: map<nat, int>, n: nat)
    requires forall k :: k in m ==> k < n
    ensures SumTo(m, n) == MapSum(m)
  {
    if n == 0 {
      assert m == map[];
    } else if n - 1 in m {
      var rest := m - {n - 1};
      SumToAgree(m, rest, n - 1);
      SumToIsMapSum(rest, n - 1);
      MapSumRemove(m, n - 1);
    } else {
      SumToIsMapSum(m, n - 1);
    }
  }

  /** `Degree` is the sum of all the multiplicities island `a` records. */
  lemma DegreeIsMapSum(nb: Neighbors, a: nat)
    requires KeysInArena(nb) && a < |nb|
    ensures Degree(nb, a) == MapSum(nb[a])
  {
    SumToIsMapSum(nb[a], |nb|);
  }

  lemma {:induction false} SumToEmpty(n: nat)
    ensures SumTo(map[], n) == 0
  {
    if n > 0 {
      SumToEmpty(n - 1);
    }
  }

  // ---------------------------------------------------------------------------
  // Headroom check
  // ---------------------------------------------------------------------------

  /** Whether one more bridge may go from island `i` to island `j`: fewer than two
      bridges between them and both below their required degree. */
  function CanAddBridge(islands: seq<Island>, nb: Neighbors, i: nat, j: nat): bool
    requires |islands| == |nb| && i < |nb| && j < |nb|
  {
    if Get(nb[i], j) >= 2 then false
    else if Degree(nb, i) >= islands[i].required then false
    else if Degree(nb, j) >= islands[j].required then false
    else true
  }

  // ---------------------------------------------------------------------------
  // Adding and removing one bridge on both endpoints
  // ---------------------------------------------------------------------------

  /** One more bridge recorded under key `k`. */
  function Raised(m: map<nat, int>, k: nat): map<nat, int>
  {
    m[k := Get(m, k) + 1]
  }

  /** One bridge fewer under key `k`, if `k` is present; the entry goes when it reaches 0. */
  function Lowered(m: map<nat, int>, k: nat): map<nat, int>
  {
    if k in m then
      if m[k] - 1 == 0 then m - {k} else m[k := m[k] - 1]
    else m
  }

  /** The maps after `add_bridge`: island `i` records one more bridge to `j`, then
      island `j` one more to `i` (a self-pair is thus raised twice). */
  function Incremented(nb: Neighbors, i: nat, j: nat): (r: Neighbors)
    requires i < |nb| && j < |nb|
    ensures |r| == |nb|
    ensures i != j ==> Mult(r, i, j) == Mult(nb, i, j) + 1 && Mult(r, j, i) == Mult(nb, j, i) + 1
    ensures i == j ==> Mult(r, i, i) == Mult(nb, i, i) + 2
    ensures forall a, b :: !(a == i && b == j) && !(a == j && b == i) ==> Mult(r, a, b) == Mult(nb, a, b)
    ensures forall a, b :: 0 <= a < |r| ==>
              (b in r[a] <==> b in nb[a] || (a == i && b == j) || (a == j && b == i))
  {
    var first := nb[i := Raised(nb[i], j)];
    first[j := Raised(first[j], i)]
  }

  /** The maps after `remove_bridge`: island `i` drops one bridge to `j` if it has
      one, then island `j` drops one to `i` if it has one. */
  function Decremented(nb: Neighbors, i: nat, j: nat): (r: Neighbors)
    requires i < |nb| && j < |nb|
    ensures |r| == |nb|
    ensures i != j ==> Mult(r, i, j) == Mult(nb, i, j) - (if j in nb[i] then 1 else 0)
    ensures i != j ==> Mult(r, j, i) == Mult(nb, j, i) - (if i in nb[j] then 1 else 0)
    ensures forall a, b :: !(a == i && b == j) && !(a == j && b == i) ==> Mult(r, a, b) == Mult(nb, a, b)
    ensures forall a, b :: 0 <= a < |r| && b in r[a] ==> b in nb[a]
    ensures forall a, b :: 0 <= a < |r| && b in r[a] ==> r[a][b] != 0 || nb[a][b] == 0
    ensures i == j && i in nb[i] && 1 <= nb[i][i] <= 2 ==> i !in r[i]
    ensures i == j && i in nb[i] && nb[i][i] > 2 ==> Mult(r, i, i) == nb[i][i] - 2
  {
    var first := nb[i := Lowered(nb[i], j)];
    first[j := Lowered(first[j], i)]
  }

  /** `remove_bridge` undoes `add_bridge`, provided no zero entry was stored for the pair. */
  lemma RemoveUndoesAdd(nb: Neighbors, i: nat, j: nat)
    requires i < |nb| && j < |nb| && i != j
    requires (j in nb[i] ==> nb[i][j] != 0) && (i in nb[j] ==> nb[j][i] != 0)
    ensures Decremented(Incremented(nb, i, j), i, j) == nb
  {
    var r := Decremented(Incremented(nb, i, j), i, j);
    forall a | 0 <= a < |nb|
      ensures r[a] == nb[a]
    {
      if a == i {
        assert r[a] == Lowered(Raised(nb[i], j), j);
        if j in nb[i] { assert Lowered(Raised(nb[i], j), j) == nb[i][j := nb[i][j]]; }
        else { assert Lowered(Raised(nb[i], j), j) == nb[i][j := 1] - {j}; }
      } else if a == j {
        assert r[a] == Lowered(Raised(nb[j], i), i);
        if i in nb[j] { assert Lowered(Raised(nb[j], i), i) == nb[j][i := nb[j][i]]; }
        else { assert Lowered(Raised(nb[j], i), i) == nb[j][i := 1] - {i}; }
      }
    }
  }

  /** `add_bridge` undoes `remove_bridge` when both islands record the bridge. */
  lemma AddUndoesRemove(nb: Neighbors, i: nat, j: nat)
    requires i < |nb| && j < |nb| && i != j
    requires j in nb[i] && i in nb[j]
    ensures Incremented(Decremented(nb, i, j), i, j) == nb
  {
    var r := Incremented(Decremented(nb, i, j), i, j);
    forall a | 0 <= a < |nb|
      ensures r[a] == nb[a]
    {
      if a == i {
        assert r[a] == Raised(Lowered(nb[i], j), j);
      } else if a == j {
        assert r[a] == Raised(Lowered(nb[j], i), i);
      }
    }
  }

  // ---------------------------------------------------------------------------
  // Effect on degrees
  // ---------------------------------------------------------------------------

  lemma IncrementedDegrees(nb: Neighbors, i: nat, j: nat)
    requires KeysInArena(nb) && i < |nb| && j < |nb| && i != j
    ensures KeysInArena(Incremented(nb, i, j))
    ensures Degree(Incremented(nb, i, j), i) == Degree(nb, i) + 1
    ensures Degree(Incremented(nb, i, j), j) == Degree(nb, j) + 1
    ensures forall a :: 0 <= a < |nb| && a != i && a != j ==>
              Degree(Incremented(nb, i, j), a) == Degree(nb, a)
  {
    var r := Incremented(nb, i, j);
    assert r[i] == nb[i][j := Get(nb[i], j) + 1];
    assert r[j] == nb[j][i := Get(nb[j], i) + 1];
    DegreeIsMapSum(nb, i);
    DegreeIsMapSum(nb, j);
    DegreeIsMapSum(r, i);
    DegreeIsMapSum(r, j);
    MapSumUpdate(nb[i], j, Get(nb[i], j) + 1);
    MapSumUpdate(nb[j], i, Get(nb[j], i) + 1);
  }

  lemma DecrementedDegrees(nb: Neighbors, i: nat, j: nat)
    requires KeysInArena(nb) && i < |nb| && j < |nb| && i != j
    ensures KeysInArena(Decremented(nb, i, j))
    ensures Degree(Decremented(nb, i, j), i) == Degree(nb, i) - (if j in nb[i] then 1 else 0)
    ensures Degree(Decremented(nb, i, j), j) == Degree(nb, j) - (if i in nb[j] then 1 else 0)
    ensures forall a :: 0 <= a < |nb| && a != i && a != j ==>
              Degree(Decremented(nb, i, j), a) == Degree(nb, a)
  {
    var r := Decremented(nb, i, j);
    assert r[i] == Lowered(nb[i], j);
    assert r[j] == Lowered(nb[j], i);
    DegreeIsMapSum(nb, i);
    DegreeIsMapSum(nb, j);
    DegreeIsMapSum(r, i);
    DegreeIsMapSum(r, j);
    LoweredSum(nb[i], j);
    LoweredSum(nb[j], i);
  }

  lemma LoweredSum(m: map<nat, int>, k: nat)
    ensures MapSum(Lowered(m, k)) == MapSum(m) - (if k in m then 1 else 0)
  {
    if k in m {
      if m[k] - 1 == 0 {
        MapSumRemove(m, k);
      } else {
        MapSumUpdate(m, k, m[k] - 1);
      }
    }
  }

  // ---------------------------------------------------------------------------
  // The invariants survive a checked add and any remove
  // ---------------------------------------------------------------------------

  /** An add that passed `CanAddBridge` keeps the maps consistent and keeps every
      island within its required degree. */
  lemma CheckedAddKeepsInvariants(islands: seq<Island>, nb: Neighbors, i: nat, j: nat)
    requires |islands| == |nb| && i < |nb| && j < |nb| && i != j
    requires Consistent(nb) && Bounded(islands, nb)
    requires CanAddBridge(islands, nb, i, j)
    ensures Consistent(Incremented(nb, i, j)) && Bounded(islands, Incremented(nb, i, j))
  {
    var r := Incremented(nb, i, j);
    IncrementedDegrees(nb, i, j);
    forall a, b | 0 <= a < |r| && b in r[a]
      ensures 1 <= r[a][b] <= 2
    {
      if (a == i && b == j) || (a == j && b == i) {
        assert Mult(nb, i, j) == Mult(nb, j, i);
        assert Mult(r, a, b) == Mult(nb, a, b) + 1;
      } else {
        assert Mult(r, a, b) == Mult(nb, a, b);
      }
    }
  }

  /** Removing one bridge between two distinct islands keeps the maps consistent and
      never raises a degree. */
  lemma RemoveKeepsInvariants(islands: seq<Island>, nb: Neighbors, i: nat, j: nat)
    requires |islands| == |nb| && i < |nb| && j < |nb| && i != j
    requires Consistent(nb)
    ensures Consistent(Decremented(nb, i, j))
    ensures Bounded(islands, nb) ==> Bounded(islands, Decremented(nb, i, j))
  {
    var r := Decremented(nb, i, j);
    DecrementedDegrees(nb, i, j);
    assert j in nb[i] <==> i in nb[j] by {
      assert Mult(nb, i, j) == Mult(nb, j, i);
    }
    forall a, b | 0 <= a < |r| && b in r[a]
      ensures 1 <= r[a][b] <= 2
    {
      assert b in nb[a];
      if (a == i && b == j) || (a == j && b == i) {
        assert Mult(r, a, b) == Mult(nb, a, b) - 1;
      } else {
        assert Mult(r, a, b) == Mult(nb, a, b);
      }
    }
  }
}
