/** The bridge-toggle rules: what one click on a pair of islands does to the board
    and which status message it reports. */
module Moves {
  import opened Islands
  import opened Layout

  /** The status line shown to the player. */
  datatype Message =
    | Prompt          // initial invitation to click islands
    | InvalidPath     // not on one row or column, or an island in between
    | Crossing        // the new bridge would cross an existing one
    | DegreeViolated  // no degree headroom for a first bridge
    | Added           // first bridge laid
    | Doubled         // second bridge laid
    | Removed         // single bridge taken away because it could not be doubled
    | AllRemoved      // double bridge taken away

  datatype Color = White | Red | Green | Yellow

  /** The colour each message is shown in. */
  function ColorOf(m: Message): Color
  {
    match m
    case Prompt => White
    case InvalidPath | Crossing | DegreeViolated => Red
    case Added | Doubled => Green
    case Removed | AllRemoved => Yellow
  }

  /** The messages of a toggle that reports success. */
  predicate Accepted(m: Message)
  {
    m.Added? || m.Doubled? || m.Removed? || m.AllRemoved?
  }

  /** The geometric test for two bridges, each given by its two end islands. The
      model keeps it abstract: it is a parameter wherever crossings matter. */
  type Intersect = (Island, Island, Island, Island) -> bool

  /** Island `a` records a non-zero bridge count for island `c`. */
  ghost predicate HasBridge(nb: Neighbors, a: nat, c: nat)
  {
    a < |nb| && c in nb[a] && nb[a][c] != 0
  }

  /** A bridge from island `i` to island `j` would intersect some existing bridge,
      as seen from either of its recorded ends. */
  ghost predicate Crosses(b: Board, i: nat, j: nat, intersect: Intersect)
    requires b.Valid() && i < |b.islands| && j < |b.islands|
  {
    exists a: nat, c: nat {:trigger HasBridge(b.neighbors, a, c)} :: HasBridge(b.neighbors, a, c)
      && intersect(b.islands[i], b.islands[j], b.islands[a], b.islands[c])
  }

  datatype Step = Step(message: Message, board: Board)

  /** One toggle of the pair (i, j). With no straight path the move is rejected.
      With no bridge yet, a crossing or missing degree headroom rejects it and
      otherwise one bridge is laid. With one bridge, it is doubled when there is
      headroom and removed when there is not. Any other count is removed twice. */
  ghost function Toggle(b: Board, i: nat, j: nat, intersect: Intersect): (s: Step)
    requires b.Valid() && i < |b.islands| && j < |b.islands|
    ensures s.board.Valid() && s.board.islands == b.islands && s.board.grid == b.grid
    ensures !Accepted(s.message) ==> s.board == b
    ensures Accepted(s.message) ==> Path(b.grid, b.islands[i], b.islands[j]).Some?
    ensures ColorOf(s.message) != White
  {
    var nb := b.neighbors;
    if Path(b.grid, b.islands[i], b.islands[j]).None? then Step(InvalidPath, b)
    else
      var current := Get(nb[i], j);
      if current == 0 then
        if Crosses(b, i, j, intersect) then Step(Crossing, b)
        else if CanAddBridge(b.islands, nb, i, j) then Step(Added, b.(neighbors := Incremented(nb, i, j)))
        else Step(DegreeViolated, b)
      else if current == 1 then
        if CanAddBridge(b.islands, nb, i, j) then Step(Doubled, b.(neighbors := Incremented(nb, i, j)))
        else Step(Removed, b.(neighbors := Decremented(nb, i, j)))
      else
        Step(AllRemoved, b.(neighbors := Decremented(Decremented(nb, i, j), i, j)))
  }

  /** A move is accepted exactly when its message is not shown in red. */
  lemma AcceptedIffNotRed(b: Board, i: nat, j: nat, intersect: Intersect)
    requires b.Valid() && i < |b.islands| && j < |b.islands|
    ensures var s := Toggle(b, i, j, intersect);
      Accepted(s.message) <==> ColorOf(s.message) != Red
  {
  }

  /** A pair sharing neither row nor column is refused as an invalid path and the
      board is left as it was. */
  lemma MisalignedIsInvalid(b: Board, i: nat, j: nat, intersect: Intersect)
    requires b.Valid() && i < |b.islands| && j < |b.islands|
    requires b.islands[i].row != b.islands[j].row && b.islands[i].col != b.islands[j].col
    ensures Toggle(b, i, j, intersect) == Step(InvalidPath, b)
  {
  }

  /** Rejections happen only on a missing path or while there is no bridge yet. */
  lemma RejectionsNeedNoBridge(b: Board, i: nat, j: nat, intersect: Intersect)
    requires b.Valid() && i < |b.islands| && j < |b.islands|
    ensures var s := Toggle(b, i, j, intersect);
      !Accepted(s.message) ==>
        Path(b.grid, b.islands[i], b.islands[j]).None? || Mult(b.neighbors, i, j) == 0
  {
  }

  // ---------------------------------------------------------------------------
  // Invariants kept by every toggle of two distinct islands
  // ---------------------------------------------------------------------------

  /** Toggling two distinct islands keeps the bridge maps consistent (counts 1 or 2,
      no stored zero, both ends agreeing) and every degree within its requirement. */
  lemma ToggleKeepsInvariants(b: Board, i: nat, j: nat, intersect: Intersect)
    requires b.Valid() && i < |b.islands| && j < |b.islands| && i != j
    requires Consistent(b.neighbors) && Bounded(b.islands, b.neighbors)
    ensures var s := Toggle(b, i, j, intersect);
      Consistent(s.board.neighbors) && Bounded(s.board.islands, s.board.neighbors)
  {
    var nb := b.neighbors;
    if Path(b.grid, b.islands[i], b.islands[j]).Some? {
      var current := Get(nb[i], j);
      if current == 0 || current == 1 {
        if CanAddBridge(b.islands, nb, i, j) {
          CheckedAddKeepsInvariants(b.islands, nb, i, j);
        } else if current == 1 {
          RemoveKeepsInvariants(b.islands, nb, i, j);
        }
      } else {
        RemoveKeepsInvariants(b.islands, nb, i, j);
        RemoveKeepsInvariants(b.islands, Decremented(nb, i, j), i, j);
      }
    }
  }

  /** From no bridge, with room on both islands for two more, three toggles lay one
      bridge, double it and remove both, giving back the starting board. */
  lemma {:induction false} ToggleCycle(b: Board, i: nat, j: nat, intersect: Intersect)
    requires b.Valid() && i < |b.islands| && j < |b.islands| && i != j
    requires Consistent(b.neighbors)
    requires Path(b.grid, b.islands[i], b.islands[j]).Some?
    requires Mult(b.neighbors, i, j) == 0 && !Crosses(b, i, j, intersect)
    requires Degree(b.neighbors, i) + 2 <= b.islands[i].required
    requires Degree(b.neighbors, j) + 2 <= b.islands[j].required
    ensures var s1 := Toggle(b, i, j, intersect);
      var s2 := Toggle(s1.board, i, j, intersect);
      var s3 := Toggle(s2.board, i, j, intersect);
      s1.message == Added && s2.message == Doubled && s3.message == AllRemoved && s3.board == b
  {
    var nb := b.neighbors;
    assert Mult(nb, j, i) == 0;
    var nb1 := Incremented(nb, i, j);
    IncrementedDegrees(nb, i, j);
    var nb2 := Incremented(nb1, i, j);
    IncrementedDegrees(nb1, i, j);
    var s1 := Toggle(b, i, j, intersect);
    assert s1 == Step(Added, b.(neighbors := nb1));
    var s2 := Toggle(s1.board, i, j, intersect);
    assert s2 == Step(Doubled, b.(neighbors := nb2));
    RemoveUndoesAdd(nb1, i, j);
    RemoveUndoesAdd(nb, i, j);
  }

  /** From no bridge, when one island has room for only one more bridge, two toggles
      lay a bridge and take it away again, giving back the starting board. */
  lemma {:induction false} ToggleCycleSaturated(b: Board, i: nat, j: nat, intersect: Intersect)
    requires b.Valid() && i < |b.islands| && j < |b.islands| && i != j
    requires Consistent(b.neighbors)
    requires Path(b.grid, b.islands[i], b.islands[j]).Some?
    requires Mult(b.neighbors, i, j) == 0 && !Crosses(b, i, j, intersect)
    requires Degree(b.neighbors, i) < b.islands[i].required
    requires Degree(b.neighbors, j) < b.islands[j].required
    requires Degree(b.neighbors, i) + 1 == b.islands[i].required
          || Degree(b.neighbors, j) + 1 == b.islands[j].required
    ensures var s1 := Toggle(b, i, j, intersect);
      var s2 := Toggle(s1.board, i, j, intersect);
      s1.message == Added && s2.message == Removed && s2.board == b
  {
    var nb := b.neighbors;
    assert Mult(nb, j, i) == 0;
    var nb1 := Incremented(nb, i, j);
    IncrementedDegrees(nb, i, j);
    var s1 := Toggle(b, i, j, intersect);
    assert s1 == Step(Added, b.(neighbors := nb1));
    RemoveUndoesAdd(nb, i, j);
  }

  /** One click on two distinct islands of a consistent board, in terms of the bridge
      count between them: refused without a straight path; from 0, one bridge unless
      a crossing or missing headroom refuses it; from 1, doubled with headroom and
      removed without; from 2, removed. Both islands always record the same count. */
  lemma ToggleMultiplicity(b: Board, i: nat, j: nat, intersect: Intersect)
    requires b.Valid() && i < |b.islands| && j < |b.islands| && i != j
    requires Consistent(b.neighbors)
    ensures var s := Toggle(b, i, j, intersect);
      var m, m' := Mult(b.neighbors, i, j), Mult(s.board.neighbors, i, j);
      && Mult(s.board.neighbors, j, i) == m'
      && (Path(b.grid, b.islands[i], b.islands[j]).None? ==> s.message == InvalidPath && m' == m)
      && (Path(b.grid, b.islands[i], b.islands[j]).Some? ==>
            && (m == 0 && Crosses(b, i, j, intersect) ==> s.message == Crossing && m' == 0)
            && (m == 0 && !Crosses(b, i, j, intersect) && CanAddBridge(b.islands, b.neighbors, i, j) ==>
                  s.message == Added && m' == 1)
            && (m == 0 && !Crosses(b, i, j, intersect) && !CanAddBridge(b.islands, b.neighbors, i, j) ==>
                  s.message == DegreeViolated && m' == 0)
            && (m == 1 && CanAddBridge(b.islands, b.neighbors, i, j) ==> s.message == Doubled && m' == 2)
            && (m == 1 && !CanAddBridge(b.islands, b.neighbors, i, j) ==> s.message == Removed && m' == 0)
            && (m == 2 ==> s.message == AllRemoved && m' == 0))
  {
  }

  // ---------------------------------------------------------------------------
  // No crossings
  // ---------------------------------------------------------------------------

  /** No two recorded bridges intersect. */
  ghost predicate CrossingFree(b: Board, intersect: Intersect)
    requires b.Valid()
  {
    forall a: nat, c: nat, d: nat, e: nat {:trigger HasBridge(b.neighbors, a, c), HasBridge(b.neighbors, d, e)} ::
      HasBridge(b.neighbors, a, c) && HasBridge(b.neighbors, d, e) ==>
      !intersect(b.islands[a], b.islands[c], b.islands[d], b.islands[e])
  }

  /** What any intersection test of two segments satisfies: the order of the two
      bridges and of a bridge's two ends does not matter, and a bridge does not
      cross itself. */
  ghost predicate SegmentTest(intersect: Intersect)
  {
    && (forall p, q, r, t :: intersect(p, q, r, t) == intersect(r, t, p, q))
    && (forall p, q, r, t :: intersect(p, q, r, t) == intersect(q, p, r, t))
    && (forall p, q :: !intersect(p, q, p, q))
  }

  /** Bridges present after the toggle were already present, or join i and j. */
  lemma ToggleBridges(b: Board, i: nat, j: nat, intersect: Intersect)
    requires b.Valid() && i < |b.islands| && j < |b.islands| && i != j
    requires Consistent(b.neighbors)
    ensures var s := Toggle(b, i, j, intersect);
      forall a: nat, c: nat :: HasBridge(s.board.neighbors, a, c) ==>
        HasBridge(b.neighbors, a, c) || (a == i && c == j) || (a == j && c == i)
  {
    var nb := b.neighbors;
    var s := Toggle(b, i, j, intersect);
    forall a: nat, c: nat | HasBridge(s.board.neighbors, a, c)
      ensures HasBridge(nb, a, c) || (a == i && c == j) || (a == j && c == i)
    {
      if !((a == i && c == j) || (a == j && c == i)) {
        assert Mult(s.board.neighbors, a, c) == Mult(nb, a, c);
      }
    }
  }

  /** Taking bridges away cannot create a crossing. */
  lemma FewerBridgesCrossingFree(b: Board, b2: Board, intersect: Intersect)
    requires b.Valid() && b2.Valid() && b2.islands == b.islands && CrossingFree(b, intersect)
    requires forall a: nat, c: nat :: HasBridge(b2.neighbors, a, c) ==> HasBridge(b.neighbors, a, c)
    ensures CrossingFree(b2, intersect)
  {
  }

  /** Laying a bridge between `i` and `j` that crosses no existing bridge keeps the
      board free of crossings. */
  lemma NewBridgeCrossingFree(b: Board, b2: Board, i: nat, j: nat, intersect: Intersect)
    requires b.Valid() && b2.Valid() && b2.islands == b.islands && i < |b.islands| && j < |b.islands|
    requires SegmentTest(intersect) && CrossingFree(b, intersect) && !Crosses(b, i, j, intersect)
    requires forall a: nat, c: nat :: HasBridge(b2.neighbors, a, c) ==>
               HasBridge(b.neighbors, a, c) || (a == i && c == j) || (a == j && c == i)
    ensures CrossingFree(b2, intersect)
  {
    var isl := b.islands;
    var p, q := isl[i], isl[j];
    forall a: nat, c: nat | HasBridge(b.neighbors, a, c)
      ensures ApartFrom(intersect, p, q, isl[a], isl[c])
    {
      assert !intersect(p, q, isl[a], isl[c]);
      EndsInterchangeable(intersect, p, q, isl[a], isl[c]);
    }
    SelfNotCrossing(intersect, p, q);
    AddedBridgeCrossingFree(b, b2, i, j, intersect);
  }

  /** Neither way round does the bridge p-q meet the bridge r-t. */
  ghost predicate ApartFrom(intersect: Intersect, p: Island, q: Island, r: Island, t: Island)
  {
    && !intersect(p, q, r, t) && !intersect(q, p, r, t)
    && !intersect(r, t, p, q) && !intersect(r, t, q, p)
  }

  lemma AddedBridgeCrossingFree(b: Board, b2: Board, i: nat, j: nat, intersect: Intersect)
    requires b.Valid() && b2.Valid() && b2.islands == b.islands && i < |b.islands| && j < |b.islands|
    requires CrossingFree(b, intersect)
    requires forall a: nat, c: nat :: HasBridge(b.neighbors, a, c) ==>
               ApartFrom(intersect, b.islands[i], b.islands[j], b.islands[a], b.islands[c])
    requires ApartFrom(intersect, b.islands[i], b.islands[j], b.islands[i], b.islands[j])
    requires ApartFrom(intersect, b.islands[j], b.islands[i], b.islands[j], b.islands[i])
    requires forall a: nat, c: nat :: HasBridge(b2.neighbors, a, c) ==>
               HasBridge(b.neighbors, a, c) || (a == i && c == j) || (a == j && c == i)
    ensures CrossingFree(b2, intersect)
  {
    var isl := b.islands;
    forall a: nat, c: nat, d: nat, e: nat | HasBridge(b2.neighbors, a, c) && HasBridge(b2.neighbors, d, e)
      ensures !intersect(isl[a], isl[c], isl[d], isl[e])
    {
      var newAC := (a == i && c == j) || (a == j && c == i);
      var newDE := (d == i && e == j) || (d == j && e == i);
      if newAC && newDE {
      } else if newAC {
        assert HasBridge(b.neighbors, d, e);
      } else if newDE {
        assert HasBridge(b.neighbors, a, c);
      } else {
        assert HasBridge(b.neighbors, a, c) && HasBridge(b.neighbors, d, e);
      }
    }
  }

  lemma EndsInterchangeable(intersect: Intersect, p: Island, q: Island, r: Island, t: Island)
    requires SegmentTest(intersect)
    ensures intersect(p, q, r, t) == intersect(q, p, r, t) == intersect(r, t, p, q) == intersect(r, t, q, p)
  {
  }

  lemma SelfNotCrossing(intersect: Intersect, p: Island, q: Island)
    requires SegmentTest(intersect)
    ensures ApartFrom(intersect, p, q, p, q) && ApartFrom(intersect, q, p, q, p)
  {
    assert intersect(p, q, q, p) == intersect(q, p, q, p);
    assert intersect(q, p, p, q) == intersect(p, q, p, q);
  }

  /** A toggle of two distinct islands never creates a crossing, for any
      intersection test that behaves like one on segments. */
  lemma ToggleKeepsCrossingFree(b: Board, i: nat, j: nat, intersect: Intersect)
    requires b.Valid() && i < |b.islands| && j < |b.islands| && i != j
    requires Consistent(b.neighbors) && SegmentTest(intersect) && CrossingFree(b, intersect)
    ensures CrossingFree(Toggle(b, i, j, intersect).board, intersect)
  {
    var s := Toggle(b, i, j, intersect);
    var nb := b.neighbors;
    ToggleBridges(b, i, j, intersect);
    if s.message == Added {
      NewBridgeCrossingFree(b, s.board, i, j, intersect);
    } else {
      if s.message == Doubled {
        assert HasBridge(nb, i, j) && HasBridge(nb, j, i) by {
          assert Mult(nb, i, j) == 1 == Mult(nb, j, i);
        }
      }
      FewerBridgesCrossingFree(b, s.board, intersect);
    }
  }

  // ---------------------------------------------------------------------------
  // Sequences of moves
  // ---------------------------------------------------------------------------

  /** Every move names two islands of the arena. */
  ghost predicate MovesOn(b: Board, moves: seq<(nat, nat)>)
  {
    forall k :: 0 <= k < |moves| ==> moves[k].0 < |b.islands| && moves[k].1 < |b.islands|
  }

  /** The board after the player toggles each pair of `moves` in turn. */
  ghost function Play(b: Board, moves: seq<(nat, nat)>, intersect: Intersect): (r: Board)
    requires b.Valid() && MovesOn(b, moves)
    ensures r.Valid() && r.islands == b.islands && r.grid == b.grid
    decreases |moves|
  {
    if moves == [] then b
    else Play(Toggle(b, moves[0].0, moves[0].1, intersect).board, moves[1..], intersect)
  }

  /** Any sequence of toggles, each on two distinct islands, keeps the bridge maps
      consistent and every degree within its requirement. */
  lemma {:induction false} PlayKeepsInvariants(b: Board, moves: seq<(nat, nat)>, intersect: Intersect)
    requires b.Valid() && MovesOn(b, moves)
    requires forall k :: 0 <= k < |moves| ==> moves[k].0 != moves[k].1
    requires Consistent(b.neighbors) && Bounded(b.islands, b.neighbors)
    ensures var r := Play(b, moves, intersect);
      Consistent(r.neighbors) && Bounded(r.islands, r.neighbors)
    decreases |moves|
  {
    if moves != [] {
      var i, j := moves[0].0, moves[0].1;
      var next := Toggle(b, i, j, intersect).board;
      ToggleKeepsInvariants(b, i, j, intersect);
      assert MovesOn(next, moves[1..]);
      PlayKeepsInvariants(next, moves[1..], intersect);
    }
  }

  /** Any sequence of toggles, each on two distinct islands, keeps the bridges free
      of crossings, for a segment-like intersection test. */
  lemma {:induction false} PlayKeepsCrossingFree(b: Board, moves: seq<(nat, nat)>, intersect: Intersect)
    requires b.Valid() && MovesOn(b, moves)
    requires forall k :: 0 <= k < |moves| ==> moves[k].0 != moves[k].1
    requires Consistent(b.neighbors) && Bounded(b.islands, b.neighbors)
    requires SegmentTest(intersect) && CrossingFree(b, intersect)
    ensures CrossingFree(Play(b, moves, intersect), intersect)
    decreases |moves|
  {
    if moves != [] {
      var i, j := moves[0].0, moves[0].1;
      var next := Toggle(b, i, j, intersect).board;
      ToggleKeepsInvariants(b, i, j, intersect);
      ToggleKeepsCrossingFree(b, i, j, intersect);
      assert MovesOn(next, moves[1..]);
      PlayKeepsCrossingFree(next, moves[1..], intersect);
    }
  }

  /** The fresh board satisfies the invariants: no bridges at all. */
  lemma InitialBoardInvariants(matrix: seq<seq<int>>)
    ensures var b := InitialBoard(matrix);
      Consistent(b.neighbors) && Bounded(b.islands, b.neighbors)
  {
    var b := InitialBoard(matrix);
    InitialBoardShape(matrix);
    ScanSound(matrix, |matrix|);
    assert forall a :: 0 <= a < |b.neighbors| ==> b.neighbors[a] == map[];
    forall a | 0 <= a < |b.neighbors|
      ensures Degree(b.neighbors, a) == 0
    {
      SumToEmpty(|b.neighbors|);
    }
  }

  /** A freshly built board has no bridges, so none of them can cross, whatever the
      intersection test. */
  lemma InitialBoardCrossingFree(matrix: seq<seq<int>>, intersect: Intersect)
    ensures CrossingFree(InitialBoard(matrix), intersect)
  {
    var b := InitialBoard(matrix);
    assert forall a :: 0 <= a < |b.neighbors| ==> b.neighbors[a] == map[];
    assert forall a: nat, c: nat :: !HasBridge(b.neighbors, a, c);
  }

  /** On a freshly built board, the first click on two distinct islands with a clear
      straight line between them lays exactly one bridge: nothing can cross yet and
      every island requires at least one bridge. */
  lemma FirstToggleAdds(matrix: seq<seq<int>>, i: nat, j: nat, intersect: Intersect)
    requires var b := InitialBoard(matrix);
      i < |b.islands| && j < |b.islands| && i != j && Path(b.grid, b.islands[i], b.islands[j]).Some?
    ensures var b := InitialBoard(matrix);
      var s := Toggle(b, i, j, intersect);
      s.message == Added && Mult(s.board.neighbors, i, j) == 1 && Mult(s.board.neighbors, j, i) == 1
  {
    var b := InitialBoard(matrix);
    ScanSound(matrix, |matrix|);
    assert b.neighbors[i] == map[] && b.neighbors[j] == map[];
    SumToEmpty(|b.neighbors|);
    assert !Crosses(b, i, j, intersect);
    assert CanAddBridge(b.islands, b.neighbors, i, j);
  }

  /** Every board a player can reach from the puzzle by toggling pairs of distinct
      islands keeps consistent bridge maps, degrees within requirements and, for a
      segment-like intersection test, no crossings. */
  lemma ReachableBoards(matrix: seq<seq<int>>, moves: seq<(nat, nat)>, intersect: Intersect)
    requires MovesOn(InitialBoard(matrix), moves)
    requires forall k :: 0 <= k < |moves| ==> moves[k].0 != moves[k].1
    ensures var r := Play(InitialBoard(matrix), moves, intersect);
      Consistent(r.neighbors) && Bounded(r.islands, r.neighbors)
      && (SegmentTest(intersect) ==> CrossingFree(r, intersect))
  {
    InitialBoardInvariants(matrix);
    InitialBoardCrossingFree(matrix, intersect);
    PlayKeepsInvariants(InitialBoard(matrix), moves, intersect);
    if SegmentTest(intersect) {
      PlayKeepsCrossingFree(InitialBoard(matrix), moves, intersect);
    }
  }
}
