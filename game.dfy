/** The game object: the island arena built from the puzzle matrix, the bridge maps
    it edits in place and the status message it shows. */
module Game {
  import opened Islands
  import opened Layout
  import opened Moves

  /** Walks the matrix row by row, left to right, registering one island per
      positive cell both in the arena and in the coordinate index. */
  method ScanMatrix(matrix: seq<seq<int>>) returns (islands: seq<Island>, grid: Grid)
    ensures islands == IslandsOf(matrix) && grid == GridOf(islands)
    ensures Indexed(grid, islands)
  {
    islands, grid := [], map[];
    var r := 0;
    while r < |matrix|
      invariant 0 <= r <= |matrix|
      invariant islands == Scan(matrix, r) && grid == GridOf(islands)
    {
      var c := 0;
      while c < |matrix[r]|
        invariant 0 <= c <= |matrix[r]|
        invariant islands == Scan(matrix, r) + RowIslands(matrix[r], r, c)
        invariant grid == GridOf(islands)
      {
        ghost var before := islands;
        if matrix[r][c] > 0 {
          var island := Island(r, c, matrix[r][c]);
          grid := grid[(r, c) := |islands|];
          islands := islands + [island];
          assert islands[..|islands| - 1] == before;
        }
        assert RowIslands(matrix[r], r, c + 1) ==
          RowIslands(matrix[r], r, c) + (if matrix[r][c] > 0 then [Island(r, c, matrix[r][c])] else []);
        assert islands == Scan(matrix, r) + RowIslands(matrix[r], r, c + 1);
        c := c + 1;
      }
      assert Scan(matrix, r + 1) == Scan(matrix, r) + RowIslands(matrix[r], r, |matrix[r]|);
      r := r + 1;
    }
    ScanSound(matrix, |matrix|);
    GridOfIndexes(islands);
  }

  class HashiGame {
    const matrix: seq<seq<int>>
    const islands: seq<Island>
    const grid: Grid
    var neighbors: Neighbors
    var message: Message
    var messageColor: Color

    /** The board as a value: arena, index and bridge maps. */
    function State(): Board
      reads this
    {
      Board(islands, grid, neighbors)
    }

    ghost predicate Valid()
      reads this
    {
      State().Valid() && messageColor == ColorOf(message)
    }

    /** Builds the board for a puzzle: one island per positive cell, no bridges. */
    constructor (matrix: seq<seq<int>>)
      ensures Valid() && this.matrix == matrix
      ensures State() == InitialBoard(matrix)
      ensures Consistent(neighbors) && Bounded(islands, neighbors)
      ensures message == Prompt
    {
      var arena, index := ScanMatrix(matrix);
      this.matrix := matrix;
      islands, grid := arena, index;
      neighbors := seq(|arena|, _ => map[]);
      message, messageColor := Prompt, White;
      new;
      InitialBoardInvariants(matrix);
    }

    /** The island whose tile holds pixel (x, y), if any. */
    function GetIslandAtPos(x: int, y: int): (r: Option<nat>)
      requires Indexed(grid, islands)
      ensures r.Some? ==> r.value < |islands| && OnTile(islands[r.value].row, islands[r.value].col, x, y)
      ensures r.None? ==> forall k :: 0 <= k < |islands| ==> !OnTile(islands[k].row, islands[k].col, x, y)
    {
      var col := x / TileSize;
      var row := y / TileSize;
      var found := if (row, col) in grid then Some(grid[(row, col)]) else None;
      assert found.Some? ==> Pos(islands[found.value]) == (row, col) && CellAt(x, y) == (row, col);
      CellAtOnTile(x, y, row, col);
      assert forall k :: 0 <= k < |islands| && OnTile(islands[k].row, islands[k].col, x, y) ==>
        Pos(islands[k]) == (row, col) by {
        forall k | 0 <= k < |islands| && OnTile(islands[k].row, islands[k].col, x, y)
          ensures Pos(islands[k]) == (row, col)
        {
          CellAtOnTile(x, y, islands[k].row, islands[k].col);
        }
      }
      found
    }

    /** Whether islands `i` and `j` have a straight line between them with no island
        on it, and along which axis. */
    method FindPathIslands(i: nat, j: nat) returns (r: Option<Orientation>)
      requires i < |islands| && j < |islands|
      ensures r == Path(grid, islands[i], islands[j])
    {
      var p, q := islands[i], islands[j];
      if p.row == q.row {
        var row, lo, hi := p.row, Min(p.col, q.col), Max(p.col, q.col);
        var col := lo + 1;
        while col < hi
          invariant lo + 1 <= col <= Max(hi, lo + 1)
          invariant forall c :: lo < c < col ==> (row, c) !in grid
        {
          if (row, col) in grid {
            return None;
          }
          col := col + 1;
        }
        return Some(Horizontal);
      } else if p.col == q.col {
        var col, lo, hi := p.col, Min(p.row, q.row), Max(p.row, q.row);
        var row := lo + 1;
        while row < hi
          invariant lo + 1 <= row <= Max(hi, lo + 1)
          invariant forall r' :: lo < r' < row ==> (r', col) !in grid
        {
          if (row, col) in grid {
            return None;
          }
          row := row + 1;
        }
        return Some(Vertical);
      }
      return None;
    }

    /** Whether a bridge from `i` to `j` would intersect any bridge already recorded. */
    method CheckBridgeCrossing(i: nat, j: nat, intersect: Intersect) returns (crossed: bool)
      requires Valid() && i < |islands| && j < |islands|
      ensures crossed == Crosses(State(), i, j, intersect)
    {
      var a := 0;
      while a < |islands|
        invariant 0 <= a <= |islands|
        invariant forall a': nat, c: nat :: a' < a && HasBridge(neighbors, a', c) ==>
                    !intersect(islands[i], islands[j], islands[a'], islands[c])
      {
        var pending := neighbors[a].Keys;
        while pending != {}
          invariant pending <= neighbors[a].Keys
          invariant forall c: nat :: c in neighbors[a] && c !in pending && neighbors[a][c] != 0 ==>
                      !intersect(islands[i], islands[j], islands[a], islands[c])
          decreases pending
        {
          var c :| c in pending;
          var count := neighbors[a][c];
          if count != 0 && intersect(islands[i], islands[j], islands[a], islands[c]) {
            assert HasBridge(neighbors, a, c);
            return true;
          }
          pending := pending - {c};
        }
        a := a + 1;
      }
      return false;
    }

    /** Records one more bridge between `i` and `j` on both islands. */
    method AddBridge(i: nat, j: nat)
      requires i < |neighbors| && j < |neighbors|
      modifies this`neighbors
      ensures neighbors == Incremented(old(neighbors), i, j)
    {
      var mine: map<nat, int> := neighbors[i][j := Get(neighbors[i], j) + 1];
      neighbors := neighbors[i := mine];
      var theirs: map<nat, int> := neighbors[j][i := Get(neighbors[j], i) + 1];
      neighbors := neighbors[j := theirs];
    }

    /** Removes one bridge between `i` and `j` from each island that records one,
        deleting an entry once it reaches zero. */
    method RemoveBridge(i: nat, j: nat)
      requires i < |neighbors| && j < |neighbors|
      modifies this`neighbors
      ensures neighbors == Decremented(old(neighbors), i, j)
    {
      var mine := neighbors[i];
      if j in mine {
        mine := mine[j := mine[j] - 1];
        if mine[j] == 0 {
          assert mine - {j} == neighbors[i] - {j};
          mine := mine - {j};
        }
      }
      neighbors := neighbors[i := mine];
      var theirs := neighbors[j];
      if i in theirs {
        theirs := theirs[i := theirs[i] - 1];
        if theirs[i] == 0 {
          assert theirs - {i} == neighbors[j] - {i};
          theirs := theirs - {i};
        }
      }
      neighbors := neighbors[j := theirs];
    }

    /** One click on the pair (i, j): lays, doubles or removes a bridge, or rejects
        the move, and reports the outcome in the status message. */
    method ToggleBridge(i: nat, j: nat, intersect: Intersect) returns (accepted: bool)
      requires Valid() && i < |islands| && j < |islands|
      modifies this`neighbors, this`message, this`messageColor
      ensures Valid()
      ensures Step(message, State()) == Toggle(old(State()), i, j, intersect)
      ensures accepted == Accepted(message)
      ensures !accepted ==> neighbors == old(neighbors)
      ensures i != j && old(Consistent(neighbors) && Bounded(islands, neighbors)) ==>
                Consistent(neighbors) && Bounded(islands, neighbors)
    {
      ghost var before := State();
      if i != j && Consistent(neighbors) && Bounded(islands, neighbors) {
        ToggleKeepsInvariants(before, i, j, intersect);
      }
      var path := FindPathIslands(i, j);
      if path.None? {
        message, messageColor := InvalidPath, Red;
        return false;
      }
      if Get(neighbors[i], j) == 0 {
        accepted := LayBridge(i, j, intersect);
      } else {
        accepted := ReworkBridge(i, j, intersect);
      }
    }

    /** The branch of a toggle on an aligned pair with no bridge yet: refuse a
        crossing or a pair without headroom, otherwise lay one bridge. */
    method LayBridge(i: nat, j: nat, intersect: Intersect) returns (accepted: bool)
      requires Valid() && i < |islands| && j < |islands|
      requires Path(grid, islands[i], islands[j]).Some? && Get(neighbors[i], j) == 0
      modifies this`neighbors, this`message, this`messageColor
      ensures Valid()
      ensures Step(message, State()) == Toggle(old(State()), i, j, intersect)
      ensures accepted == Accepted(message)
    {
      var crossed := CheckBridgeCrossing(i, j, intersect);
      if crossed {
        message, messageColor := Crossing, Red;
        return false;
      }
      if CanAddBridge(islands, neighbors, i, j) {
        AddBridge(i, j);
        message, messageColor := Added, Green;
        return true;
      }
      message, messageColor := DegreeViolated, Red;
      return false;
    }

    /** The branch of a toggle on an aligned pair that already has a bridge: double
        a single bridge when both ends have headroom, otherwise take bridges away. */
    method ReworkBridge(i: nat, j: nat, intersect: Intersect) returns (accepted: bool)
      requires Valid() && i < |islands| && j < |islands|
      requires Path(grid, islands[i], islands[j]).Some? && Get(neighbors[i], j) != 0
      modifies this`neighbors, this`message, this`messageColor
      ensures Valid()
      ensures Step(message, State()) == Toggle(old(State()), i, j, intersect)
      ensures accepted
    {
      if Get(neighbors[i], j) == 1 {
        if CanAddBridge(islands, neighbors, i, j) {
          AddBridge(i, j);
          message, messageColor := Doubled, Green;
        } else {
          RemoveBridge(i, j);
          message, messageColor := Removed, Yellow;
        }
      } else {
        RemoveBridge(i, j);
        RemoveBridge(i, j);
        message, messageColor := AllRemoved, Yellow;
      }
      return true;
    }
  }
}
