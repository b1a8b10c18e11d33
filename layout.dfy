/** The board's geometry: building the island arena from the puzzle matrix, the
    coordinate index, pixel-to-cell lookup and the straight-line test. */
module Layout {
  import opened Islands

  datatype Option<T> = None | Some(value: T)

  /** The direction of a legal bridge: along a row or along a column. */
  datatype Orientation = Horizontal | Vertical

  /** The coordinate index: a (row, col) cell to the arena index of its island. */
  type Grid = map<(int, int), nat>

  /** Side of one grid cell, in pixels. */
  const TileSize: int := 80

  function Pos(isl: Island): (int, int)
  {
    (isl.row, isl.col)
  }

  /** Row-major order of cells. */
  predicate Before(a: Island, b: Island)
  {
    a.row < b.row || (a.row == b.row && a.col < b.col)
  }

  ghost predicate RowMajor(s: seq<Island>)
  {
    forall k, l :: 0 <= k < l < |s| ==> Before(s[k], s[l])
  }

  /** `grid` indexes exactly the islands of the arena, each under its own cell. */
  ghost predicate Indexed(grid: Grid, islands: seq<Island>)
  {
    && (forall k :: 0 <= k < |islands| ==> Pos(islands[k]) in grid && grid[Pos(islands[k])] == k)
    && (forall p :: p in grid ==> grid[p] < |islands| && Pos(islands[grid[p]]) == p)
  }

  /** The whole puzzle state: the arena, its index and the bridge maps. */
  datatype Board = Board(islands: seq<Island>, grid: Grid, neighbors: Neighbors)
  {
    ghost predicate Valid()
    {
      |neighbors| == |islands| && KeysInArena(neighbors) && Indexed(grid, islands)
    }
  }

  // ---------------------------------------------------------------------------
  // Construction
  // ---------------------------------------------------------------------------

  /** The islands of row `r` among its first `n` cells, left to right: one per
      positive cell. */
  function RowIslands(cells: seq<int>, r: int, n: nat): seq<Island>
    requires n <= |cells|
  {
    if n == 0 then []
    else RowIslands(cells, r, n - 1) + (if cells[n - 1] > 0 then [Island(r, n - 1, cells[n - 1])] else [])
  }

  /** The islands of the first `n` rows of `matrix`, in row-major order. */
  function Scan(matrix: seq<seq<int>>, n: nat): seq<Island>
    requires n <= |matrix|
  {
    if n == 0 then [] else Scan(matrix, n - 1) + RowIslands(matrix[n - 1], n - 1, |matrix[n - 1]|)
  }

  /** Each island of a row scan sits on a positive cell of that row, carries the
      cell's value, and the islands run left to right. */
  lemma {:induction false} RowIslandsSound(cells: seq<int>, r: int, n: nat)
    requires n <= |cells|
    ensures var s := RowIslands(cells, r, n);
      && (forall k :: 0 <= k < |s| ==> s[k].row == r && 0 <= s[k].col < n && s[k].required == cells[s[k].col] > 0)
      && RowMajor(s)
  {
    if n > 0 {
      RowIslandsSound(cells, r, n - 1);
    }
  }

  /** Each island of a scan sits on a positive cell of the scanned rows, carries the
      cell's value, and the islands come in row-major order. */
  lemma {:induction false} ScanSound(matrix: seq<seq<int>>, n: nat)
    requires n <= |matrix|
    ensures var s := Scan(matrix, n);
      && (forall k :: 0 <= k < |s| ==>
            && 0 <= s[k].row < n && 0 <= s[k].col < |matrix[s[k].row]|
            && s[k].required == matrix[s[k].row][s[k].col] > 0)
      && RowMajor(s)
  {
    if n > 0 {
      ScanSound(matrix, n - 1);
      RowIslandsSound(matrix[n - 1], n - 1, |matrix[n - 1]|);
      var prefix, last := Scan(matrix, n - 1), RowIslands(matrix[n - 1], n - 1, |matrix[n - 1]|);
      assert forall k, l :: 0 <= k < |prefix| && 0 <= l < |last| ==> Before(prefix[k], last[l]);
    }
  }

  function IslandsOf(matrix: seq<seq<int>>): seq<Island>
  {
    Scan(matrix, |matrix|)
  }

  /** The index built by registering the islands one after another. */
  function GridOf(islands: seq<Island>): Grid
  {
    if |islands| == 0 then map[]
    else GridOf(islands[..|islands| - 1])[Pos(islands[|islands| - 1]) := |islands| - 1]
  }

  /** The board just after construction: no bridges at all. */
  function InitialBoard(matrix: seq<seq<int>>): (b: Board)
    ensures b.Valid()
  {
    var islands := IslandsOf(matrix);
    ScanSound(matrix, |matrix|);
    GridOfIndexes(islands);
    Board(islands, GridOf(islands), seq(|islands|, _ => map[]))
  }

  /** Registering row-major islands one by one indexes each under its own cell. */
  lemma {:induction false} GridOfIndexes(islands: seq<Island>)
    requires RowMajor(islands)
    ensures Indexed(GridOf(islands), islands)
  {
    if |islands| > 0 {
      var n := |islands| - 1;
      var prefix := islands[..n];
      GridOfIndexes(prefix);
      assert forall k :: 0 <= k < n ==> Pos(prefix[k]) != Pos(islands[n]) by {
        assert forall k :: 0 <= k < n ==> Before(islands[k], islands[n]);
      }
    }
  }

  /** Every positive cell of a row yields an island. */
  lemma {:induction false} RowIslandsComplete(cells: seq<int>, r: int, n: nat, c: nat)
    requires c < n <= |cells| && cells[c] > 0
    ensures Island(r, c, cells[c]) in RowIslands(cells, r, n)
  {
    if c < n - 1 {
      RowIslandsComplete(cells, r, n - 1, c);
    }
  }

  /** Every positive cell of the first `n` rows yields an island. */
  lemma {:induction false} ScanComplete(matrix: seq<seq<int>>, n: nat, r: nat, c: nat)
    requires r < n <= |matrix| && c < |matrix[r]| && matrix[r][c] > 0
    ensures Island(r, c, matrix[r][c]) in Scan(matrix, n)
  {
    if r < n - 1 {
      ScanComplete(matrix, n - 1, r, c);
    } else {
      RowIslandsComplete(matrix[r], r, |matrix[r]|, c);
    }
  }

  /** Construction yields exactly one island per positive cell, in row-major order,
      each carrying the cell's value as its required degree, and the index finds
      each under its own cell. Zero and negative cells yield none. */
  lemma InitialBoardShape(matrix: seq<seq<int>>)
    ensures var b := InitialBoard(matrix);
      && b.Valid() && RowMajor(b.islands)
      && (forall r, c :: 0 <= r < |matrix| && 0 <= c < |matrix[r]| ==>
            ((r, c) in b.grid <==> matrix[r][c] > 0))
      && (forall p :: p in b.grid ==>
            && 0 <= p.0 < |matrix| && 0 <= p.1 < |matrix[p.0]|
            && b.islands[b.grid[p]] == Island(p.0, p.1, matrix[p.0][p.1]))
  {
    var b := InitialBoard(matrix);
    var islands := b.islands;
    ScanSound(matrix, |matrix|);
    GridOfIndexes(islands);
    forall p | p in b.grid
      ensures 0 <= p.0 < |matrix| && 0 <= p.1 < |matrix[p.0]|
      ensures islands[b.grid[p]] == Island(p.0, p.1, matrix[p.0][p.1]) && matrix[p.0][p.1] > 0
    {
      var k := b.grid[p];
      assert Pos(islands[k]) == p;
    }
    forall r, c | 0 <= r < |matrix| && 0 <= c < |matrix[r]| && matrix[r][c] > 0
      ensures (r, c) in b.grid
    {
      ScanComplete(matrix, |matrix|, r, c);
      var k :| 0 <= k < |islands| && islands[k] == Island(r, c, matrix[r][c]);
      assert Pos(islands[k]) == (r, c);
    }
  }

  // ---------------------------------------------------------------------------
  // Pixel lookup
  // ---------------------------------------------------------------------------

  /** The cell under a pixel: row from `y`, column from `x`, both rounded down. */
  function CellAt(x: int, y: int): (int, int)
  {
    (y / TileSize, x / TileSize)
  }

  /** Whether pixel (x, y) lies on the tile of cell (row, col). */
  predicate OnTile(row: int, col: int, x: int, y: int)
  {
    col * TileSize <= x < col * TileSize + TileSize && row * TileSize <= y < row * TileSize + TileSize
  }

  /** `CellAt` names the one cell whose tile holds the pixel. */
  lemma CellAtOnTile(x: int, y: int, row: int, col: int)
    ensures CellAt(x, y) == (row, col) <==> OnTile(row, col, x, y)
  {
    assert x == TileSize * (x / TileSize) + x % TileSize;
    assert y == TileSize * (y / TileSize) + y % TileSize;
  }

  // ---------------------------------------------------------------------------
  // Straight unobstructed line between two islands
  // ---------------------------------------------------------------------------

  function Min(a: int, b: int): int { if a <= b then a else b }
  function Max(a: int, b: int): int { if a <= b then b else a }

  /** No indexed cell of row `row` lies strictly between columns `lo` and `hi`. */
  predicate RowClear(grid: Grid, row: int, lo: int, hi: int)
  {
    forall c :: lo < c < hi ==> (row, c) !in grid
  }

  /** No indexed cell of column `col` lies strictly between rows `lo` and `hi`. */
  predicate ColClear(grid: Grid, col: int, lo: int, hi: int)
  {
    forall r :: lo < r < hi ==> (r, col) !in grid
  }

  /** The orientation of a bridge from `p` to `q`, or None when they share neither
      row nor column or an island stands between them. A shared row is tried first. */
  function Path(grid: Grid, p: Island, q: Island): Option<Orientation>
  {
    if p.row == q.row then
      if RowClear(grid, p.row, Min(p.col, q.col), Max(p.col, q.col)) then Some(Horizontal) else None
    else if p.col == q.col then
      if ColClear(grid, p.col, Min(p.row, q.row), Max(p.row, q.row)) then Some(Vertical) else None
    else None
  }

  /** Some island of the arena sits in row `p.row` strictly between the columns of `p` and `q`. */
  ghost predicate BlockedInRow(islands: seq<Island>, p: Island, q: Island)
  {
    exists k :: 0 <= k < |islands| && islands[k].row == p.row
                && Min(p.col, q.col) < islands[k].col < Max(p.col, q.col)
  }

  /** Some island of the arena sits in column `p.col` strictly between the rows of `p` and `q`. */
  ghost predicate BlockedInCol(islands: seq<Island>, p: Island, q: Island)
  {
    exists k :: 0 <= k < |islands| && islands[k].col == p.col
                && Min(p.row, q.row) < islands[k].row < Max(p.row, q.row)
  }

  /** On a valid board, `Path` is horizontal exactly when the islands share a row and
      no island of the arena lies between them on it, vertical exactly when they
      share only a column and no island lies between them on it, and None otherwise. */
  lemma PathCharacterised(b: Board, i: nat, j: nat)
    requires b.Valid() && i < |b.islands| && j < |b.islands|
    ensures var p, q := b.islands[i], b.islands[j];
      && (Path(b.grid, p, q) == Some(Horizontal) <==> p.row == q.row && !BlockedInRow(b.islands, p, q))
      && (Path(b.grid, p, q) == Some(Vertical) <==>
            p.row != q.row && p.col == q.col && !BlockedInCol(b.islands, p, q))
      && (Path(b.grid, p, q) == None <==>
            (p.row == q.row && BlockedInRow(b.islands, p, q))
            || (p.row != q.row && p.col == q.col && BlockedInCol(b.islands, p, q))
            || (p.row != q.row && p.col != q.col))
  {
    var p, q := b.islands[i], b.islands[j];
    if p.row == q.row {
      if !RowClear(b.grid, p.row, Min(p.col, q.col), Max(p.col, q.col)) {
        var c :| Min(p.col, q.col) < c < Max(p.col, q.col) && (p.row, c) in b.grid;
        var k := b.grid[(p.row, c)];
        assert Pos(b.islands[k]) == (p.row, c);
      }
    } else if p.col == q.col {
      if !ColClear(b.grid, p.col, Min(p.row, q.row), Max(p.row, q.row)) {
        var r :| Min(p.row, q.row) < r < Max(p.row, q.row) && (r, p.col) in b.grid;
        var k := b.grid[(r, p.col)];
        assert Pos(b.islands[k]) == (r, p.col);
      }
    }
  }
}
