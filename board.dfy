/** The playing field: a GridHeight × GridWidth grid of 0/1 cells, with the
    placement test, locking a piece into the grid, the full-row test and row
    compaction. Each operation works in place on an `array2`, as the game
    does, and is proved against a function on the grid's contents. */
module Board {
  import opened Constants

  type Row = r: seq<Bit> | |r| == GridWidth witness seq(GridWidth, _ => 0)

  const EmptyRow: Row := [0, 0, 0, 0, 0, 0, 0, 0, 0, 0]

  /** Rows are indexed from the top (row 0) down to the floor (GridHeight - 1). */
  type Grid = g: seq<Row> | |g| == GridHeight witness seq<Row>(GridHeight, _ => EmptyRow)

  const EmptyGrid: Grid := [
    EmptyRow, EmptyRow, EmptyRow, EmptyRow, EmptyRow, EmptyRow, EmptyRow, EmptyRow, EmptyRow, EmptyRow,
    EmptyRow, EmptyRow, EmptyRow, EmptyRow, EmptyRow, EmptyRow, EmptyRow, EmptyRow, EmptyRow, EmptyRow]

  /** The contents of a board array. */
  function GridCells(a: array2<Bit>): Grid
    requires a.Length0 == GridHeight && a.Length1 == GridWidth
    reads a
  {
    seq(GridHeight, r reads a requires 0 <= r < GridHeight =>
      seq(GridWidth, c reads a requires 0 <= c < GridWidth => a[r, c]))
  }

  /** The contents of a 4×4 piece array. */
  function MaskCells(a: array2<Bit>): Mask
    requires a.Length0 == 4 && a.Length1 == 4
    reads a
  {
    seq(4, r reads a requires 0 <= r < 4 =>
      seq(4, c reads a requires 0 <= c < 4 => a[r, c]))
  }

  lemma GridExtensionality(a: Grid, b: Grid)
    requires forall r, c :: 0 <= r < GridHeight && 0 <= c < GridWidth ==> a[r][c] == b[r][c]
    ensures a == b
  {
    forall r | 0 <= r < GridHeight
      ensures a[r] == b[r]
    {
      assert forall c :: 0 <= c < GridWidth ==> a[r][c] == b[r][c];
    }
  }

  // ---------------------------------------------------------------------
  // Collision

  /** A piece cell cannot go to board position (row, col): it is past a side
      wall, below the floor, or an occupied cell of the board. A position
      above the top edge (row < 0) is open. */
  predicate Blocked(g: Grid, row: int, col: int)
  {
    col < 0 || col >= GridWidth || row >= GridHeight || (row >= 0 && g[row][col] == 1)
  }

  /** Cell (r, c) of mask m, anchored at column x, row y, is occupied and blocked on g. */
  predicate CellBlocked(g: Grid, m: Mask, x: int, y: int, r: int, c: int)
    requires 0 <= r < 4 && 0 <= c < 4
  {
    m[r][c] == 1 && Blocked(g, y + r, x + c)
  }

  /** Mask m with its top-left cell at column x, row y does not fit on g. */
  predicate Collides(g: Grid, m: Mask, x: int, y: int)
  {
    exists r, c :: 0 <= r < 4 && 0 <= c < 4 && CellBlocked(g, m, x, y, r, c)
  }

  /** checkCollision: the placement test, scanning the mask row by row. */
  method CheckCollision(grid: array2<Bit>, piece: array2<Bit>, x: int, y: int) returns (hit: bool)
    requires grid.Length0 == GridHeight && grid.Length1 == GridWidth
    requires piece.Length0 == 4 && piece.Length1 == 4
    ensures hit == Collides(GridCells(grid), MaskCells(piece), x, y)
  {
    ghost var g, m := GridCells(grid), MaskCells(piece);
    for row := 0 to 4
      invariant forall r, c :: 0 <= r < row && 0 <= c < 4 && m[r][c] == 1 ==> !Blocked(g, y + r, x + c)
    {
      for col := 0 to 4
        invariant forall r, c :: 0 <= r < row && 0 <= c < 4 && m[r][c] == 1 ==> !Blocked(g, y + r, x + c)
        invariant forall c :: 0 <= c < col && m[row][c] == 1 ==> !Blocked(g, y + row, x + c)
      {
        if piece[row, col] == 1 {
          var gridRow := y + row;
          var gridCol := x + col;
          assert m[row][col] == 1;
          if gridCol < 0 || gridCol >= GridWidth {
            assert CellBlocked(g, m, x, y, row, col);
            return true;
          }
          if gridRow >= GridHeight {
            assert CellBlocked(g, m, x, y, row, col);
            return true;
          }
          if gridRow >= 0 && grid[gridRow, gridCol] == 1 {
            assert g[gridRow][gridCol] == 1;
            assert CellBlocked(g, m, x, y, row, col);
            return true;
          }
          assert !Blocked(g, gridRow, gridCol);
        }
      }
    }
    return false;
  }

  /** On an empty board a placement collides exactly when some occupied cell
      lies past a side wall or below the floor. */
  lemma EmptyBoardCollision(m: Mask, x: int, y: int)
    ensures Collides(EmptyGrid, m, x, y) <==>
      exists r, c :: 0 <= r < 4 && 0 <= c < 4 && m[r][c] == 1 &&
        (x + c < 0 || x + c >= GridWidth || y + r >= GridHeight)
  {
    forall r, c | 0 <= r < 4 && 0 <= c < 4
      ensures CellBlocked(EmptyGrid, m, x, y, r, c) <==>
        m[r][c] == 1 && (x + c < 0 || x + c >= GridWidth || y + r >= GridHeight)
    {
      if 0 <= y + r < GridHeight && 0 <= x + c < GridWidth {
        assert EmptyGrid[y + r][x + c] == 0;
      }
    }
  }

  /** Any mask whose 4×4 box lies within the side walls and above the floor
      fits on an empty board, wherever the box starts above the top edge. */
  lemma EmptyBoardFits(m: Mask, x: int, y: int)
    requires 0 <= x <= GridWidth - 4 && y <= GridHeight - 4
    ensures !Collides(EmptyGrid, m, x, y)
  {
    EmptyBoardCollision(m, x, y);
  }

  /** A fresh game never starts over: every catalogue piece fits at the spawn
      anchor of an empty board. */
  lemma SpawnFitsOnEmptyBoard(t: PieceType)
    ensures !Collides(EmptyGrid, Shape(t), SpawnX, SpawnY)
  {
    EmptyBoardFits(Shape(t), SpawnX, SpawnY);
  }

  /** One step past the wall: a mask with an occupied cell in the leftmost
      (rightmost) board column collides when moved one column further. */
  lemma PastTheWallCollides(g: Grid, m: Mask, x: int, y: int, r: nat, c: nat)
    requires r < 4 && c < 4 && m[r][c] == 1
    ensures x + c == 0 ==> Collides(g, m, x - 1, y)
    ensures x + c == GridWidth - 1 ==> Collides(g, m, x + 1, y)
  {
    assert CellBlocked(g, m, x - 1, y, r, c) <== x + c == 0;
    assert CellBlocked(g, m, x + 1, y, r, c) <== x + c == GridWidth - 1;
  }

  /** Cells above the top edge are open on any board: a mask whose box lies
      between the side walls and wholly above row 0 fits, whatever the board. */
  lemma AboveTheBoardFits(g: Grid, m: Mask, x: int, y: int)
    requires 0 <= x <= GridWidth - 4 && y <= -4
    ensures !Collides(g, m, x, y)
  {
  }

  // ---------------------------------------------------------------------
  // Locking a piece

  /** Board position (row, col) lies under an occupied cell of mask m
      anchored at (x, y). */
  predicate Covers(m: Mask, x: int, y: int, row: int, col: int)
  {
    0 <= row - y < 4 && 0 <= col - x < 4 && m[row - y][col - x] == 1
  }

  /** The grid after writing 1 under every occupied cell of m that lands on
      the board; every other cell, and every mask cell off the board, is
      left alone. */
  function Lock(g: Grid, m: Mask, x: int, y: int): Grid
  {
    seq(GridHeight, r requires 0 <= r < GridHeight =>
      seq(GridWidth, c requires 0 <= c < GridWidth =>
        if Covers(m, x, y, r, c) then 1 else g[r][c]))
  }

  /** Mask cell (i, j) comes before cell (row, col) in the row-major scan. */
  predicate ScannedBefore(i: int, j: int, row: int, col: int)
  {
    i < row || (i == row && j < col)
  }

  /** lockPiece: writes the piece's occupied cells into the grid. */
  method LockPiece(grid: array2<Bit>, piece: array2<Bit>, x: int, y: int)
    requires grid.Length0 == GridHeight && grid.Length1 == GridWidth
    requires piece.Length0 == 4 && piece.Length1 == 4
    modifies grid
    ensures GridCells(grid) == Lock(old(GridCells(grid)), MaskCells(piece), x, y)
  {
    ghost var g, m := GridCells(grid), MaskCells(piece);
    for row := 0 to 4
      invariant MaskCells(piece) == m
      invariant forall r, c :: 0 <= r < GridHeight && 0 <= c < GridWidth ==>
        grid[r, c] == if Covers(m, x, y, r, c) && ScannedBefore(r - y, c - x, row, 0) then 1 else g[r][c]
    {
      for col := 0 to 4
        invariant MaskCells(piece) == m
        invariant forall r, c :: 0 <= r < GridHeight && 0 <= c < GridWidth ==>
          grid[r, c] == if Covers(m, x, y, r, c) && ScannedBefore(r - y, c - x, row, col) then 1 else g[r][c]
      {
        if piece[row, col] == 1 {
          var gridRow := y + row;
          var gridCol := x + col;
          if gridRow >= 0 && gridRow < GridHeight && gridCol >= 0 && gridCol < GridWidth {
            grid[gridRow, gridCol] := 1;
          }
        }
      }
    }
    GridExtensionality(GridCells(grid), Lock(g, m, x, y));
  }

  /** Locking never empties a cell, and it is idempotent. */
  lemma LockKeepsOccupied(g: Grid, m: Mask, x: int, y: int)
    ensures forall r, c :: 0 <= r < GridHeight && 0 <= c < GridWidth && g[r][c] == 1 ==>
      Lock(g, m, x, y)[r][c] == 1
    ensures Lock(Lock(g, m, x, y), m, x, y) == Lock(g, m, x, y)
  {
    var once := Lock(g, m, x, y);
    GridExtensionality(Lock(once, m, x, y), once);
  }

  /** Once a piece with a cell on the board is locked, that same placement
      collides: the locked cells now occupy the board. */
  lemma LockedPlacementCollides(g: Grid, m: Mask, x: int, y: int, r: nat, c: nat)
    requires r < 4 && c < 4 && m[r][c] == 1
    requires 0 <= y + r < GridHeight && 0 <= x + c < GridWidth
    ensures Collides(Lock(g, m, x, y), m, x, y)
  {
    assert Covers(m, x, y, y + r, x + c);
    assert CellBlocked(Lock(g, m, x, y), m, x, y, r, c);
  }

  // ---------------------------------------------------------------------
  // Complete rows

  predicate Full(row: Row)
  {
    forall c :: 0 <= c < GridWidth ==> row[c] == 1
  }

  predicate NoFullRows(g: Grid)
  {
    forall r :: 0 <= r < GridHeight ==> !Full(g[r])
  }

  /** isLineComplete: is every column of the row occupied? */
  method IsLineComplete(grid: array2<Bit>, row: int) returns (complete: bool)
    requires grid.Length0 == GridHeight && grid.Length1 == GridWidth
    requires 0 <= row < GridHeight
    ensures complete == Full(GridCells(grid)[row])
  {
    for col := 0 to GridWidth
      invariant forall c :: 0 <= c < col ==> grid[row, c] == 1
    {
      if grid[row, col] == 0 {
        assert GridCells(grid)[row][col] == 0;
        return false;
      }
    }
    return true;
  }

  // ---------------------------------------------------------------------
  // Removing one row

  /** The grid with row k taken out and an empty row put on top. */
  function RemoveRow(g: Grid, k: nat): Grid
    requires k < GridHeight
  {
    [EmptyRow] + g[..k] + g[k + 1..]
  }

  /** Row by row: row 0 is empty, rows 1..k hold the old rows 0..k-1, and the
      rows below k are unchanged. */
  lemma RemoveRowAt(g: Grid, k: nat, r: nat)
    requires k < GridHeight && r < GridHeight
    ensures RemoveRow(g, k)[r] == if r == 0 then EmptyRow else if r <= k then g[r - 1] else g[r]
  {
  }

  /** clearLine: copies every row above lineRow one row down, then empties row 0. */
  method ClearLine(grid: array2<Bit>, lineRow: int)
    requires grid.Length0 == GridHeight && grid.Length1 == GridWidth
    requires 0 <= lineRow < GridHeight
    modifies grid
    ensures GridCells(grid) == RemoveRow(old(GridCells(grid)), lineRow)
  {
    ghost var g := GridCells(grid);
    var row := lineRow;
    while row > 0
      invariant 0 <= row <= lineRow
      invariant forall r, c :: 0 <= r <= row && 0 <= c < GridWidth ==> grid[r, c] == g[r][c]
      invariant forall r, c :: row < r <= lineRow && 0 <= c < GridWidth ==> grid[r, c] == g[r - 1][c]
      invariant forall r, c :: lineRow < r < GridHeight && 0 <= c < GridWidth ==> grid[r, c] == g[r][c]
    {
      for col := 0 to GridWidth
        invariant forall r, c :: 0 <= r < row && 0 <= c < GridWidth ==> grid[r, c] == g[r][c]
        invariant forall c :: 0 <= c < col ==> grid[row, c] == g[row - 1][c]
        invariant forall r, c :: row < r <= lineRow && 0 <= c < GridWidth ==> grid[r, c] == g[r - 1][c]
        invariant forall r, c :: lineRow < r < GridHeight && 0 <= c < GridWidth ==> grid[r, c] == g[r][c]
      {
        grid[row, col] := grid[row - 1, col];
      }
      row := row - 1;
    }
    for col := 0 to GridWidth
      invariant forall c :: 0 <= c < col ==> grid[0, c] == 0
      invariant forall r, c :: 0 < r <= lineRow && 0 <= c < GridWidth ==> grid[r, c] == g[r - 1][c]
      invariant forall r, c :: lineRow < r < GridHeight && 0 <= c < GridWidth ==> grid[r, c] == g[r][c]
    {
      grid[0, col] := 0;
    }
    forall r, c | 0 <= r < GridHeight && 0 <= c < GridWidth
      ensures GridCells(grid)[r][c] == RemoveRow(g, lineRow)[r][c]
    {
      RemoveRowAt(g, lineRow, r);
    }
    GridExtensionality(GridCells(grid), RemoveRow(g, lineRow));
  }

  // ---------------------------------------------------------------------
  // Counting occupied cells

  function RowCount(cells: seq<Bit>): nat
  {
    if cells == [] then 0 else cells[0] as int + RowCount(cells[1..])
  }

  /** Number of occupied cells in a sequence of rows. */
  function Occupied(rows: seq<Row>): nat
  {
    if rows == [] then 0 else RowCount(rows[0]) + Occupied(rows[1..])
  }

  lemma {:induction false} RowCountAllOnes(cells: seq<Bit>)
    requires forall i :: 0 <= i < |cells| ==> cells[i] == 1
    ensures RowCount(cells) == |cells|
  {
    if cells != [] {
      RowCountAllOnes(cells[1..]);
    }
  }

  lemma {:induction false} RowCountAllZeros(cells: seq<Bit>)
    requires forall i :: 0 <= i < |cells| ==> cells[i] == 0
    ensures RowCount(cells) == 0
  {
    if cells != [] {
      RowCountAllZeros(cells[1..]);
    }
  }

  /** A full row holds GridWidth cells, an empty row none. */
  lemma FullAndEmptyRowCounts(row: Row)
    ensures Full(row) ==> RowCount(row) == GridWidth
    ensures RowCount(EmptyRow) == 0
  {
    if Full(row) {
      RowCountAllOnes(row);
    }
    RowCountAllZeros(EmptyRow);
  }

  lemma {:induction false} OccupiedAppend(a: seq<Row>, b: seq<Row>)
    ensures Occupied(a + b) == Occupied(a) + Occupied(b)
  {
    if a == [] {
      assert a + b == b;
    } else {
      assert (a + b)[1..] == a[1..] + b;
      OccupiedAppend(a[1..], b);
    }
  }

  /** Taking a full row out and putting an empty row on top removes exactly
      GridWidth occupied cells. */
  lemma RemoveFullRowCount(g: Grid, k: nat)
    requires k < GridHeight && Full(g[k])
    ensures Occupied(RemoveRow(g, k)) + GridWidth == Occupied(g)
  {
    FullAndEmptyRowCounts(g[k]);
    assert g == g[..k] + ([g[k]] + g[k + 1..]);
    OccupiedAppend(g[..k], [g[k]] + g[k + 1..]);
    OccupiedAppend([g[k]], g[k + 1..]);
    OccupiedAppend([EmptyRow] + g[..k], g[k + 1..]);
    OccupiedAppend([EmptyRow], g[..k]);
    assert Occupied([g[k]]) == RowCount(g[k]);
    assert Occupied([EmptyRow]) == 0;
  }

  // ---------------------------------------------------------------------
  // Clearing every complete row

  /** Number of full rows. */
  function FullCount(rows: seq<Row>): (n: nat)
    ensures n <= |rows|
  {
    if rows == [] then 0 else (if Full(rows[0]) then 1 else 0) + FullCount(rows[1..])
  }

  /** The rows that are not full, in their original order. */
  function NonFull(rows: seq<Row>): (kept: seq<Row>)
    ensures |kept| + FullCount(rows) == |rows|
    ensures forall i :: 0 <= i < |kept| ==> !Full(kept[i])
  {
    if rows == [] then [] else (if Full(rows[0]) then [] else [rows[0]]) + NonFull(rows[1..])
  }

  function Empties(n: nat): (e: seq<Row>)
    ensures |e| == n && forall i :: 0 <= i < n ==> e[i] == EmptyRow
  {
    seq(n, _ => EmptyRow)
  }

  /** The grid after every full row has been removed: the other rows keep
      their order and sink to the floor, with one empty row on top for each
      row removed. */
  function Compacted(g: Grid): Grid
  {
    Empties(FullCount(g)) + NonFull(g)
  }

  lemma EmptyRowNotFull()
    ensures !Full(EmptyRow)
  {
    assert EmptyRow[0] == 0;
  }

  /** Afterwards no row is complete. */
  lemma CompactedHasNoFullRows(g: Grid)
    ensures NoFullRows(Compacted(g))
  {
    EmptyRowNotFull();
    var e, k := Empties(FullCount(g)), NonFull(g);
    forall r | 0 <= r < GridHeight
      ensures !Full(Compacted(g)[r])
    {
      if r < |e| {
        assert Compacted(g)[r] == e[r];
      } else {
        assert Compacted(g)[r] == k[r - |e|];
      }
    }
  }

  lemma {:induction false} NonFullCount(rows: seq<Row>)
    ensures Occupied(NonFull(rows)) + FullCount(rows) * GridWidth == Occupied(rows)
  {
    if rows != [] {
      NonFullCount(rows[1..]);
      var head := if Full(rows[0]) then [] else [rows[0]];
      OccupiedAppend(head, NonFull(rows[1..]));
      FullAndEmptyRowCounts(rows[0]);
      assert Occupied([rows[0]]) == RowCount(rows[0]);
    }
  }

  lemma {:induction false} EmptiesCount(n: nat)
    ensures Occupied(Empties(n)) == 0
  {
    if n > 0 {
      FullAndEmptyRowCounts(EmptyRow);
      assert Empties(n)[1..] == Empties(n - 1);
      EmptiesCount(n - 1);
    }
  }

  /** Every removed row takes exactly GridWidth occupied cells with it, and at
      most all GridHeight rows are removed. */
  lemma CompactedCount(g: Grid)
    ensures FullCount(g) <= GridHeight
    ensures Occupied(Compacted(g)) + FullCount(g) * GridWidth == Occupied(g)
  {
    OccupiedAppend(Empties(FullCount(g)), NonFull(g));
    EmptiesCount(FullCount(g));
    NonFullCount(g);
  }

  lemma {:induction false} NonFullOfSettled(rows: seq<Row>)
    requires forall i :: 0 <= i < |rows| ==> !Full(rows[i])
    ensures NonFull(rows) == rows && FullCount(rows) == 0
  {
    if rows != [] {
      NonFullOfSettled(rows[1..]);
    }
  }

  /** Compacting a grid without full rows changes nothing, so compaction is
      idempotent. */
  lemma CompactedIdempotent(g: Grid)
    ensures NoFullRows(g) ==> Compacted(g) == g
    ensures Compacted(Compacted(g)) == Compacted(g)
  {
    if NoFullRows(g) {
      NonFullOfSettled(g);
    }
    CompactedHasNoFullRows(g);
    NonFullOfSettled(Compacted(g));
  }

  lemma NonFullStep(s: seq<Row>, k: nat)
    requires 0 < k <= |s|
    ensures NonFull(s[k - 1..]) == (if Full(s[k - 1]) then [] else [s[k - 1]]) + NonFull(s[k..])
    ensures FullCount(s[k - 1..]) == (if Full(s[k - 1]) then 1 else 0) + FullCount(s[k..])
  {
    assert s[k - 1..][0] == s[k - 1];
    assert s[k - 1..][1..] == s[k..];
  }

  /** The state of the bottom-up scan of clearCompleteLines over the grid g0
      it started from, with the scan at row index `row` after n clears. Above
      the scan point the grid holds e empty rows and then the k rows of g0 not
      yet examined; from the scan point down it holds the empty rows that have
      sunk past the scan point and the non-full rows among those examined. */
  ghost predicate ScanState(s: Grid, g0: Grid, row: int, k: int, e: int, n: int)
  {
    && -1 <= row < GridHeight
    && 0 <= k <= GridHeight && 0 <= e <= n && e + k == row + 1
    && (n > e ==> k == 0)
    && n == FullCount(g0[k..])
    && s[..row + 1] == Empties(e) + g0[..k]
    && s[row + 1..] == Empties(n - e) + NonFull(g0[k..])
  }

  lemma ScanStart(g0: Grid)
    ensures ScanState(g0, g0, GridHeight - 1, GridHeight, 0, 0)
  {
    assert g0[GridHeight..] == [];
    assert Empties(0) + g0[..GridHeight] == g0[..GridHeight];
  }

  /** The row at the scan point: an empty row once all of g0 has been
      examined, otherwise the last unexamined row of g0. */
  lemma ScanRowAt(s: Grid, g0: Grid, row: int, k: int, e: int, n: int)
    requires ScanState(s, g0, row, k, e, n) && row >= 0
    ensures k == 0 ==> s[row] == EmptyRow
    ensures k > 0 ==> s[row] == g0[k - 1]
  {
    assert s[row] == s[..row + 1][row];
  }

  /** Removing row k leaves rows k + 1 onwards in place and shifts the rows
      above it down under the new empty row. */
  lemma RemoveRowSplit(g: Grid, k: nat)
    requires k < GridHeight
    ensures RemoveRow(g, k)[..k + 1] == [EmptyRow] + g[..k]
    ensures RemoveRow(g, k)[k + 1..] == g[k + 1..]
  {
  }

  /** Above the scan point: dropping the examined row g0[k - 1] from the top
      part and adding an empty row gives one more empty row and one fewer
      unexamined row. */
  lemma ScanAbove(s: Grid, g0: Grid, row: nat, k: nat, e: nat)
    requires row < GridHeight && 0 < k <= GridHeight && e + k == row + 1
    requires s[..row + 1] == Empties(e) + g0[..k]
    ensures [EmptyRow] + s[..row] == Empties(e + 1) + g0[..k - 1]
  {
    assert s[..row] == s[..row + 1][..row];
    assert (Empties(e) + g0[..k])[..row] == Empties(e) + g0[..k - 1];
    assert [EmptyRow] + Empties(e) == Empties(e + 1);
  }

  /** A full row at the scan point is one of g0's unexamined rows; removing
      it keeps the scan state with the same row index and frees GridWidth
      cells. */
  lemma ScanClears(s: Grid, g0: Grid, row: int, k: int, e: int, n: int)
    requires ScanState(s, g0, row, k, e, n) && row >= 0 && Full(s[row])
    ensures k > 0
    ensures ScanState(RemoveRow(s, row), g0, row, k - 1, e + 1, n + 1)
    ensures Occupied(RemoveRow(s, row)) < Occupied(s)
  {
    EmptyRowNotFull();
    ScanRowAt(s, g0, row, k, e, n);
    RemoveFullRowCount(s, row);
    NonFullStep(g0, k);
    RemoveRowSplit(s, row);
    ScanAbove(s, g0, row, k, e);
  }

  /** A row at the scan point that is not full stays where it is and the scan
      moves one row up. */
  lemma ScanSkips(s: Grid, g0: Grid, row: int, k: int, e: int, n: int)
    requires ScanState(s, g0, row, k, e, n) && row >= 0 && !Full(s[row])
    ensures k > 0 ==> ScanState(s, g0, row - 1, k - 1, e, n)
    ensures k == 0 ==> e > 0 && ScanState(s, g0, row - 1, k, e - 1, n)
  {
    ScanRowAt(s, g0, row, k, e, n);
    assert s[row..] == [s[row]] + s[row + 1..];
    assert s[..row] == s[..row + 1][..row];
    if k > 0 {
      NonFullStep(g0, k);
      SkipExamined(s, g0, row, k, e);
    } else {
      SkipEmpty(s, row, e, n - e);
    }
  }

  /** The unexamined row g0[k - 1] just above the scan point leaves the top part. */
  lemma SkipExamined(s: Grid, g0: Grid, row: nat, k: nat, e: nat)
    requires row < GridHeight && 0 < k <= GridHeight && e + k == row + 1
    requires s[..row] == (Empties(e) + g0[..k])[..row]
    ensures s[..row] == Empties(e) + g0[..k - 1]
  {
    assert (Empties(e) + g0[..k])[..row] == Empties(e) + g0[..k - 1];
  }

  /** An empty row at the scan point joins the empty rows below it. */
  lemma SkipEmpty(s: Grid, row: nat, e: nat, d: nat)
    requires row < GridHeight && e == row + 1
    requires s[..row] == Empties(e)[..row] && s[row] == EmptyRow
    ensures s[..row] == Empties(e - 1)
    ensures [s[row]] + Empties(d) == Empties(d + 1)
  {
  }

  /** When the scan has passed row 0 the grid is the compacted g0. */
  lemma ScanDone(s: Grid, g0: Grid, k: int, e: int, n: int)
    requires ScanState(s, g0, -1, k, e, n)
    ensures n == FullCount(g0) && s == Compacted(g0)
  {
    assert s == s[0..];
    assert g0[0..] == g0;
  }

  /** clearCompleteLines: scans from the floor up; after clearing a row it
      examines the same row index again, since the row above has moved into
      it. Returns the number of rows cleared. */
  method ClearCompleteLines(grid: array2<Bit>) returns (linesCleared: nat)
    requires grid.Length0 == GridHeight && grid.Length1 == GridWidth
    modifies grid
    ensures linesCleared == FullCount(old(GridCells(grid)))
    ensures GridCells(grid) == Compacted(old(GridCells(grid)))
  {
    ghost var g0 := GridCells(grid);
    linesCleared := 0;
    var row := GridHeight - 1;
    ghost var cur, k, e := g0, GridHeight, 0;
    ScanStart(g0);
    while row >= 0
      invariant cur == GridCells(grid)
      invariant ScanState(cur, g0, row, k, e, linesCleared)
      decreases Occupied(cur), row + 1
    {
      var complete := IsLineComplete(grid, row);
      if complete {
        ClearLine(grid, row);
        ScanClears(cur, g0, row, k, e, linesCleared);
        cur := RemoveRow(cur, row);
        linesCleared := linesCleared + 1;
        k, e := k - 1, e + 1;
        row := row + 1;
      } else {
        ScanSkips(cur, g0, row, k, e, linesCleared);
        if k > 0 {
          k := k - 1;
        } else {
          e := e - 1;
        }
      }
      row := row - 1;
    }
    ScanDone(cur, g0, k, e, linesCleared);
  }

  /** A grid without full rows gets at most four full rows from locking one
      4×4 piece: only the rows under the mask can fill up. */
  lemma LockFillsAtMostFourRows(g: Grid, m: Mask, x: int, y: int)
    requires NoFullRows(g)
    ensures FullCount(Lock(g, m, x, y)) <= 4
  {
    var locked := Lock(g, m, x, y);
    forall r | 0 <= r < GridHeight && !(y <= r < y + 4)
      ensures locked[r] == g[r]
    {
    }
    FullCountWithin(locked, y, y + 4);
  }

  lemma {:induction false} FullCountWithin(rows: seq<Row>, lo: int, hi: int)
    requires lo <= hi
    requires forall i :: 0 <= i < |rows| && Full(rows[i]) ==> lo <= i < hi
    ensures FullCount(rows) <= hi - lo
  {
    if rows != [] {
      forall i | 0 <= i < |rows| - 1 && Full(rows[1..][i])
        ensures lo - 1 <= i < hi - 1
      {
        assert rows[1..][i] == rows[i + 1];
      }
      if Full(rows[0]) {
        FullCountWithin(rows[1..], 0, hi - 1);
      } else {
        FullCountWithin(rows[1..], lo - 1, hi - 1);
      }
    }
  }
}
