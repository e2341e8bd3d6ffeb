/**
 * Board geometry of the players visualizer (src/game/playersVisualizer.ts):
 * the table from cell number to grid position (row i from the top, column j
 * from the left) and the pixel offset of a grid position.
 *
 * The table is boustrophedon: the top row (i = 0) holds the highest cells,
 * left to right; the next row runs right to left, and so on, so the cell
 * numbers snake down the board and cell 1 ends up in the bottom row.
 */
module Visualizer {
  import opened Boards

  datatype GridPos = GridPos(i: int, j: int)
  datatype Point = Point(x: int, y: int)

  /** A position on a row x col grid. */
  predicate InGrid(g: GridPos, row: int, col: int)
  {
    0 <= g.i < row && 0 <= g.j < col
  }

  /** Two grid positions that share a side. */
  predicate Adjacent(g: GridPos, h: GridPos)
  {
    || (g.i == h.i && (g.j - h.j == 1 || h.j - g.j == 1))
    || (g.j == h.j && (g.i - h.i == 1 || h.i - g.i == 1))
  }

  /**
   * Closed form of the table: cell c is the (row*col - c)-th one written,
   * counting from 0; that step falls in row k / col, at offset k % col from
   * the row's starting side (left on even rows, right on odd rows).
   */
  function CellToGrid(c: int, row: int, col: int): GridPos
    requires col > 0
  {
    var k := row * col - c;
    var i := k / col;
    var t := k % col;
    GridPos(i, if i % 2 == 0 then t else col - 1 - t)
  }

  /** The cell written at grid position g: the inverse of CellToGrid. */
  function GridToCell(g: GridPos, row: int, col: int): int
    requires col > 0
  {
    row * col - (g.i * col + (if g.i % 2 == 0 then g.j else col - 1 - g.j))
  }

  /** The table the visualizer builds for a row x col board; empty when either is not positive. */
  ghost function StandardHash(row: int, col: int): map<int, GridPos>
  {
    if row <= 0 || col <= 0 then map[] else map c | 1 <= c <= row * col :: CellToGrid(c, row, col)
  }

  /** The number of cells one row of the loop writes: none when col is not positive. */
  function RowWidth(col: int): int
  {
    if col > 0 then col else 0
  }

  /** The entries written so far, one cell at a time: every cell above `pos`. */
  ghost function Filled(row: int, col: int, pos: int): map<int, GridPos>
    decreases row * col - pos
  {
    if col <= 0 || pos >= row * col then map[]
    else Filled(row, col, pos + 1)[pos + 1 := CellToGrid(pos + 1, row, col)]
  }

  // ---------------------------------------------------------------------
  // Arithmetic

  /** Euclidean division undoes i * col + t for an offset t in [0, col). */
  lemma DivMod(i: int, t: int, col: int)
    requires col > 0 && 0 <= t < col
    ensures (i * col + t) / col == i
    ensures (i * col + t) % col == t
  {
    var k := i * col + t;
    var q, r := k / col, k % col;
    assert q * col + r == i * col + t;
    if q > i {
      assert (q - i) * col == t - r;
      MulAtLeast(q - i, col);
      assert false;
    } else if q < i {
      assert (i - q) * col == r - t;
      MulAtLeast(i - q, col);
      assert false;
    }
  }

  lemma MulAtLeast(d: int, col: int)
    requires d >= 1 && col > 0
    ensures d * col >= col
  {
    assert d * col == (d - 1) * col + col;
  }

  lemma MulMonotone(a: int, b: int, p: int)
    requires p > 0 && a >= b
    ensures a * p >= b * p
  {
    if a > b {
      MulAtLeast(a - b, p);
      assert a * p == b * p + (a - b) * p;
    }
  }

  /** The row of step k = i * col + t with 0 <= k < row * col lies in [0, row). */
  lemma RowInRange(i: int, t: int, row: int, col: int)
    requires col > 0 && 0 <= t < col
    requires 0 <= i * col + t < row * col
    ensures 0 <= i < row
  {
    if i < 0 {
      MulMonotone(-1, i, col);
      assert false;
    }
    if i >= row {
      MulMonotone(i, row, col);
      assert false;
    }
  }

  /** The k-th of n pitches from the edge lies between the edge and the last one. */
  lemma PitchBound(k: int, n: int, p: int)
    ensures p > 0 && 0 <= k < n ==> 0 <= k * p <= (n - 1) * p
  {
    if p > 0 && 0 <= k < n {
      MulMonotone(k, 0, p);
      MulMonotone(n - 1, k, p);
    }
  }

  /** A grid position's step number lies in [0, row*col). */
  lemma StepInRange(i: int, t: int, row: int, col: int)
    requires 0 <= i < row && 0 <= t < col
    ensures 0 <= i * col + t < row * col
  {
    MulAtLeast(row - i, col);
    assert row * col == i * col + (row - i) * col;
  }

  /** The cell written at step i*col + t of the loop gets row i and the column of offset t. */
  lemma CellAt(c: int, row: int, col: int, i: int, t: int)
    requires col > 0 && 0 <= t < col
    requires c == row * col - (i * col + t)
    ensures CellToGrid(c, row, col) == GridPos(i, if i % 2 == 0 then t else col - 1 - t)
  {
    DivMod(i, t, col);
  }

  // ---------------------------------------------------------------------
  // Properties of the table

  /** Every cell of the board lands on the grid, and GridToCell brings it back. */
  lemma CellGridRoundTrip(c: int, row: int, col: int)
    requires row > 0 && col > 0 && 1 <= c <= row * col
    ensures InGrid(CellToGrid(c, row, col), row, col)
    ensures GridToCell(CellToGrid(c, row, col), row, col) == c
  {
    var k := row * col - c;
    var i, t := k / col, k % col;
    assert k == i * col + t;
    RowInRange(i, t, row, col);
  }

  /** Every grid position holds a cell of the board, and CellToGrid brings it back. */
  lemma GridCellRoundTrip(g: GridPos, row: int, col: int)
    requires col > 0 && InGrid(g, row, col)
    ensures 1 <= GridToCell(g, row, col) <= row * col
    ensures CellToGrid(GridToCell(g, row, col), row, col) == g
  {
    var t := if g.i % 2 == 0 then g.j else col - 1 - g.j;
    StepInRange(g.i, t, row, col);
    CellAt(GridToCell(g, row, col), row, col, g.i, t);
  }

  /**
   * The table of a row x col board: its keys are exactly the cells
   * 1..row*col, each mapped to a position on the grid; distinct cells get
   * distinct positions and every position is taken, so it is a bijection.
   */
  lemma StandardHashBijection(row: int, col: int)
    requires row > 0 && col > 0
    ensures forall c :: c in StandardHash(row, col) <==> 1 <= c <= row * col
    ensures forall c :: c in StandardHash(row, col) ==> InGrid(StandardHash(row, col)[c], row, col)
    ensures forall c, d ::
      c in StandardHash(row, col) && d in StandardHash(row, col) && StandardHash(row, col)[c] == StandardHash(row, col)[d]
      ==> c == d
    ensures forall g :: InGrid(g, row, col) ==>
      exists c :: c in StandardHash(row, col) && StandardHash(row, col)[c] == g
  {
    var h := StandardHash(row, col);
    forall c | c in h
      ensures InGrid(h[c], row, col)
    {
      CellGridRoundTrip(c, row, col);
    }
    forall c, d | c in h && d in h && h[c] == h[d]
      ensures c == d
    {
      CellGridRoundTrip(c, row, col);
      CellGridRoundTrip(d, row, col);
    }
    forall g | InGrid(g, row, col)
      ensures exists c :: c in h && h[c] == g
    {
      GridCellRoundTrip(g, row, col);
      var c := GridToCell(g, row, col);
      assert c in h && h[c] == g;
    }
  }

  /**
   * The highest cell sits top left; cell 1 sits in the bottom row, on the
   * left when the row count is even and on the right when it is odd.
   */
  lemma StandardHashCorners(row: int, col: int)
    requires row > 0 && col > 0
    ensures StandardHash(row, col)[row * col] == GridPos(0, 0)
    ensures StandardHash(row, col)[1] == GridPos(row - 1, if row % 2 == 0 then 0 else col - 1)
  {
    MulAtLeast(row, col);
    CellAt(row * col, row, col, 0, 0);
    assert (row - 1) * col + (col - 1) == row * col - 1;
    CellAt(1, row, col, row - 1, col - 1);
    assert (row - 1) % 2 == 0 <==> row % 2 != 0;
  }

  /** The usual 10 x 10 board: 100 top left, 1 bottom left, 10 bottom right, 11 just above it. */
  lemma TenByTen()
    ensures StandardHash(10, 10)[100] == GridPos(0, 0)
    ensures StandardHash(10, 10)[1] == GridPos(9, 0)
    ensures StandardHash(10, 10)[10] == GridPos(9, 9)
    ensures StandardHash(10, 10)[11] == GridPos(8, 9)
  {
    StandardHashCorners(10, 10);
    CellAt(10, 10, 10, 9, 0);
    CellAt(11, 10, 10, 8, 9);
  }

  /** Consecutive cells share a side, so the numbering is one unbroken path. */
  lemma ConsecutiveCellsAdjacent(c: int, row: int, col: int)
    requires row > 0 && col > 0 && 1 <= c < row * col
    ensures Adjacent(CellToGrid(c, row, col), CellToGrid(c + 1, row, col))
  {
    var k := row * col - c;
    var i, t := k / col, k % col;
    assert k == i * col + t;
    if t > 0 {
      // same row, one step further along it
      CellAt(c, row, col, i, t);
      CellAt(c + 1, row, col, i, t - 1);
    } else {
      // the end of row i - 1 sits right above the start of row i
      assert (i - 1) * col + (col - 1) == i * col - 1;
      CellAt(c, row, col, i, 0);
      CellAt(c + 1, row, col, i - 1, col - 1);
      if i % 2 == 0 {
        assert (i - 1) % 2 != 0;
      } else {
        assert (i - 1) % 2 == 0;
      }
    }
  }

  /** Writing the entry for `pos` over a table m + Filled(pos) gives m + Filled(pos - 1). */
  lemma WriteStep(m: map<int, GridPos>, row: int, col: int, pos: int)
    requires col > 0 && pos <= row * col
    ensures (m + Filled(row, col, pos))[pos := CellToGrid(pos, row, col)] == m + Filled(row, col, pos - 1)
  {
    var f, v := Filled(row, col, pos), CellToGrid(pos, row, col);
    assert Filled(row, col, pos - 1) == f[pos := v];
    var l, r := (m + f)[pos := v], m + f[pos := v];
    assert forall c :: c in l <==> c in r;
    assert forall c :: c in l ==> l[c] == r[c];
  }

  /** The cell-by-cell table agrees with the comprehension that defines StandardHash. */
  lemma {:induction false} FilledRange(row: int, col: int, pos: int)
    requires col > 0 && pos <= row * col
    ensures Filled(row, col, pos) == map c | pos < c <= row * col :: CellToGrid(c, row, col)
    decreases row * col - pos
  {
    var r := map c | pos < c <= row * col :: CellToGrid(c, row, col);
    if pos == row * col {
      assert r.Keys == {};
    } else {
      FilledRange(row, col, pos + 1);
      var l := Filled(row, col, pos);
      assert forall c :: c in l <==> c in r;
      assert forall c :: c in l ==> l[c] == r[c];
    }
  }

  /**
   * One step of the writing loop: the cell `pos` written at row i, column j
   * (the step's offset in the row counting from the row's starting side)
   * gets exactly the entry the table has for it.
   */
  lemma WriteCell(m: map<int, GridPos>, row: int, col: int, i: int, j: int, pos: int)
    requires col > 0 && 0 <= j < col && 0 <= i
    requires pos == row * col - (i * RowWidth(col) + (if i % 2 == 0 then j else col - 1 - j))
    ensures (m + Filled(row, col, pos))[pos := GridPos(i, j)] == m + Filled(row, col, pos - 1)
  {
    CellAt(pos, row, col, i, if i % 2 == 0 then j else col - 1 - j);
    WriteStep(m, row, col, pos);
  }

  // ---------------------------------------------------------------------
  // The visualizer

  class PlayersVisualizer {
    const boardOptions: BoardOptions
    var boardHash: map<int, GridPos>

    /** Starts from an empty table and fills it for the board's rows and columns. */
    constructor (boardOptions: BoardOptions)
      ensures this.boardOptions == boardOptions
      ensures boardHash == StandardHash(boardOptions.row, boardOptions.col)
    {
      this.boardOptions := boardOptions;
      boardHash := map[];
      new;
      SetStandardBoardHash(boardOptions.row, boardOptions.col);
    }

    /**
     * Writes the table: pos runs down from row*col; even rows are filled
     * with j ascending, odd rows with j descending.
     */
    method SetStandardBoardHash(row: int, col: int)
      modifies this
      ensures boardHash == old(boardHash) + StandardHash(row, col)
    {
      ghost var init := boardHash;
      var pos := row * col;
      var i := 0;
      while i < row
        invariant 0 <= i && (i <= row || i == 0)
        invariant pos == row * col - i * RowWidth(col)
        invariant boardHash == init + Filled(row, col, pos)
      {
        if i % 2 == 0 {
          pos := WriteRowAscending(init, row, col, i, pos);
        } else {
          pos := WriteRowDescending(init, row, col, i, pos);
        }
        assert (i + 1) * RowWidth(col) == i * RowWidth(col) + RowWidth(col);
        i := i + 1;
      }
      if row > 0 && col > 0 {
        FilledRange(row, col, pos);
      } else {
        assert init + map[] == init;
      }
    }

    /** The inner loop for an even row i: j = 0 .. col-1 get the cells pos0, pos0 - 1, ... */
    method WriteRowAscending(ghost init: map<int, GridPos>, row: int, col: int, i: int, pos0: int) returns (pos: int)
      requires 0 <= i && i % 2 == 0
      requires pos0 == row * col - i * RowWidth(col)
      requires boardHash == init + Filled(row, col, pos0)
      modifies this
      ensures pos == pos0 - RowWidth(col)
      ensures boardHash == init + Filled(row, col, pos)
    {
      pos := pos0;
      var j := 0;
      while j < col
        invariant 0 <= j <= RowWidth(col)
        invariant pos == pos0 - j
        invariant boardHash == init + Filled(row, col, pos)
      {
        WriteCell(init, row, col, i, j, pos);
        boardHash := boardHash[pos := GridPos(i, j)];
        pos := pos - 1;
        j := j + 1;
      }
    }

    /** The inner loop for an odd row i: j = col-1 .. 0 get the cells pos0, pos0 - 1, ... */
    method WriteRowDescending(ghost init: map<int, GridPos>, row: int, col: int, i: int, pos0: int) returns (pos: int)
      requires 0 <= i && i % 2 != 0
      requires pos0 == row * col - i * RowWidth(col)
      requires boardHash == init + Filled(row, col, pos0)
      modifies this
      ensures pos == pos0 - RowWidth(col)
      ensures boardHash == init + Filled(row, col, pos)
    {
      pos := pos0;
      var j := col - 1;
      while j >= 0
        invariant 0 <= col - 1 - j <= RowWidth(col)
        invariant pos == pos0 - (col - 1 - j)
        invariant boardHash == init + Filled(row, col, pos)
      {
        WriteCell(init, row, col, i, j, pos);
        boardHash := boardHash[pos := GridPos(i, j)];
        pos := pos - 1;
        j := j - 1;
      }
    }

    /**
     * Pixel offset of the top-left corner of grid position (i, j); the
     * horizontal gap is gapV. With positive pitches, a position on the grid
     * is drawn inside the padded board: from the padding corner to the
     * corner of the last row and column.
     */
    function CellXY(i: int, j: int): (p: Point)
      ensures var o := boardOptions;
        o.cellW + o.gapV > 0 && 0 <= j < o.col ==>
        o.paddingLeft <= p.x <= o.paddingLeft + (o.col - 1) * (o.cellW + o.gapV)
      ensures var o := boardOptions;
        o.cellH + o.gapH > 0 && 0 <= i < o.row ==>
        o.paddingTop <= p.y <= o.paddingTop + (o.row - 1) * (o.cellH + o.gapH)
    {
      PitchBound(j, boardOptions.col, boardOptions.cellW + boardOptions.gapV);
      PitchBound(i, boardOptions.row, boardOptions.cellH + boardOptions.gapH);
      Point(boardOptions.paddingLeft + j * (boardOptions.cellW + boardOptions.gapV),
            boardOptions.paddingTop + i * (boardOptions.cellH + boardOptions.gapH))
    }
  }

  /** Moving one column right adds cellW + gapV to x; moving one row down adds cellH + gapH to y. */
  lemma CellXYStep(v: PlayersVisualizer, i: int, j: int)
    ensures v.CellXY(i, j + 1) == Point(v.CellXY(i, j).x + v.boardOptions.cellW + v.boardOptions.gapV, v.CellXY(i, j).y)
    ensures v.CellXY(i + 1, j) == Point(v.CellXY(i, j).x, v.CellXY(i, j).y + v.boardOptions.cellH + v.boardOptions.gapH)
  {
    var o := v.boardOptions;
    assert (j + 1) * (o.cellW + o.gapV) == j * (o.cellW + o.gapV) + (o.cellW + o.gapV);
    assert (i + 1) * (o.cellH + o.gapH) == i * (o.cellH + o.gapH) + (o.cellH + o.gapH);
  }

  /** With positive pitches, distinct grid positions are drawn at distinct offsets. */
  lemma CellXYInjective(v: PlayersVisualizer, g: GridPos, h: GridPos)
    requires v.boardOptions.cellW + v.boardOptions.gapV > 0
    requires v.boardOptions.cellH + v.boardOptions.gapH > 0
    ensures v.CellXY(g.i, g.j) == v.CellXY(h.i, h.j) ==> g == h
  {
    var o := v.boardOptions;
    if v.CellXY(g.i, g.j) == v.CellXY(h.i, h.j) {
      ProductCancels(g.j, h.j, o.cellW + o.gapV);
      ProductCancels(g.i, h.i, o.cellH + o.gapH);
    }
  }

  lemma ProductCancels(a: int, b: int, p: int)
    requires p > 0 && a * p == b * p
    ensures a == b
  {
    if a > b {
      assert (a - b) * p == 0;
      MulAtLeast(a - b, p);
      assert false;
    } else if a < b {
      assert (b - a) * p == 0;
      MulAtLeast(b - a, p);
      assert false;
    }
  }

  /**
   * Two players on different cells of the board are drawn at different
   * places, provided the pitches are positive.
   */
  lemma DistinctCellsDrawnApart(v: PlayersVisualizer, c: int, d: int)
    requires v.boardOptions.row > 0 && v.boardOptions.col > 0
    requires v.boardOptions.cellW + v.boardOptions.gapV > 0
    requires v.boardOptions.cellH + v.boardOptions.gapH > 0
    requires 1 <= c <= v.boardOptions.row * v.boardOptions.col
    requires 1 <= d <= v.boardOptions.row * v.boardOptions.col
    requires c != d
    ensures var g, h := CellToGrid(c, v.boardOptions.row, v.boardOptions.col), CellToGrid(d, v.boardOptions.row, v.boardOptions.col);
      v.CellXY(g.i, g.j) != v.CellXY(h.i, h.j)
  {
    var row, col := v.boardOptions.row, v.boardOptions.col;
    CellGridRoundTrip(c, row, col);
    CellGridRoundTrip(d, row, col);
    CellXYInjective(v, CellToGrid(c, row, col), CellToGrid(d, row, col));
  }
}
