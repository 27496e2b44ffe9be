/** Grid constants, cells and the integer geometry shared by both versions of the game:
    a COLS x ROWS board whose centred PUZZLE_COLS x PUZZLE_ROWS zone is where the image
    is reassembled. Pixel quantities are integers here. */
module Grid {

  const COLS := 6
  const ROWS := 6
  const PUZZLE_COLS := 4
  const PUZZLE_ROWS := 4

  /** A grid cell, in grid units. */
  datatype Cell = Cell(gx: int, gy: int)

  predicate InGrid(c: Cell) {
    0 <= c.gx < COLS && 0 <= c.gy < ROWS
  }

  function Min(a: int, b: int): int { if a < b then a else b }
  function Max(a: int, b: int): int { if a < b then b else a }

  /** Math.max(lo, Math.min(hi, v)): v pushed into [lo, hi]. */
  function Clamp(v: int, lo: int, hi: int): (r: int)
    requires lo <= hi
    ensures lo <= r <= hi
    ensures lo <= v <= hi ==> r == v
    ensures v < lo ==> r == lo
    ensures hi < v ==> r == hi
  {
    Max(lo, Min(hi, v))
  }

  /** Math.round(a / b) for a >= 0 and b > 0: the integer nearest to a / b, halves rounding up. */
  function RoundDiv(a: int, b: int): (r: int)
    requires 0 <= a && 0 < b
    ensures 0 <= r
    ensures 2 * b * r - b <= 2 * a < 2 * b * r + b
  {
    var q := (2 * a + b) / (2 * b);
    assert 2 * b * q <= 2 * a + b < 2 * b * q + 2 * b;
    q
  }

  /** A COLS x ROWS grid of cells of side c fits in the available area, each side capped. */
  predicate Fits(c: int, availWidth: nat, availHeight: nat, capWidth: nat, capHeight: nat) {
    COLS * c <= Min(availWidth, capWidth) && ROWS * c <= Min(availHeight, capHeight)
  }

  /** The cell size chosen by resizeCanvas: the largest integer size at which the whole grid fits
      in the available area (each side also capped), but never below minCell. The available sizes
      are the viewport sizes already scaled and floored; flooring first does not change the result,
      because floor(min(x, cap) / n) == min(floor(x), cap) / n for x >= 0. */
  function CellSize(availWidth: nat, availHeight: nat, capWidth: nat, capHeight: nat, minCell: nat): (r: nat)
    ensures minCell <= r
    ensures forall c: nat :: Fits(c, availWidth, availHeight, capWidth, capHeight) ==> c <= r
    ensures minCell < r ==> Fits(r, availWidth, availHeight, capWidth, capHeight)
    ensures minCell < r ==> !Fits(r + 1, availWidth, availHeight, capWidth, capHeight)
    ensures Min(availWidth, capWidth) / COLS <= minCell && Min(availHeight, capHeight) / ROWS <= minCell ==> r == minCell
  {
    Max(minCell, Min(Min(availWidth, capWidth) / COLS, Min(availHeight, capHeight) / ROWS))
  }

  /** PUZZLE_OFFSET_X = floor((COLS - PUZZLE_COLS) / 2) * CELL: the target zone is centred,
      which on this board is exactly one cell from the left edge. */
  function PuzzleOffsetX(cell: int): (r: int)
    ensures r == cell
    ensures 0 < cell ==> r / cell == 1
  {
    ((COLS - PUZZLE_COLS) / 2) * cell
  }

  /** PUZZLE_OFFSET_Y, likewise one cell from the top edge. */
  function PuzzleOffsetY(cell: int): (r: int)
    ensures r == cell
    ensures 0 < cell ==> r / cell == 1
  {
    ((ROWS - PUZZLE_ROWS) / 2) * cell
  }

  /** The list `all` built by createPiecesRandom and reshufflePositions: every cell, row by row. */
  function GridCells(): seq<Cell> {
    seq(COLS * ROWS, k requires 0 <= k < COLS * ROWS => Cell(k % COLS, k / COLS))
  }

  lemma GridCellsInGrid()
    ensures |GridCells()| == COLS * ROWS
    ensures forall k :: 0 <= k < |GridCells()| ==> InGrid(GridCells()[k])
  {
  }

  /** Every cell of the grid occurs in GridCells, at its row-major index. */
  lemma GridCellsCover(c: Cell)
    requires InGrid(c)
    ensures 0 <= c.gy * COLS + c.gx < |GridCells()| && GridCells()[c.gy * COLS + c.gx] == c
  {
  }

  /** No cell occurs twice in GridCells. */
  lemma GridCellsDistinct()
    ensures forall i, j :: 0 <= i < j < |GridCells()| ==> GridCells()[i] != GridCells()[j]
  {
    forall i, j | 0 <= i < j < |GridCells()|
      ensures GridCells()[i] != GridCells()[j]
    {
      assert i == COLS * (i / COLS) + i % COLS;
      assert j == COLS * (j / COLS) + j % COLS;
    }
  }

  /** With a positive factor c, the sign of c * k is the sign of k. */
  lemma PositiveFactorSign(c: int, k: int)
    requires 0 < c
    ensures c * k <= 0 ==> k <= 0
    ensures c * k < 0 ==> k < 0
  {
  }

  /** A clamped pixel position rounded to a cell lands on a cell of a line of n cells. */
  lemma SnapInRange(x: int, cell: int, n: int)
    requires 0 < cell && 0 < n && 0 <= x <= n * cell - cell
    ensures 0 <= RoundDiv(x, cell) < n
  {
    var r := RoundDiv(x, cell);
    assert cell * (2 * r - 2 * n + 1) <= 0;
    PositiveFactorSign(cell, 2 * r - 2 * n + 1);
  }

  /** Rounding g * c / c gives g back: scaling by an unchanged cell size is the identity. */
  lemma RoundScaleIdentity(g: int, c: int)
    requires 0 <= g && 0 < c
    ensures RoundDiv(g * c, c) == g
  {
    var r := RoundDiv(g * c, c);
    assert c * (2 * r - 1 - 2 * g) <= 0;
    assert c * (2 * g - 2 * r - 1) < 0;
    PositiveFactorSign(c, 2 * r - 1 - 2 * g);
    PositiveFactorSign(c, 2 * g - 2 * r - 1);
  }
}
