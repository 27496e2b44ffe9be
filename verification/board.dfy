/** The board as a value: the pieces with their current and remembered cells, the drag flag,
    and the pointer events (press, move, release, cancel) as functions from one board to the next.
    The class in game.dfy holds this state in fields and is proved against these functions. */
module Board {
  import opened Grid
  import opened Shuffle

  datatype Option<T> = None | Some(value: T)

  /** One tile: its fixed slice of the image (pieceCol, pieceRow), its current cell (gx, gy)
      and the cell it goes back to when a drop is refused (prevGx, prevGy). */
  datatype Piece = Piece(pieceCol: int, pieceRow: int, gx: int, gy: int, prevGx: int, prevGy: int)
  {
    function Pos(): Cell { Cell(gx, gy) }
    function Prev(): Cell { Cell(prevGx, prevGy) }
    predicate Settled() { gx == prevGx && gy == prevGy }
    predicate InRange() { InGrid(Pos()) && InGrid(Prev()) }

    /** px() / getPxX(): left edge in pixels. */
    function Px(cell: int): int { gx * cell }
    /** py() / getPxY(): top edge in pixels. */
    function Py(cell: int): int { gy * cell }

    /** contains(px, py): the point lies in the piece's square, edges included. */
    predicate Contains(cell: int, px: int, py: int) {
      px >= Px(cell) && px <= Px(cell) + cell && py >= Py(cell) && py <= Py(cell) + cell
    }
  }

  /** new Piece(img, pieceCol, pieceRow, gx, gy): the remembered cell starts as the current one. */
  function NewPiece(pieceCol: int, pieceRow: int, c: Cell): Piece {
    Piece(pieceCol, pieceRow, c.gx, c.gy, c.gx, c.gy)
  }

  /** `pieces` in draw order (the last is drawn on top and hit first), whether a drag is active
      (the dragged piece is then the last one, since a press moves it there), and the pointer's
      pixel offset from the dragged piece's corner. */
  datatype State = State(pieces: seq<Piece>, dragging: bool, dragOffsetX: int, dragOffsetY: int)

  predicate AllInRange(ps: seq<Piece>) {
    forall k :: 0 <= k < |ps| ==> ps[k].InRange()
  }

  predicate DistinctCells(ps: seq<Piece>) {
    forall i, j :: 0 <= i < j < |ps| ==> ps[i].Pos() != ps[j].Pos()
  }

  predicate DistinctPrev(ps: seq<Piece>) {
    forall i, j :: 0 <= i < j < |ps| ==> ps[i].Prev() != ps[j].Prev()
  }

  /** Piece k is the one being dragged. */
  predicate IsDragged(s: State, k: int) {
    s.dragging && k == |s.pieces| - 1
  }

  /** The shape every operation keeps: at most one piece per grid cell's worth of pieces,
      every coordinate on the grid, and a dragged piece exists while a drag is active. */
  predicate Wf(s: State) {
    |s.pieces| <= COLS * ROWS && AllInRange(s.pieces) && (s.dragging ==> |s.pieces| > 0)
  }

  /** The game's invariant: remembered cells are pairwise distinct and every piece that is not
      being dragged sits at its remembered cell. Only the dragged piece may overlap another. */
  predicate Consistent(s: State) {
    && Wf(s)
    && DistinctPrev(s.pieces)
    && forall k :: 0 <= k < |s.pieces| && !IsDragged(s, k) ==> s.pieces[k].Settled()
  }

  /** At rest no two pieces share a cell, and every piece's remembered cell is its current one. */
  lemma AtRestDisjoint(s: State)
    requires Consistent(s) && !s.dragging
    ensures DistinctCells(s.pieces)
    ensures forall k :: 0 <= k < |s.pieces| ==> s.pieces[k].Pos() == s.pieces[k].Prev()
  {
    forall k | 0 <= k < |s.pieces|
      ensures s.pieces[k].Pos() == s.pieces[k].Prev()
    {
      assert !IsDragged(s, k);
    }
  }

  // ---------------------------------------------------------------------------------------
  // Creation and reshuffling

  /** The shuffled list of all grid cells: a permutation of GridCells, so distinct and on the grid. */
  lemma ShuffledCells(js: seq<int>)
    requires Admissible(js, COLS * ROWS)
    ensures |Shuffled(GridCells(), js)| == COLS * ROWS
    ensures Distinct(Shuffled(GridCells(), js))
    ensures forall k :: 0 <= k < COLS * ROWS ==> InGrid(Shuffled(GridCells(), js)[k])
  {
    var all := Shuffled(GridCells(), js);
    GridCellsInGrid();
    GridCellsDistinct();
    ShufflePermutes(GridCells(), js);
    ShuffleKeepsDistinct(GridCells(), js);
    forall k | 0 <= k < COLS * ROWS
      ensures InGrid(all[k])
    {
      assert all[k] in GridCells();
      var m :| 0 <= m < |GridCells()| && GridCells()[m] == all[k];
    }
  }

  /** createPiecesRandom: piece k (row-major over the image slices) gets the k-th shuffled cell. */
  function Placement(cells: seq<Cell>): seq<Piece>
    requires |cells| >= PUZZLE_COLS * PUZZLE_ROWS
  {
    seq(PUZZLE_COLS * PUZZLE_ROWS, k requires 0 <= k < PUZZLE_COLS * PUZZLE_ROWS =>
      NewPiece(k % PUZZLE_COLS, k / PUZZLE_COLS, cells[k]))
  }

  /** After createPiecesRandom, whatever the random choices: sixteen pieces in row-major order of
      their slices, each at rest on its own grid cell. */
  lemma PlacementProperties(js: seq<int>)
    requires Admissible(js, COLS * ROWS)
    ensures var ps := Placement(Shuffled(GridCells(), js));
      && |ps| == PUZZLE_COLS * PUZZLE_ROWS
      && (forall k :: 0 <= k < |ps| ==>
            ps[k].pieceCol == k % PUZZLE_COLS && ps[k].pieceRow == k / PUZZLE_COLS && ps[k].Settled())
      && AllInRange(ps)
      && DistinctCells(ps)
      && DistinctPrev(ps)
  {
    var all := Shuffled(GridCells(), js);
    ShuffledCells(js);
    var ps := Placement(all);
    forall i, j | 0 <= i < j < |ps|
      ensures ps[i].Pos() != ps[j].Pos() && ps[i].Prev() != ps[j].Prev()
    {
      assert ps[i].Pos() == all[i] && ps[j].Pos() == all[j];
    }
  }

  /** reshufflePositions: piece i keeps its slice and its place in the array and gets the i-th
      shuffled cell as both current and remembered cell. */
  function Reassign(ps: seq<Piece>, cells: seq<Cell>): seq<Piece>
    requires |ps| <= |cells|
  {
    seq(|ps|, i requires 0 <= i < |ps| =>
      ps[i].(gx := cells[i].gx, gy := cells[i].gy, prevGx := cells[i].gx, prevGy := cells[i].gy))
  }

  /** After reshufflePositions: same number of pieces in the same order with the same slices,
      each at rest on its own grid cell. */
  lemma ReshuffleProperties(ps: seq<Piece>, js: seq<int>)
    requires |ps| <= COLS * ROWS && Admissible(js, COLS * ROWS)
    ensures var r := Reassign(ps, Shuffled(GridCells(), js));
      && |r| == |ps|
      && (forall k :: 0 <= k < |r| ==>
            r[k].pieceCol == ps[k].pieceCol && r[k].pieceRow == ps[k].pieceRow && r[k].Settled())
      && AllInRange(r)
      && DistinctCells(r)
      && DistinctPrev(r)
  {
    var all := Shuffled(GridCells(), js);
    ShuffledCells(js);
    var r := Reassign(ps, all);
    forall i, j | 0 <= i < j < |r|
      ensures r[i].Pos() != r[j].Pos() && r[i].Prev() != r[j].Prev()
    {
      assert r[i].Pos() == all[i] && r[j].Pos() == all[j];
    }
  }

  /** A freshly placed or reshuffled board is consistent, whether or not a drag is active. */
  lemma SettledBoardConsistent(s: State)
    requires Wf(s) && DistinctPrev(s.pieces)
    requires forall k :: 0 <= k < |s.pieces| ==> s.pieces[k].Settled()
    ensures Consistent(s)
  {
  }

  // ---------------------------------------------------------------------------------------
  // Resize with remapping (puzzle-2)

  /** puzzle-2's resizeCanvas on one piece: getPxX() already uses the NEW cell size, is divided by
      the old one and rounded, then clamped onto the grid; the remembered cell follows. */
  function RemapPiece(p: Piece, oldCell: int, newCell: int): Piece
    requires 0 <= p.gx && 0 <= p.gy && 0 < oldCell && 0 <= newCell
  {
    assert 0 <= p.Px(newCell) && 0 <= p.Py(newCell) by {
      NonNegativeProduct(p.gx, newCell);
      NonNegativeProduct(p.gy, newCell);
    }
    var gx := Clamp(RoundDiv(p.Px(newCell), oldCell), 0, COLS - 1);
    var gy := Clamp(RoundDiv(p.Py(newCell), oldCell), 0, ROWS - 1);
    p.(gx := gx, gy := gy, prevGx := gx, prevGy := gy)
  }

  lemma NonNegativeProduct(a: int, b: int)
    requires 0 <= a && 0 <= b
    ensures 0 <= a * b
  {
  }

  function RemapAll(ps: seq<Piece>, oldCell: int, newCell: int): seq<Piece>
    requires AllInRange(ps) && 0 < oldCell && 0 <= newCell
  {
    seq(|ps|, k requires 0 <= k < |ps| => RemapPiece(ps[k], oldCell, newCell))
  }

  /** The remap keeps every piece in its place in the array with its slice, puts it on the grid,
      and leaves it at rest. */
  lemma RemapKeepsShape(ps: seq<Piece>, oldCell: int, newCell: int)
    requires AllInRange(ps) && 0 < oldCell && 0 <= newCell
    ensures var r := RemapAll(ps, oldCell, newCell);
      && |r| == |ps|
      && (forall k :: 0 <= k < |r| ==>
            r[k].pieceCol == ps[k].pieceCol && r[k].pieceRow == ps[k].pieceRow && r[k].Settled())
      && AllInRange(r)
  {
  }

  /** When the cell size does not change, the remap keeps every piece on its cell
      (and so keeps the cells distinct). */
  lemma RemapSameCellKeepsCells(ps: seq<Piece>, cell: int)
    requires AllInRange(ps) && 0 < cell
    ensures var r := RemapAll(ps, cell, cell);
      && (forall k :: 0 <= k < |r| ==> r[k].Pos() == ps[k].Pos())
      && (DistinctCells(ps) ==> DistinctCells(r))
  {
    var r := RemapAll(ps, cell, cell);
    forall k | 0 <= k < |r|
      ensures r[k].Pos() == ps[k].Pos()
    {
      RoundScaleIdentity(ps[k].gx, cell);
      RoundScaleIdentity(ps[k].gy, cell);
    }
  }

  /** A change of the cell size by less than a tenth of the old size re-snaps every column and
      row index 0..5 to itself: small resizes leave every piece where it was. */
  lemma RemapSmallChangeKeepsCoordinate(g: int, oldCell: int, newCell: int)
    requires 0 <= g < COLS && 0 < oldCell && 0 <= newCell
    requires 10 * (newCell - oldCell) < oldCell && 10 * (oldCell - newCell) < oldCell
    ensures 0 <= g * newCell && Clamp(RoundDiv(g * newCell, oldCell), 0, COLS - 1) == g
  {
    NonNegativeProduct(g, newCell);
    var d := newCell - oldCell;
    SmallFactorBound(g, d);
    assert g * newCell == g * oldCell + g * d;
    NearestToScale(g, oldCell, g * d, RoundDiv(g * newCell, oldCell));
  }

  /** For 0 <= g <= 5, g * d lies between 5 * d and -5 * d. */
  lemma SmallFactorBound(g: int, d: int)
    requires 0 <= g < COLS
    ensures -5 * d <= g * d <= 5 * d || 5 * d <= g * d <= -5 * d
  {
  }

  /** Rounding (g * c + e) / c with |2e| < c gives g back. */
  lemma NearestToScale(g: int, c: int, e: int, r: int)
    requires 0 < c && -c < 2 * e < c
    requires 2 * c * r - c <= 2 * (g * c + e) < 2 * c * r + c
    ensures r == g
  {
    assert c * (2 * r - 2 * g - 2) < 0;
    assert c * (2 * g - 2 * r - 2) < 0;
    PositiveFactorSign(c, 2 * r - 2 * g - 2);
    PositiveFactorSign(c, 2 * g - 2 * r - 2);
  }

  /** Under a change of the cell size by less than a tenth, the remap leaves every piece on its
      cell, so distinct cells stay distinct. */
  lemma RemapSmallChangeKeepsCells(ps: seq<Piece>, oldCell: int, newCell: int)
    requires AllInRange(ps) && 0 < oldCell && 0 <= newCell
    requires 10 * (newCell - oldCell) < oldCell && 10 * (oldCell - newCell) < oldCell
    ensures var r := RemapAll(ps, oldCell, newCell);
      && (forall k :: 0 <= k < |r| ==> r[k].Pos() == ps[k].Pos())
      && (DistinctCells(ps) ==> DistinctCells(r))
  {
    var r := RemapAll(ps, oldCell, newCell);
    forall k | 0 <= k < |r|
      ensures r[k].Pos() == ps[k].Pos()
    {
      RemapSmallChangeKeepsCoordinate(ps[k].gx, oldCell, newCell);
      RemapSmallChangeKeepsCoordinate(ps[k].gy, oldCell, newCell);
    }
  }

  /** When the window shrinks so that the cell size halves (480 -> 240 available pixels gives
      80 -> 40), two pieces on neighbouring cells (1, 0) and (2, 0) end up on the same cell. */
  lemma RemapShrinkCollides()
    ensures var oldCell := CellSize(480, 480, 1000, 1000, 32);
      var newCell := CellSize(240, 240, 1000, 1000, 32);
      var ps := [NewPiece(0, 0, Cell(1, 0)), NewPiece(1, 0, Cell(2, 0))];
      && oldCell == 80 && newCell == 40
      && AllInRange(ps) && DistinctCells(ps)
      && !DistinctCells(RemapAll(ps, oldCell, newCell))
  {
    var ps := [NewPiece(0, 0, Cell(1, 0)), NewPiece(1, 0, Cell(2, 0))];
    var r := RemapAll(ps, 80, 40);
    assert r[0].Pos() == Cell(1, 0) == r[1].Pos();
  }

  /** When the window grows so that the cell size doubles (40 -> 80), pieces on (4, 0) and (5, 0)
      are both pushed past the last column and clamped onto the same cell. */
  lemma RemapGrowCollides()
    ensures var oldCell := CellSize(240, 240, 1000, 1000, 32);
      var newCell := CellSize(480, 480, 1000, 1000, 32);
      var ps := [NewPiece(0, 0, Cell(4, 0)), NewPiece(1, 0, Cell(5, 0))];
      && oldCell == 40 && newCell == 80
      && AllInRange(ps) && DistinctCells(ps)
      && !DistinctCells(RemapAll(ps, oldCell, newCell))
  {
    var ps := [NewPiece(0, 0, Cell(4, 0)), NewPiece(1, 0, Cell(5, 0))];
    var r := RemapAll(ps, 40, 80);
    assert r[0].Pos() == Cell(5, 0) == r[1].Pos();
  }

  // ---------------------------------------------------------------------------------------
  // Press

  /** Piece i is the topmost piece under the point. */
  predicate TopmostHit(ps: seq<Piece>, cell: int, px: int, py: int, i: int) {
    && 0 <= i < |ps|
    && ps[i].Contains(cell, px, py)
    && forall j :: i < j < |ps| ==> !ps[j].Contains(cell, px, py)
  }

  /** The hit test of pointerdown: pieces are tried from the last (topmost) down. */
  function TopHit(ps: seq<Piece>, cell: int, px: int, py: int): (r: Option<nat>)
    ensures r.Some? ==> TopmostHit(ps, cell, px, py, r.value)
    ensures r.None? <==> forall j :: 0 <= j < |ps| ==> !ps[j].Contains(cell, px, py)
    decreases |ps|
  {
    if |ps| == 0 then None
    else if ps[|ps| - 1].Contains(cell, px, py) then Some(|ps| - 1)
    else TopHit(ps[..|ps| - 1], cell, px, py)
  }

  /** The topmost piece under a point is unique. */
  lemma TopmostHitUnique(ps: seq<Piece>, cell: int, px: int, py: int, i: int, j: int)
    requires TopmostHit(ps, cell, px, py, i) && TopmostHit(ps, cell, px, py, j)
    ensures i == j
  {
  }

  /** The hit piece remembers its current cell and is moved to the end of the array. */
  function PickUp(ps: seq<Piece>, i: nat): seq<Piece>
    requires i < |ps|
  {
    ps[..i] + ps[i + 1..] + [ps[i].(prevGx := ps[i].gx, prevGy := ps[i].gy)]
  }

  /** PickUp keeps the others in their relative order and puts the hit piece last; when the hit
      piece was at rest the board holds exactly the same pieces as before. */
  lemma PickUpReorders(ps: seq<Piece>, i: nat)
    requires i < |ps|
    ensures |PickUp(ps, i)| == |ps|
    ensures PickUp(ps, i)[|ps| - 1] == ps[i].(prevGx := ps[i].gx, prevGy := ps[i].gy)
    ensures forall k :: 0 <= k < i ==> PickUp(ps, i)[k] == ps[k]
    ensures forall k :: i <= k < |ps| - 1 ==> PickUp(ps, i)[k] == ps[k + 1]
    ensures ps[i].Settled() ==> multiset(PickUp(ps, i)) == multiset(ps)
  {
    if ps[i].Settled() {
      assert ps[i].(prevGx := ps[i].gx, prevGy := ps[i].gy) == ps[i];
      calc {
        multiset(PickUp(ps, i));
        multiset(ps[..i]) + multiset(ps[i + 1..]) + multiset([ps[i]]);
        multiset(ps[..i] + [ps[i]] + ps[i + 1..]);
        { assert ps[..i] + [ps[i]] + ps[i + 1..] == ps; }
        multiset(ps);
      }
    }
  }

  /** pointerdown at (px, py). */
  function Press(s: State, cell: int, px: int, py: int): State {
    match TopHit(s.pieces, cell, px, py)
    case None => s
    case Some(i) => State(PickUp(s.pieces, i), true, px - s.pieces[i].Px(cell), py - s.pieces[i].Py(cell))
  }

  /** A press that hits nothing changes nothing; otherwise the topmost piece under the point is
      picked up, becomes the dragged piece, and the pointer's offset inside it is recorded. */
  lemma PressSelectsTopmost(s: State, cell: int, px: int, py: int)
    ensures (forall j :: 0 <= j < |s.pieces| ==> !s.pieces[j].Contains(cell, px, py)) ==> Press(s, cell, px, py) == s
    ensures forall i :: TopmostHit(s.pieces, cell, px, py, i) ==>
      Press(s, cell, px, py) == State(PickUp(s.pieces, i), true, px - s.pieces[i].Px(cell), py - s.pieces[i].Py(cell))
  {
    forall i | TopmostHit(s.pieces, cell, px, py, i)
      ensures Press(s, cell, px, py) == State(PickUp(s.pieces, i), true, px - s.pieces[i].Px(cell), py - s.pieces[i].Py(cell))
    {
      var h := TopHit(s.pieces, cell, px, py);
      TopmostHitUnique(s.pieces, cell, px, py, h.value, i);
    }
  }

  lemma PressKeepsWf(s: State, cell: int, px: int, py: int)
    requires Wf(s)
    ensures Wf(Press(s, cell, px, py))
  {
    var h := TopHit(s.pieces, cell, px, py);
    if h.Some? {
      PickUpReorders(s.pieces, h.value);
    }
  }

  /** A press on an idle, consistent board leaves it consistent, with the same pieces. */
  lemma PressKeepsConsistent(s: State, cell: int, px: int, py: int)
    requires Consistent(s) && !s.dragging
    ensures Consistent(Press(s, cell, px, py))
    ensures multiset(Press(s, cell, px, py).pieces) == multiset(s.pieces)
  {
    var h := TopHit(s.pieces, cell, px, py);
    if h.Some? {
      var i := h.value;
      var ps := s.pieces;
      var r := PickUp(ps, i);
      assert !IsDragged(s, i);
      PickUpReorders(ps, i);
      var n := |ps|;
      forall a, b | 0 <= a < b < n
        ensures r[a].Prev() != r[b].Prev()
      {
        var sa := if a == n - 1 then i else if a < i then a else a + 1;
        var sb := if b == n - 1 then i else if b < i then b else b + 1;
        assert r[a].Prev() == ps[sa].Prev() && r[b].Prev() == ps[sb].Prev();
      }
      forall k | 0 <= k < n - 1
        ensures r[k].Settled()
      {
        var sk := if k < i then k else k + 1;
        assert !IsDragged(s, sk);
      }
    }
  }

  /** A second pointer pressing the dragged piece while a drag is active re-records its
      remembered cell as its live cell. If that cell is another piece's, the drop is then refused
      and "rolled back" onto that same cell: two pieces end up sharing a cell at rest. */
  lemma SecondPressBreaksDisjointness()
    ensures var s := State([NewPiece(0, 0, Cell(0, 0)), Piece(1, 0, 0, 0, 2, 0)], true, 0, 0);
      var pressed := Press(s, 80, 40, 40);
      var released := Release(pressed);
      && Consistent(s)
      && !Consistent(pressed)
      && !released.dragging
      && !DistinctCells(released.pieces)
  {
    var s := State([NewPiece(0, 0, Cell(0, 0)), Piece(1, 0, 0, 0, 2, 0)], true, 0, 0);
    assert TopmostHit(s.pieces, 80, 40, 40, 1);
    PressSelectsTopmost(s, 80, 40, 40);
    var pressed := Press(s, 80, 40, 40);
    assert pressed.pieces == [NewPiece(0, 0, Cell(0, 0)), NewPiece(1, 0, Cell(0, 0))];
    assert pressed.pieces[..1][0].Pos() == Cell(0, 0);
    var released := Release(pressed);
    assert released.pieces[0].Pos() == released.pieces[1].Pos();
  }

  // ---------------------------------------------------------------------------------------
  // Move

  /** pointermove: the pointer position minus the recorded offset, clamped so the piece stays on
      the canvas, rounded to the nearest cell. */
  function Move(s: State, cell: int, px: int, py: int): (r: State)
    requires 0 < cell && Wf(s)
    ensures Wf(r)
    ensures r.dragging == s.dragging && |r.pieces| == |s.pieces|
    ensures r.dragOffsetX == s.dragOffsetX && r.dragOffsetY == s.dragOffsetY
    ensures forall k :: 0 <= k < |s.pieces| && !IsDragged(s, k) ==> r.pieces[k] == s.pieces[k]
    ensures s.dragging ==>
      var d := s.pieces[|s.pieces| - 1];
      var e := r.pieces[|s.pieces| - 1];
      e == d.(gx := e.gx, gy := e.gy)
  {
    if !s.dragging then s
    else
      var n := |s.pieces|;
      var x := Clamp(px - s.dragOffsetX, 0, COLS * cell - cell);
      var y := Clamp(py - s.dragOffsetY, 0, ROWS * cell - cell);
      SnapInRange(x, cell, COLS);
      SnapInRange(y, cell, ROWS);
      s.(pieces := s.pieces[n - 1 := s.pieces[n - 1].(gx := RoundDiv(x, cell), gy := RoundDiv(y, cell))])
  }

  lemma MoveKeepsConsistent(s: State, cell: int, px: int, py: int)
    requires 0 < cell && Consistent(s)
    ensures Consistent(Move(s, cell, px, py))
  {
    var r := Move(s, cell, px, py);
    forall i, j | 0 <= i < j < |r.pieces|
      ensures r.pieces[i].Prev() != r.pieces[j].Prev()
    {
      assert r.pieces[i].Prev() == s.pieces[i].Prev() && r.pieces[j].Prev() == s.pieces[j].Prev();
    }
  }

  /** A run of pointermove events. */
  function Moves(s: State, cell: int, pts: seq<(int, int)>): (r: State)
    requires 0 < cell && Wf(s)
    ensures Wf(r)
    decreases |pts|
  {
    if |pts| == 0 then s else Moves(Move(s, cell, pts[0].0, pts[0].1), cell, pts[1..])
  }

  /** Moves touch only the dragged piece's current cell: the others, its slice and its remembered
      cell stay as they were. */
  lemma {:induction false} MovesOnlyDragged(s: State, cell: int, pts: seq<(int, int)>)
    requires 0 < cell && Wf(s) && s.dragging
    ensures var r := Moves(s, cell, pts);
      var n := |s.pieces|;
      && r.dragging && |r.pieces| == n
      && r.pieces[..n - 1] == s.pieces[..n - 1]
      && r.pieces[n - 1].Prev() == s.pieces[n - 1].Prev()
      && r.pieces[n - 1].pieceCol == s.pieces[n - 1].pieceCol
      && r.pieces[n - 1].pieceRow == s.pieces[n - 1].pieceRow
    decreases |pts|
  {
    if |pts| > 0 {
      var m := Move(s, cell, pts[0].0, pts[0].1);
      MovesOnlyDragged(m, cell, pts[1..]);
      var n := |s.pieces|;
      assert m.pieces[..n - 1] == s.pieces[..n - 1];
    }
  }

  // ---------------------------------------------------------------------------------------
  // Release and cancel

  /** The dragged piece's cell clamped onto the grid. */
  function DropCell(d: Piece): Cell {
    Cell(Clamp(d.gx, 0, COLS - 1), Clamp(d.gy, 0, ROWS - 1))
  }

  /** pieces.some(p => p !== dragging && p.gx === dragging.gx && p.gy === dragging.gy) */
  predicate Occupied(others: seq<Piece>, c: Cell) {
    exists k :: 0 <= k < |others| && others[k].Pos() == c
  }

  /** pointerup: drop on the clamped cell if no other piece holds it (and remember it), otherwise
      go back to the remembered cell; the drag ends either way. */
  function Release(s: State): (r: State)
    requires Wf(s)
    ensures Wf(r) && !r.dragging
    ensures !s.dragging ==> r == s
  {
    if !s.dragging then s
    else
      var n := |s.pieces|;
      var d := s.pieces[n - 1];
      var t := DropCell(d);
      var dropped :=
        if Occupied(s.pieces[..n - 1], t) then d.(gx := d.prevGx, gy := d.prevGy)
        else d.(gx := t.gx, gy := t.gy, prevGx := t.gx, prevGy := t.gy);
      s.(pieces := s.pieces[n - 1 := dropped], dragging := false)
  }

  /** The dragged piece ends at its drop cell or at its remembered cell, never anywhere else, and
      at rest; no other piece moves. */
  lemma ReleaseOutcome(s: State)
    requires Wf(s) && s.dragging
    ensures var r := Release(s);
      var n := |s.pieces|;
      var d := s.pieces[n - 1];
      var e := r.pieces[n - 1];
      && |r.pieces| == n && r.pieces[..n - 1] == s.pieces[..n - 1]
      && (e.Pos() == DropCell(d) || e.Pos() == d.Prev())
      && (Occupied(s.pieces[..n - 1], DropCell(d)) ==> e.Pos() == d.Prev() && e.Prev() == d.Prev())
      && (!Occupied(s.pieces[..n - 1], DropCell(d)) ==> e.Pos() == DropCell(d) && e.Prev() == DropCell(d))
      && e.Settled() && e.pieceCol == d.pieceCol && e.pieceRow == d.pieceRow
  {
    var n := |s.pieces|;
    assert Release(s).pieces[..n - 1] == s.pieces[..n - 1];
  }

  /** Release of a consistent board gives a consistent board at rest, so no two pieces share a
      cell; the drop is accepted exactly when no other piece holds the drop cell. */
  lemma ReleaseKeepsConsistent(s: State)
    requires Consistent(s)
    ensures Consistent(Release(s))
    ensures DistinctCells(Release(s).pieces)
    ensures s.dragging ==>
      var n := |s.pieces|;
      (Release(s).pieces[n - 1].Pos() == DropCell(s.pieces[n - 1]) <==> !Occupied(s.pieces[..n - 1], DropCell(s.pieces[n - 1])))
  {
    if s.dragging {
      var n := |s.pieces|;
      var d := s.pieces[n - 1];
      var t := DropCell(d);
      var r := Release(s);
      ReleaseOutcome(s);
      forall k | 0 <= k < n - 1
        ensures s.pieces[k].Settled() && s.pieces[k].Pos() != d.Prev()
      {
        assert !IsDragged(s, k);
      }
      if !Occupied(s.pieces[..n - 1], t) {
        forall k | 0 <= k < n - 1
          ensures s.pieces[k].Prev() != t
        {
          assert s.pieces[..n - 1][k] == s.pieces[k];
        }
      }
      forall i, j | 0 <= i < j < n
        ensures r.pieces[i].Prev() != r.pieces[j].Prev()
      {
        assert r.pieces[i] == s.pieces[i];
      }
      forall k | 0 <= k < n
        ensures r.pieces[k].Settled()
      {
        if k < n - 1 {
          assert r.pieces[k] == s.pieces[k];
        }
      }
      AtRestDisjoint(r);
    } else {
      AtRestDisjoint(s);
    }
  }

  /** pointercancel: the dragged piece goes back to its remembered cell and the drag ends. */
  function Cancel(s: State): (r: State)
    requires Wf(s)
    ensures Wf(r) && !r.dragging
    ensures !s.dragging ==> r == s
  {
    if !s.dragging then s
    else
      var n := |s.pieces|;
      var d := s.pieces[n - 1];
      s.(pieces := s.pieces[n - 1 := d.(gx := d.prevGx, gy := d.prevGy)], dragging := false)
  }

  /** During any drag, a cancel puts the dragged piece back on its remembered cell, at rest and
      with its slice, and no other piece changes. */
  lemma CancelOutcome(s: State)
    requires Wf(s) && s.dragging
    ensures var r := Cancel(s);
      var n := |s.pieces|;
      var d := s.pieces[n - 1];
      var e := r.pieces[n - 1];
      && |r.pieces| == n && r.pieces[..n - 1] == s.pieces[..n - 1]
      && e.Pos() == d.Prev() && e.Prev() == d.Prev() && e.Settled()
      && e.pieceCol == d.pieceCol && e.pieceRow == d.pieceRow
  {
    var n := |s.pieces|;
    assert Cancel(s).pieces[..n - 1] == s.pieces[..n - 1];
  }

  lemma CancelKeepsConsistent(s: State)
    requires Consistent(s)
    ensures Consistent(Cancel(s)) && DistinctCells(Cancel(s).pieces)
  {
    var r := Cancel(s);
    forall i, j | 0 <= i < j < |r.pieces|
      ensures r.pieces[i].Prev() != r.pieces[j].Prev()
    {
      assert r.pieces[i].Prev() == s.pieces[i].Prev() && r.pieces[j].Prev() == s.pieces[j].Prev();
    }
    AtRestDisjoint(r);
  }

  /** Press on the topmost piece i of an idle consistent board: piece i, unchanged, becomes the
      last and dragged piece and the others keep their order. */
  lemma PressOnIdle(s: State, cell: int, px: int, py: int, i: int)
    requires Consistent(s) && !s.dragging && TopmostHit(s.pieces, cell, px, py, i)
    ensures var p := Press(s, cell, px, py);
      var n := |s.pieces|;
      && p.dragging && |p.pieces| == n
      && p.pieces[..n - 1] == s.pieces[..i] + s.pieces[i + 1..]
      && p.pieces[n - 1] == s.pieces[i]
      && Consistent(p)
  {
    PressSelectsTopmost(s, cell, px, py);
    PressKeepsConsistent(s, cell, px, py);
    PickUpReorders(s.pieces, i);
    assert !IsDragged(s, i);
    var p := Press(s, cell, px, py);
    var n := |s.pieces|;
    assert p.pieces[..n - 1] == s.pieces[..i] + s.pieces[i + 1..];
  }

  /** Press on the topmost piece i of an idle consistent board followed by any moves: the others
      are the board without piece i, in order, and the dragged piece is piece i remembering the
      cell it had at press time. */
  lemma PressThenMoves(s: State, cell: int, px: int, py: int, i: int, pts: seq<(int, int)>)
    requires 0 < cell && Consistent(s) && !s.dragging && TopmostHit(s.pieces, cell, px, py, i)
    ensures var m := Moves(Press(s, cell, px, py), cell, pts);
      var n := |s.pieces|;
      && m.dragging && |m.pieces| == n
      && m.pieces[..n - 1] == s.pieces[..i] + s.pieces[i + 1..]
      && m.pieces[n - 1].Prev() == s.pieces[i].Pos()
      && m.pieces[n - 1].pieceCol == s.pieces[i].pieceCol
      && m.pieces[n - 1].pieceRow == s.pieces[i].pieceRow
      && Consistent(m)
  {
    PressOnIdle(s, cell, px, py, i);
    var p := Press(s, cell, px, py);
    MovesOnlyDragged(p, cell, pts);
    MovesKeepConsistent(p, cell, pts);
  }

  lemma {:induction false} MovesKeepConsistent(s: State, cell: int, pts: seq<(int, int)>)
    requires 0 < cell && Consistent(s)
    ensures Consistent(Moves(s, cell, pts))
    decreases |pts|
  {
    if |pts| > 0 {
      MoveKeepsConsistent(s, cell, pts[0].0, pts[0].1);
      MovesKeepConsistent(Move(s, cell, pts[0].0, pts[0].1), cell, pts[1..]);
    }
  }

  /** Press, any number of moves, then cancel: piece i is back exactly on the cell it had at
      press time, whatever cells it visited, now drawn on top; the board holds the same pieces. */
  lemma CancelRestoresPressCell(s: State, cell: int, px: int, py: int, i: int, pts: seq<(int, int)>)
    requires 0 < cell && Consistent(s) && !s.dragging && TopmostHit(s.pieces, cell, px, py, i)
    ensures var r := Cancel(Moves(Press(s, cell, px, py), cell, pts));
      && !r.dragging
      && r.pieces == s.pieces[..i] + s.pieces[i + 1..] + [s.pieces[i]]
      && multiset(r.pieces) == multiset(s.pieces)
  {
    PressThenMoves(s, cell, px, py, i, pts);
    var m := Moves(Press(s, cell, px, py), cell, pts);
    var r := Cancel(m);
    var n := |s.pieces|;
    assert !IsDragged(s, i);
    assert r.pieces[n - 1] == s.pieces[i];
    assert r.pieces == r.pieces[..n - 1] + [r.pieces[n - 1]];
    assert r.pieces[..n - 1] == m.pieces[..n - 1];
    PickUpReorders(s.pieces, i);
    assert PickUp(s.pieces, i) == r.pieces;
  }

  /** Another piece than the last holds the last piece's drop cell. */
  predicate DropTaken(m: State) {
    |m.pieces| > 0 && Occupied(m.pieces[..|m.pieces| - 1], DropCell(m.pieces[|m.pieces| - 1]))
  }

  /** A refused drop puts the dragged piece back on its remembered cell, after the others. */
  lemma RefusedDrop(m: State)
    requires Wf(m) && m.dragging && DropTaken(m)
    ensures var n := |m.pieces|;
      var d := m.pieces[n - 1];
      Release(m).pieces == m.pieces[..n - 1] + [d.(gx := d.prevGx, gy := d.prevGy)]
  {
  }

  /** Press, any number of moves, then release onto a cell another piece holds: the drop is
      refused, piece i returns to its press-time cell and the board holds the same pieces. */
  lemma RefusedDropRestoresBoard(s: State, cell: int, px: int, py: int, i: int, pts: seq<(int, int)>)
    requires 0 < cell && Consistent(s) && !s.dragging && TopmostHit(s.pieces, cell, px, py, i)
    requires DropTaken(Moves(Press(s, cell, px, py), cell, pts))
    ensures var r := Release(Moves(Press(s, cell, px, py), cell, pts));
      && !r.dragging
      && r.pieces == s.pieces[..i] + s.pieces[i + 1..] + [s.pieces[i]]
      && multiset(r.pieces) == multiset(s.pieces)
  {
    PressThenMoves(s, cell, px, py, i, pts);
    var m := Moves(Press(s, cell, px, py), cell, pts);
    var n := |s.pieces|;
    RefusedDrop(m);
    var d := m.pieces[n - 1];
    assert !IsDragged(s, i);
    assert d.(gx := d.prevGx, gy := d.prevGy) == s.pieces[i];
    var r := Release(m);
    assert r.pieces == s.pieces[..i] + s.pieces[i + 1..] + [s.pieces[i]];
    PickUpReorders(s.pieces, i);
    assert s.pieces[i].(prevGx := s.pieces[i].gx, prevGy := s.pieces[i].gy) == s.pieces[i];
    assert r.pieces == PickUp(s.pieces, i);
  }

  // ---------------------------------------------------------------------------------------
  // Solved check

  /** checkSolved's test: every piece is at (tx + pieceCol, ty + pieceRow). */
  predicate AllAtTarget(ps: seq<Piece>, tx: int, ty: int) {
    forall k :: 0 <= k < |ps| ==> ps[k].gx == tx + ps[k].pieceCol && ps[k].gy == ty + ps[k].pieceRow
  }

  /** Every piece shows a slice of the 4 x 4 image. */
  predicate SlicesInZone(ps: seq<Piece>) {
    forall k :: 0 <= k < |ps| ==> 0 <= ps[k].pieceCol < PUZZLE_COLS && 0 <= ps[k].pieceRow < PUZZLE_ROWS
  }

  /** No two pieces show the same slice. */
  predicate DistinctSlices(ps: seq<Piece>) {
    forall i, j :: 0 <= i < j < |ps| ==> ps[i].pieceCol != ps[j].pieceCol || ps[i].pieceRow != ps[j].pieceRow
  }

  /** createPiecesRandom gives the sixteen pieces the sixteen slices, each once. */
  lemma PlacementSlices(cells: seq<Cell>)
    requires |cells| >= PUZZLE_COLS * PUZZLE_ROWS
    ensures SlicesInZone(Placement(cells)) && DistinctSlices(Placement(cells))
  {
    var ps := Placement(cells);
    forall i, j | 0 <= i < j < |ps|
      ensures ps[i].pieceCol != ps[j].pieceCol || ps[i].pieceRow != ps[j].pieceRow
    {
      assert i == PUZZLE_COLS * (i / PUZZLE_COLS) + i % PUZZLE_COLS;
      assert j == PUZZLE_COLS * (j / PUZZLE_COLS) + j % PUZZLE_COLS;
    }
  }

  /** Press, move, release and cancel never change which slices are on the board: a press only
      reorders the pieces, the others only change cells. */
  lemma EventsKeepSlices(s: State, cell: int, px: int, py: int)
    requires 0 < cell && Wf(s) && SlicesInZone(s.pieces) && DistinctSlices(s.pieces)
    ensures SlicesInZone(Press(s, cell, px, py).pieces) && DistinctSlices(Press(s, cell, px, py).pieces)
    ensures SlicesInZone(Move(s, cell, px, py).pieces) && DistinctSlices(Move(s, cell, px, py).pieces)
    ensures SlicesInZone(Release(s).pieces) && DistinctSlices(Release(s).pieces)
    ensures SlicesInZone(Cancel(s).pieces) && DistinctSlices(Cancel(s).pieces)
  {
    var ps := s.pieces;
    var h := TopHit(ps, cell, px, py);
    if h.Some? {
      var i := h.value;
      var r := PickUp(ps, i);
      PickUpReorders(ps, i);
      var n := |ps|;
      forall a, b | 0 <= a < b < n
        ensures r[a].pieceCol != r[b].pieceCol || r[a].pieceRow != r[b].pieceRow
      {
        var sa := if a == n - 1 then i else if a < i then a else a + 1;
        var sb := if b == n - 1 then i else if b < i then b else b + 1;
        assert r[a].pieceCol == ps[sa].pieceCol && r[a].pieceRow == ps[sa].pieceRow;
        assert r[b].pieceCol == ps[sb].pieceCol && r[b].pieceRow == ps[sb].pieceRow;
      }
      forall a | 0 <= a < n
        ensures 0 <= r[a].pieceCol < PUZZLE_COLS && 0 <= r[a].pieceRow < PUZZLE_ROWS
      {
        var sa := if a == n - 1 then i else if a < i then a else a + 1;
        assert r[a].pieceCol == ps[sa].pieceCol && r[a].pieceRow == ps[sa].pieceRow;
      }
    }
    var m := Move(s, cell, px, py).pieces;
    var rl := Release(s).pieces;
    var c := Cancel(s).pieces;
    assert forall k :: 0 <= k < |ps| ==> m[k].pieceCol == ps[k].pieceCol && m[k].pieceRow == ps[k].pieceRow;
    assert forall k :: 0 <= k < |ps| ==> rl[k].pieceCol == ps[k].pieceCol && rl[k].pieceRow == ps[k].pieceRow;
    assert forall k :: 0 <= k < |ps| ==> c[k].pieceCol == ps[k].pieceCol && c[k].pieceRow == ps[k].pieceRow;
  }

  /** When checkSolved's test holds on a board whose pieces show distinct slices of the image,
      in whatever order they are: each piece sits on (1 + pieceCol, 1 + pieceRow), inside the
      target zone, and no two share a cell. */
  lemma SolvedArrangement(ps: seq<Piece>)
    requires SlicesInZone(ps) && DistinctSlices(ps)
    requires AllAtTarget(ps, 1, 1)
    ensures forall k :: 0 <= k < |ps| ==> ps[k].Pos() == Cell(1 + ps[k].pieceCol, 1 + ps[k].pieceRow)
    ensures forall k :: 0 <= k < |ps| ==> 1 <= ps[k].gx <= PUZZLE_COLS && 1 <= ps[k].gy <= PUZZLE_ROWS
    ensures DistinctCells(ps)
  {
    forall i, j | 0 <= i < j < |ps|
      ensures ps[i].Pos() != ps[j].Pos()
    {
      assert ps[i].Pos() == Cell(1 + ps[i].pieceCol, 1 + ps[i].pieceRow);
    }
  }
}
