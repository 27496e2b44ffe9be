/** The game's module-level state (CELL, PUZZLE_OFFSET_X/Y, pieces, dragging, dragOffsetX/Y) as
    the fields of one object, with resizeCanvas, createPiecesRandom, reshufflePositions,
    checkSolved and the four pointer handlers as its methods. Each method is proved against the
    functions of module Board. */
module Game {
  import opened Grid
  import opened Shuffle
  import opened Board

  /** The list `all` of createPiecesRandom and reshufflePositions, filled row by row. */
  method AllCells() returns (all: array<Cell>)
    ensures fresh(all) && all[..] == GridCells()
  {
    all := new Cell[COLS * ROWS];
    var idx := 0;
    for r := 0 to ROWS
      invariant idx == r * COLS
      invariant forall k :: 0 <= k < idx ==> all[k] == GridCells()[k]
    {
      for c := 0 to COLS
        invariant idx == r * COLS + c
        invariant forall k :: 0 <= k < idx ==> all[k] == GridCells()[k]
      {
        all[idx] := Cell(c, r);
        idx := idx + 1;
      }
    }
  }

  class Puzzle {
    /** CELL: the side of a cell in CSS pixels. */
    var cell: int
    var puzzleOffsetX: int
    var puzzleOffsetY: int
    /** Draw order: the last piece is drawn on top and is hit first. */
    var pieces: seq<Piece>
    /** dragging !== null. The dragged piece is always the last of `pieces`. */
    var dragging: bool
    var dragOffsetX: int
    var dragOffsetY: int

    ghost predicate Valid()
      reads this
    {
      0 < cell && Wf(Current())
    }

    /** The board part of the state, as a value. */
    function Current(): State
      reads this
    {
      State(pieces, dragging, dragOffsetX, dragOffsetY)
    }

    /** The target zone's offset matches the cell size (true after every resize). */
    predicate GeometrySet()
      reads this
    {
      puzzleOffsetX == PuzzleOffsetX(cell) && puzzleOffsetY == PuzzleOffsetY(cell)
    }

    /** The initial values of the globals, before the image has loaded. */
    constructor ()
      ensures Valid()
      ensures cell == 80 && puzzleOffsetX == 0 && puzzleOffsetY == 0
      ensures Current() == State([], false, 0, 0)
    {
      cell := 80;
      puzzleOffsetX, puzzleOffsetY := 0, 0;
      pieces := [];
      dragging := false;
      dragOffsetX, dragOffsetY := 0, 0;
    }

    /** resizeCanvas of main.js: new cell size (at least 28) and target-zone offset; the pieces
        keep their grid coordinates. availWidth and availHeight are floor(innerWidth * 0.95) and
        floor(innerHeight * 0.78). */
    method ResizeCanvas(availWidth: nat, availHeight: nat)
      requires Valid()
      modifies this
      ensures Valid() && GeometrySet()
      ensures cell == CellSize(availWidth, availHeight, 1400, 1200, 28) && cell >= 28
      ensures Current() == old(Current())
    {
      cell := CellSize(availWidth, availHeight, 1400, 1200, 28);
      puzzleOffsetX := PuzzleOffsetX(cell);
      puzzleOffsetY := PuzzleOffsetY(cell);
    }

    /** resizeCanvas of puzzle-2/main.js: new cell size (at least 32) and offset, then every piece
        is rewritten from its pixel position (already at the new size) divided by the old size. */
    method ResizeCanvasRemap(availWidth: nat, availHeight: nat)
      requires Valid()
      modifies this
      ensures Valid() && GeometrySet()
      ensures cell == CellSize(availWidth, availHeight, 1000, 1000, 32) && cell >= 32
      ensures pieces == RemapAll(old(pieces), old(cell), cell)
      ensures dragging == old(dragging) && dragOffsetX == old(dragOffsetX) && dragOffsetY == old(dragOffsetY)
      ensures forall k :: 0 <= k < |pieces| ==> pieces[k].Settled()
      ensures cell == old(cell) ==> forall k :: 0 <= k < |pieces| ==> pieces[k].Pos() == old(pieces[k].Pos())
    {
      var oldCell := if cell != 0 then cell else 80;
      var newCell := CellSize(availWidth, availHeight, 1000, 1000, 32);
      var ps := pieces;
      ghost var before := ps;
      assert AllInRange(before);
      if |ps| > 0 {
        var i := 0;
        while i < |ps|
          invariant 0 <= i <= |ps| == |before|
          invariant forall k :: 0 <= k < i ==> ps[k] == RemapPiece(before[k], oldCell, newCell)
          invariant forall k :: i <= k < |ps| ==> ps[k] == before[k]
          invariant unchanged(this)
        {
          var p := ps[i];
          assert before[i].InRange();
          NonNegativeProduct(p.gx, newCell);
          NonNegativeProduct(p.gy, newCell);
          var gx := RoundDiv(p.Px(newCell), oldCell);
          var gy := RoundDiv(p.Py(newCell), oldCell);
          var newGx := Clamp(gx, 0, COLS - 1);
          var newGy := Clamp(gy, 0, ROWS - 1);
          ps := ps[i := p.(gx := newGx, gy := newGy, prevGx := newGx, prevGy := newGy)];
          i := i + 1;
        }
      }
      cell := newCell;
      puzzleOffsetX := PuzzleOffsetX(cell);
      puzzleOffsetY := PuzzleOffsetY(cell);
      pieces := ps;
      assert pieces == RemapAll(before, oldCell, newCell);
      RemapKeepsShape(before, oldCell, newCell);
      if newCell == oldCell {
        RemapSameCellKeepsCells(before, newCell);
      }
    }

    /** createPiecesRandom with the random choices js of its shuffle. It runs at start-up, once
        the image has loaded. The drag flag is left as it was: if a drag were active, the last new
        piece would count as dragged, whereas the source keeps dragging an orphaned piece. */
    method CreatePiecesRandom(js: seq<int>)
      requires Valid() && Admissible(js, COLS * ROWS)
      modifies this
      ensures Valid() && Consistent(Current())
      ensures pieces == Placement(Shuffled(GridCells(), js))
      ensures dragging == old(dragging) && dragOffsetX == old(dragOffsetX) && dragOffsetY == old(dragOffsetY)
      ensures cell == old(cell) && puzzleOffsetX == old(puzzleOffsetX) && puzzleOffsetY == old(puzzleOffsetY)
    {
      var ps := [];
      var all := AllCells();
      ShuffleArray(all, js);
      ghost var cells := all[..];
      var idx := 0;
      for r := 0 to PUZZLE_ROWS
        invariant idx == r * PUZZLE_COLS && |ps| == idx
        invariant forall k :: 0 <= k < idx ==> ps[k] == NewPiece(k % PUZZLE_COLS, k / PUZZLE_COLS, cells[k])
      {
        for c := 0 to PUZZLE_COLS
          invariant idx == r * PUZZLE_COLS + c && |ps| == idx
          invariant forall k :: 0 <= k < idx ==> ps[k] == NewPiece(k % PUZZLE_COLS, k / PUZZLE_COLS, cells[k])
        {
          var free := all[idx];
          idx := idx + 1;
          ps := ps + [NewPiece(c, r, free)];
        }
      }
      pieces := ps;
      assert pieces == Placement(cells);
      PlacementProperties(js);
      SettledBoardConsistent(Current());
    }

    /** reshufflePositions (the restart button) with the random choices js of its shuffle. */
    method ReshufflePositions(js: seq<int>)
      requires Valid() && Admissible(js, COLS * ROWS)
      modifies this
      ensures Valid() && Consistent(Current())
      ensures pieces == Reassign(old(pieces), Shuffled(GridCells(), js))
      ensures dragging == old(dragging) && dragOffsetX == old(dragOffsetX) && dragOffsetY == old(dragOffsetY)
      ensures cell == old(cell) && puzzleOffsetX == old(puzzleOffsetX) && puzzleOffsetY == old(puzzleOffsetY)
    {
      var all := AllCells();
      ShuffleArray(all, js);
      ghost var cells := all[..];
      var ps := pieces;
      ghost var before := ps;
      for i := 0 to |ps|
        invariant |ps| == |before|
        invariant forall k :: 0 <= k < i ==> ps[k] == Reassign(before, cells)[k]
        invariant forall k :: i <= k < |ps| ==> ps[k] == before[k]
      {
        var free := all[i];
        ps := ps[i := ps[i].(gx := free.gx, gy := free.gy, prevGx := free.gx, prevGy := free.gy)];
      }
      pieces := ps;
      assert pieces == Reassign(before, cells);
      ReshuffleProperties(before, js);
      SettledBoardConsistent(Current());
    }

    /** checkSolved: true exactly when every piece is on its target cell; nothing changes. */
    method CheckSolved() returns (ok: bool)
      requires Valid()
      ensures ok <==> AllAtTarget(pieces, puzzleOffsetX / cell, puzzleOffsetY / cell)
      ensures GeometrySet() ==> (ok <==> AllAtTarget(pieces, 1, 1))
    {
      ok := true;
      var k := 0;
      while k < |pieces|
        invariant 0 <= k <= |pieces|
        invariant AllAtTarget(pieces[..k], puzzleOffsetX / cell, puzzleOffsetY / cell)
      {
        var p := pieces[k];
        var targetGx := puzzleOffsetX / cell + p.pieceCol;
        var targetGy := puzzleOffsetY / cell + p.pieceRow;
        if p.gx != targetGx || p.gy != targetGy {
          ok := false;
          break;
        }
        k := k + 1;
      }
      assert ok ==> pieces[..k] == pieces;
    }

    /** pointerdown at (px, py), in canvas pixels. */
    method PointerDown(px: int, py: int)
      requires Valid()
      modifies this
      ensures Valid() && Current() == Press(old(Current()), cell, px, py)
      ensures cell == old(cell) && puzzleOffsetX == old(puzzleOffsetX) && puzzleOffsetY == old(puzzleOffsetY)
      ensures old(Consistent(Current())) && !old(dragging) ==> Consistent(Current())
    {
      ghost var before := Current();
      var i := |pieces| - 1;
      while i >= 0
        invariant -1 <= i < |pieces|
        invariant forall j :: i < j < |pieces| ==> !pieces[j].Contains(cell, px, py)
      {
        if pieces[i].Contains(cell, px, py) {
          break;
        }
        i := i - 1;
      }
      if i >= 0 {
        assert TopHit(before.pieces, cell, px, py) == Some(i) by {
          var t := TopHit(before.pieces, cell, px, py);
          assert t.Some?;
          TopmostHitUnique(before.pieces, cell, px, py, i, t.value);
        }
        var picked := pieces[i].(prevGx := pieces[i].gx, prevGy := pieces[i].gy);
        dragOffsetX := px - picked.Px(cell);
        dragOffsetY := py - picked.Py(cell);
        pieces := pieces[..i] + pieces[i + 1..] + [picked];
        dragging := true;
        assert pieces == PickUp(before.pieces, i);
      } else {
        assert TopHit(before.pieces, cell, px, py).None?;
      }
      assert Current() == Press(before, cell, px, py);
      PressKeepsWf(before, cell, px, py);
      if Consistent(before) && !before.dragging {
        PressKeepsConsistent(before, cell, px, py);
      }
    }

    /** pointermove at (px, py). The clamp bound is COLS * CELL - CELL in main.js and
        CANVAS.width - CELL in puzzle-2/main.js, where CANVAS.width is COLS * CELL. */
    method PointerMove(px: int, py: int)
      requires Valid()
      modifies this
      ensures Valid() && Current() == Move(old(Current()), cell, px, py)
      ensures cell == old(cell) && puzzleOffsetX == old(puzzleOffsetX) && puzzleOffsetY == old(puzzleOffsetY)
      ensures old(Consistent(Current())) ==> Consistent(Current())
    {
      ghost var before := Current();
      if Consistent(before) {
        MoveKeepsConsistent(before, cell, px, py);
      }
      if dragging {
        var n := |pieces|;
        var newPxX := px - dragOffsetX;
        var newPxY := py - dragOffsetY;
        newPxX := Clamp(newPxX, 0, COLS * cell - cell);
        newPxY := Clamp(newPxY, 0, ROWS * cell - cell);
        pieces := pieces[n - 1 := pieces[n - 1].(gx := RoundDiv(newPxX, cell), gy := RoundDiv(newPxY, cell))];
      }
      assert pieces == Move(before, cell, px, py).pieces;
    }

    /** pointerup: snap, test occupancy, accept or roll back, end the drag. */
    method PointerUp()
      requires Valid()
      modifies this
      ensures Valid() && Current() == Release(old(Current()))
      ensures cell == old(cell) && puzzleOffsetX == old(puzzleOffsetX) && puzzleOffsetY == old(puzzleOffsetY)
      ensures old(Consistent(Current())) ==> Consistent(Current()) && DistinctCells(pieces)
    {
      ghost var before := Current();
      if Consistent(before) {
        ReleaseKeepsConsistent(before);
      }
      if !dragging {
        return;
      }
      var n := |pieces|;
      var d := pieces[n - 1];
      d := d.(gx := Clamp(d.gx, 0, COLS - 1), gy := Clamp(d.gy, 0, ROWS - 1));
      pieces := pieces[n - 1 := d];
      assert d.Pos() == DropCell(before.pieces[n - 1]);
      var occupied := false;
      var k := 0;
      while k < n && !occupied
        invariant 0 <= k <= n
        invariant occupied <==> exists m :: 0 <= m < k && m != n - 1 && pieces[m].Pos() == d.Pos()
      {
        if k != n - 1 && pieces[k].Pos() == d.Pos() {
          occupied := true;
        }
        k := k + 1;
      }
      assert occupied <==> Occupied(before.pieces[..n - 1], d.Pos()) by {
        if occupied {
          var m :| 0 <= m < k && m != n - 1 && pieces[m].Pos() == d.Pos();
          assert before.pieces[..n - 1][m].Pos() == d.Pos();
        } else {
          var others := before.pieces[..n - 1];
          forall m | 0 <= m < |others|
            ensures others[m].Pos() != d.Pos()
          {
            assert pieces[m] == others[m];
          }
        }
      }
      if occupied {
        d := d.(gx := d.prevGx, gy := d.prevGy);
      } else {
        d := d.(prevGx := d.gx, prevGy := d.gy);
      }
      pieces := pieces[n - 1 := d];
      dragging := false;
    }

    /** pointercancel: back to the remembered cell, end the drag. */
    method PointerCancel()
      requires Valid()
      modifies this
      ensures Valid() && Current() == Cancel(old(Current()))
      ensures cell == old(cell) && puzzleOffsetX == old(puzzleOffsetX) && puzzleOffsetY == old(puzzleOffsetY)
      ensures old(Consistent(Current())) ==> Consistent(Current()) && DistinctCells(pieces)
    {
      ghost var before := Current();
      if Consistent(before) {
        CancelKeepsConsistent(before);
      }
      if !dragging {
        return;
      }
      var n := |pieces|;
      var d := pieces[n - 1];
      pieces := pieces[n - 1 := d.(gx := d.prevGx, gy := d.prevGy)];
      dragging := false;
    }
  }
}
