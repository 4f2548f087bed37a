/** The game as it runs: one object holding the grid, the falling piece and the counters,
    whose methods change them in place. Each method is proved to have exactly the effect of
    the matching step of module Engine on a snapshot of the fields. */
module Board {
  import opened Pieces
  import opened Field
  import opened Engine

  class Game {
    var grid: Grid
    var cur: Option<Piece>
    var score: int
    var lines: int
    var level: int
    /** Set by the game-over handler, which stops the gravity timer. */
    var over: bool
    var gravityInterval: int

    ghost function Snapshot(): State
      reads this
    {
      State(grid, cur, score, lines, level, over, gravityInterval)
    }

    ghost predicate Valid()
      reads this
    {
      Inv(Snapshot())
    }

    /** The state on page load: an empty grid, no piece, zero counters, level 1. */
    constructor ()
      ensures Snapshot() == Initial() && Valid()
    {
      ZeroRowNotFull();
      assert forall r :: 0 <= r < Rows ==> EmptyGrid()[r] == ZeroRow();
      grid := EmptyGrid();
      cur := None;
      score, lines, level := 0, 0, 1;
      over := false;
      gravityInterval := InitialInterval;
    }

    /** merge: write every filled sub-cell of the falling piece that is at or below row 0 into
        the grid, cell by cell. */
    method Merge()
      requires Valid() && cur.Some?
      modifies this`grid
      ensures Snapshot() == MergeStep(old(Snapshot()))
      ensures IsGrid(grid)
    {
      var p := cur.value;
      ghost var g0 := grid;
      MergedIsGrid(g0, p.shape, p.x, p.y);
      MergedUpToEnds(g0, p.shape, p.x, p.y);
      var g := grid;
      var r := 0;
      while r < |p.shape|
        invariant 0 <= r <= |p.shape|
        invariant g == MergedUpTo(g0, p.shape, p.x, p.y, r, 0)
      {
        var c := 0;
        while c < |p.shape[r]|
          invariant 0 <= c <= |p.shape[r]|
          invariant g == MergedUpTo(g0, p.shape, p.x, p.y, r, c)
        {
          if Filled(p.shape, r, c) {
            FitsInside(g0, p.shape, p.x, p.y, r, c);
          }
          MergedUpToNextCell(g0, p.shape, p.x, p.y, r, c);
          var v := p.shape[r][c];
          if v != 0 && p.y + r >= 0 {
            g := g[p.y + r := g[p.y + r][p.x + c := v]];
          }
          c := c + 1;
        }
        MergedUpToNextRow(g0, p.shape, p.x, p.y, r);
        r := r + 1;
      }
      grid := g;
    }

    /** clearLines: scan the rows from the bottom up; a full row is removed, an empty row is
        inserted on top, and the same index is tested again. Then the counters are updated. */
    method ClearLines() returns (cleared: nat)
      requires IsGrid(grid)
      modifies this`grid, this`score, this`lines, this`level
      ensures Snapshot() == ClearStep(old(Snapshot()))
      ensures cleared == FullCount(old(grid))
    {
      var g;
      g, cleared := RemoveFullRows(grid);
      grid := g;
      if cleared > 0 {
        score := score + cleared * 100;
        lines := lines + cleared;
        level := 1 + lines / 10;
      }
    }

    /** newPiece: a fresh copy of template `idx` (the random choice of the running game)
        centred above the field; the game is over if it collides there. */
    method NewPiece(idx: nat)
      requires IsGrid(grid) && idx < |Templates|
      modifies this`cur, this`over
      ensures Snapshot() == SpawnStep(old(Snapshot()), idx)
    {
      TemplateWellFormed(idx);
      var shape := Templates[idx];
      cur := Some(Piece(shape, (Cols - |shape[0]|) / 2, -|shape|, idx + 1));
      var hit := Collide(grid, cur.value.shape, cur.value.x, cur.value.y);
      over := over || hit;
    }

    /** drop: one step down if the row below is free, otherwise merge, clearLines and
        newPiece; nothing without a falling piece. */
    method Drop(idx: nat)
      requires Valid() && idx < |Templates|
      modifies this
      ensures Snapshot() == DropStep(old(Snapshot()), idx)
      ensures Valid()
    {
      DropKeepsInv(Snapshot(), idx);
      if cur.None? {
        return;
      }
      var p := cur.value;
      var hit := Collide(grid, p.shape, p.x, p.y + 1);
      if !hit {
        cur := Some(p.(y := p.y + 1));
      } else {
        Merge();
        ClearedIsGrid(grid);
        var _ := ClearLines();
        NewPiece(idx);
      }
    }

    /** loop: the gravity timer's callback recomputes the interval from the level, then drops. */
    method Tick(idx: nat)
      requires Valid() && idx < |Templates|
      modifies this
      ensures Snapshot() == TickStep(old(Snapshot()), idx)
      ensures Valid() && gravityInterval == GravityInterval(old(level))
    {
      gravityInterval := GravityInterval(level);
      Drop(idx);
    }

    /** The left button: shift one column left unless that collides. */
    method MoveLeft()
      requires Valid()
      modifies this`cur
      ensures Snapshot() == ShiftStep(old(Snapshot()), -1)
      ensures Valid()
    {
      ShiftKeepsInv(Snapshot(), -1);
      if cur.Some? {
        var p := cur.value;
        var hit := Collide(grid, p.shape, p.x - 1, p.y);
        if !hit {
          cur := Some(p.(x := p.x - 1));
        }
      }
    }

    /** The right button: shift one column right unless that collides. */
    method MoveRight()
      requires Valid()
      modifies this`cur
      ensures Snapshot() == ShiftStep(old(Snapshot()), 1)
      ensures Valid()
    {
      ShiftKeepsInv(Snapshot(), 1);
      if cur.Some? {
        var p := cur.value;
        var hit := Collide(grid, p.shape, p.x + 1, p.y);
        if !hit {
          cur := Some(p.(x := p.x + 1));
        }
      }
    }

    /** The rotate button: keep the turned shape only if it does not collide in place. */
    method RotatePiece()
      requires Valid()
      modifies this`cur
      ensures Snapshot() == RotateStep(old(Snapshot()))
      ensures Valid()
    {
      RotateKeepsInv(Snapshot());
      if cur.Some? {
        var p := cur.value;
        var t := Rotate(p.shape);
        var hit := Collide(grid, t, p.x, p.y);
        if !hit {
          cur := Some(p.(shape := t));
        }
      }
    }

    /** The loop of the drop button: move the falling piece down row by row while the next
        row is free. */
    method FallToLanding()
      requires Valid() && cur.Some?
      modifies this`cur
      ensures var p := old(cur.value);
              Snapshot() == old(Snapshot()).(cur := Some(p.(y := Landing(old(grid), p.shape, p.x, p.y))))
    {
      var p := cur.value;
      ghost var ly := Landing(grid, p.shape, p.x, p.y);
      var hit := Collide(grid, p.shape, p.x, p.y + 1);
      while !hit
        invariant cur.Some? && cur.value == p.(y := cur.value.y)
        invariant cur.value.y <= ly
        invariant hit <==> Collides(grid, p.shape, p.x, cur.value.y + 1)
        invariant Landing(grid, p.shape, p.x, cur.value.y) == ly
        modifies this`cur
        decreases ly - cur.value.y
      {
        cur := Some(cur.value.(y := cur.value.y + 1));
        hit := Collide(grid, p.shape, p.x, cur.value.y + 1);
      }
    }

    /** The drop button: fall to the landing row, then drop, which locks the piece. */
    method HardDrop(idx: nat)
      requires Valid() && idx < |Templates|
      modifies this
      ensures Snapshot() == HardDropStep(old(Snapshot()), idx)
      ensures Valid()
    {
      ghost var s0 := Snapshot();
      if cur.Some? {
        FallToLanding();
        LandedFits(s0);
      }
      Drop(idx);
    }

    /** startGame: empty grid, counters reset, a new piece, and the gravity timer re-armed. */
    method StartGame(idx: nat)
      requires idx < |Templates|
      modifies this
      ensures Snapshot() == StartStep(old(Snapshot()), idx)
      ensures Valid()
    {
      StartEstablishesInv(Snapshot(), idx);
      grid := EmptyGrid();
      score, lines, level := 0, 0, 1;
      NewPiece(idx);
      over := false;
    }
  }
}
