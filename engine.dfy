/** The turn flow of the game as functions on snapshots of its state: spawn, gravity step,
    lock (merge, clear, respawn), the player's moves, hard drop and restart, with the
    invariants every one of them keeps. The class in module Board runs these steps in place. */
module Engine {
  import opened Pieces
  import opened Field

  datatype Option<T> = None | Some(value: T)

  /** The falling piece: its current shape, the column and row of the shape's top-left
      sub-cell (the row is negative while the piece enters from above), and its type id. */
  datatype Piece = Piece(shape: Shape, x: int, y: int, v: int)

  /** Everything the game keeps between two events: the locked cells, the falling piece if
      any, the counters, whether the gravity timer has been stopped by a game over, and the
      last gravity interval computed. */
  datatype State = State(
    grid: Grid, cur: Option<Piece>, score: int, lines: int, level: int, over: bool, interval: int)

  /** The gravity interval before any tick has recomputed it. */
  const InitialInterval: int := 800

  /** The state before the first game starts. */
  function Initial(): State {
    State(EmptyGrid(), None, 0, 0, 1, false, InitialInterval)
  }

  // ---------------------------------------------------------------- progression

  /** The level reached after clearing `lines` lines. */
  function LevelFor(lines: int): int {
    1 + lines / 10
  }

  /** Time between gravity steps at a level: 800 at level 1, 60 less per level, never below 120. */
  function GravityInterval(level: int): (ms: int)
    ensures 120 <= ms
    ensures level >= 1 ==> ms <= 800
    ensures ms == 120 <==> level >= 13
  {
    if 800 - (level - 1) * 60 >= 120 then 800 - (level - 1) * 60 else 120
  }

  /** Higher levels never fall more slowly. */
  lemma GravityNonIncreasing(a: int, b: int)
    requires a <= b
    ensures GravityInterval(b) <= GravityInterval(a)
  {
  }

  // ---------------------------------------------------------------- invariants

  /** A piece as the game can hold it: a rectangle of sub-cells, at least one filled, every
      filled one painted with the piece's type id. */
  predicate PieceOk(p: Piece) {
    IsMatrix(p.shape) && 1 <= p.v <= 7 && PaintedWith(p.shape, p.v) && InPalette(p.shape) &&
    HasFilled(p.shape)
  }

  predicate NoFullRow(g: Grid) {
    forall r :: 0 <= r < |g| ==> !FullRow(g[r])
  }

  /** What holds between any two events: the game is running, the grid keeps its shape and
      values and has no full row, score and level follow from the line count, and the falling
      piece does not collide. */
  ghost predicate Inv(s: State) {
    !s.over && IsGrid(s.grid) && NoFullRow(s.grid) &&
    s.lines >= 0 && s.score == 100 * s.lines && s.level == LevelFor(s.lines) &&
    (s.cur.Some? ==> PieceOk(s.cur.value) && !Collides(s.grid, s.cur.value.shape, s.cur.value.x, s.cur.value.y))
  }

  // ---------------------------------------------------------------- spawn

  /** A fresh copy of template `idx`, centred horizontally with its bottom row just above the
      field. */
  function Spawn(idx: nat): (p: Piece)
    requires idx < |Templates|
    ensures p.shape == Templates[idx] && p.v == idx + 1 && PieceOk(p)
    ensures p.y + |p.shape| == 0
    ensures 0 <= p.x && p.x + Width(p.shape) <= Cols
    ensures Cols - Width(p.shape) - 2 * p.x in {0, 1}
  {
    TemplateWellFormed(idx);
    var shape := Templates[idx];
    Piece(shape, (Cols - |shape[0]|) / 2, -|shape|, idx + 1)
  }

  /** A spawned piece never collides, whatever the grid holds: all its sub-cells are above
      row 0, where only the side walls are tested, and it is centred between them. */
  lemma SpawnFits(g: Grid, idx: nat)
    requires IsGrid(g) && idx < |Templates|
    ensures !Collides(g, Spawn(idx).shape, Spawn(idx).x, Spawn(idx).y)
  {
    TemplateWellFormed(idx);
    CentredAboveFits(g, Templates[idx]);
  }

  /** newPiece: the spawned piece becomes the falling piece; a collision at the spawn position
      stops the game. */
  ghost function SpawnStep(s: State, idx: nat): State
    requires IsGrid(s.grid) && idx < |Templates|
  {
    var p := Spawn(idx);
    s.(cur := Some(p), over := s.over || Collides(s.grid, p.shape, p.x, p.y))
  }

  /** The spawn-time game-over test never fires. */
  lemma SpawnNeverEndsGame(s: State, idx: nat)
    requires IsGrid(s.grid) && idx < |Templates|
    ensures SpawnStep(s, idx).over == s.over
    ensures SpawnStep(s, idx).cur == Some(Spawn(idx))
  {
    SpawnFits(s.grid, idx);
  }

  // ---------------------------------------------------------------- lock

  /** merge: the falling piece's filled sub-cells are written into the grid. */
  function MergeStep(s: State): State
    requires s.cur.Some?
  {
    var p := s.cur.value;
    s.(grid := Merged(s.grid, p.shape, p.x, p.y))
  }

  /** clearLines: full rows are deleted; when there were any, the score gains 100 per row,
      the line count gains the number of rows and the level is recomputed from it. */
  function ClearStep(s: State): State {
    var k := FullCount(s.grid);
    if k > 0 then
      s.(grid := Cleared(s.grid), score := s.score + k * 100, lines := s.lines + k,
         level := LevelFor(s.lines + k))
    else
      s.(grid := Cleared(s.grid))
  }

  lemma NoFullRowNothingCleared(g: Grid)
    requires NoFullRow(g)
    ensures FullCount(g) == 0 && Cleared(g) == g
  {
    if g != [] {
      assert !FullRow(g[0]);
      assert NoFullRow(g[1..]) by {
        forall r | 0 <= r < |g[1..]| ensures !FullRow(g[1..][r]) {
          assert g[1..][r] == g[r + 1];
        }
      }
      NoFullRowNothingCleared(g[1..]);
    }
    NothingFullNothingCleared(g);
  }

  // ---------------------------------------------------------------- gravity

  /** drop: the falling piece moves down one row if it can; otherwise it locks (merge, then
      clearLines, then newPiece). Nothing happens without a falling piece. */
  ghost function DropStep(s: State, idx: nat): State
    requires Inv(s) && idx < |Templates|
  {
    match s.cur
    case None => s
    case Some(p) =>
      if !Collides(s.grid, p.shape, p.x, p.y + 1) then
        s.(cur := Some(p.(y := p.y + 1)))
      else
        var m := MergeStep(s);
        MergedIsGrid(s.grid, p.shape, p.x, p.y);
        ClearedIsGrid(m.grid);
        SpawnStep(ClearStep(m), idx)
  }

  /** loop: the gravity timer recomputes the interval from the level, then drops. */
  ghost function TickStep(s: State, idx: nat): State
    requires Inv(s) && idx < |Templates|
  {
    DropStep(s.(interval := GravityInterval(s.level)), idx)
  }

  /** A gravity step keeps the invariant: a moved piece was tested at its new row, a lock
      leaves no full row and scores 100 per cleared line, and the next piece fits. */
  lemma DropKeepsInv(s: State, idx: nat)
    requires Inv(s) && idx < |Templates|
    ensures Inv(DropStep(s, idx))
  {
    if s.cur.Some? {
      var p := s.cur.value;
      if Collides(s.grid, p.shape, p.x, p.y + 1) {
        var m := MergeStep(s);
        MergedIsGrid(s.grid, p.shape, p.x, p.y);
        ClearedIsGrid(m.grid);
        var c := ClearStep(m);
        SpawnFits(c.grid, idx);
        assert NoFullRow(c.grid);
      }
    }
  }

  lemma TickKeepsInv(s: State, idx: nat)
    requires Inv(s) && idx < |Templates|
    ensures Inv(TickStep(s, idx))
    ensures TickStep(s, idx).interval == GravityInterval(s.level)
  {
    DropKeepsInv(s.(interval := GravityInterval(s.level)), idx);
  }

  /** A piece that locks while entirely above the field changes neither the grid nor the
      counters: its sub-cells are dropped and the grid had no full row to clear. */
  lemma LockAboveFieldChangesNothing(s: State, idx: nat)
    requires Inv(s) && idx < |Templates| && s.cur.Some?
    requires s.cur.value.y + |s.cur.value.shape| <= 0
    requires Collides(s.grid, s.cur.value.shape, s.cur.value.x, s.cur.value.y + 1)
    ensures DropStep(s, idx).grid == s.grid
    ensures DropStep(s, idx).score == s.score && DropStep(s, idx).lines == s.lines
    ensures DropStep(s, idx).level == s.level
  {
    var p := s.cur.value;
    MergeAboveField(s.grid, p.shape, p.x, p.y);
    NoFullRowNothingCleared(s.grid);
  }

  // ---------------------------------------------------------------- player moves

  /** The left and right buttons: shift the piece by `dx` columns unless it would collide. */
  ghost function ShiftStep(s: State, dx: int): State
    requires IsGrid(s.grid)
  {
    match s.cur
    case None => s
    case Some(p) =>
      if !Collides(s.grid, p.shape, p.x + dx, p.y) then s.(cur := Some(p.(x := p.x + dx))) else s
  }

  /** The rotate button: turn the piece unless the turned shape would collide in place; there
      is no wall kick. */
  ghost function RotateStep(s: State): State
    requires Inv(s)
  {
    match s.cur
    case None => s
    case Some(p) =>
      var t := Rotate(p.shape);
      if !Collides(s.grid, t, p.x, p.y) then s.(cur := Some(p.(shape := t))) else s
  }

  lemma ShiftKeepsInv(s: State, dx: int)
    requires Inv(s)
    ensures Inv(ShiftStep(s, dx))
    ensures ShiftStep(s, dx).grid == s.grid
  {
  }

  lemma RotateKeepsInv(s: State)
    requires Inv(s)
    ensures Inv(RotateStep(s))
  {
    if s.cur.Some? {
      RotateKeepsFilledCount(s.cur.value.shape);
    }
  }

  // ---------------------------------------------------------------- hard drop

  /** The row a piece falls to from row `y`: the first row from which one more step down
      collides. */
  ghost function Landing(g: Grid, s: Shape, x: int, y: int): (ly: int)
    requires IsGrid(g) && HasFilled(s)
    ensures y <= ly
    ensures Collides(g, s, x, ly + 1)
    ensures forall k :: y < k <= ly ==> !Collides(g, s, x, k)
    decreases Rows - y
  {
    if Collides(g, s, x, y + 1) then y
    else
      FloorBound(g, s, x, y + 1);
      Landing(g, s, x, y + 1)
  }

  /** The piece moved to its landing row still fits, so the invariant holds there. */
  lemma LandedFits(s: State)
    requires Inv(s) && s.cur.Some?
    ensures var p := s.cur.value;
            Inv(s.(cur := Some(p.(y := Landing(s.grid, p.shape, p.x, p.y)))))
  {
    var p := s.cur.value;
    var ly := Landing(s.grid, p.shape, p.x, p.y);
    assert ly == p.y || !Collides(s.grid, p.shape, p.x, ly);
  }

  /** The drop button: move the piece down while the next row is free, then drop once more,
      which locks it. */
  ghost function HardDropStep(s: State, idx: nat): State
    requires Inv(s) && idx < |Templates|
  {
    match s.cur
    case None => s
    case Some(p) =>
      var q := p.(y := Landing(s.grid, p.shape, p.x, p.y));
      LandedFits(s);
      DropStep(s.(cur := Some(q)), idx)
  }

  /** A hard drop always locks the piece it starts with, at its landing row. */
  lemma HardDropLocks(s: State, idx: nat)
    requires Inv(s) && idx < |Templates| && s.cur.Some?
    ensures var p := s.cur.value;
            var ly := Landing(s.grid, p.shape, p.x, p.y);
            var m := Merged(s.grid, p.shape, p.x, ly);
            HardDropStep(s, idx).grid == Cleared(m) &&
            HardDropStep(s, idx).lines == s.lines + FullCount(m) &&
            HardDropStep(s, idx).score == s.score + 100 * FullCount(m) &&
            HardDropStep(s, idx).cur == Some(Spawn(idx))
  {
  }

  lemma HardDropKeepsInv(s: State, idx: nat)
    requires Inv(s) && idx < |Templates|
    ensures Inv(HardDropStep(s, idx))
  {
    if s.cur.Some? {
      var p := s.cur.value;
      var q := p.(y := Landing(s.grid, p.shape, p.x, p.y));
      DropKeepsInv(s.(cur := Some(q)), idx);
    }
  }

  // ---------------------------------------------------------------- restart

  /** startGame: empty grid, counters reset, a new piece, and the gravity timer re-armed (so
      the game is running even if the spawn test had stopped it). */
  ghost function StartStep(s: State, idx: nat): State
    requires idx < |Templates|
  {
    var reset := s.(grid := EmptyGrid(), score := 0, lines := 0, level := 1);
    SpawnStep(reset, idx).(over := false)
  }

  /** A restart from any state satisfies the invariant, with the score at 0 and level 1. */
  lemma StartEstablishesInv(s: State, idx: nat)
    requires idx < |Templates|
    ensures Inv(StartStep(s, idx))
    ensures StartStep(s, idx).score == 0 && StartStep(s, idx).level == 1
    ensures StartStep(s, idx).cur == Some(Spawn(idx)) && !StartStep(s, idx).over
    ensures StartStep(s, idx).interval == s.interval
  {
    SpawnFits(EmptyGrid(), idx);
    ZeroRowNotFull();
    assert forall r :: 0 <= r < Rows ==> EmptyGrid()[r] == ZeroRow();
  }
}
