/** The playing field: a grid of locked cell values, the collision test against it, and the
    two whole-grid transforms a lock performs (writing a piece in, clearing full rows). */
module Field {
  import opened Pieces

  const Rows: int := 20
  const Cols: int := 10

  /** Row-major cell values: 0 is empty, 1..7 the type id of the piece that locked there. */
  type Grid = seq<seq<int>>

  /** The grid keeps exactly `Rows` rows of `Cols` cells, every value in 0..7. */
  predicate IsGrid(g: Grid) {
    |g| == Rows &&
    forall r :: 0 <= r < Rows ==> |g[r]| == Cols && forall c :: 0 <= c < Cols ==> 0 <= g[r][c] <= 7
  }

  function ZeroRow(): seq<int> {
    seq(Cols, _ => 0)
  }

  function ZeroRows(k: nat): Grid {
    seq(k, _ => ZeroRow())
  }

  /** The grid a new game starts from. */
  function EmptyGrid(): (g: Grid)
    ensures IsGrid(g)
    ensures forall r, c :: 0 <= r < Rows && 0 <= c < Cols ==> g[r][c] == 0
  {
    ZeroRows(Rows)
  }

  // ---------------------------------------------------------------- collision

  /** Grid position (nx, ny) is off the sides, below the floor, or on a locked cell. Positions
      above the field (ny < 0) are checked against the sides only. */
  predicate Blocked(g: Grid, nx: int, ny: int)
    requires IsGrid(g)
  {
    nx < 0 || nx >= Cols || ny >= Rows || (ny >= 0 && g[ny][nx] != 0)
  }

  /** `s` placed with its top-left sub-cell at column `x`, row `y` has a filled sub-cell on a
      blocked position. */
  ghost predicate Collides(g: Grid, s: Shape, x: int, y: int)
    requires IsGrid(g)
  {
    exists r, c :: Filled(s, r, c) && Blocked(g, x + c, y + r)
  }

  /** The collision test as the game runs it: scan the shape row by row, returning at the
      first filled sub-cell that is out of bounds or lands on a locked cell. */
  method Collide(g: Grid, s: Shape, x: int, y: int) returns (hit: bool)
    requires IsGrid(g)
    ensures hit <==> Collides(g, s, x, y)
  {
    var r := 0;
    while r < |s|
      invariant 0 <= r <= |s|
      invariant forall r', c :: 0 <= r' < r && Filled(s, r', c) ==> !Blocked(g, x + c, y + r')
    {
      var c := 0;
      while c < |s[r]|
        invariant 0 <= c <= |s[r]|
        invariant forall r', c' :: 0 <= r' < r && Filled(s, r', c') ==> !Blocked(g, x + c', y + r')
        invariant forall c' :: 0 <= c' < c && Filled(s, r, c') ==> !Blocked(g, x + c', y + r)
      {
        if s[r][c] != 0 {
          var nx, ny := x + c, y + r;
          if nx < 0 || nx >= Cols || ny >= Rows {
            assert Filled(s, r, c) && Blocked(g, x + c, y + r);
            return true;
          }
          if ny >= 0 && g[ny][nx] != 0 {
            assert Filled(s, r, c) && Blocked(g, x + c, y + r);
            return true;
          }
        }
        c := c + 1;
      }
      r := r + 1;
    }
    return false;
  }

  /** A shape with a filled sub-cell that does not collide at row `y` has `y` above the floor:
      this bounds every downward search. */
  lemma FloorBound(g: Grid, s: Shape, x: int, y: int)
    requires IsGrid(g) && HasFilled(s) && !Collides(g, s, x, y)
    ensures y < Rows
  {
    var p :| p in FilledCells(s);
    assert Filled(s, p.0, p.1);
    assert !Blocked(g, x + p.1, y + p.0);
  }

  /** A filled sub-cell of a piece that does not collide lies between the side walls and
      above the floor. */
  lemma FitsInside(g: Grid, s: Shape, x: int, y: int, r: int, c: int)
    requires IsGrid(g) && !Collides(g, s, x, y) && Filled(s, r, c)
    ensures 0 <= x + c < Cols && y + r < Rows
  {
    assert !Blocked(g, x + c, y + r);
  }

  /** A matrix no wider than the field, placed centred and entirely above row 0, never
      collides, whatever the grid holds. */
  lemma CentredAboveFits(g: Grid, s: Shape)
    requires IsGrid(g) && IsMatrix(s) && Width(s) <= Cols
    ensures !Collides(g, s, (Cols - Width(s)) / 2, -|s|)
  {
    var x := (Cols - Width(s)) / 2;
    forall r, c | Filled(s, r, c)
      ensures !Blocked(g, x + c, -|s| + r)
    {
      assert c < Width(s);
    }
  }

  // ---------------------------------------------------------------- merge

  /** The grid after writing the filled sub-cells of `s`, anchored at (x, y), into `g`: a cell
      covered by a filled sub-cell takes that sub-cell's value, every other cell keeps its
      value. Sub-cells above row 0 have no cell to go to and are dropped. */
  function Merged(g: Grid, s: Shape, x: int, y: int): (out: Grid)
    ensures |out| == |g| && forall r :: 0 <= r < |g| ==> |out[r]| == |g[r]|
  {
    seq(|g|, r requires 0 <= r < |g| =>
      seq(|g[r]|, c requires 0 <= c < |g[r]| =>
        if Filled(s, r - y, c - x) then s[r - y][c - x] else g[r][c]))
  }

  /** Sub-cell (r, c) comes before (r0, c0) in the row-by-row scan order. */
  predicate Before(r: int, c: int, r0: int, c0: int) {
    r < r0 || (r == r0 && c < c0)
  }

  /** The grid part-way through merging: only the filled sub-cells scanned before (r0, c0)
      have been written. */
  function MergedUpTo(g: Grid, s: Shape, x: int, y: int, r0: int, c0: int): (out: Grid)
    ensures |out| == |g| && forall r :: 0 <= r < |g| ==> |out[r]| == |g[r]|
  {
    seq(|g|, r requires 0 <= r < |g| =>
      seq(|g[r]|, c requires 0 <= c < |g[r]| =>
        if Before(r - y, c - x, r0, c0) && Filled(s, r - y, c - x) then s[r - y][c - x] else g[r][c]))
  }

  lemma MergedUpToAt(g: Grid, s: Shape, x: int, y: int, r0: int, c0: int, r: int, c: int)
    requires 0 <= r < |g| && 0 <= c < |g[r]|
    ensures MergedUpTo(g, s, x, y, r0, c0)[r][c] ==
      if Before(r - y, c - x, r0, c0) && Filled(s, r - y, c - x) then s[r - y][c - x] else g[r][c]
  {
  }

  lemma MergedAt(g: Grid, s: Shape, x: int, y: int, r: int, c: int)
    requires 0 <= r < |g| && 0 <= c < |g[r]|
    ensures Merged(g, s, x, y)[r][c] == if Filled(s, r - y, c - x) then s[r - y][c - x] else g[r][c]
  {
  }

  /** Before the scan nothing is written; after the last row everything is. */
  lemma MergedUpToEnds(g: Grid, s: Shape, x: int, y: int)
    ensures MergedUpTo(g, s, x, y, 0, 0) == g
    ensures MergedUpTo(g, s, x, y, |s|, 0) == Merged(g, s, x, y)
  {
    var first, last, want := MergedUpTo(g, s, x, y, 0, 0), MergedUpTo(g, s, x, y, |s|, 0), Merged(g, s, x, y);
    forall r | 0 <= r < |g|
      ensures first[r] == g[r] && last[r] == want[r]
    {
      forall c | 0 <= c < |g[r]|
        ensures first[r][c] == g[r][c] && last[r][c] == want[r][c]
      {
        MergedUpToAt(g, s, x, y, 0, 0, r, c);
        MergedUpToAt(g, s, x, y, |s|, 0, r, c);
        MergedAt(g, s, x, y, r, c);
      }
    }
  }

  /** Finishing a row of the scan is the same as starting the next one. */
  lemma MergedUpToNextRow(g: Grid, s: Shape, x: int, y: int, r0: int)
    requires 0 <= r0 < |s|
    ensures MergedUpTo(g, s, x, y, r0, |s[r0]|) == MergedUpTo(g, s, x, y, r0 + 1, 0)
  {
    var a, b := MergedUpTo(g, s, x, y, r0, |s[r0]|), MergedUpTo(g, s, x, y, r0 + 1, 0);
    forall r | 0 <= r < |g|
      ensures a[r] == b[r]
    {
      forall c | 0 <= c < |g[r]|
        ensures a[r][c] == b[r][c]
      {
        MergedUpToAt(g, s, x, y, r0, |s[r0]|, r, c);
        MergedUpToAt(g, s, x, y, r0 + 1, 0, r, c);
      }
    }
  }

  /** Scanning sub-cell (r0, c0) writes its value when it is filled and at or below row 0,
      and leaves the grid alone otherwise. */
  lemma MergedUpToNextCell(g: Grid, s: Shape, x: int, y: int, r0: int, c0: int)
    requires 0 <= r0 < |s| && 0 <= c0 < |s[r0]|
    requires s[r0][c0] != 0 && y + r0 >= 0 ==> y + r0 < |g| && 0 <= x + c0 < |g[y + r0]|
    ensures var cur := MergedUpTo(g, s, x, y, r0, c0);
            MergedUpTo(g, s, x, y, r0, c0 + 1) ==
              if s[r0][c0] != 0 && y + r0 >= 0 then cur[y + r0 := cur[y + r0][x + c0 := s[r0][c0]]]
              else cur
  {
    var a, b := MergedUpTo(g, s, x, y, r0, c0), MergedUpTo(g, s, x, y, r0, c0 + 1);
    var want := if s[r0][c0] != 0 && y + r0 >= 0 then a[y + r0 := a[y + r0][x + c0 := s[r0][c0]]] else a;
    forall r | 0 <= r < |g|
      ensures b[r] == want[r]
    {
      assert |want[r]| == |g[r]|;
      forall c | 0 <= c < |g[r]|
        ensures b[r][c] == want[r][c]
      {
        MergedUpToAt(g, s, x, y, r0, c0, r, c);
        MergedUpToAt(g, s, x, y, r0, c0 + 1, r, c);
      }
    }
  }

  /** Merging a piece whose sub-cells hold cell values keeps a well-formed grid. */
  lemma MergedIsGrid(g: Grid, s: Shape, x: int, y: int)
    requires IsGrid(g) && InPalette(s)
    ensures IsGrid(Merged(g, s, x, y))
  {
    var out := Merged(g, s, x, y);
    forall r, c | 0 <= r < Rows && 0 <= c < Cols
      ensures 0 <= out[r][c] <= 7
    {
      if Filled(s, r - y, c - x) {
        assert out[r][c] == s[r - y][c - x];
      }
    }
  }

  /** When the piece does not collide, merging it writes every filled sub-cell at or below
      row 0 onto a previously empty cell inside the field, with the sub-cell's value, and
      leaves every cell not under a filled sub-cell as it was. */
  lemma MergeWritesPiece(g: Grid, s: Shape, x: int, y: int)
    requires IsGrid(g) && !Collides(g, s, x, y)
    ensures forall r, c :: Filled(s, r, c) && y + r >= 0 ==>
      0 <= x + c < Cols && y + r < Rows && g[y + r][x + c] == 0 &&
      Merged(g, s, x, y)[y + r][x + c] == s[r][c]
    ensures forall r, c :: 0 <= r < Rows && 0 <= c < Cols && !Filled(s, r - y, c - x) ==>
      Merged(g, s, x, y)[r][c] == g[r][c]
    ensures forall r, c :: 0 <= r < Rows && 0 <= c < Cols && Merged(g, s, x, y)[r][c] != g[r][c] ==>
      g[r][c] == 0
  {
    forall r, c | Filled(s, r, c) && y + r >= 0
      ensures 0 <= x + c < Cols && y + r < Rows && g[y + r][x + c] == 0
    {
      assert !Blocked(g, x + c, y + r);
    }
    forall r, c | 0 <= r < Rows && 0 <= c < Cols && Merged(g, s, x, y)[r][c] != g[r][c]
      ensures g[r][c] == 0
    {
      assert Filled(s, r - y, c - x);
      assert !Blocked(g, x + (c - x), y + (r - y));
    }
  }

  /** A piece that locks entirely above the field writes nothing. */
  lemma MergeAboveField(g: Grid, s: Shape, x: int, y: int)
    requires y + |s| <= 0
    ensures Merged(g, s, x, y) == g
  {
    var out := Merged(g, s, x, y);
    forall r | 0 <= r < |g|
      ensures out[r] == g[r]
    {
      forall c | 0 <= c < |g[r]|
        ensures out[r][c] == g[r][c]
      {
        assert !Filled(s, r - y, c - x);
      }
    }
  }

  // ---------------------------------------------------------------- line clearing

  /** Every cell of the row is occupied. */
  predicate FullRow(row: seq<int>) {
    forall c :: 0 <= c < |row| ==> row[c] != 0
  }

  /** The rows of `g` that are not full, in their original order. */
  function Survivors(g: Grid): Grid {
    if g == [] then []
    else (if FullRow(g[0]) then [] else [g[0]]) + Survivors(g[1..])
  }

  /** The number of full rows of `g`. */
  function FullCount(g: Grid): nat {
    if g == [] then 0
    else (if FullRow(g[0]) then 1 else 0) + FullCount(g[1..])
  }

  /** `g` with its full rows deleted, the rest shifted down, and empty rows added on top. */
  function Cleared(g: Grid): Grid {
    ZeroRows(FullCount(g)) + Survivors(g)
  }

  lemma ZeroRowNotFull()
    ensures !FullRow(ZeroRow())
  {
    assert ZeroRow()[0] == 0;
  }

  /** Each row is either deleted (and counted) or kept. */
  lemma {:induction false} SurvivorsLength(g: Grid)
    ensures |Survivors(g)| + FullCount(g) == |g|
  {
    if g != [] {
      SurvivorsLength(g[1..]);
    }
  }

  /** The surviving rows are exactly the rows of `g` that are not full. */
  lemma {:induction false} SurvivorsAreNonFullRows(g: Grid)
    ensures forall row :: row in Survivors(g) <==> row in g && !FullRow(row)
  {
    if g != [] {
      SurvivorsAreNonFullRows(g[1..]);
      assert g == [g[0]] + g[1..];
    }
  }

  /** Without a full row, clearing changes nothing. */
  lemma {:induction false} NothingFullNothingCleared(g: Grid)
    requires FullCount(g) == 0
    ensures Cleared(g) == g
  {
    if g != [] {
      NothingFullNothingCleared(g[1..]);
      assert g == [g[0]] + g[1..];
    }
  }

  /** Clearing keeps the grid's shape and values and leaves no full row. */
  lemma ClearedIsGrid(g: Grid)
    requires IsGrid(g)
    ensures IsGrid(Cleared(g))
    ensures forall r :: 0 <= r < Rows ==> !FullRow(Cleared(g)[r])
  {
    var k := FullCount(g);
    var out := Cleared(g);
    SurvivorsLength(g);
    SurvivorsAreNonFullRows(g);
    ZeroRowNotFull();
    forall r | 0 <= r < Rows
      ensures |out[r]| == Cols && (forall c :: 0 <= c < Cols ==> 0 <= out[r][c] <= 7)
      ensures !FullRow(out[r])
    {
      if r >= k {
        var row := Survivors(g)[r - k];
        assert out[r] == row;
        assert row in Survivors(g);
        var i :| 0 <= i < |g| && g[i] == row;
      }
    }
  }

  /** The grid part-way through the bottom-up scan of clearLines: `k` empty rows on top, the
      first `m` original rows not yet scanned, then the survivors of the scanned ones. */
  function ClearScan(g0: Grid, k: nat, m: int): Grid
    requires 0 <= m <= |g0|
  {
    ZeroRows(k) + g0[..m] + Survivors(g0[m..])
  }

  /** The row at the scan index is the next unscanned original row, and the rows above the
      unscanned ones are empty. */
  lemma ClearScanAt(g0: Grid, k: nat, m: int)
    requires 0 <= m <= |g0|
    ensures |ClearScan(g0, k, m)| == k + |g0| - FullCount(g0[m..])
    ensures m > 0 ==> ClearScan(g0, k, m)[k + m - 1] == g0[m - 1]
    ensures forall i :: 0 <= i < k ==> ClearScan(g0, k, m)[i] == ZeroRow()
  {
    SurvivorsLength(g0[m..]);
  }

  /** Deleting a full row at the scan index and inserting an empty row on top moves the scan
      past that row and counts it. */
  lemma ClearScanFull(g0: Grid, k: nat, m: int)
    requires 0 < m <= |g0| && FullRow(g0[m - 1])
    ensures var g := ClearScan(g0, k, m);
            var r := k + m - 1;
            r < |g| && [ZeroRow()] + (g[..r] + g[r + 1..]) == ClearScan(g0, k + 1, m - 1)
    ensures FullCount(g0[m - 1..]) == 1 + FullCount(g0[m..])
  {
    SurvivorsLength(g0[m..]);
    var g := ClearScan(g0, k, m);
    var r := k + m - 1;
    assert g0[m - 1..][1..] == g0[m..];
    assert g0[..m] == g0[..m - 1] + [g0[m - 1]];
    assert g[..r] == ZeroRows(k) + g0[..m - 1];
    assert g[r + 1..] == Survivors(g0[m..]);
    assert ZeroRows(k + 1) == [ZeroRow()] + ZeroRows(k);
  }

  /** A row that is not full stays where it is and the scan moves past it. */
  lemma ClearScanKeep(g0: Grid, k: nat, m: int)
    requires 0 < m <= |g0| && !FullRow(g0[m - 1])
    ensures ClearScan(g0, k, m) == ClearScan(g0, k, m - 1)
    ensures FullCount(g0[m - 1..]) == FullCount(g0[m..])
  {
    assert g0[m - 1..][1..] == g0[m..];
    assert g0[..m] == g0[..m - 1] + [g0[m - 1]];
  }

  /** At the start of the scan the grid is the original; when every row is scanned it is the
      cleared grid. */
  lemma ClearScanStart(g0: Grid)
    ensures ClearScan(g0, 0, |g0|) == g0
  {
    assert ZeroRows(0) == [];
    assert g0[..|g0|] == g0;
    assert g0[|g0|..] == [];
    assert Survivors([]) == [];
  }

  lemma ClearScanEnds(g0: Grid, k: nat)
    ensures ClearScan(g0, k, 0) == ZeroRows(k) + Survivors(g0)
  {
    assert g0[..0] == [];
    assert g0[0..] == g0;
  }

  /** The row scan of clearLines: from the bottom row up, a full row is removed and an empty
      row inserted on top, and the same index is tested again; any other row is passed. */
  method RemoveFullRows(g0: Grid) returns (g: Grid, cleared: nat)
    requires |g0| == Rows
    ensures g == Cleared(g0) && cleared == FullCount(g0)
  {
    ClearScanStart(g0);
    g := g0;
    cleared := 0;
    var r := Rows - 1;
    ghost var m := Rows;
    while r >= 0
      invariant -1 <= r < Rows && 0 <= m <= Rows
      invariant g == ClearScan(g0, cleared, m)
      invariant cleared == FullCount(g0[m..])
      invariant |g| == Rows
      invariant m > 0 ==> r + 1 == cleared + m
      invariant m == 0 ==> r + 1 <= cleared
      decreases r + 1 + m
    {
      ClearScanAt(g0, cleared, m);
      ZeroRowNotFull();
      if FullRow(g[r]) {
        ClearScanFull(g0, cleared, m);
        g := [ZeroRow()] + (g[..r] + g[r + 1..]);
        cleared := cleared + 1;
        m := m - 1;
        r := r + 1;
      } else if m > 0 {
        ClearScanKeep(g0, cleared, m);
        m := m - 1;
      }
      r := r - 1;
    }
    assert m == 0 && g0[m..] == g0;
    ClearScanEnds(g0, cleared);
  }
}
