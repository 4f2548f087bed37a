/** Piece geometry: the seven tetromino templates and the quarter-turn transform. */
module Pieces {

  /** A piece shape: rows of sub-cells, 0 for an empty sub-cell and the piece-type id
      (1..7) for a filled one. */
  type Shape = seq<seq<int>>

  /** The piece table, in the order I, O, T, J, L, S, Z; template `i` is filled with `i + 1`. */
  const Templates: seq<Shape> := [
    [[1, 1, 1, 1]],
    [[2, 2], [2, 2]],
    [[0, 3, 0], [3, 3, 3]],
    [[4, 0, 0], [4, 4, 4]],
    [[0, 0, 5], [5, 5, 5]],
    [[6, 6, 0], [0, 6, 6]],
    [[0, 7, 7], [7, 7, 0]]
  ]

  /** A non-empty rectangular matrix. */
  predicate IsMatrix(m: Shape) {
    |m| > 0 && |m[0]| > 0 && forall i :: 0 <= i < |m| ==> |m[i]| == |m[0]|
  }

  function Width(m: Shape): nat
    requires |m| > 0
  {
    |m[0]|
  }

  predicate Filled(m: Shape, r: int, c: int) {
    0 <= r < |m| && 0 <= c < |m[r]| && m[r][c] != 0
  }

  /** The (row, column) offsets of the filled sub-cells. */
  function FilledCells(m: Shape): set<(int, int)> {
    set r, c | 0 <= r < |m| && 0 <= c < |m[r]| && m[r][c] != 0 :: (r, c)
  }

  predicate HasFilled(m: Shape) {
    FilledCells(m) != {}
  }

  /** Every filled sub-cell carries the value `v`. */
  predicate PaintedWith(m: Shape, v: int) {
    forall r, c :: 0 <= r < |m| && 0 <= c < |m[r]| ==> m[r][c] == 0 || m[r][c] == v
  }

  /** Every sub-cell holds a grid cell value, 0..7. */
  predicate InPalette(m: Shape) {
    forall r, c :: 0 <= r < |m| && 0 <= c < |m[r]| ==> 0 <= m[r][c] <= 7
  }

  /** The transform applied by the rotate button: column `W-1-i` of the input, read top to
      bottom, becomes row `i` of the output. */
  function Rotate(m: Shape): (t: Shape)
    requires IsMatrix(m)
    ensures IsMatrix(t) && |t| == Width(m) && Width(t) == |m|
    ensures forall v :: PaintedWith(m, v) ==> PaintedWith(t, v)
    ensures InPalette(m) ==> InPalette(t)
  {
    seq(|m[0]|, i requires 0 <= i < |m[0]| =>
      seq(|m|, j requires 0 <= j < |m| => m[j][|m[0]| - 1 - i]))
  }

  /** Rotate is a quarter turn counter-clockwise: sub-cell (r, c) moves to (W-1-c, r). */
  lemma RotateMovesCell(m: Shape, r: int, c: int)
    requires IsMatrix(m) && 0 <= r < |m| && 0 <= c < Width(m)
    ensures Rotate(m)[Width(m) - 1 - c][r] == m[r][c]
  {
  }

  /** Two quarter turns make a half turn: the matrix read backwards in both directions. */
  lemma HalfTurn(m: Shape)
    requires IsMatrix(m)
    ensures IsMatrix(Rotate(Rotate(m)))
    ensures |Rotate(Rotate(m))| == |m| && Width(Rotate(Rotate(m))) == Width(m)
    ensures forall i, j :: 0 <= i < |m| && 0 <= j < Width(m) ==>
      Rotate(Rotate(m))[i][j] == m[|m| - 1 - i][Width(m) - 1 - j]
  {
    var q := Rotate(m);
    var h := Rotate(q);
    forall i, j | 0 <= i < |m| && 0 <= j < Width(m)
      ensures h[i][j] == m[|m| - 1 - i][Width(m) - 1 - j]
    {
      assert h[i][j] == q[j][|m| - 1 - i];
    }
  }

  /** Four rotations give back the original matrix exactly. */
  lemma FullTurn(m: Shape)
    requires IsMatrix(m)
    ensures Rotate(Rotate(Rotate(Rotate(m)))) == m
  {
    var h := Rotate(Rotate(m));
    HalfTurn(m);
    HalfTurn(h);
    var f := Rotate(Rotate(h));
    forall i | 0 <= i < |m|
      ensures f[i] == m[i]
    {
      forall j | 0 <= j < Width(m)
        ensures f[i][j] == m[i][j]
      {
        assert f[i][j] == h[|m| - 1 - i][Width(m) - 1 - j];
      }
    }
  }

  /** Where a filled offset goes under one rotation of a matrix of width `w`. */
  function Turned(p: (int, int), w: int): (int, int) {
    (w - 1 - p.1, p.0)
  }

  function TurnedAll(s: set<(int, int)>, w: int): set<(int, int)> {
    set p | p in s :: Turned(p, w)
  }

  lemma {:induction false} TurnedAllSize(s: set<(int, int)>, w: int)
    ensures |TurnedAll(s, w)| == |s|
    decreases |s|
  {
    if s != {} {
      var p :| p in s;
      var rest := s - {p};
      TurnedAllSize(rest, w);
      assert TurnedAll(s, w) == TurnedAll(rest, w) + {Turned(p, w)};
      assert Turned(p, w) !in TurnedAll(rest, w);
    }
  }

  /** The filled offsets of a rotated matrix are those of the original, each turned. */
  lemma RotateFilledCells(m: Shape)
    requires IsMatrix(m)
    ensures FilledCells(Rotate(m)) == TurnedAll(FilledCells(m), Width(m))
  {
    var t := Rotate(m);
    var w := Width(m);
    forall p | p in FilledCells(t)
      ensures p in TurnedAll(FilledCells(m), w)
    {
      var src := (p.1, w - 1 - p.0);
      assert m[src.0][src.1] == t[p.0][p.1];
      assert src in FilledCells(m);
      assert Turned(src, w) == p;
    }
    forall q | q in FilledCells(m)
      ensures Turned(q, w) in FilledCells(t)
    {
      assert t[w - 1 - q.1][q.0] == m[q.0][q.1];
    }
  }

  /** Rotation preserves the number of filled sub-cells. */
  lemma RotateKeepsFilledCount(m: Shape)
    requires IsMatrix(m)
    ensures |FilledCells(Rotate(m))| == |FilledCells(m)|
    ensures HasFilled(m) <==> HasFilled(Rotate(m))
  {
    RotateFilledCells(m);
    TurnedAllSize(FilledCells(m), Width(m));
  }

  /** Every template is a non-empty rectangle at most four wide, with at least one filled
      sub-cell, painted with its own type id. */
  lemma TemplateWellFormed(i: nat)
    requires i < |Templates|
    ensures IsMatrix(Templates[i]) && Width(Templates[i]) <= 4
    ensures PaintedWith(Templates[i], i + 1) && InPalette(Templates[i])
    ensures HasFilled(Templates[i])
  {
    var m := Templates[i];
    assert m[|m| - 1][1] != 0;
    assert (|m| - 1, 1) in FilledCells(m);
  }
}
