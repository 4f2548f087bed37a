/** A worked game: the O piece dropped straight down onto the empty field. */
module Scenarios {
  import opened Pieces
  import opened Field
  import opened Engine

  /** The O piece as spawned on the empty field: columns 4 and 5, top row -2. */
  lemma OSpawnsCentred()
    ensures Spawn(1) == Piece(Templates[1], 4, -2, 2)
  {
  }

  /** On the empty field the O piece in columns 4-5 collides exactly from row 19 down. */
  lemma OOnEmptyField(k: int)
    ensures Collides(EmptyGrid(), Templates[1], 4, k) <==> k >= Rows - 1
  {
    var g, s := EmptyGrid(), Templates[1];
    if k >= Rows - 1 {
      assert Filled(s, 1, 0) && Blocked(g, 4 + 0, k + 1);
    } else {
      forall r, c | Filled(s, r, c)
        ensures !Blocked(g, 4 + c, k + r)
      {
        assert 0 <= r < 2 && 0 <= c < 2;
      }
    }
  }

  /** Falling from its spawn row, the O piece comes to rest on the floor, at row 18. */
  lemma OLandsOnFloor()
    ensures HasFilled(Templates[1]) && Landing(EmptyGrid(), Templates[1], 4, -2) == Rows - 2
  {
    TemplateWellFormed(1);
    var ly := Landing(EmptyGrid(), Templates[1], 4, -2);
    OOnEmptyField(ly + 1);
    OOnEmptyField(Rows - 1);
  }

  /** Locking it there fills the middle two cells of the two bottom rows with its type id 2,
      clears no line and leaves every other cell empty. */
  lemma OLocksOnFloor()
    ensures var m := Merged(EmptyGrid(), Templates[1], 4, Rows - 2);
            FullCount(m) == 0 && Cleared(m) == m &&
            forall r, c :: 0 <= r < Rows && 0 <= c < Cols ==>
              m[r][c] == if r >= Rows - 2 && 4 <= c <= 5 then 2 else 0
  {
    var g, s := EmptyGrid(), Templates[1];
    var m := Merged(g, s, 4, Rows - 2);
    forall r, c | 0 <= r < Rows && 0 <= c < Cols
      ensures m[r][c] == if r >= Rows - 2 && 4 <= c <= 5 then 2 else 0
    {
      MergedAt(g, s, 4, Rows - 2, r, c);
    }
    forall r | 0 <= r < |m|
      ensures !FullRow(m[r])
    {
      assert m[r][0] == 0;
    }
    NoFullRowNothingCleared(m);
  }
}
