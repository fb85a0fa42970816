/**
 Win detection: a player wins by holding all three cells of a row, a column,
 the main diagonal or the anti-diagonal.
 */
module Winning {
  import opened Players
  import opened Boards

  /** The eight fixed triples, tested one by one. */
  predicate CheckWinner(b: Board, who: Player)
    requires Wf(b)
  {
    (OccupiedBy(b, Pos(0, 0), who) && OccupiedBy(b, Pos(0, 1), who) && OccupiedBy(b, Pos(0, 2), who)) ||
    (OccupiedBy(b, Pos(1, 0), who) && OccupiedBy(b, Pos(1, 1), who) && OccupiedBy(b, Pos(1, 2), who)) ||
    (OccupiedBy(b, Pos(2, 0), who) && OccupiedBy(b, Pos(2, 1), who) && OccupiedBy(b, Pos(2, 2), who)) ||
    (OccupiedBy(b, Pos(0, 0), who) && OccupiedBy(b, Pos(1, 0), who) && OccupiedBy(b, Pos(2, 0), who)) ||
    (OccupiedBy(b, Pos(0, 1), who) && OccupiedBy(b, Pos(1, 1), who) && OccupiedBy(b, Pos(2, 1), who)) ||
    (OccupiedBy(b, Pos(0, 2), who) && OccupiedBy(b, Pos(1, 2), who) && OccupiedBy(b, Pos(2, 2), who)) ||
    (OccupiedBy(b, Pos(0, 0), who) && OccupiedBy(b, Pos(1, 1), who) && OccupiedBy(b, Pos(2, 2), who)) ||
    (OccupiedBy(b, Pos(2, 0), who) && OccupiedBy(b, Pos(1, 1), who) && OccupiedBy(b, Pos(0, 2), who))
  }

  /** `who` holds every cell of row `r`. */
  ghost predicate OwnsRow(b: Board, who: Player, r: int)
    requires Wf(b) && 0 <= r < Rows
  {
    forall c :: 0 <= c < Columns ==> OccupiedBy(b, Pos(r, c), who)
  }

  /** `who` holds every cell of column `c`. */
  ghost predicate OwnsColumn(b: Board, who: Player, c: int)
    requires Wf(b) && 0 <= c < Columns
  {
    forall r :: 0 <= r < Rows ==> OccupiedBy(b, Pos(r, c), who)
  }

  /** The winning condition stated by shape rather than by listing triples. */
  ghost predicate OwnsLine(b: Board, who: Player)
    requires Wf(b)
  {
    (exists r :: 0 <= r < Rows && OwnsRow(b, who, r)) ||
    (exists c :: 0 <= c < Columns && OwnsColumn(b, who, c)) ||
    OwnsDiagonal(b, who) ||
    OwnsAntiDiagonal(b, who)
  }

  /** `who` holds the cells from top-left to bottom-right. */
  ghost predicate OwnsDiagonal(b: Board, who: Player)
    requires Wf(b)
  {
    forall r, c :: 0 <= r < Rows && 0 <= c < Columns && r == c ==> OccupiedBy(b, Pos(r, c), who)
  }

  /** `who` holds the cells from bottom-left to top-right. */
  ghost predicate OwnsAntiDiagonal(b: Board, who: Player)
    requires Wf(b)
  {
    forall r, c :: 0 <= r < Rows && 0 <= c < Columns && r + c == Rows - 1 ==> OccupiedBy(b, Pos(r, c), who)
  }

  /** The eight triples are exactly the rows, the columns and the two diagonals. */
  lemma {:induction false} WinIffOwnsLine(b: Board, who: Player)
    requires Wf(b)
    ensures CheckWinner(b, who) <==> OwnsLine(b, who)
  {
    if OwnsLine(b, who) {
      if r :| 0 <= r < Rows && OwnsRow(b, who, r) {
        assert OccupiedBy(b, Pos(r, 0), who) && OccupiedBy(b, Pos(r, 1), who) && OccupiedBy(b, Pos(r, 2), who);
      } else if c :| 0 <= c < Columns && OwnsColumn(b, who, c) {
        assert OccupiedBy(b, Pos(0, c), who) && OccupiedBy(b, Pos(1, c), who) && OccupiedBy(b, Pos(2, c), who);
      } else if OwnsDiagonal(b, who) {
        assert OccupiedBy(b, Pos(0, 0), who) && OccupiedBy(b, Pos(1, 1), who) && OccupiedBy(b, Pos(2, 2), who);
      } else {
        assert OccupiedBy(b, Pos(2, 0), who) && OccupiedBy(b, Pos(1, 1), who) && OccupiedBy(b, Pos(0, 2), who);
      }
    }
    if CheckWinner(b, who) {
      if OccupiedBy(b, Pos(0, 0), who) && OccupiedBy(b, Pos(0, 1), who) && OccupiedBy(b, Pos(0, 2), who) {
        assert OwnsRow(b, who, 0);
      } else if OccupiedBy(b, Pos(1, 0), who) && OccupiedBy(b, Pos(1, 1), who) && OccupiedBy(b, Pos(1, 2), who) {
        assert OwnsRow(b, who, 1);
      } else if OccupiedBy(b, Pos(2, 0), who) && OccupiedBy(b, Pos(2, 1), who) && OccupiedBy(b, Pos(2, 2), who) {
        assert OwnsRow(b, who, 2);
      } else if OccupiedBy(b, Pos(0, 0), who) && OccupiedBy(b, Pos(1, 0), who) && OccupiedBy(b, Pos(2, 0), who) {
        assert OwnsColumn(b, who, 0);
      } else if OccupiedBy(b, Pos(0, 1), who) && OccupiedBy(b, Pos(1, 1), who) && OccupiedBy(b, Pos(2, 1), who) {
        assert OwnsColumn(b, who, 1);
      } else if OccupiedBy(b, Pos(0, 2), who) && OccupiedBy(b, Pos(1, 2), who) && OccupiedBy(b, Pos(2, 2), who) {
        assert OwnsColumn(b, who, 2);
      }
    }
  }

  /** A win takes at least three marks: fewer marks can only make a partial line. */
  lemma {:induction false} WinNeedsThreeMarks(b: Board, who: Player)
    requires Wf(b) && CheckWinner(b, who)
    ensures Marks(b, who) >= 3
  {
    if OccupiedBy(b, Pos(0, 0), who) && OccupiedBy(b, Pos(0, 1), who) && OccupiedBy(b, Pos(0, 2), who) {
      ThreeMarks(b, who, Pos(0, 0), Pos(0, 1), Pos(0, 2));
    } else if OccupiedBy(b, Pos(1, 0), who) && OccupiedBy(b, Pos(1, 1), who) && OccupiedBy(b, Pos(1, 2), who) {
      ThreeMarks(b, who, Pos(1, 0), Pos(1, 1), Pos(1, 2));
    } else if OccupiedBy(b, Pos(2, 0), who) && OccupiedBy(b, Pos(2, 1), who) && OccupiedBy(b, Pos(2, 2), who) {
      ThreeMarks(b, who, Pos(2, 0), Pos(2, 1), Pos(2, 2));
    } else if OccupiedBy(b, Pos(0, 0), who) && OccupiedBy(b, Pos(1, 0), who) && OccupiedBy(b, Pos(2, 0), who) {
      ThreeMarks(b, who, Pos(0, 0), Pos(1, 0), Pos(2, 0));
    } else if OccupiedBy(b, Pos(0, 1), who) && OccupiedBy(b, Pos(1, 1), who) && OccupiedBy(b, Pos(2, 1), who) {
      ThreeMarks(b, who, Pos(0, 1), Pos(1, 1), Pos(2, 1));
    } else if OccupiedBy(b, Pos(0, 2), who) && OccupiedBy(b, Pos(1, 2), who) && OccupiedBy(b, Pos(2, 2), who) {
      ThreeMarks(b, who, Pos(0, 2), Pos(1, 2), Pos(2, 2));
    } else if OccupiedBy(b, Pos(0, 0), who) && OccupiedBy(b, Pos(1, 1), who) && OccupiedBy(b, Pos(2, 2), who) {
      ThreeMarks(b, who, Pos(0, 0), Pos(1, 1), Pos(2, 2));
    } else {
      ThreeMarks(b, who, Pos(0, 2), Pos(1, 1), Pos(2, 0));
    }
  }

  /** `who` holds three distinct cells `p`, `q`, `s`, listed in row-major order. */
  predicate HoldsInOrder(b: Board, who: Player, p: Pos, q: Pos, s: Pos)
    requires Wf(b)
  {
    && InRange(p) && InRange(q) && InRange(s)
    && Index(p) < Index(q) < Index(s)
    && OccupiedBy(b, p, who) && OccupiedBy(b, q, who) && OccupiedBy(b, s, who)
  }

  /** Three cells held by `who` are three marks. */
  lemma {:induction false} ThreeMarks(b: Board, who: Player, p: Pos, q: Pos, s: Pos)
    requires Wf(b) && HoldsInOrder(b, who, p, q, s)
    ensures Marks(b, who) >= 3
  {
    AtIndex(p);
    AtIndex(q);
    AtIndex(s);
    CountOfThree(Cells(b), Taken(who), Index(p), Index(q), Index(s));
  }

  /** A placement by one player never completes a line for anybody else. */
  lemma {:induction false} PlaceKeepsOthersWithoutLine(b: Board, p: Pos, mover: Player, other: Player)
    requires Wf(b) && InRange(p) && other != mover
    requires !CheckWinner(b, other)
    ensures !CheckWinner(Place(b, p, mover), other)
  {
  }

  /** A new board has no winner. */
  lemma {:induction false} NewBoardNoWinner(who: Player)
    ensures !CheckWinner(NewBoard(), who)
  {
  }
}
