/**
 The textual form of a board: one line per row, the three cells of a row
 separated by `|`, each cell shown as its occupant's marker or a blank.
 */
module Rendering {
  import opened Options
  import opened Players
  import opened Boards

  /** How a cell is shown: the occupant's marker, or a single blank. */
  function Symbol(c: Cell): string
  {
    match c
    case Empty => " "
    case Taken(who) => who.marker
  }

  /** What follows cell `k`: a bar inside a row, a line break after its last column. */
  function CellSeparator(k: int): string
    requires 0 <= k < CellCount
  {
    if k % Columns != Columns - 1 then "|" else "\n"
  }

  /** The text of a prefix of the row-major cells. */
  function RenderCells(cs: seq<Cell>): string
    requires |cs| <= CellCount
  {
    if cs == [] then ""
    else
      var k := |cs| - 1;
      RenderCells(cs[..k]) + Symbol(cs[k]) + CellSeparator(k)
  }

  /** The board as text, row after row, each row ending in a line break. */
  function Render(b: Board): string
    requires Wf(b)
  {
    RenderCells(Cells(b))
  }

  /** Every symbol that can appear is a single character. */
  predicate SingleCharSymbols(cs: seq<Cell>)
  {
    forall i :: 0 <= i < |cs| ==> |Symbol(cs[i])| == 1
  }

  /** With single-character symbols, every cell takes two characters of text. */
  lemma {:induction false} RenderCellsLength(cs: seq<Cell>)
    requires |cs| <= CellCount && SingleCharSymbols(cs)
    ensures |RenderCells(cs)| == 2 * |cs|
  {
    if cs != [] {
      var k := |cs| - 1;
      assert SingleCharSymbols(cs[..k]) by {
        assert forall i :: 0 <= i < k ==> cs[..k][i] == cs[i];
      }
      RenderCellsLength(cs[..k]);
      assert |Symbol(cs[k])| == 1;
    }
  }

  /** The text of a prefix of the cells is a prefix of the text. */
  lemma {:induction false} RenderCellsPrefix(cs: seq<Cell>, m: int)
    requires 0 <= m <= |cs| <= CellCount
    ensures RenderCells(cs[..m]) <= RenderCells(cs)
    decreases |cs| - m
  {
    if m < |cs| {
      var k := |cs| - 1;
      var front := cs[..k];
      RenderCellsPrefix(front, m);
      assert front[..m] == cs[..m];
      assert RenderCells(front) <= RenderCells(cs);
    } else {
      assert cs[..m] == cs;
    }
  }

  /**
   With single-character symbols, cell `k` is shown at offset `2k` and its
   separator right after it.
   */
  lemma {:induction false} RenderCellsAt(cs: seq<Cell>, k: int)
    requires 0 <= k < |cs| <= CellCount && SingleCharSymbols(cs)
    ensures |RenderCells(cs)| == 2 * |cs|
    ensures RenderCells(cs)[2 * k] == Symbol(cs[k])[0]
    ensures RenderCells(cs)[2 * k + 1] == CellSeparator(k)[0]
  {
    var upTo := cs[..k + 1];
    RenderCellsLength(cs);
    RenderCellsPrefix(cs, k + 1);
    assert upTo[..k] == cs[..k];
    assert SingleCharSymbols(cs[..k]) by {
      assert forall i :: 0 <= i < k ==> cs[..k][i] == cs[i];
    }
    RenderCellsLength(cs[..k]);
    var front := RenderCells(cs[..k]);
    var cell := Symbol(cs[k]);
    assert |cell| == 1;
    assert RenderCells(upTo) == front + cell + CellSeparator(k);
    assert RenderCells(upTo)[2 * k] == cell[0];
    assert RenderCells(upTo)[2 * k + 1] == CellSeparator(k)[0];
  }

  /** Markers of the players on the board are single characters. */
  predicate SingleCharMarkers(b: Board)
    requires Wf(b)
  {
    forall r, c :: 0 <= r < Rows && 0 <= c < Columns && Get(b, Pos(r, c)).Taken? ==> |Get(b, Pos(r, c)).owner.marker| == 1
  }

  /**
   The rendered board has 18 characters: for row `r` and column `c`, the
   cell's symbol at `6r + 2c`, followed by `|` in the first two columns and
   by a line break in the last.
   */
  lemma {:induction false} RenderLayout(b: Board)
    requires Wf(b) && SingleCharMarkers(b)
    ensures |Render(b)| == 2 * CellCount
    ensures forall p :: InRange(p) ==> Render(b)[6 * p.row + 2 * p.column] == Symbol(Get(b, p))[0]
    ensures forall p :: InRange(p) && p.column < Columns - 1 ==> Render(b)[6 * p.row + 2 * p.column + 1] == '|'
    ensures forall p :: InRange(p) && p.column == Columns - 1 ==> Render(b)[6 * p.row + 2 * p.column + 1] == '\n'
  {
    MarkersAreSymbols(b);
    RenderCellsLength(Cells(b));
    forall p | InRange(p)
      ensures Render(b)[6 * p.row + 2 * p.column] == Symbol(Get(b, p))[0]
      ensures Render(b)[6 * p.row + 2 * p.column + 1] == (if p.column < Columns - 1 then '|' else '\n')
    {
      RenderAt(b, p);
    }
  }

  /** Single-character markers make every cell's symbol a single character. */
  lemma {:induction false} MarkersAreSymbols(b: Board)
    requires Wf(b) && SingleCharMarkers(b)
    ensures SingleCharSymbols(Cells(b))
  {
    var cs := Cells(b);
    forall i | 0 <= i < |cs|
      ensures |Symbol(cs[i])| == 1
    {
      var p := At(i);
      assert Get(b, Pos(p.row, p.column)) == cs[i];
    }
  }

  /** The two characters of text for one position. */
  lemma {:induction false} RenderAt(b: Board, p: Pos)
    requires Wf(b) && SingleCharMarkers(b) && InRange(p)
    ensures |Render(b)| == 2 * CellCount
    ensures Render(b)[6 * p.row + 2 * p.column] == Symbol(Get(b, p))[0]
    ensures Render(b)[6 * p.row + 2 * p.column + 1] == (if p.column < Columns - 1 then '|' else '\n')
  {
    MarkersAreSymbols(b);
    AtIndex(p);
    RenderCellsAt(Cells(b), Index(p));
    SeparatorAt(p);
  }

  /** The separator after a cell depends only on its column. */
  lemma {:induction false} SeparatorAt(p: Pos)
    requires InRange(p)
    ensures CellSeparator(Index(p)) == if p.column < Columns - 1 then "|" else "\n"
  {
    assert Index(p) % Columns == p.column;
  }

  /** The text of a board with no marks. */
  const EmptyText: string := " | | \n | | \n | | \n"

  /** A new board renders as three rows of blanks. */
  lemma {:induction false} NewBoardRender()
    ensures Render(NewBoard()) == EmptyText
  {
    AllEmptyRender(NewBoard());
  }

  lemma {:induction false} AllEmptyRender(b: Board)
    requires Wf(b)
    requires forall p :: InRange(p) ==> Get(b, p) == Empty
    ensures Render(b) == EmptyText
  {
    RenderLayout(b);
    var s := Render(b);
    assert s[0] == Symbol(Get(b, Pos(0, 0)))[0];
    assert s[2] == Symbol(Get(b, Pos(0, 1)))[0];
    assert s[4] == Symbol(Get(b, Pos(0, 2)))[0];
    assert s[6] == Symbol(Get(b, Pos(1, 0)))[0];
    assert s[8] == Symbol(Get(b, Pos(1, 1)))[0];
    assert s[10] == Symbol(Get(b, Pos(1, 2)))[0];
    assert s[12] == Symbol(Get(b, Pos(2, 0)))[0];
    assert s[14] == Symbol(Get(b, Pos(2, 1)))[0];
    assert s[16] == Symbol(Get(b, Pos(2, 2)))[0];
    assert s[1] == '|' && s[3] == '|' && s[5] == '\n';
    assert s[7] == '|' && s[9] == '|' && s[11] == '\n';
    assert s[13] == '|' && s[15] == '|' && s[17] == '\n';
  }

  /** Reads one displayed character back into a cell. */
  function ReadCell(ch: char, human: Player, computer: Player): Cell
    requires |human.marker| == 1 && |computer.marker| == 1
  {
    if ch == human.marker[0] then Taken(human)
    else if ch == computer.marker[0] then Taken(computer)
    else Empty
  }

  /** The character shown for row `r`, column `c`, if the text reaches that far. */
  function ShownAt(s: string, r: int, c: int): Option<char>
  {
    var i := 6 * r + 2 * c;
    if 0 <= i < |s| then Some(s[i]) else None
  }

  /** Reads a rendering back into a board; cells the text does not reach read as empty. */
  function Parse(s: string, human: Player, computer: Player): (b: Board)
    requires |human.marker| == 1 && |computer.marker| == 1
    ensures Wf(b)
  {
    Board(seq(Rows, r =>
      seq(Columns, c =>
        match ShownAt(s, r, c)
        case Some(ch) => ReadCell(ch, human, computer)
        case None => Empty)))
  }

  /**
   The rendering loses nothing: with distinct single-character markers, none
   of them a blank, the board can be read back from its text.
   */
  lemma {:induction false} RenderParseRoundTrip(b: Board, human: Player, computer: Player)
    requires Wf(b) && OnlyPlayers(b, human, computer)
    requires |human.marker| == 1 && |computer.marker| == 1
    requires human.marker != computer.marker && human.marker != " " && computer.marker != " "
    ensures Parse(Render(b), human, computer) == b
  {
    RenderLayout(b);
    var b' := Parse(Render(b), human, computer);
    forall r, c | 0 <= r < Rows && 0 <= c < Columns
      ensures b'.grid[r][c] == b.grid[r][c]
    {
      assert Get(b, Pos(r, c)) in {Empty, Taken(human), Taken(computer)};
    }
    assert forall r :: 0 <= r < Rows ==> b'.grid[r] == b.grid[r];
  }
}
