/**
 The 3x3 board: a grid of cells, each empty or holding one player. Cells are
 numbered in row-major order, cell `k` being row `k / 3`, column `k % 3`.
 */
module Boards {
  import opened Players

  const Rows: int := 3
  const Columns: int := 3
  const CellCount: int := 9

  datatype Pos = Pos(row: int, column: int)

  datatype Cell = Empty | Taken(owner: Player)

  datatype Board = Board(grid: seq<seq<Cell>>)

  /** The grid has the fixed dimensions of the game. */
  predicate Wf(b: Board)
  {
    |b.grid| == Rows && forall r :: 0 <= r < Rows ==> |b.grid[r]| == Columns
  }

  predicate InRange(p: Pos)
  {
    0 <= p.row < Rows && 0 <= p.column < Columns
  }

  /** Row-major number of a position. */
  function Index(p: Pos): int
  {
    p.row * Columns + p.column
  }

  /** The position with row-major number `k`. */
  function At(k: int): (p: Pos)
    requires 0 <= k < CellCount
    ensures InRange(p) && Index(p) == k
  {
    var row := if k < Columns then 0 else if k < 2 * Columns then 1 else 2;
    Pos(row, k - row * Columns)
  }

  lemma {:induction false} AtIndex(p: Pos)
    requires InRange(p)
    ensures 0 <= Index(p) < CellCount && At(Index(p)) == p
  {
  }

  function Get(b: Board, p: Pos): Cell
    requires Wf(b) && InRange(p)
  {
    b.grid[p.row][p.column]
  }

  predicate Available(b: Board, p: Pos)
    requires Wf(b)
  {
    InRange(p) && Get(b, p) == Empty
  }

  /** A new board: three rows of three empty cells. */
  function NewBoard(): (b: Board)
    ensures Wf(b)
    ensures forall p :: InRange(p) ==> Get(b, p) == Empty
  {
    Board(seq(Rows, _ => seq(Columns, _ => Empty)))
  }

  /** Writes `who` into cell `p`, whatever the cell held before. */
  function Place(b: Board, p: Pos, who: Player): (b': Board)
    requires Wf(b) && InRange(p)
    ensures Wf(b')
    ensures Get(b', p) == Taken(who)
    ensures forall q :: InRange(q) && q != p ==> Get(b', q) == Get(b, q)
  {
    Board(b.grid[p.row := b.grid[p.row][p.column := Taken(who)]])
  }

  /** Whether cell `p` holds exactly the player `who`. */
  predicate OccupiedBy(b: Board, p: Pos, who: Player)
    requires Wf(b) && InRange(p)
  {
    Get(b, p) == Taken(who)
  }

  /** After a placement the cell answers for the placed player and for nobody else. */
  lemma {:induction false} PlaceThenOccupied(b: Board, p: Pos, who: Player, other: Player)
    requires Wf(b) && InRange(p)
    ensures OccupiedBy(Place(b, p, who), p, who)
    ensures other != who ==> !OccupiedBy(Place(b, p, who), p, other)
  {
  }

  /** The cells in row-major order: cell `k` of the result is `Get(b, At(k))`. */
  function Cells(b: Board): (cs: seq<Cell>)
    requires Wf(b)
    ensures |cs| == CellCount
    ensures forall k :: 0 <= k < CellCount ==> cs[k] == Get(b, At(k))
  {
    b.grid[0] + b.grid[1] + b.grid[2]
  }

  /** Number of entries of `cs` equal to `x`. */
  function CountOf(cs: seq<Cell>, x: Cell): (n: nat)
    ensures n <= |cs|
  {
    if cs == [] then 0
    else CountOf(cs[..|cs| - 1], x) + (if cs[|cs| - 1] == x then 1 else 0)
  }

  /** Number of cells of the board that hold `x`. */
  function Count(b: Board, x: Cell): nat
    requires Wf(b)
  {
    CountOf(Cells(b), x)
  }

  /** Number of marks `who` has on the board. */
  function Marks(b: Board, who: Player): nat
    requires Wf(b)
  {
    Count(b, Taken(who))
  }

  /**
   The positions of the empty entries of `cs`, a prefix of the row-major
   cells: exactly those positions, each once, in increasing order.
   */
  function EmptyPositions(cs: seq<Cell>): (ps: seq<Pos>)
    requires |cs| <= CellCount
    ensures forall i :: 0 <= i < |ps| ==> InRange(ps[i]) && Index(ps[i]) < |cs| && cs[Index(ps[i])] == Empty
    ensures forall p :: InRange(p) && Index(p) < |cs| && cs[Index(p)] == Empty ==> p in ps
    ensures forall i, j :: 0 <= i < j < |ps| ==> Index(ps[i]) < Index(ps[j])
  {
    if cs == [] then []
    else
      var k := |cs| - 1;
      var init := EmptyPositions(cs[..k]);
      assert forall p :: InRange(p) && Index(p) == k ==> p == At(k);
      if cs[k] == Empty then init + [At(k)] else init
  }

  /** The empty cells of the board, each once, in row-major order. */
  function AvailableCells(b: Board): (cells: seq<Pos>)
    requires Wf(b)
    ensures forall p :: p in cells <==> Available(b, p)
    ensures forall i, j :: 0 <= i < j < |cells| ==> Index(cells[i]) < Index(cells[j])
  {
    var cells := EmptyPositions(Cells(b));
    assert forall p :: InRange(p) ==> 0 <= Index(p) < CellCount && At(Index(p)) == p;
    cells
  }

  /** All nine positions in row-major order. */
  function AllCells(): (ps: seq<Pos>)
    ensures |ps| == CellCount && forall k :: 0 <= k < CellCount ==> ps[k] == At(k)
  {
    seq(CellCount, k requires 0 <= k < CellCount => At(k))
  }

  /** The nine positions, written out. */
  lemma {:induction false} AllCellsListed()
    ensures AllCells() == [Pos(0, 0), Pos(0, 1), Pos(0, 2),
                         Pos(1, 0), Pos(1, 1), Pos(1, 2),
                         Pos(2, 0), Pos(2, 1), Pos(2, 2)]
  {
  }

  /** On a new board every position is available, in row-major order. */
  lemma {:induction false} NewBoardAvailable()
    ensures AvailableCells(NewBoard()) == AllCells()
  {
    AllEmptyAvailable(NewBoard());
  }

  lemma {:induction false} AllEmptyAvailable(b: Board)
    requires Wf(b)
    requires forall p :: InRange(p) ==> Get(b, p) == Empty
    ensures AvailableCells(b) == AllCells()
  {
    EmptyPositionsAllEmpty(Cells(b));
  }

  /** A prefix of empty cells lists the matching prefix of all positions. */
  lemma {:induction false} EmptyPositionsAllEmpty(cs: seq<Cell>)
    requires |cs| <= CellCount
    requires forall i :: 0 <= i < |cs| ==> cs[i] == Empty
    ensures |EmptyPositions(cs)| == |cs|
    ensures forall k :: 0 <= k < |cs| ==> EmptyPositions(cs)[k] == At(k)
  {
    if cs != [] {
      var k := |cs| - 1;
      EmptyPositionsAllEmpty(cs[..k]);
      assert EmptyPositions(cs) == EmptyPositions(cs[..k]) + [At(k)];
    }
  }

  /** The available list has one entry per empty cell. */
  lemma {:induction false} EmptyPositionsCount(cs: seq<Cell>)
    requires |cs| <= CellCount
    ensures |EmptyPositions(cs)| == CountOf(cs, Empty)
  {
    if cs != [] {
      EmptyPositionsCount(cs[..|cs| - 1]);
    }
  }

  lemma {:induction false} AvailableCount(b: Board)
    requires Wf(b)
    ensures |AvailableCells(b)| == Count(b, Empty)
  {
    EmptyPositionsCount(Cells(b));
  }

  /** How overwriting one entry changes the count of any cell value. */
  lemma {:induction false} CountOfUpdate(cs: seq<Cell>, i: int, v: Cell, x: Cell)
    requires 0 <= i < |cs|
    ensures CountOf(cs[i := v], x)
         == CountOf(cs, x) - (if cs[i] == x then 1 else 0) + (if v == x then 1 else 0)
  {
    var k := |cs| - 1;
    if i < k {
      assert cs[i := v][..k] == cs[..k][i := v];
      CountOfUpdate(cs[..k], i, v, x);
    } else {
      assert cs[i := v][..k] == cs[..k];
    }
  }

  /** Counting over a longer prefix never finds fewer entries. */
  lemma {:induction false} CountOfPrefixMonotone(cs: seq<Cell>, m: int, n: int, x: Cell)
    requires 0 <= m <= n <= |cs|
    ensures CountOf(cs[..m], x) <= CountOf(cs[..n], x)
    decreases n - m
  {
    if m < n {
      CountOfPrefixMonotone(cs, m, n - 1, x);
      assert cs[..n][..n - 1] == cs[..n - 1];
    }
  }

  /** Three distinct entries equal to `x` make a count of at least three. */
  lemma {:induction false} CountOfThree(cs: seq<Cell>, x: Cell, i: int, j: int, k: int)
    requires 0 <= i < j < k < |cs|
    requires cs[i] == x && cs[j] == x && cs[k] == x
    ensures CountOf(cs, x) >= 3
  {
    assert cs[..|cs|] == cs;
    assert cs[..k + 1][..k] == cs[..k];
    assert cs[..j + 1][..j] == cs[..j];
    assert cs[..i + 1][..i] == cs[..i];
    CountOfPrefixMonotone(cs, k + 1, |cs|, x);
    CountOfPrefixMonotone(cs, j + 1, k, x);
    CountOfPrefixMonotone(cs, i + 1, j, x);
  }

  /** A placement overwrites exactly one entry of the row-major cells. */
  lemma {:induction false} PlaceCells(b: Board, p: Pos, who: Player)
    requires Wf(b) && InRange(p)
    ensures Cells(Place(b, p, who)) == Cells(b)[Index(p) := Taken(who)]
  {
    var after := Cells(Place(b, p, who));
    var expected := Cells(b)[Index(p) := Taken(who)];
    forall k | 0 <= k < CellCount
      ensures after[k] == expected[k]
    {
      AtIndex(p);
    }
  }

  /**
   Placing `who` on an empty cell removes exactly one cell from the available
   list, adds one mark for `who`, and leaves every other player's marks alone.
   */
  lemma {:induction false} PlaceCounts(b: Board, p: Pos, who: Player)
    requires Wf(b) && Available(b, p)
    ensures |AvailableCells(Place(b, p, who))| == |AvailableCells(b)| - 1
    ensures Marks(Place(b, p, who), who) == Marks(b, who) + 1
    ensures forall other :: other != who ==> Marks(Place(b, p, who), other) == Marks(b, other)
  {
    AtIndex(p);
    PlaceCells(b, p, who);
    AvailableCount(b);
    AvailableCount(Place(b, p, who));
    CountOfUpdate(Cells(b), Index(p), Taken(who), Empty);
    CountOfUpdate(Cells(b), Index(p), Taken(who), Taken(who));
    forall other | other != who
      ensures Marks(Place(b, p, who), other) == Marks(b, other)
    {
      CountOfUpdate(Cells(b), Index(p), Taken(who), Taken(other));
    }
  }

  /** Every cell is empty or held by one of the two given players. */
  predicate OnlyPlayers(b: Board, a: Player, c: Player)
    requires Wf(b)
  {
    forall r, c' :: 0 <= r < Rows && 0 <= c' < Columns ==> Get(b, Pos(r, c')) in {Empty, Taken(a), Taken(c)}
  }

  /** With two distinct values, a sequence drawn from three values splits into their counts. */
  lemma {:induction false} CountOfPartition(cs: seq<Cell>, a: Player, c: Player)
    requires a != c
    requires forall i :: 0 <= i < |cs| ==> cs[i] in {Empty, Taken(a), Taken(c)}
    ensures CountOf(cs, Empty) + CountOf(cs, Taken(a)) + CountOf(cs, Taken(c)) == |cs|
  {
    if cs != [] {
      CountOfPartition(cs[..|cs| - 1], a, c);
    }
  }

  /** Placements made plus cells still available is nine. */
  lemma {:induction false} Partition(b: Board, a: Player, c: Player)
    requires Wf(b) && OnlyPlayers(b, a, c) && a != c
    ensures |AvailableCells(b)| + Marks(b, a) + Marks(b, c) == CellCount
  {
    AvailableCount(b);
    var cs := Cells(b);
    forall i | 0 <= i < |cs|
      ensures cs[i] in {Empty, Taken(a), Taken(c)}
    {
      var p := At(i);
      assert Get(b, Pos(p.row, p.column)) in {Empty, Taken(a), Taken(c)};
    }
    CountOfPartition(cs, a, c);
  }

  /** Placing one of the two players keeps the board to those two players' marks. */
  lemma {:induction false} PlaceKeepsOnlyPlayers(b: Board, p: Pos, who: Player, a: Player, c: Player)
    requires Wf(b) && InRange(p) && OnlyPlayers(b, a, c) && (who == a || who == c)
    ensures OnlyPlayers(Place(b, p, who), a, c)
  {
    var after := Place(b, p, who);
    forall r, col | 0 <= r < Rows && 0 <= col < Columns
      ensures Get(after, Pos(r, col)) in {Empty, Taken(a), Taken(c)}
    {
      if Pos(r, col) != p {
        assert Get(after, Pos(r, col)) == Get(b, Pos(r, col));
      }
    }
  }
}
