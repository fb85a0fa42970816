/**
 The game controller: one board, the human and the computer, and the player
 whose turn it is. The human moves first; the turn passes to the other player
 after every move that neither wins nor fills the board.

 The human's answers to the row and column prompts arrive as a sequence of
 candidate positions. The random numbers the computer draws arrive as a
 sequence of reals in [0, 1).
 */
module Controller {
  import opened Options
  import opened Players
  import opened Boards
  import opened Winning
  import opened Membership

  datatype Game = Game(board: Board, human: Player, computer: Player, active: Player)

  /** How a game ends: a player completed a line, the board filled without one,
      or the human was asked for a move after the supplied answers ran out. */
  datatype Outcome = Won(winner: Player) | Tied | AwaitingInput

  /** The computer moves at most four times: the human, who starts, fills the ninth cell. */
  const MaxComputerMoves: int := 4

  /** The first player is the human and the second the computer, two different identities. */
  predicate ProperPlayers(human: Player, computer: Player)
  {
    human.side == Human && computer.side == Computer
  }

  /** The player who is not `who`. */
  function Opponent(g: Game, who: Player): Player
  {
    if who == g.human then g.computer else g.human
  }

  /** Passes the turn to the other player, changing nothing else. */
  function SwitchActive(g: Game): (g': Game)
    ensures g'.board == g.board && g'.human == g.human && g'.computer == g.computer
  {
    g.(active := if g.active == g.human then g.computer else g.human)
  }

  /** Switching alternates between the two players and undoes itself. */
  lemma {:induction false} SwitchAlternates(g: Game)
    requires ProperPlayers(g.human, g.computer)
    requires g.active == g.human || g.active == g.computer
    ensures SwitchActive(g).active == Opponent(g, g.active)
    ensures SwitchActive(g).active != g.active
    ensures SwitchActive(g).active == g.human || SwitchActive(g).active == g.computer
    ensures SwitchActive(SwitchActive(g)) == g
  {
  }

  /** Neither player holds a line. */
  predicate NoWinner(b: Board, human: Player, computer: Player)
    requires Wf(b)
  {
    !CheckWinner(b, human) && !CheckWinner(b, computer)
  }

  /**
   A game still being played: a proper board holding only the two players'
   marks, nobody with a line, and the human one mark ahead exactly when it
   is the computer's turn.
   */
  predicate InPlay(g: Game)
  {
    && ProperPlayers(g.human, g.computer)
    && Wf(g.board)
    && (g.active == g.human || g.active == g.computer)
    && OnlyPlayers(g.board, g.human, g.computer)
    && Marks(g.board, g.human) == Marks(g.board, g.computer) + (if g.active == g.human then 0 else 1)
    && NoWinner(g.board, g.human, g.computer)
  }

  /** A new game: an empty board, the human to move. */
  function NewGame(human: Player, computer: Player): (g: Game)
    requires ProperPlayers(human, computer)
    ensures InPlay(g) && g.active == human
    ensures AvailableCells(g.board) == AllCells()
  {
    var g := Game(NewBoard(), human, computer, human);
    NewBoardAvailable();
    NewBoardNoWinner(human);
    NewBoardNoWinner(computer);
    AllEmptyCounts(g.board, human);
    AllEmptyCounts(g.board, computer);
    g
  }

  /** A board without marks gives nobody a mark. */
  lemma {:induction false} AllEmptyCounts(b: Board, who: Player)
    requires Wf(b) && forall p :: InRange(p) ==> Get(b, p) == Empty
    ensures Marks(b, who) == 0
  {
    var cs := Cells(b);
    assert forall k :: 0 <= k < |cs| ==> cs[k] == Empty;
    NoneOfValue(cs, Taken(who));
  }

  lemma {:induction false} NoneOfValue(cs: seq<Cell>, x: Cell)
    requires forall k :: 0 <= k < |cs| ==> cs[k] != x
    ensures CountOf(cs, x) == 0
  {
    if cs != [] {
      NoneOfValue(cs[..|cs| - 1], x);
    }
  }

  /** A position as the two-element array `[row, column]`. */
  function AsArray(p: Pos): seq<int>
  {
    [p.row, p.column]
  }

  function AsArrays(ps: seq<Pos>): (arrays: seq<seq<int>>)
    ensures |arrays| == |ps| && forall i :: 0 <= i < |ps| ==> arrays[i] == AsArray(ps[i])
  {
    seq(|ps|, i requires 0 <= i < |ps| => AsArray(ps[i]))
  }

  /**
   The membership test on the list of available cells accepts exactly the
   positions that are on the board and empty: any other pair, out of range
   or already taken, is refused.
   */
  lemma {:induction false} LegalityGate(b: Board, p: Pos)
    requires Wf(b)
    ensures ArrayInArray(AsArrays(AvailableCells(b)), AsArray(p)) <==> Available(b, p)
  {
    var cells := AvailableCells(b);
    var arrays := AsArrays(cells);
    if AsArray(p) in arrays {
      var i :| 0 <= i < |arrays| && arrays[i] == AsArray(p);
      assert AsArray(cells[i]) == AsArray(p);
      assert cells[i].row == p.row && cells[i].column == p.column by {
        assert AsArray(cells[i])[0] == AsArray(p)[0];
        assert AsArray(cells[i])[1] == AsArray(p)[1];
      }
    }
    if Available(b, p) {
      var i :| 0 <= i < |cells| && cells[i] == p;
      assert arrays[i] == AsArray(p);
    }
  }

  /** The test an answer must pass: is `[row, column]` among the available cells? */
  function Accepts(b: Board, p: Pos): (accepted: bool)
    requires Wf(b)
    ensures accepted <==> Available(b, p)
  {
    LegalityGate(b, p);
    ArrayInArray(AsArrays(AvailableCells(b)), AsArray(p))
  }

  /**
   The position in `input` of the first answer, from `from` on, that names an
   available cell; `|input|` when there is none.
   */
  function FirstAvailable(b: Board, input: seq<Pos>, from: nat): (i: nat)
    requires Wf(b) && from <= |input|
    ensures from <= i <= |input|
    ensures forall j :: from <= j < i ==> !Available(b, input[j])
    ensures i < |input| ==> Available(b, input[i])
    decreases |input| - from
  {
    if from == |input| || Available(b, input[from]) then from
    else FirstAvailable(b, input, from + 1)
  }

  /**
   The human's turn: reads candidates from `input[from..]` until one is an
   available cell. The skipped candidates were all unavailable; when the
   input runs out first there is no choice.
   */
  method HumanTurn(b: Board, input: seq<Pos>, from: nat) returns (choice: Option<Pos>, next: nat)
    requires Wf(b) && from <= |input|
    ensures from <= next <= |input|
    ensures choice.Some? ==> from < next && choice.value == input[next - 1] && Available(b, choice.value)
    ensures choice.Some? ==> forall i :: from <= i < next - 1 ==> !Available(b, input[i])
    ensures choice.None? ==> next == |input| && forall i :: from <= i < |input| ==> !Available(b, input[i])
    ensures choice.Some? <==> FirstAvailable(b, input, from) < |input|
    ensures choice.Some? ==> next == FirstAvailable(b, input, from) + 1
  {
    next := from;
    while next < |input| && !Accepts(b, input[next])
      invariant from <= next <= |input|
      invariant forall i :: from <= i < next ==> !Available(b, input[i])
      invariant FirstAvailable(b, input, next) == FirstAvailable(b, input, from)
    {
      next := next + 1;
    }
    if next == |input| {
      return None, next;
    }
    choice := Some(input[next]);
    next := next + 1;
  }

  /** The computer's index into a list of `n` cells, from a random number in [0, 1). */
  function PickIndex(x: real, n: int): (i: int)
    requires 0.0 <= x < 1.0 && n > 0
    ensures 0 <= i < n
  {
    var scaled := x * n as real;
    assert 0.0 <= scaled < n as real;
    scaled.Floor
  }

  /** Who makes move number `k` (from 0) when `first` moves first and `second` answers. */
  function MoverAt(first: Player, second: Player, k: nat): Player
  {
    if k % 2 == 0 then first else second
  }

  /**
   Replays `moves` on `b`, the two players taking turns from `first`:
   `None` as soon as a move targets a cell that is not available, otherwise
   the resulting board.
   */
  function Run(b: Board, first: Player, second: Player, moves: seq<Pos>): (r: Option<Board>)
    requires Wf(b)
    ensures r.Some? ==> Wf(r.value)
    decreases |moves|
  {
    if moves == [] then Some(b)
    else
      var k := |moves| - 1;
      match Run(b, first, second, moves[..k])
      case None => None
      case Some(before) =>
        if Available(before, moves[k]) then Some(Place(before, moves[k], MoverAt(first, second, k)))
        else None
  }

  /** After replaying `moves` from `g`, neither player holds a line. */
  predicate NoWinnerAfter(g: Game, moves: seq<Pos>)
    requires Wf(g.board)
  {
    match Run(g.board, g.active, Opponent(g, g.active), moves)
    case None => false
    case Some(b) => NoWinner(b, g.human, g.computer)
  }

  /** On the computer's turn the computer has at most three marks. */
  lemma {:induction false} ComputerMarksBound(g: Game)
    requires InPlay(g) && g.active == g.computer && |AvailableCells(g.board)| >= 1
    ensures Marks(g.board, g.computer) < MaxComputerMoves
  {
    Partition(g.board, g.human, g.computer);
  }

  /**
   One move by the active player on an available cell: one cell fewer is
   available, the mover gains a mark, the opponent gains no line, and unless
   the move ends the game the position after the switch is still in play.
   */
  lemma {:induction false} MoveStep(g: Game, pos: Pos)
    requires InPlay(g) && Available(g.board, pos)
    ensures Wf(Place(g.board, pos, g.active))
    ensures |AvailableCells(Place(g.board, pos, g.active))| == |AvailableCells(g.board)| - 1
    ensures !CheckWinner(Place(g.board, pos, g.active), Opponent(g, g.active))
    ensures var after := Place(g.board, pos, g.active);
            Marks(after, g.human) == Marks(after, g.computer) || Marks(after, g.human) == Marks(after, g.computer) + 1
    ensures var after := Place(g.board, pos, g.active);
            !CheckWinner(after, g.active) ==> InPlay(SwitchActive(g.(board := after)))
    ensures var after := Place(g.board, pos, g.active);
            CheckWinner(after, g.active) ==> |AvailableCells(after)| <= CellCount - 5
  {
    var after := Place(g.board, pos, g.active);
    var other := Opponent(g, g.active);
    PlaceCounts(g.board, pos, g.active);
    PlaceKeepsOthersWithoutLine(g.board, pos, g.active, other);
    PlaceKeepsOnlyPlayers(g.board, pos, g.active, g.human, g.computer);
    if CheckWinner(after, g.active) {
      WinTakesFiveMarks(g.(board := after), g.active);
    }
  }

  /**
   A line needs at least five marks on the board when the human opened the
   game: the winner holds three, and the other player is at most one behind.
   */
  lemma {:induction false} WinTakesFiveMarks(g: Game, who: Player)
    requires ProperPlayers(g.human, g.computer) && Wf(g.board) && OnlyPlayers(g.board, g.human, g.computer)
    requires Marks(g.board, g.human) == Marks(g.board, g.computer)
          || Marks(g.board, g.human) == Marks(g.board, g.computer) + 1
    requires (who == g.human || who == g.computer) && CheckWinner(g.board, who)
    ensures |AvailableCells(g.board)| <= CellCount - 5
  {
    WinNeedsThreeMarks(g.board, who);
    Partition(g.board, g.human, g.computer);
  }

  /** The turn alternates: each move is made by the opponent of the previous mover. */
  lemma {:induction false} MoverAlternates(g: Game, first: Player, k: nat)
    requires ProperPlayers(g.human, g.computer) && (first == g.human || first == g.computer)
    ensures MoverAt(first, Opponent(g, first), k + 1) == Opponent(g, MoverAt(first, Opponent(g, first), k))
  {
    if k % 2 == 0 {
      assert (k + 1) % 2 == 1;
    } else {
      assert (k + 1) % 2 == 0;
    }
  }

  /** Replaying one more available move extends the replayed board by that placement. */
  lemma {:induction false} RunAppend(b0: Board, first: Player, second: Player, moves: seq<Pos>, b: Board, pos: Pos)
    requires Wf(b0) && Run(b0, first, second, moves) == Some(b) && Available(b, pos)
    ensures Run(b0, first, second, moves + [pos]) == Some(Place(b, pos, MoverAt(first, second, |moves|)))
  {
    assert (moves + [pos])[..|moves|] == moves;
  }

  /**
   The game did not go on after a win: before each move of `moves`, replayed
   from `g`, neither player held a line.
   */
  predicate NoEarlierWin(g: Game, moves: seq<Pos>)
    requires Wf(g.board)
    decreases |moves|
  {
    moves == [] || (NoEarlierWin(g, moves[..|moves| - 1]) && NoWinnerAfter(g, moves[..|moves| - 1]))
  }

  /** `NoEarlierWin` speaks of every proper prefix of the moves. */
  lemma {:induction false} NoEarlierWinPrefixes(g: Game, moves: seq<Pos>)
    requires Wf(g.board)
    ensures NoEarlierWin(g, moves) <==> forall k :: 0 <= k < |moves| ==> NoWinnerAfter(g, moves[..k])
  {
    if NoEarlierWin(g, moves) {
      NoEarlierWinGivesPrefixes(g, moves);
    }
    if forall k :: 0 <= k < |moves| ==> NoWinnerAfter(g, moves[..k]) {
      PrefixesGiveNoEarlierWin(g, moves);
    }
  }

  lemma {:induction false} NoEarlierWinGivesPrefixes(g: Game, moves: seq<Pos>)
    requires Wf(g.board) && NoEarlierWin(g, moves)
    ensures forall k :: 0 <= k < |moves| ==> NoWinnerAfter(g, moves[..k])
    decreases |moves|
  {
    if moves != [] {
      var n := |moves| - 1;
      var front := moves[..n];
      NoEarlierWinGivesPrefixes(g, front);
      forall k | 0 <= k < |moves|
        ensures NoWinnerAfter(g, moves[..k])
      {
        if k < n {
          assert front[..k] == moves[..k];
        }
      }
    }
  }

  lemma {:induction false} PrefixesGiveNoEarlierWin(g: Game, moves: seq<Pos>)
    requires Wf(g.board) && forall k :: 0 <= k < |moves| ==> NoWinnerAfter(g, moves[..k])
    ensures NoEarlierWin(g, moves)
    decreases |moves|
  {
    if moves != [] {
      var n := |moves| - 1;
      var front := moves[..n];
      forall k | 0 <= k < n
        ensures NoWinnerAfter(g, front[..k])
      {
        assert front[..k] == moves[..k];
      }
      PrefixesGiveNoEarlierWin(g, front);
      assert NoWinnerAfter(g, moves[..n]);
    }
  }

  /**
   One move of the round: replaying one more move extends the record of the
   game, the game had not been won before it, one cell fewer is available, and
   unless the mover now holds a line the game goes on with the opponent to move.
   */
  lemma {:induction false} Advance(g0: Game, g: Game, moves: seq<Pos>, pos: Pos)
    requires InPlay(g0) && InPlay(g) && Available(g.board, pos)
    requires g.human == g0.human && g.computer == g0.computer
    requires g.active == MoverAt(g0.active, Opponent(g0, g0.active), |moves|)
    requires Run(g0.board, g0.active, Opponent(g0, g0.active), moves) == Some(g.board)
    requires NoEarlierWin(g0, moves)
    ensures var after := Place(g.board, pos, g.active);
            && Run(g0.board, g0.active, Opponent(g0, g0.active), moves + [pos]) == Some(after)
            && NoEarlierWin(g0, moves + [pos])
            && |AvailableCells(after)| == |AvailableCells(g.board)| - 1
            && (Marks(after, g.human) == Marks(after, g.computer) || Marks(after, g.human) == Marks(after, g.computer) + 1)
            && !CheckWinner(after, Opponent(g, g.active))
            && (CheckWinner(after, g.active) ==> |AvailableCells(after)| <= CellCount - 5)
            && (!CheckWinner(after, g.active) ==>
                  && InPlay(SwitchActive(g.(board := after)))
                  && SwitchActive(g.(board := after)).active == MoverAt(g0.active, Opponent(g0, g0.active), |moves| + 1))
  {
    MoveStep(g, pos);
    RunAppend(g0.board, g0.active, Opponent(g0, g0.active), moves, g.board, pos);
    assert NoWinnerAfter(g0, moves);
    assert (moves + [pos])[..|moves|] == moves;
    MoverAlternates(g0, g0.active, |moves|);
  }

  /**
   The active player's move: the human's first available answer from
   `input[from..]`, or the computer's cell picked by the next random number.
   */
  method ChooseMove(g: Game, input: seq<Pos>, from: nat, randoms: seq<real>) returns (choice: Option<Pos>, next: nat)
    requires InPlay(g) && |AvailableCells(g.board)| >= 1 && from <= |input|
    requires |randoms| >= MaxComputerMoves
    requires forall i :: 0 <= i < |randoms| ==> 0.0 <= randoms[i] < 1.0
    ensures from <= next <= |input|
    ensures choice.Some? ==> Available(g.board, choice.value)
    ensures choice.Some? && g.active == g.human ==>
              && from < next && choice.value == input[next - 1]
              && forall i :: from <= i < next - 1 ==> !Available(g.board, input[i])
    ensures choice.None? ==>
              && g.active == g.human && next == |input|
              && forall i :: from <= i < |input| ==> !Available(g.board, input[i])
    ensures g.active == g.human ==>
              && (choice.Some? <==> FirstAvailable(g.board, input, from) < |input|)
              && (choice.Some? ==> next == FirstAvailable(g.board, input, from) + 1)
    ensures g.active != g.human ==>
              && Marks(g.board, g.computer) < MaxComputerMoves
              && next == from
              && choice == Some(AvailableCells(g.board)[PickIndex(randoms[Marks(g.board, g.computer)], |AvailableCells(g.board)|)])
  {
    if g.active == g.human {
      choice, next := HumanTurn(g.board, input, from);
    } else {
      var cells := AvailableCells(g.board);
      ComputerMarksBound(g);
      var i := PickIndex(randoms[Marks(g.board, g.computer)], |cells|);
      choice, next := Some(cells[i]), from;
    }
  }

  /** How many answers had been read before move `k`, given `stops[j]`, the count after move `j`. */
  function ReadBefore(stops: seq<nat>, k: nat): nat
    requires k <= |stops|
  {
    if k == 0 then 0 else stops[k - 1]
  }

  /**
   A move onto `pos` made on `before`, reading answers from `from` up to
   `to`: the human's move is the first available answer from `from` on, and
   reading stops right after it; the computer reads nothing.
   */
  predicate AnsweredMove(before: Board, byHuman: bool, input: seq<Pos>, from: nat, to: nat, pos: Pos)
    requires Wf(before)
  {
    if byHuman then
      && from <= |input|
      && FirstAvailable(before, input, from) < |input|
      && to == FirstAvailable(before, input, from) + 1
      && pos == input[to - 1]
    else
      to == from
  }

  /**
   Every move of `moves`, replayed from `g`, was answered as `AnsweredMove`
   says, on the board it was made on; `stops[k]` is how many answers had been
   read once move `k` was made.
   */
  predicate FirstAnswers(g: Game, moves: seq<Pos>, input: seq<Pos>, stops: seq<nat>)
    requires Wf(g.board)
    decreases |moves|
  {
    && |stops| == |moves|
    && (moves == [] ||
        var k := |moves| - 1;
        && FirstAnswers(g, moves[..k], input, stops[..k])
        && match Run(g.board, g.active, Opponent(g, g.active), moves[..k])
           case None => false
           case Some(before) =>
             AnsweredMove(before, MoverAt(g.active, Opponent(g, g.active), k) == g.human,
                          input, ReadBefore(stops, k), stops[k], moves[k]))
  }

  /** One more answered move, made on the replayed board, extends `FirstAnswers`. */
  lemma {:induction false} FirstAnswersAppend(g: Game, moves: seq<Pos>, input: seq<Pos>, stops: seq<nat>, before: Board, pos: Pos, next: nat)
    requires Wf(g.board) && FirstAnswers(g, moves, input, stops)
    requires Run(g.board, g.active, Opponent(g, g.active), moves) == Some(before)
    requires AnsweredMove(before, MoverAt(g.active, Opponent(g, g.active), |moves|) == g.human,
                          input, ReadBefore(stops, |moves|), next, pos)
    ensures FirstAnswers(g, moves + [pos], input, stops + [next])
  {
    assert (moves + [pos])[..|moves|] == moves;
    assert (stops + [next])[..|moves|] == stops;
    assert ReadBefore(stops + [next], |moves|) == ReadBefore(stops, |moves|);
  }

  /** `FirstAnswers` holds of every move: each was answered on the board replayed up to it. */
  lemma {:induction false} FirstAnswersAt(g: Game, moves: seq<Pos>, input: seq<Pos>, stops: seq<nat>, k: nat)
    requires Wf(g.board) && FirstAnswers(g, moves, input, stops) && k < |moves|
    ensures Run(g.board, g.active, Opponent(g, g.active), moves[..k]).Some?
    ensures AnsweredMove(Run(g.board, g.active, Opponent(g, g.active), moves[..k]).value,
                         MoverAt(g.active, Opponent(g, g.active), k) == g.human,
                         input, ReadBefore(stops, k), stops[k], moves[k])
    decreases |moves|
  {
    var n := |moves| - 1;
    if k < n {
      FirstAnswersAt(g, moves[..n], input, stops[..n], k);
      assert moves[..n][..k] == moves[..k];
      assert ReadBefore(stops[..n], k) == ReadBefore(stops, k);
    }
  }

  /**
   What `AnsweredMove` says: the human's move is the answer just before
   `to`, it is available, reading went forward past it, and every answer
   read before it from `from` on was unavailable; the computer reads nothing.
   */
  lemma {:induction false} AnsweredMoveMeaning(before: Board, byHuman: bool, input: seq<Pos>, from: nat, to: nat, pos: Pos)
    requires Wf(before) && AnsweredMove(before, byHuman, input, from, to, pos)
    ensures byHuman ==>
              && from < to <= |input|
              && pos == input[to - 1]
              && Available(before, pos)
              && forall i :: from <= i < to - 1 ==> !Available(before, input[i])
    ensures !byHuman ==> to == from
  {
  }

  /**
   What `FirstAnswers` says of each move: the human's move `k` is the answer
   at `stops[k] - 1`, every answer read before it since the previous move was
   unavailable on the board it was made on, and the computer reads nothing.
   */
  lemma {:induction false} FirstAnswersMeaning(g: Game, moves: seq<Pos>, input: seq<Pos>, stops: seq<nat>, k: nat)
    requires Wf(g.board) && FirstAnswers(g, moves, input, stops) && k < |moves|
    ensures Run(g.board, g.active, Opponent(g, g.active), moves[..k]).Some?
    ensures var before := Run(g.board, g.active, Opponent(g, g.active), moves[..k]).value;
            if MoverAt(g.active, Opponent(g, g.active), k) == g.human then
              && ReadBefore(stops, k) < stops[k] <= |input|
              && moves[k] == input[stops[k] - 1]
              && Available(before, moves[k])
              && forall i :: ReadBefore(stops, k) <= i < stops[k] - 1 ==> !Available(before, input[i])
            else
              stops[k] == ReadBefore(stops, k)
  {
    FirstAnswersAt(g, moves, input, stops, k);
    var before := Run(g.board, g.active, Opponent(g, g.active), moves[..k]).value;
    AnsweredMoveMeaning(before, MoverAt(g.active, Opponent(g, g.active), k) == g.human,
                        input, ReadBefore(stops, k), stops[k], moves[k]);
  }

  /**
   What holds of a round from `g0` at every point, ended or not: the players
   are kept; every move was available when made, the players alternating
   from the one active in `g0`; one cell fewer is available per move; no
   move was made after a win; the human is never more than one mark ahead
   of the computer nor behind it; and each of the human's moves is the first
   available answer read after the previous move, `stops` recording where
   reading stopped after each move.
   */
  predicate Recorded(g0: Game, g: Game, moves: seq<Pos>, input: seq<Pos>, consumed: nat, stops: seq<nat>)
    requires InPlay(g0)
  {
    && g.human == g0.human && g.computer == g0.computer
    && Wf(g.board)
    && Run(g0.board, g0.active, Opponent(g0, g0.active), moves) == Some(g.board)
    && |moves| + |AvailableCells(g.board)| == |AvailableCells(g0.board)|
    && NoEarlierWin(g0, moves)
    && (Marks(g.board, g.human) == Marks(g.board, g.computer) || Marks(g.board, g.human) == Marks(g.board, g.computer) + 1)
    && FirstAnswers(g0, moves, input, stops)
    && ReadBefore(stops, |moves|) <= consumed <= |input|
  }

  /**
   A round that has not ended: the game is still in play, it is the turn of
   the next mover, and no answer has been read since the last move.
   */
  predicate Reached(g0: Game, g: Game, moves: seq<Pos>, input: seq<Pos>, consumed: nat, stops: seq<nat>)
    requires InPlay(g0)
  {
    && Recorded(g0, g, moves, input, consumed, stops)
    && InPlay(g)
    && g.active == MoverAt(g0.active, Opponent(g0, g0.active), |moves|)
    && consumed == ReadBefore(stops, |moves|)
  }

  /**
   What a round promises when it ends. A win is by the player who made the
   last move and now holds a line, which takes at least five marks on the
   board. A tie leaves no cell available and nobody with a line. Both stop
   reading right after the last move. Awaiting input leaves the game in play
   with the human to move, every answer read, and none of the answers read
   since the last move naming an available cell.
   */
  predicate Concluded(g0: Game, g: Game, outcome: Outcome, moves: seq<Pos>, input: seq<Pos>, consumed: nat, stops: seq<nat>)
    requires InPlay(g0)
  {
    && Recorded(g0, g, moves, input, consumed, stops)
    && |moves| <= CellCount
    && (outcome.Won? ==>
          && |moves| > 0
          && outcome.winner == g.active
          && g.active == MoverAt(g0.active, Opponent(g0, g0.active), |moves| - 1)
          && CheckWinner(g.board, g.active)
          && |AvailableCells(g.board)| <= CellCount - 5
          && consumed == ReadBefore(stops, |moves|))
    && (outcome.Tied? ==>
          && AvailableCells(g.board) == []
          && NoWinner(g.board, g.human, g.computer)
          && (|moves| > 0 ==> g.active == MoverAt(g0.active, Opponent(g0, g0.active), |moves| - 1))
          && consumed == ReadBefore(stops, |moves|))
    && (outcome.AwaitingInput? ==>
          && InPlay(g)
          && g.active == g.human
          && g.active == MoverAt(g0.active, Opponent(g0, g0.active), |moves|)
          && |AvailableCells(g.board)| >= 1
          && consumed == |input|
          && forall i :: ReadBefore(stops, |moves|) <= i < |input| ==> !Available(g.board, input[i]))
  }

  /**
   A move by the active player onto an available cell, answered as
   `AnsweredMove` says when reading stops at `next`, extends the record of
   the round.
   */
  lemma {:induction false} MoveRecorded(g0: Game, g: Game, moves: seq<Pos>, input: seq<Pos>, consumed: nat, stops: seq<nat>, pos: Pos, next: nat)
    requires InPlay(g0) && Reached(g0, g, moves, input, consumed, stops) && Available(g.board, pos)
    requires next <= |input| && AnsweredMove(g.board, g.active == g.human, input, consumed, next, pos)
    ensures var g1 := g.(board := Place(g.board, pos, g.active));
            && Recorded(g0, g1, moves + [pos], input, next, stops + [next])
            && next == ReadBefore(stops + [next], |moves + [pos]|)
            && g1.active == MoverAt(g0.active, Opponent(g0, g0.active), |moves + [pos]| - 1)
            && |AvailableCells(g1.board)| == |AvailableCells(g.board)| - 1
            && !CheckWinner(g1.board, Opponent(g, g.active))
            && (CheckWinner(g1.board, g1.active) ==> |AvailableCells(g1.board)| <= CellCount - 5)
            && (!CheckWinner(g1.board, g1.active) ==>
                  && InPlay(SwitchActive(g1))
                  && SwitchActive(g1).active == MoverAt(g0.active, Opponent(g0, g0.active), |moves + [pos]|))
  {
    Advance(g0, g, moves, pos);
    FirstAnswersAppend(g0, moves, input, stops, g.board, pos, next);
  }

  /**
   One pass of the round's loop: the active player moves; the round ends
   with a win when the mover now holds a line, with a tie when no cell is
   left, and otherwise the turn passes. When none of the human's remaining
   answers names an available cell nothing changes and the round is left
   awaiting input.
   */
  method Turn(g0: Game, g: Game, moves: seq<Pos>, input: seq<Pos>, consumed: nat, stops: seq<nat>, randoms: seq<real>)
    returns (g': Game, moves': seq<Pos>, consumed': nat, stops': seq<nat>, ended: Option<Outcome>)
    requires InPlay(g0) && Reached(g0, g, moves, input, consumed, stops) && |AvailableCells(g.board)| >= 1
    requires |randoms| >= MaxComputerMoves
    requires forall i :: 0 <= i < |randoms| ==> 0.0 <= randoms[i] < 1.0
    ensures consumed <= consumed' <= |input|
    ensures ended.None? ==>
              && Reached(g0, g', moves', input, consumed', stops')
              && 1 <= |AvailableCells(g'.board)| < |AvailableCells(g.board)|
    ensures ended.Some? ==> Concluded(g0, g', ended.value, moves', input, consumed', stops')
    ensures ended == Some(AwaitingInput) ==>
              && g' == g && moves' == moves && stops' == stops
              && forall i :: consumed <= i < |input| ==> !Available(g.board, input[i])
    ensures ended != Some(AwaitingInput) ==>
              && |moves'| == |moves| + 1 && moves'[..|moves|] == moves
              && stops' == stops + [consumed']
              && Available(g.board, moves'[|moves|])
              && g'.board == Place(g.board, moves'[|moves|], g.active)
              && g'.human == g.human && g'.computer == g.computer
              && g'.active == (if ended.None? then Opponent(g, g.active) else g.active)
  {
    AvailableCount(g0.board);
    var choice, next := ChooseMove(g, input, consumed, randoms);
    if choice.None? {
      return g, moves, next, stops, Some(AwaitingInput);
    }
    var pos := choice.value;
    MoveRecorded(g0, g, moves, input, consumed, stops, pos, next);
    g', moves', consumed', stops' := g.(board := Place(g.board, pos, g.active)), moves + [pos], next, stops + [next];
    if CheckWinner(g'.board, g'.active) {
      ended := Some(Won(g'.active));
    } else if |AvailableCells(g'.board)| == 0 {
      ended := Some(Tied);
    } else {
      g' := SwitchActive(g');
      ended := None;
    }
  }

  /**
   Plays from `g0` until a player completes a line, the board is full, or
   none of the human's remaining answers names an available cell. `moves`
   are the placements made, in order; `consumed` is how many answers were
   read, and `stops[k]` how many had been read once move `k` was made.
   */
  method PlayRound(g0: Game, input: seq<Pos>, randoms: seq<real>)
    returns (g: Game, outcome: Outcome, moves: seq<Pos>, consumed: nat, stops: seq<nat>)
    requires InPlay(g0)
    requires |randoms| >= MaxComputerMoves
    requires forall i :: 0 <= i < |randoms| ==> 0.0 <= randoms[i] < 1.0
    ensures consumed <= |input| && |moves| <= CellCount && |stops| == |moves|
    ensures Concluded(g0, g, outcome, moves, input, consumed, stops)
  {
    g := g0;
    moves := [];
    consumed := 0;
    stops := [];
    AvailableCount(g0.board);
    while |AvailableCells(g.board)| >= 1
      invariant Reached(g0, g, moves, input, consumed, stops)
      invariant |moves| > 0 ==> |AvailableCells(g.board)| >= 1
      decreases |AvailableCells(g.board)|
    {
      var ended;
      g, moves, consumed, stops, ended := Turn(g0, g, moves, input, consumed, stops, randoms);
      if ended.Some? {
        outcome := ended.value;
        return;
      }
    }
    outcome := Tied;
  }

  /**
   The program's default players, "You" with `X` and "Computer" with `O`, are
   a proper pair whose markers are distinct single non-blank characters and
   whose names have no colon.
   */
  lemma {:induction false} DefaultPlayers()
    ensures ProperPlayers(DefaultHuman, DefaultComputer)
    ensures |DefaultHuman.marker| == 1 && |DefaultComputer.marker| == 1
    ensures DefaultHuman.marker != DefaultComputer.marker
    ensures DefaultHuman.marker != " " && DefaultComputer.marker != " "
    ensures ':' !in DefaultHuman.name && ':' !in DefaultComputer.name
  {
  }
}
