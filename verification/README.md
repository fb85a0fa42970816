# Tic-Tac-Toe, modelled in Dafny

A console game of tic-tac-toe: a human plays `X` against a computer that plays
`O` and picks a uniformly random free cell. The human always opens. On each
turn the active player places a mark. The human is asked for a row and a
column until the answer names a free cell. After each move the program checks
whether the mover now holds a row, a column or a diagonal (a win). Otherwise
it checks whether the board is full (a tie). If neither, the turn passes to
the other player.

The model has six modules:

- `Players` (`players.dfy`): a player is an identity (`Side`), a name and a
  marker. The `Side` stands in for the object reference the program compares
  players by. `Describe` is the player's text form, and `ParseDescription`
  reads it back.
- `Boards` (`board.dfy`): the 3×3 grid of cells. Each cell is empty or holds
  a player. The module has placement, the occupancy query and the list of
  available cells in row-major order. It also has the counting facts that
  connect placements with available cells.
- `Winning` (`winning.dfy`): the eight-triple win test. It is proved equal to
  "holds a whole row, column or diagonal".
- `Rendering` (`rendering.dfy`): the board as text, three lines of
  `a|b|c`. It comes with a reader, `Parse`, that recovers the board from the
  text.
- `Membership` (`membership.dfy`): the element-by-element test of whether an
  array occurs in a list of arrays. This is the test that accepts or refuses
  the human's answer.
- `Controller` (`controller.dfy`): the game itself, which is the board, the
  two players and the active player. It covers the turn switch, the human's
  re-asking loop, the computer's random pick, and the round loop that plays
  until a win, a tie or the end of the supplied answers.

The program's inputs become parameters:

- The human's answers are a finite sequence of positions, `input`. A round
  that reaches the human's turn after the answers are used up ends with the
  outcome `AwaitingInput`. The program would instead wait at the prompt.
- The computer's random numbers are a sequence of reals in [0, 1), `randoms`.
  On its turn the computer uses `randoms[m]`, where `m` is the number of
  marks it already has, as `ChooseMove` states per turn. From `NewGame` that
  is its m-th move, counting from 0. The computer has at most three marks
  when it is to move (`MaxComputerMoves`), so four numbers suffice.
  `PlayRound` states only that each computer move is available; it does not
  say which cell the random numbers pick.

`Run` replays a sequence of moves on a board. It is the reference definition
the round is checked against: every move of a round is available when made,
and the two players alternate.

Two points where the model follows the code closely:

- `placePlayer` (scripts.js:25-27) does not check the cell; it overwrites
  it. `Boards.Place` therefore asks only for an in-range position. The round
  only ever places on available cells, which `Run` and `PlayRound` state.
- Markers are arbitrary strings in the code. Statements that read single
  characters back out of the rendered board (`RenderLayout`,
  `RenderParseRoundTrip`) say so in their preconditions. The default players
  (scripts.js:79-80) meet those preconditions, as `Controller.DefaultPlayers`
  states.

Each human move is tied to the answers it came from. `FirstAvailable` is
the reference for the re-asking loop: the position of the first answer, from
a given point on, that names an available cell. A round records, for every
move, how many answers had been read once it was made. On the board of that
move, the human's move is the answer at `FirstAvailable` from where the
previous move stopped reading. The computer reads no answers.

## Model

| member | source | states |
|---|---|---|
| `Players.DescribeRoundTrip` | scripts.js:2-8 | A player's text is its name, `": "` and its marker. The name and marker can be read back from it whenever the name has no colon. |
| `Boards.NewBoard` | scripts.js:14-22 | A new board is a well-formed 3×3 grid with every cell empty. |
| `Boards.Place` | scripts.js:25-27 | Placing writes the player into exactly the named cell and leaves every other cell as it was. |
| `Boards.PlaceThenOccupied` | scripts.js:28-30 | After a placement, the occupancy query is true for the player placed and false for any other player. |
| `Boards.AvailableCells` | scripts.js:31-41 | The available cells are exactly the in-range empty positions, listed in strictly increasing row-major order, so without duplicates. |
| `Boards.NewBoardAvailable` | scripts.js:12-41 | On a new board, the available cells are all nine positions in row-major order. |
| `Boards.AllCellsListed` | scripts.js:33-38 | Row-major order is (0,0), (0,1), (0,2), (1,0), …, (2,2). |
| `Boards.PlaceCounts` | scripts.js:25-41 | Placing on an available cell makes one cell fewer available. It gives the placer one more mark and leaves every other player's marks unchanged. |
| `Boards.Partition` | scripts.js:31-41 | On a board holding only two players' marks, available cells plus both players' marks always total nine. |
| `Boards.PlaceKeepsOnlyPlayers` | scripts.js:25-27 | Placing one of the two players keeps the board to those two players' marks. |
| `Winning.WinIffOwnsLine` | scripts.js:42-53 | The eight-triple test holds exactly when the player holds a whole row, a whole column, the main diagonal or the anti-diagonal. |
| `Winning.WinNeedsThreeMarks` | scripts.js:42-53 | A winning player has at least three marks on the board. |
| `Winning.PlaceKeepsOthersWithoutLine` | scripts.js:42-53 | A placement by one player never completes a line for a different player. |
| `Winning.NewBoardNoWinner` | scripts.js:42-53 | Nobody wins on a new board. |
| `Rendering.RenderLayout` | scripts.js:54-68 | With single-character markers the text has 18 characters. Row r, column c shows its cell's marker or a blank at offset 6r+2c. The next character is a bar in the first two columns and a line break in the last. |
| `Rendering.NewBoardRender` | scripts.js:54-68 | A new board renders as three lines, each a blank, a bar, a blank, a bar and a blank. |
| `Rendering.RenderParseRoundTrip` | scripts.js:54-68 | The text loses nothing: with distinct single-character markers, neither of them a blank, reading the text back gives the same board. |
| `Membership.SameArray` | scripts.js:143-144 | Same length and equal elements at every index holds exactly when the two arrays are equal. |
| `Membership.ArrayInArray` | scripts.js:141-146 | The test holds exactly when the array is an element of the list. |
| `Controller.SwitchAlternates` | scripts.js:85-87 | Switching hands the turn to the other player and stays between the two players. Switching twice gives back the same game. |
| `Controller.NewGame` | scripts.js:77-83 | The game starts in play with the human active, nobody holding a line, and all nine cells available in row-major order. |
| `Controller.DefaultPlayers` | scripts.js:79-80 | The default players, "You" with `X` and "Computer" with `O`, are a human and a computer. Their markers are distinct single non-blank characters, as `RenderParseRoundTrip` needs, and their names have no colon, as `DescribeRoundTrip` needs. |
| `Controller.LegalityGate` | scripts.js:97-100 | The membership test of `[row, column]` in the available cells accepts exactly the in-range empty positions. |
| `Controller.Accepts` | scripts.js:97 | The answer test accepts a position exactly when it is available. |
| `Controller.FirstAvailable` | scripts.js:95-100 | The position found is the first answer from the starting point that names an available cell: every answer before it is unavailable, and it is the end of the answers when none is available. |
| `Controller.HumanTurn` | scripts.js:95-101 | The human's move is the first available answer read, the one at `FirstAvailable`, and reading stops right after it. Every answer skipped before it was unavailable. There is a move exactly when some remaining answer is available; if none is, every answer is read. |
| `Controller.PickIndex` | scripts.js:106-107 | A random number in [0, 1) scaled by n and floored is an index in [0, n). |
| `Controller.ComputerMarksBound` | scripts.js:104-108 | When the computer is to move and a cell is free, it has at most three marks. So the number it draws, `randoms[m]` with m its mark count, has m < 4. |
| `Controller.ChooseMove` | scripts.js:92-111 | The move chosen is always available. On the human's turn it is the answer at `FirstAvailable` from the first unread answer, every answer skipped was unavailable, and there is no move exactly when no remaining answer is available. On the computer's turn no answer is read and the move is the available cell at the picked index. |
| `Controller.MoveStep` | scripts.js:101-122 | After a move to an available cell, one cell fewer is available and the opponent still has no line. The human stays level with the computer or one mark ahead. If the mover has a line, at most four cells are free. Otherwise the game is still in play after the switch. |
| `Controller.WinTakesFiveMarks` | scripts.js:112-115 | With the human opening and the turns alternating, a line needs at least five marks on the board. |
| `Controller.NoEarlierWinPrefixes` | scripts.js:112-115 | "No win before any move" holds exactly when nobody held a line after replaying each proper prefix of the moves. |
| `Controller.FirstAnswersMeaning` | scripts.js:92-111 | In a recorded round, human move k is the answer just before where reading stopped after it. That answer was available on the board the move was made on, and every answer read since the previous move was not. A computer move reads no answer. |
| `Controller.Turn` | scripts.js:91-122 | One pass of the loop. It reads answers only forward and never past the last one. A human move is the first available answer, recorded with where reading stopped. Unless the round is left awaiting input, exactly one move is appended: the mover's mark on an available cell, with every earlier move kept. A win ends the round for the mover, and a full board ends it as a tie. Otherwise the turn passes to the opponent, the game stays in play and fewer cells are available. Awaiting input changes nothing and happens only when no remaining answer is available. |
| `Controller.PlayRound` | scripts.js:90-125 | The round reads no more answers than supplied. Its moves are alternating placements on available cells, starting with the active player. It makes at most nine moves and none after a win. The marks stay balanced. Each human move is the first available answer after where the previous move stopped reading, on the board it was made on. A win goes to the last mover, who holds a line. A tie leaves no free cell and no line. Awaiting input leaves the game in play with the human to move, and no answer after the last move is available. |

## Left out

- Console output (`console.log` of boards and messages) is not modelled. The
  win and tie announcements are the `Won` and `Tied` outcomes.
- `prompt` is not modelled as I/O: the answers are the `input` sequence.
  A prompt that never gets a legal answer is the `AwaitingInput` outcome:
  it is reached only when no answer after the last move names an available
  cell.
- The unary `+` conversion of the answers is not modelled. An answer that
  converts to a fraction or `NaN` is never among the available cells and is
  always refused, so the model's answers are integer pairs.
- `Math.random` is not modelled as a random source: it is the `randoms`
  parameter. Its floating-point arithmetic is modelled with exact reals.
- `Controller.PickIndex`: does not state that the pick is uniform. Uniformity
  is a property of the random source, which the model takes as input.
- `Players.Describe`: carries no contract of its own. Its meaning is stated
  by `Players.DescribeRoundTrip`, which needs a name without a colon to split
  the text unambiguously.
- The immediately invoked set-up of the controller and the module-level call
  that starts the game are not modelled: `NewGame` followed by `PlayRound`
  stands for them.
- The accessors (`getName`, `getMarker`, `getBoard`, `getTicTacToeBoard`,
  `getHumanPlayer`, `getComputerPlayer`, `getActivePlayer`) are the fields of
  the datatypes.
- `Boards.Place`: requires an in-range position. The program's behaviour for
  indices outside the grid (writing to an undefined row) is not modelled.
