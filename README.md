# Othello rules engine in Dafny

This project models the rules engine of a console Othello game: the
`OthelloGame` class in `Othello-N/Services.cs/OthelloGame.cs`. The engine
holds an N x N board of cells, two players (Black and White), the player
whose turn it is, and the game status (`NotStart`, `Play`, `Win`, `Draw`).

- **Board set-up.** It builds an empty board and places the four opening
  disks.
- **Legality.** It decides whether a move is legal. A move is legal when
  the cell is on the board and empty, and at least one of the eight
  directions walks over one or more opponent disks and stops on a disk of
  the mover's colour.
- **Moves.** It lists the legal moves in row-major order and plays a move:
  it places the disk, flips the bracketed disks direction by direction,
  and passes the turn.
- **Scoring.** It counts scores, finishes the game as a win or a draw, and
  names the winner.

The model has three modules.

- `Board` (board.dfy) is the board as a value: `Grid = seq<seq<Cell>>`, where
  a cell is `None` or `Some(colour)`. It provides disk counting, scores and
  the lemmas about how writing cells changes the counts.
- `Rules` (rules.dfy) holds the rules as functions on grids:
  - the eight directions, in the order `Othello-N/Program.cs` gives them;
  - the outward walk (`Run`, `RunEnd`) and what a direction brackets
    (`RayFlips`);
  - legality (`IsLegal`) and the row-major list of legal moves
    (`LegalMoves`);
  - the effect of a move (`ApplyMove`, built from `FlipRay` and `FlipUpTo`);
  - the opening position.

  The lemmas relate these to recursion-free statements of the rules: the
  sandwich rule, cell-by-cell effects, and score changes.
- `Engine` (engine.dfy) holds the `OthelloGame` class itself.
  - The board is a mutable `array2<Cell>`.
  - Players are a two-element sequence, and the current player is an index
    into it.
  - Every method works on the array as the source does, with the same
    loops, branches and early returns.
  - Each method is proved against the `Rules` functions. They are read off a
    ghost grid `cells` that the class invariant `Valid()` ties to the array.

## Model

| member | source | states |
|---|---|---|
| Board.Opponent | Othello-N/Services.cs/OthelloGame.cs:171 | the opponent colour is the other colour |
| Board.Empty | Othello-N/Services.cs/OthelloGame.cs:26-40 | a fresh board is size x size and every cell is empty |
| Board.Put | Othello-N/Services.cs/OthelloGame.cs:129-133 | placing a disk sets that one cell and leaves every other cell as it was |
| Board.PaintAt | Othello-N/Services.cs/OthelloGame.cs:259-263 | recolouring a list of cells sets exactly the listed cells to the colour; all others are unchanged |
| Board.PaintScore | Othello-N/Services.cs/OthelloGame.cs:259-263 | recolouring k distinct opponent disks raises the mover's score by k and lowers the opponent's by k |
| Board.ScorePartition | Othello-N/Services.cs/OthelloGame.cs:294-309 | Black's score + White's score + empty cells = size², so Black + White <= size² |
| Board.CountPut | Othello-N/Services.cs/OthelloGame.cs:294-309 | overwriting one cell moves it from the count of its old content to the count of its new content |
| Board.CountAbsent | Othello-N/Services.cs/OthelloGame.cs:294-309 | a content no cell holds has count zero |
| Rules.DirectionsFacts | Othello-N/Program.cs:26-31 | there are eight directions, each a distinct unit king-move step |
| Rules.Run | Othello-N/Services.cs/OthelloGame.cs:246-253 | every collected position is on the board and holds an opponent disk |
| Rules.RunEnd | Othello-N/Services.cs/OthelloGame.cs:189-196 | the walk stops at the edge or at a cell that does not hold an opponent disk |
| Rules.RunShape | Othello-N/Services.cs/OthelloGame.cs:189-196 | the collected positions are consecutive steps from the start along the direction, and the walk stops one step past the last |
| Rules.RunUnique | Othello-N/Services.cs/OthelloGame.cs:189-196 | any chain of opponent disks from the start that ends off the board or on a non-opponent cell is exactly what the walk collects, and the stop cell is the one after it |
| Rules.WalkStep | Othello-N/Services.cs/OthelloGame.cs:189-196 | one loop step over an opponent disk extends the crossed chain and moves one step along the direction |
| Rules.WalkStop | Othello-N/Services.cs/OthelloGame.cs:198-205 | after the walk stops, the direction brackets the crossed disks when the stop cell holds the mover's colour; a walk that ends at the edge or at an empty cell brackets nothing |
| Rules.SandwichRule | Othello-N/Services.cs/OthelloGame.cs:183-206 | what a direction brackets is a non-empty line of opponent disks capped by a mover's disk, and every such line is exactly what it brackets (both directions) |
| Rules.WalkOnRay | Othello-N/Services.cs/OthelloGame.cs:189-196 | every cell the walk visits lies on the ray leaving the move in that direction |
| Rules.RayFlipsOnRay | Othello-N/Services.cs/OthelloGame.cs:246-253 | every disk a direction brackets lies on that direction's ray |
| Rules.WalkFrame | Othello-N/Services.cs/OthelloGame.cs:189-196 | two boards that agree on a ray produce the same walk along it |
| Rules.RayFlipsFrame | Othello-N/Services.cs/OthelloGame.cs:240-265 | what a direction brackets depends only on the cells of its ray |
| Rules.RunDistinct | Othello-N/Services.cs/OthelloGame.cs:246-253 | the collected positions are pairwise different |
| Rules.ScanMember | Othello-N/Services.cs/OthelloGame.cs:149-159 | the nested row/column loop keeps a cell iff it has already been visited and passes the test |
| Rules.ScanSorted | Othello-N/Services.cs/OthelloGame.cs:149-159 | the cells the loop keeps have already been visited and come out in strictly increasing row-major order |
| Rules.LegalMovesSpec | Othello-N/Services.cs/OthelloGame.cs:145-162 | the move list holds exactly the legal cells (both directions), is row-major sorted and free of duplicates, and is non-empty iff the player can move |
| Rules.RaysDisjoint | Othello-N/Services.cs/OthelloGame.cs:234-237 | a cell on one direction's ray is not bracketed by any other direction |
| Rules.EarlierRaysDisjoint | Othello-N/Services.cs/OthelloGame.cs:234-237 | in particular, no direction earlier in the list brackets a cell of a later direction's ray |
| Rules.FlipUpToFrame | Othello-N/Services.cs/OthelloGame.cs:234-237 | flipping the earlier directions leaves the next direction's ray, and so what it brackets, unchanged |
| Rules.FlippedByStep | Othello-N/Services.cs/OthelloGame.cs:234-237 | a cell is bracketed by the first k directions iff it is bracketed by the first k-1 or by direction k |
| Rules.FlipUpToAt | Othello-N/Services.cs/OthelloGame.cs:230-238 | after the directions are flipped in turn, a cell holds the mover's colour if some direction brackets it in the starting board, and is unchanged otherwise |
| Rules.PutKeepsRays | Othello-N/Services.cs/OthelloGame.cs:220-225 | placing the new disk before flipping changes what no direction brackets |
| Rules.ApplyMoveAt | Othello-N/Services.cs/OthelloGame.cs:220-225 | after a move, the target and every bracketed cell hold the mover's colour and every other cell is unchanged |
| Rules.MoveChangesBracketed | Othello-N/Services.cs/OthelloGame.cs:240-265 | a cell other than the target changes iff it lies in some direction's line of opponent disks capped by a mover's disk, and then it holds the mover's colour |
| Rules.NumFlipsAgree | Othello-N/Services.cs/OthelloGame.cs:220-225 | boards whose directions bracket the same disks flip the same number of disks |
| Rules.RayStillOpponent | Othello-N/Services.cs/OthelloGame.cs:234-237 | when a direction's turn comes, the disks it brackets still belong to the opponent |
| Rules.FlipStepScore | Othello-N/Services.cs/OthelloGame.cs:240-265 | flipping one direction moves the disks it brackets from the opponent's score to the mover's |
| Rules.FlipUpToScore | Othello-N/Services.cs/OthelloGame.cs:230-238 | flipping all directions raises the mover's score by the number of bracketed disks and lowers the opponent's by the same number |
| Rules.ApplyMoveScore | Othello-N/Services.cs/OthelloGame.cs:220-225 | a move raises the mover's score by 1 + flips and lowers the opponent's by flips |
| Rules.NumFlipsPositive | Othello-N/Services.cs/OthelloGame.cs:174-178 | some disk is flipped iff some direction qualifies |
| Rules.LegalMoveFlips | Othello-N/Services.cs/OthelloGame.cs:213-228 | a legal move flips at least one disk |
| Rules.OpeningAt | Othello-N/Services.cs/OthelloGame.cs:120-127 | in the opening position, White is on (3,3) and (4,4), Black is on (3,4) and (4,3), and every other cell is empty |
| Rules.OpeningScores | Othello-N/Services.cs/OthelloGame.cs:120-127 | the opening position has exactly four disks, two per colour, and size² - 4 empty cells |
| Engine.Other | Othello-N/Services.cs/OthelloGame.cs:267-270 | the other player index is a valid index and differs from the current one |
| Engine.OtherTwice | Othello-N/Services.cs/OthelloGame.cs:267-270 | switching the player twice restores the player |
| Engine.OthelloGame.constructor | Othello-N/Services.cs/OthelloGame.cs:15-24 | stores the players, size, status and current player; the board is empty |
| Engine.OthelloGame.InitializeBoard | Othello-N/Services.cs/OthelloGame.cs:26-40 | a new size x size array with every cell empty |
| Engine.OthelloGame.PlaceDisk | Othello-N/Services.cs/OthelloGame.cs:129-133 | the new board is the old one with the disk put on that cell |
| Engine.OthelloGame.InitializeBoardDisks | Othello-N/Services.cs/OthelloGame.cs:120-127 | the four opening disks are placed on the board |
| Engine.OthelloGame.StartGame | Othello-N/Services.cs/OthelloGame.cs:42-46 | status becomes Play and the board is the opening position |
| Engine.OthelloGame.PlayerByColor | Othello-N/Services.cs/OthelloGame.cs:135-138 | returns the player who holds the colour, one of the two |
| Engine.OthelloGame.CheckDirection | Othello-N/Services.cs/OthelloGame.cs:183-206 | true iff the direction qualifies under the sandwich rule; the board is not changed |
| Engine.OthelloGame.IsValidMove | Othello-N/Services.cs/OthelloGame.cs:164-181 | true iff the cell is on the board, empty and some direction qualifies; so false off the board and on occupied cells |
| Engine.OthelloGame.GetPossibleMovesForPlayer | Othello-N/Services.cs/OthelloGame.cs:145-162 | returns exactly the legal cells, row-major sorted and free of duplicates |
| Engine.OthelloGame.HasValidMove | Othello-N/Services.cs/OthelloGame.cs:208-211 | true iff the player has some legal move |
| Engine.OthelloGame.GetValidMoves | Othello-N/Services.cs/OthelloGame.cs:353-356 | the legal moves of the player whose turn it is |
| Engine.OthelloGame.CollectRun | Othello-N/Services.cs/OthelloGame.cs:242-253 | collects the opponent disks walked over and returns the cell where the walk stopped |
| Engine.OthelloGame.FlipDirection | Othello-N/Services.cs/OthelloGame.cs:240-265 | the board becomes the old board with that direction's bracketed disks recoloured; nothing is recoloured when the walk ends at the edge or at an empty cell |
| Engine.OthelloGame.FlipDisks | Othello-N/Services.cs/OthelloGame.cs:230-238 | the eight directions are flipped one after the other |
| Engine.OthelloGame.SwitchPlayer | Othello-N/Services.cs/OthelloGame.cs:267-270 | the turn passes to the other player |
| Engine.OthelloGame.MakeMove | Othello-N/Services.cs/OthelloGame.cs:213-228 | an illegal move changes nothing; a legal one leaves the board as ApplyMove gives it and passes the turn |
| Engine.OthelloGame.GetPlayerScore | Othello-N/Services.cs/OthelloGame.cs:294-309 | the number of disks of the player's colour on the board |
| Engine.OthelloGame.FinishGame | Othello-N/Services.cs/OthelloGame.cs:311-333 | the game is over; Win iff the scores differ, Draw otherwise |
| Engine.OthelloGame.GetWinner | Othello-N/Services.cs/OthelloGame.cs:279-292 | no winner unless the status is Win; when it is Win, there is a winner iff the scores differ, and the winner is a player with the strictly higher score |
| Engine.OthelloGame.TakeTurn | Othello-N/Services.cs/OthelloGame.cs:48-116 | a player who can move plays a legal choice or is asked again with nothing changed; a player who cannot move passes; when neither player can move, the game finishes as a win or draw by score |

## Left out

- Console output, reading and parsing moves, and `PrintBoard`/`PrintScores` are left out: `Othello-N/Services.cs/OthelloGame.cs:52-62`, `:63-87`, `:95-104`, `:335-352` and `:358-363`, and the prompts in `Othello-N/Program.cs`. These are I/O only. Listing the moves (line 56, `GetValidMoves` at 353-356) and playing the entered move (lines 88-94) are modelled, by `GetValidMoves` and `TakeTurn`.
- The input loop of `StartGame` (lines 63-104) asks again until a legal move is entered. The model does one pass of it: `TakeTurn` takes the chosen move as a parameter and answers `Rejected` for an illegal one. The `while (_status == Play)` loop around it is a repetition of `TakeTurn` and is not written out.
- Engine.OthelloGame.MakeMove: the source throws `InvalidOperationException` on an illegal move. The model returns `false` instead, with the same guarantee that nothing has changed.
- Engine.OthelloGame.constructor: the caller-supplied `IBoard` object is modelled as a fresh empty `size x size` array. The direction list passed in is modelled as the constant `Rules.Directions` from `Othello-N/Program.cs:26-31`.
- Engine.OthelloGame.StartGame and Engine.OthelloGame.InitializeBoardDisks require `size >= 5`. The source indexes cells (3,3) to (4,4) and fails on smaller boards; the program uses size 8.
- Objects and identity are not modelled.
  - Disks, cells and players are values.
  - `FlipDirection` recolours the existing disk object in the source (line 261); the model writes a disk of the new colour into the cell, which has the same effect on the board.
  - `SwitchPlayer` compares player references; the model keeps an index into the two-element player list.
  - `GetPlayerByColor` uses `List.Find`; the model picks the player with that colour, and the two colours are required to differ.
- `StartGame` does not refuse a second call, and `MakeMove` does not check the status. The model follows the source in both.
- `IsGameOver` and `GetCurrentPlayer` only read a field; `IsGameOver` is a predicate without a contract of its own and is used in the contracts of `FinishGame` and `TakeTurn`.
- Integer widths are not modelled. Scores and coordinates are unbounded integers; on boards the program can build they stay far below 32-bit limits.
