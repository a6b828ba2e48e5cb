# 2048 engine and expectimax player, in Dafny

This project models the game engine (`Simulator`) and the computer player (`Player`) of a
Java implementation of 2048.

The engine keeps a board of `width x height` cells, with at least two of each. Each cell
holds 0 (empty) or a tile value. The engine also keeps three counters: moves made, pieces
on the board, and points scored. A move in one of the four directions has three phases:

1. slide every tile as far as it goes toward the edge;
2. merge equal neighbours, visiting the cells from that edge, and mark each merged cell so
   it is not merged again in the same move;
3. slide again.

Merging adds the new tile's value to the points and removes one piece. The engine also
answers whether a move in a direction is possible, whether any move is possible, whether
a cell is free, and whether a tile of 2048 or more is on the board.

The player picks a direction by a two-level expectimax search. Each legal direction is
scored by the expected value of the board it leads to:

- the empty cells are averaged over;
- a new tile is a 2 with weight 0.9 and a 4 with weight 0.1;
- the search stops at depth 2 and scores the board with a weighted sum of seven
  heuristics: highest tile, empty cells, merge potential, smoothness, "monotonicity",
  corner bonus, and number of legal moves.

## Structure

- `lines.dfy` (module `Lines`) covers one line of the board, read from the edge the move
  pushes toward. It holds:
  - `Compact`, the result of a slide;
  - the merge scan `Step`/`ScanUpTo`/`ScanAll`, which mirrors the merge loop with its
    per-cell "merged this turn" flags;
  - `MoveLine`;
  - an independent reference merge `StdMerge` (front-greedy pairing of the tiles), with
    the proof that a move is that merge, padded with empty cells.
- `grid.dfy` (module `Grids`) holds the board as a value (`Grid = seq<seq<int>>`), its
  lines per direction, and the following, each defined line by line:
  - `Slide`, `Merge`, `Move`;
  - the points and merge counts of a merge;
  - the board predicates `MovePossible`, `AnyMovePossible`, `SpaceLeft`, `Won`.
- `moves.dfy` (module `MoveFacts`) holds the board-level properties of a move.
- `sweep.dfy` (module `Sweeps`) holds the loop invariants of the engine's double sweep.
  Java's loop position `(i, j)` becomes a line and a position on it. The invariants state
  which lines are already slid or merged and which part of the current line is done.
- `simulator.dfy` (module `Engine`) holds the class `Simulator`. The board is an
  `array2<int>`. Every method is proved against the `Grids` functions and keeps the object
  invariant `Valid()`:
  - the board has its declared size;
  - no tile is negative;
  - `numPieces` counts the occupied cells;
  - the counters are non-negative.
- `heuristics.dfy` (module `Heuristics`) holds the seven evaluation terms as functions of
  the board, with their properties.
- `agent.dfy` (module `Agent`) holds the player:
  - the search value `Value`/`MaxNode`/`ChanceNode` and the choice `BestMove`, as functions;
  - the methods that compute them as the Java does: loops over cells and directions, on
    fresh copies of the game.

The Java exceptions become `Result` values carrying an `Error` tag. The random draws of
`addPiece` become a `Placement` parameter.

## Model

| member | source | states |
|---|---|---|
| Engine.Simulator.constructor | src/ttfe/Simulator.java:16-34 | a new game has the requested size, an otherwise empty board with the two new tiles at their places, numPieces 2, and no moves or points |
| Engine.Simulator.PlaceStartingTiles | src/ttfe/Simulator.java:31-33 | the two addPiece calls on the empty board both succeed and leave exactly those two tiles, numPieces 2 |
| Engine.Simulator.StartingPlacements | src/ttfe/Simulator.java:31-33 | the empty board has space, and after the first tile the second (distinct) cell is still free, so neither addPiece throws |
| Engine.NewSimulator | src/ttfe/Simulator.java:16-34 | fails with BadDimensions exactly when width or height is below 2; otherwise a fresh valid game of that size holding exactly the two new tiles |
| Engine.EmptyGrid | src/ttfe/Simulator.java:26 | the new board has the given size, every cell empty and no pieces |
| Engine.Simulator.Copy | src/ttfe/Simulator.java:37-49 | the copy is a fresh board with the same size, the same cells and the same three counters |
| Engine.Simulator.AddPiece | src/ttfe/Simulator.java:52-64 | fails with NoSpaceLeft exactly when no cell is empty, leaving the game unchanged; otherwise the chosen empty cell gets the new tile, numPieces grows by one, moves and points unchanged |
| Engine.Simulator.GetBoardHeight | src/ttfe/Simulator.java:67-69 | the number of rows of the board, at least 2 |
| Engine.Simulator.GetBoardWidth | src/ttfe/Simulator.java:72-74 | the number of columns of the board, at least 2 |
| Engine.Simulator.GetNumMoves | src/ttfe/Simulator.java:77-79 | the move counter, never negative |
| Engine.Simulator.GetNumPieces | src/ttfe/Simulator.java:82-84 | the piece counter equals the number of occupied cells |
| Engine.Simulator.GetPoints | src/ttfe/Simulator.java:87-89 | the points, never negative |
| Engine.Simulator.GetPieceAt | src/ttfe/Simulator.java:92-97 | succeeds exactly for coordinates on the board, with that cell's (non-negative) tile; otherwise OutOfBounds |
| Engine.Simulator.SetPieceAt | src/ttfe/Simulator.java:100-110 | fails with InvalidPlacement exactly when the coordinates are off the board or the value is negative, leaving the game unchanged; otherwise only that cell changes and numPieces still counts the occupied cells |
| Engine.Simulator.Place | src/ttfe/Simulator.java:104-109 | only the cell changes, and numPieces drops by one when a tile is cleared and grows by one when an empty cell is filled |
| Engine.Simulator.IsAnyMovePossible | src/ttfe/Simulator.java:113-120 | true exactly when a move in some direction is possible |
| Engine.Simulator.IsMovePossible | src/ttfe/Simulator.java:123-139 | true exactly when some tile has an in-bounds neighbour in that direction that is empty or equal to it |
| Engine.Simulator.IsSpaceLeft | src/ttfe/Simulator.java:142-151 | true exactly when some cell is empty |
| Engine.Simulator.PerformMove | src/ttfe/Simulator.java:154-178 | the board becomes slide-merge-slide of the old board; the result is true exactly when the move was possible, exactly when the board changed; points grow by the merge gain, numPieces drops by the merge count, numMoves grows by one exactly when the board moved; so points never decrease and numPieces never grows |
| Engine.Simulator.HasWon | src/ttfe/Simulator.java:185-194 | true exactly when some tile is 2048 or more |
| Engine.Simulator.SlideTiles | src/ttfe/Simulator.java:233-257 | every line in the direction becomes its tiles in order, packed toward the edge; the result is true exactly when the board changed |
| Engine.Simulator.SlideRow | src/ttfe/Simulator.java:239-253 | one pass of the inner loop keeps the sliding invariant: lines before the sweep are compacted, the rest untouched |
| Engine.Simulator.SlideOne | src/ttfe/Simulator.java:242-252 | moving one tile keeps the sliding invariant for the next cell of the sweep |
| Engine.Simulator.Carry | src/ttfe/Simulator.java:245-251 | the tile travels to the first position behind an occupied cell (or the edge) and `moved` records whether it went anywhere |
| Engine.Simulator.CarryStep | src/ttfe/Simulator.java:246-249 | one step of the tile into the empty neighbouring cell keeps the carrying invariant one position further on |
| Engine.Simulator.MergeTiles | src/ttfe/Simulator.java:259-285 | every line becomes the result of the merge scan; points grow by the sum of the merged tiles, numPieces drops by the number of merges, and the result is true exactly when some merge happened |
| Engine.Simulator.MergeRow | src/ttfe/Simulator.java:266-281 | one pass of the inner loop keeps the merge invariant: board, flags, points and pieces agree with the scan up to the sweep position |
| Engine.Simulator.MergeOne | src/ttfe/Simulator.java:269-280 | visiting one occupied cell merges it exactly when the scan does, keeping the merge invariant |
| Engine.Simulator.MergePair | src/ttfe/Simulator.java:273-276 | the target doubles, the source empties, points grow by the doubled value and numPieces drops by one |
| Engine.Simulator.MarkMerged | src/ttfe/Simulator.java:277 | setting the flag keeps every flag on a cell already visited by the sweep and changes no cell |
| Engine.MergeDecision | src/ttfe/Simulator.java:270-272 | the engine's merge test at a sweep position (neighbour in bounds, equal, not flagged) holds exactly when the scan merges at that line position |
| Engine.FlagClear | src/ttfe/Simulator.java:272 | the flag of the neighbour in front of the cell being visited is never set when the merge condition reads it |
| Lines.FlagClearOnVisit | src/ttfe/Simulator.java:272 | in the scan, the merged flag of the position in front is always clear when the merge condition reads it: each target is flagged only by the single tile behind it |
| Lines.MergeAtMostOnce | src/ttfe/Simulator.java:272-277 | after the scan every cell is unchanged, empty or doubled, and a flagged cell was doubled from an equal neighbour that is now empty |
| Lines.ScanGainIsMergedSum | src/ttfe/Simulator.java:275-277 | the scan's points equal the sum of the flagged (doubled) cells and its merge count equals the number of flags |
| Lines.ScanDropsOnePerMerge | src/ttfe/Simulator.java:274-276 | the tiles after the scan plus the merges equal the tiles before: each merge removes exactly one piece |
| Lines.ScanMergesIffPair | src/ttfe/Simulator.java:272 | the scan merges at least once exactly when two neighbouring tiles are equal |
| Lines.ScanGainSign | src/ttfe/Simulator.java:275 | on non-negative tiles the points gained are non-negative, and zero exactly when nothing merged |
| Lines.CompactKeepsOrder | src/ttfe/Simulator.java:245-251 | a slide keeps the tiles of a line and their order |
| Lines.CompactIsPacked | src/ttfe/Simulator.java:245-251 | after a slide no tile has an empty cell in front of it |
| Lines.CompactFixedIffPacked | src/ttfe/Simulator.java:233-257 | a slide leaves a line as it is exactly when no tile has an empty cell in front of it |
| Lines.MoveLineIsStandard | src/ttfe/Simulator.java:154-178 | a move of a line equals the reference 2048 merge: tiles paired greedily from the edge, each pair doubled once, then empty cells |
| Lines.TripleTwos | src/ttfe/Simulator.java:259-285 | 2,2,2 toward the edge becomes 4,2,0: the pair nearest the edge merges and the third tile is not merged into the new 4 |
| Lines.TwoTwoFour | src/ttfe/Simulator.java:259-285 | 2,2,4,0 becomes 4,4,0,0: a newly made 4 does not merge with the old 4 in the same move |
| Lines.TwoTwoFourGain | src/ttfe/Simulator.java:275 | that move scores 4 points |
| Lines.LegalIffGapOrPair | src/ttfe/Simulator.java:129-133 | a line allows a move exactly when some tile has an empty cell in front of it or two neighbouring tiles are equal |
| Lines.PhasesIffLegal | src/ttfe/Simulator.java:158-171 | some phase of a move (slide, merge, second slide) reports a change exactly when the line allows a move |
| Lines.MoveLineChangesIffLegal | src/ttfe/Simulator.java:123-178 | a move changes a line exactly when the legality test allows it |
| Grids.Slide | src/ttfe/Simulator.java:233-257 | every line of the result is the compacted line of the input, and the shape is kept |
| Grids.Merge | src/ttfe/Simulator.java:259-285 | every line of the result is the merge scan of the input line, and the shape is kept |
| Grids.Write | src/ttfe/Simulator.java:109 | the written cell holds the new value and every other cell is unchanged |
| Grids.LinesDetermineGrid | src/ttfe/Simulator.java:238-241 | two boards of one shape with equal lines in a direction are equal: the sweep covers every cell |
| Grids.CountPiecesAfterWrite | src/ttfe/Simulator.java:104-109 | writing a cell changes the number of occupied cells by exactly the bookkeeping setPieceAt does |
| MoveFacts.MovePossibleIffSomeLineLegal | src/ttfe/Simulator.java:123-139 | the board-level legality test holds exactly when some line in the direction allows a move |
| MoveFacts.MoveByLines | src/ttfe/Simulator.java:154-178 | each line of the moved board is the move of that line |
| MoveFacts.MoveIsStandard | src/ttfe/Simulator.java:154-178 | each line of the moved board is the reference merge of its tiles, padded with empty cells |
| MoveFacts.MoveChangesIffPossible | src/ttfe/Simulator.java:123-178 | performMove changes the board exactly when isMovePossible(direction) holds |
| MoveFacts.PhasesIffPossible | src/ttfe/Simulator.java:158-171 | performMove's result (some phase reported a change) is true exactly when isMovePossible(direction) holds |
| MoveFacts.MergeCountPositiveIff | src/ttfe/Simulator.java:278 | mergeTiles reports a merge exactly when some line's scan merged |
| MoveFacts.SlidePacks | src/ttfe/Simulator.java:233-257 | after slideTiles no tile can slide further, and every line keeps its tiles in order |
| MoveFacts.MergeGainSign | src/ttfe/Simulator.java:275-276 | on a board of non-negative tiles the points and the merge count of a merge are non-negative, and the points are zero exactly when nothing merged |
| MoveFacts.MoveKeepsNonNegative | src/ttfe/Simulator.java:233-285 | slide, merge and move keep every tile non-negative |
| MoveFacts.WestTripleTwos | src/ttfe/Simulator.java:154-178 | on the board 2,2,2 moved WEST the row becomes 4,2,0 |
| MoveFacts.GameOverIffStuck | src/ttfe/Simulator.java:113-151 | on a board holding a tile, isMovePossible() is false exactly when isSpaceLeft() is false and no two horizontally or vertically neighbouring cells are equal |
| MoveFacts.StuckHasNoMove | src/ttfe/Simulator.java:123-139 | a full board without equal neighbours allows no move in any direction |
| MoveFacts.TileNextToSpace | src/ttfe/Simulator.java:123-139 | a board holding both a tile and an empty cell allows some move |
| Heuristics.HighestTileIsMax | src/ttfe/Player.java:74-82 | the running maximum from 0 is at least every tile, and is 0 or some tile's value |
| Heuristics.EmptyCellsAndPieces | src/ttfe/Player.java:84-92 | empty cells plus pieces is the board's area, and there is an empty cell exactly when isSpaceLeft holds |
| Heuristics.MergePotentialSign | src/ttfe/Player.java:94-106 | the merge potential is non-negative, and positive exactly when some tile has an equal neighbour to the right or below |
| Heuristics.SmoothnessSign | src/ttfe/Player.java:108-129 | the smoothness is at most 0, and 0 exactly when no two horizontally or vertically neighbouring tiles differ |
| Heuristics.CornerBonusIff | src/ttfe/Player.java:154-162 | the bonus is four times the bottom-left tile when that tile is the largest, and 0 otherwise |
| Heuristics.FutureMovesBounds | src/ttfe/Player.java:164-170 | the score is between 0 and 200, and 0 exactly when no move is possible |
| Heuristics.LegalCountBounds | src/ttfe/Player.java:166-168 | the number of legal directions in a list is at most its length, and 0 exactly when none is legal |
| Agent.HighestTileScore | src/ttfe/Player.java:74-82 | the loop's maximum is the board's highest tile |
| Agent.EmptySpaceScore | src/ttfe/Player.java:84-92 | 200 times the number of empty cells |
| Agent.MergePotentialScore | src/ttfe/Player.java:94-106 | twice the sum of tiles that equal their right or lower neighbour |
| Agent.TileSmoothnessScore | src/ttfe/Player.java:108-129 | minus the sum of differences of neighbouring tile pairs |
| Agent.MonotonicityScore | src/ttfe/Player.java:131-152 | the same value as the smoothness score |
| Agent.CornerTileBonus | src/ttfe/Player.java:154-162 | the corner bonus of the board |
| Agent.FutureMovePotentialScore | src/ttfe/Player.java:164-170 | 50 times the number of legal directions |
| Agent.EvaluateBoard | src/ttfe/Player.java:64-72 | the weighted sum of the seven terms |
| Agent.Expectimax | src/ttfe/Player.java:28-62 | the search value of the game's board at that depth and turn, leaving the game unchanged |
| Agent.MaxNodeScore | src/ttfe/Player.java:33-43 | the maximum over the legal moves of the value one level down |
| Agent.ChanceNodeScore | src/ttfe/Player.java:44-61 | the weighted sum over empty cells and new tiles, divided by the number of empty cells |
| Agent.SpawnRowScore | src/ttfe/Player.java:48-58 | one row's contribution to the chance node's sum and count |
| Agent.SpawnScore | src/ttfe/Player.java:51-56 | the weighted value of the new 2 (weight 0.9) or new 4 (weight 0.1) at a cell |
| Agent.MoveScore | src/ttfe/Player.java:36-40 | the value of the board one move away, one level down |
| Agent.MovedCopy | src/ttfe/Player.java:37-38 | a fresh copy with the move performed on it |
| Agent.PlacedCopy | src/ttfe/Player.java:52-53 | a fresh copy with the new tile set at the cell |
| Agent.PlayerTurnIsMax | src/ttfe/Player.java:33-43 | at a player's turn with some legal move, the value is that of some legal move and at least that of every legal move |
| Agent.ChanceTurnIsAverage | src/ttfe/Player.java:44-61 | at a chance turn with empty cells, when every placement's value lies in [lo, hi] so does the node's value |
| Agent.AverageWithin | src/ttfe/Player.java:55-60 | the 0.9/0.1-weighted sum divided by the count of empty cells lies between the lowest and highest placement value |
| Agent.RootSearchIsOneChanceLevel | src/ttfe/Player.java:7-29 | from the root call at depth 1 every new tile leads straight to an evaluated board: the max branch is never reached |
| Agent.BestOfIsMax | src/ttfe/Player.java:34-43 | the running Math.max from minus infinity over the legal entries is the score of a legal entry and at least every legal score |
| Agent.ChooseIsFirstBest | src/ttfe/Player.java:11-24 | the candidate kept by the strict-improvement loop is legal, scores at least every legal entry and strictly more than every legal entry before it; none is kept exactly when none is legal |
| Agent.SomeMoveLegal | src/ttfe/Player.java:14-15 | some entry of the legality list over SOUTH, WEST, EAST, NORTH is true exactly when isMovePossible() holds |
| Agent.BestMoveIsFirstBest | src/ttfe/Player.java:10-26 | the chosen direction is legal whenever one is, is NORTH otherwise, and is the first direction in MOVES order with the highest search value |
| Agent.OnlyLegalMoveIsChosen | src/ttfe/Player.java:10-26 | with a single legal direction the player returns it |
| Agent.GetPlayerMove | src/ttfe/Player.java:10-26 | the returned direction is the best move of the board: legal whenever some move is, NORTH otherwise |

## Left out

- `run` (Simulator.java:196-231), the user interface and `isComputerPlayer` are not modelled. They are the game loop, screen updates and messages, which are I/O.
- `Random` is not modelled. `addPiece` takes the new tile's position and value as a `Placement`, and the constructor takes two. The `requires` on them states what the Java retry loop achieves: the cell is on the board and empty. The 0.9/0.1 choice of the value is not modelled. The copy constructor's reseeding of the random generator is left out with it.
- `Engine.Simulator.AddPiece`: the tile's value is taken as 2 or 4 rather than drawn, so the model does not state the 90/10 distribution.
- Null arguments (a null `Random`, a null direction) cannot occur in Dafny and are not modelled. The other exceptions are `Err` results.
- Java `int` overflow is not modelled: tiles, points and counters are unbounded integers. `double` is modelled as `real`, so rounding is not modelled. `Double.NEGATIVE_INFINITY` as the starting maximum is modelled as `None`.
- `getDx`, `getDy` and `isValidCoordinate` (Simulator.java:287-311) are the functions `Grids.Dx`, `Grids.Dy` and `Engine.Simulator.IsValidCoordinate`. They are used by every sweep but carry no contract of their own.
- `Agent.MonotonicityScore` has the same specification as the smoothness score, because the Java computes the same scan twice (Player.java:108-152).
- Two behaviours of the code worth noting:
  - `isMovePossible()` is false on the all-empty board, although that board is not full and has no equal neighbours. No tile means no move. Such a board never arises in play, because a game starts with two tiles. On every board that holds a tile, the game ends exactly when the board is full with no equal neighbours (`MoveFacts.GameOverIffStuck`).
  - With `MAX_DEPTH` 2 and the root call at depth 1 on the chance turn, the max branch of `expectimax` is never reached from `getPlayerMove`. It is modelled and proved anyway (`Agent.PlayerTurnIsMax`).
