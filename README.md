# Sliding-tile puzzle engine, modelled in Dafny

The repository is a sliding-tile puzzle (the 8-puzzle and its N×N
generalisation). Its engine exists twice.

- **TypeScript engine** (`src/utils/movements.ts`, `src/utils/board.ts`).
  - Boards are N×N arrays of rows, and `0` marks the empty cell.
  - It builds the solved board, finds the empty cell and decides which tiles may slide.
  - It applies a slide on a copy, shuffles by random legal slides and detects the solved board.
  - It scores a board by city-block distance, plus a second, cruder score.
  - It solves greedily. The "best son" solver ranks the children of the current board by city-block score. It commits to the first child whose fingerprint it has not recorded yet, and otherwise moves at random.
- **C engine** (`main.c`, `states.h`).
  - Boards are a flat `int[9]`, and `9` marks the empty square.
  - Slides happen in place. `listPossibleMoves` pads its result with `-1`, and a linear distance scores a board.
  - `chooseBoard` picks the least-distance unvisited child. `scrambleBoard` makes fifty random slides.
  - `solveOneLayer` is a do-while solver. It keeps every board it stands on in a singly linked list (`states.h`).

The Dafny project has four modules.

- **`BoardModel`** (`board_model.dfy`):
  - N×N boards as `seq<seq<int>>`, and positions;
  - the solved board of `board.ts`;
  - row-major flattening and the permutation property.
- **`Movements`** (`movements.dfy`): the TypeScript engine.
  - Boards are values, since the source only ever works on deep copies.
  - The module-level visited list becomes the field of class `Session`.
- **`States`** (`states.dfy`): `states.h`.
  - A `StateList` class over linked `State` nodes.
  - Ghost `nodes`, `Contents` and `Repr` describe the list.
- **`EightPuzzle`** (`eight_puzzle.dfy`): `main.c`.
  - Boards the C code writes are `array<int>`, and boards it only reads are `seq<int>`.

Randomness (`Math.random`, `rand`) is a nondeterministic choice within the range the code reduces it to. The sha1 fingerprint of a visited board is the board itself.

## Model

| member | source | states |
|---|---|---|
| BoardModel.GenerateInitialBoard | src/utils/board.ts:3-8 | N rows of length N; cell (i, j) holds i*N+j+1, except the last cell of the last row, which holds 0 |
| BoardModel.Range | src/utils/board.ts:4 | the counting sequence lo..hi-1 that each row i is built from (lo = i*N+1, hi = i*N+N+1): its length and each entry |
| BoardModel.FlattenLength | src/utils/movements.ts:97 | a rectangular board of n columns flattens (as toString does) to rows × n values |
| BoardModel.FlattenAt | src/utils/movements.ts:97 | cell (i, j) of a rectangular board is entry i*n+j of its flattening |
| BoardModel.FlattenMember | src/utils/movements.ts:97 | every value of the flattening sits in some cell |
| BoardModel.FlattenInjective | src/utils/movements.ts:94-98 | two boards of the same shape with equal flattenings are equal |
| BoardModel.RowUpdate | src/utils/movements.ts:88-89 | writing v into a row swaps the old value for v in its multiset |
| BoardModel.FlattenUpdate | src/utils/movements.ts:88-89 | writing v into one cell swaps the old value for v in the multiset of the whole board |
| BoardModel.FlattenSolved | src/utils/board.ts:3-8 | the solved board flattens to 1..N²-1 followed by 0 |
| BoardModel.SolvedIsPermutation | src/utils/board.ts:5 | for N ≥ 1 the solved board is a square board holding a permutation of 0..N²-1 |
| BoardModel.ValidHasSingleZero | src/utils/movements.ts:44-53 | a square board holding a permutation of 0..N²-1 has exactly one empty cell |
| Movements.GenerateInitialBoard | src/utils/movements.ts:23-28 | the duplicate factory in movements.ts builds the same board as the one in board.ts |
| Movements.ZeroColumn | src/utils/movements.ts:46-48 | the inner scan returns the first column of the row holding 0, or -1 with no 0 in the scanned part |
| Movements.EmptyPositionFrom | src/utils/movements.ts:44-53 | from row i on: the row-major first cell holding 0, or {-1,-1} when no scanned cell holds 0 |
| Movements.EmptyPosition | src/utils/movements.ts:44-53 | the row-major first cell holding 0, or {-1,-1} when the board has no 0 |
| Movements.FindEmptyPosition | src/utils/movements.ts:44-53 | the nested loop with early return computes EmptyPosition; {-1,-1} exactly when no cell holds 0; otherwise a 0 cell with no 0 before it in row-major order |
| Movements.CanMove | src/utils/movements.ts:30-42 | true exactly when the position is on the board, the board has an empty cell, and the position is at distance 1 from it in the same row or column (so never the empty cell itself) |
| Movements.FilterMoves | src/utils/movements.ts:55-57 | keeps, in order, exactly the candidates that pass canMove |
| Movements.FilterMovesCounts | src/utils/movements.ts:55-57 | each accepted candidate appears in the result as many times as in the input, and each rejected one not at all, as `Array.prototype.filter` gives |
| Movements.GetPossibleMoves | src/utils/movements.ts:135-150 | at most 4 moves, a subsequence of up, down, left, right around the empty cell, and a position is listed exactly when canMove holds for it |
| Movements.AfterMove | src/utils/movements.ts:82-91 | the board moveHelper returns has the shape of the input, and is the input itself when canMove fails |
| Movements.AfterMoveCells | src/utils/movements.ts:82-91 | a legal move keeps the shape, puts the tile from (x, y) into the empty cell, 0 at (x, y), and leaves every other cell unchanged |
| Movements.MoveHelper | src/utils/movements.ts:82-91 | computes AfterMove: the input board when canMove fails, otherwise the board with the slide applied; the input is a value, so it is never changed |
| Movements.MovePreservesValues | src/utils/movements.ts:82-91 | moveHelper keeps the board's shape and its multiset of values |
| Movements.MoveKeepsValid | src/utils/movements.ts:82-91 | a board holding a permutation of 0..N²-1 still does after moveHelper |
| Movements.MoveIsReversible | src/utils/movements.ts:85-91 | after a legal move from a board with at most one 0, the empty cell is the moved position, and moving the tile at the old empty position restores the board |
| Movements.ReplayExtend | src/utils/movements.ts:174-175 | replaying one more move applies it to the replayed board; the extended path is legal exactly when the prefix is and the move is offered there |
| Movements.ReplayPreservesValues | src/utils/movements.ts:82-91 | any sequence of moves keeps the shape, the multiset of values and the permutation property |
| Movements.ValidHasMove | src/utils/movements.ts:135-150 | a permutation board of size at least 2 always offers a move |
| Movements.Shuffle | src/utils/movements.ts:59-80 | with moves ≤ 0 it returns the input; otherwise it returns the input replayed along `moves` legal moves, with shape and values kept; it throws TypeError only when a board offers no move; a permutation board of size ≥ 2 never throws |
| Movements.IsBoardSolved | src/utils/movements.ts:94-98 | solved exactly when no row is empty and the cells read row by row are 1..N²-1 followed by 0 (or the board has no rows): the toString comparison with the solved board of the same row count |
| Movements.EmptyRowNotSolved | src/utils/movements.ts:94-98 | a board whose flattening is that of the solved board but which has empty rows, [[1,...,8,0],[],[]], is not solved: its toString has extra commas |
| Movements.SolvedIffInitial | src/utils/movements.ts:94-98 | on a square board, isBoardSolved holds exactly when the board equals generateInitialBoard of its size |
| Movements.BoardScoreCityBlock | src/utils/movements.ts:100-113 | the nested loop computes CityBlockScore: the sum over non-empty tiles of their city-block distance from home (a nat) |
| Movements.RowCostZero | src/utils/movements.ts:102-111 | a row scores 0 exactly when every scanned tile costs nothing |
| Movements.CityBlockUpToZero | src/utils/movements.ts:100-113 | the first k rows score 0 exactly when every tile in them costs nothing |
| Movements.TileAtHome | src/utils/movements.ts:107-109 | a tile 1..N²-1 of cost 0 at (i, j) has the value i*N+j+1 and is not in the last cell |
| Movements.SolvedCellsAtHome | src/utils/movements.ts:107-109 | every cell of the solved board costs nothing |
| Movements.CityBlockZeroOnSolved | src/utils/movements.ts:100-113 | the city-block score of generateInitialBoard(N) is 0 |
| Movements.ValidValuesInRange | src/utils/movements.ts:100-113 | a permutation board holds only values 0..N²-1 |
| Movements.AllHomeIsSolved | src/utils/movements.ts:100-113 | a permutation board whose every tile costs nothing is the solved board |
| Movements.CityBlockZeroIffSolved | src/utils/movements.ts:100-113 | on a permutation board the city-block score is 0 exactly when isBoardSolved holds |
| Movements.BoardScoreSlow | src/utils/movements.ts:115-123 | the nested loop computes the sum of abs(i+j+1 - board[i][j]) over all cells |
| Movements.ChildScoresAt | src/utils/movements.ts:159-165 | the score of candidate t is the city-block score of the board that move t leads to |
| Movements.Insert | src/utils/movements.ts:159-165 | inserting an index into a ranking adds exactly that index |
| Movements.InsertSorted | src/utils/movements.ts:159-165 | inserting a smaller index into a sorted ranking keeps it sorted by (score, original position) |
| Movements.StableOrder | src/utils/movements.ts:159-165 | the ranking of indices has one entry per candidate, each in range, sorted by score with ties in original order (a stable sort) |
| Movements.StableOrderPermutation | src/utils/movements.ts:159-165 | the ranking is a permutation of the candidate indices |
| Movements.ArrangePermutation | src/utils/movements.ts:159-165 | listing the moves along a permutation of their indices loses and adds none |
| Movements.RankedMoves | src/utils/movements.ts:159-165 | bestMovesInOrder lists as many moves as getPossibleMoves, sorted by the city-block score of the board each leads to, lowest first |
| Movements.ArrangeByScore | src/utils/movements.ts:159-165 | moves listed in a stable order of their child scores lead to boards of non-decreasing city-block score |
| Movements.RankedAreLegal | src/utils/movements.ts:157-165 | bestMovesInOrder holds exactly the moves getPossibleMoves offers, as many of them |
| Movements.FirstUnvisited | src/utils/movements.ts:169-180 | the index of the first ranked move whose board is not visited (every earlier one is), or the count when all are visited |
| Movements.FirstUnvisitedStops | src/utils/movements.ts:169-180 | the scan stops at the first unvisited index |
| Movements.FirstUnvisitedIsBest | src/utils/movements.ts:159-180 | the committed child is unvisited and ranks before every other unvisited child; when the scan finds none, every child is visited |
| Movements.UnvisitedRankedAfterFirst | src/utils/movements.ts:169-180 | any unvisited candidate sits in the ranking at or after the index the scan stops at |
| Movements.GreedyChoiceIsBest | src/utils/movements.ts:157-180 | the same statement for the solver's own ranking of getPossibleMoves by city-block score |
| Movements.GreedyRunIsLegal | src/utils/movements.ts:152-189 | every move of a solver run is offered by getPossibleMoves on the board it is applied to |
| Movements.GreedyRunExtend | src/utils/movements.ts:156-187 | a run extended by one greedy move from an unsolved board is a run, and the visited list grows as that step records |
| Movements.GreedyStepFresh | src/utils/movements.ts:169-180 | committing to the first unvisited child extends the run and appends that child to the visited list |
| Movements.GreedyStepFallback | src/utils/movements.ts:181-186 | when every child is visited, any ranked move extends the run and the visited list is unchanged |
| Movements.ScanUnvisited | src/utils/movements.ts:169-180 | the for loop stops at the first unvisited ranked move |
| Movements.Session.constructor | src/utils/movements.ts:21 | the visited list starts empty |
| Movements.Session.SolvePuzzleOneLayer | src/utils/movements.ts:152-189 | the moves form a greedy run and are legal; the visited list gains exactly the committed children; Solved means the replayed board is solved; an already solved board gives []; Threw only when a board offers no move, which never happens on a permutation board of size ≥ 2; StillRunning only after `fuel` moves on an unsolved board |
| Movements.Session.Solve | src/utils/movements.ts:125-133 | resets the visited list, then runs the solver from an empty list: a legal greedy run, Solved only on a solved board, [] on a solved input, Threw only on an unsolved board offering no move (never on a permutation board of size ≥ 2), StillRunning only after `fuel` moves on an unsolved board |
| States.State.constructor | states.h:25-29 | a new node holds its own copy of the nine values, and its next is null |
| States.StateList.constructor | states.h:17-22 | a new list is empty, with first and final both null |
| States.StateList.AddArrayToList | states.h:24-39 | appends a fresh node holding a copy of the array's first nine values at the tail; earlier entries and their order are unchanged; first stays as it was unless the list was empty, in which case first and final are both the new node |
| States.StateList.IsInList | states.h:41-52 | true exactly when some stored board equals the given one over nine values, so after AddArrayToList(a) it holds for a's values |
| EightPuzzle.EmptyIndex | main.c:10-17 | the first index holding 9 |
| EightPuzzle.FindEmptySpace | main.c:10-17 | the loop returns the first index holding 9 |
| EightPuzzle.IsSolved | main.c:20-29 | solved exactly when cell i holds i+1 for each of the nine cells, the element-wise memcmp test against {1,...,9} |
| EightPuzzle.MovePiece | main.c:32-65 | direction 0/1/2/3 moves the value at pos-3/pos+3/pos-1/pos+1 into pos, writes 9 there, returns the new position and changes nothing else; any other direction exits with status 1 and changes nothing |
| EightPuzzle.MovedBoardIsSwap | main.c:32-65 | from the empty square a slide swaps two cells, so the values are kept and the target becomes empty |
| EightPuzzle.MoveUndo | main.c:32-65 | sliding back in the opposite direction restores the board |
| EightPuzzle.ValidDirections | main.c:68-97 | at most four directions, each in 0..3, in increasing order (up, down, left, right) |
| EightPuzzle.Padded | main.c:92-95 | exactly four entries: the directions, then -1 |
| EightPuzzle.ListPossibleMoves | main.c:68-97 | a new four-entry array holding the valid directions in order, then -1 padding |
| EightPuzzle.ValidDirectionsAreSlides | main.c:68-97 | a direction is listed exactly when it leads to an orthogonal grid neighbour of the empty square |
| EightPuzzle.DirectionCount | main.c:68-97 | between two and four directions, and all four exactly at the centre |
| EightPuzzle.DistanceUpToZero | main.c:104-106 | the partial sum is 0 exactly when every scanned cell holds its index plus one |
| EightPuzzle.DistanceZeroIffSolved | main.c:99-108 | the distance is 0 exactly when isSolved holds, that is when the board equals {1,...,9} |
| EightPuzzle.DistanceUpToBound | main.c:104-106 | with values in 1..9 each term is at most 8 |
| EightPuzzle.PermutationDistanceBound | main.c:99-108 | a permutation of 1..9 has distance at most 72, below the 999 marker |
| EightPuzzle.CalculateDistance | main.c:99-108 | returns 0 on a solved board and otherwise the sum of abs(i+1 - board[i]); always a nat |
| EightPuzzle.LeadingMoves | main.c:117-120 | the count of entries before the first 999 |
| EightPuzzle.BestUnvisited | main.c:117-129 | among those, the unvisited board of least distance below 999, the earliest on ties; -1 exactly when there is none |
| EightPuzzle.ChooseBoard | main.c:111-136 | returns BestUnvisited when it exists, and otherwise some index below the count of scanned boards |
| EightPuzzle.Children | main.c:149-159 | between two and four boards of nine values |
| EightPuzzle.ValidDirectionsInRange | main.c:68-97 | every listed direction leads to an index on the board |
| EightPuzzle.ChildrenAreSlides | main.c:149-159 | every child has an empty square and the same values as the parent |
| EightPuzzle.ListPossibleBoards | main.c:149-159 | returns the count of legal moves and the input with each move applied in order; the input is a value and is untouched |
| EightPuzzle.SlideTrailExtend | main.c:175-177 | appending a child of the last board extends a run of slides |
| EightPuzzle.SlideTrailKeepsValues | main.c:161-180 | every board along a run of slides has the values of the first |
| EightPuzzle.ScrambleBoard | main.c:161-180 | fifty slides, each to a child of the board before, so the board keeps an empty square and its values |
| EightPuzzle.Distances | main.c:191-194 | four entries, 999 past the last child, so the entries before the first 999 never outnumber the children |
| EightPuzzle.GreedyTrailExtend | main.c:187-205 | a greedy pick from the last board extends a run of the solver |
| EightPuzzle.GreedyTrailSteps | main.c:187-205 | no board strictly between the start and the last board of a run is solved, and a run is a run of slides |
| EightPuzzle.GreedyNextIsChild | main.c:195-197 | the solver's pick is a child of the board |
| EightPuzzle.GreedyNextIsBest | main.c:111-136 | if the pick is visited, so is every scanned child below 999; otherwise the pick is unvisited and no farther than any unvisited child |
| EightPuzzle.SolveOneLayer | main.c:183-209 | at least one move (do-while); the boards it stands on form a greedy run, each pick judged against every earlier board (the list); Reached means the board is solved; the board keeps an empty square and its values; the division by zero of chooseBoard happens only on a board that is not a permutation of 1..9 |
| EightPuzzle.SolveStep | main.c:188-205 | one pass of the loop body: pick a child, copy it into the board and append it to the list, or stop on the division by zero |
| EightPuzzle.ScoreBoards | main.c:191-194 | fills d with the distances of the children, then 999 |
| EightPuzzle.ChooseNext | main.c:190-195 | the pick is one chooseBoard may make, with the values kept; the division by zero happens exactly when the first child scores 999, and never on a permutation |
| EightPuzzle.Record | main.c:197-198 | copies the pick into the board and appends it to the list |
| EightPuzzle.SolveTwoLayers | main.c:211-236 | the same guarantees as solveOneLayer, whose code it repeats |
| EightPuzzle.AsWrittenLastRead | main.c:153 | the loop guard as written stops at the first -1 from i on, or tests index 4, one past the four ints, when there is none |
| EightPuzzle.GuardReadsPastEndAtCentre | main.c:153 | with the empty square in the centre, the guard as written reads entry 4 of the four-entry array |
| EightPuzzle.GuardInBoundsOffCentre | main.c:153 | everywhere else, the guard as written stops at a -1 inside the array |

## Left out

- The sha1 fingerprint (src/utils/movements.ts:6-18) is a call into Node's crypto library. Visited boards are compared as boards, so collisions of the 7-digit hash are not modelled.
- Timing and logging in `solve` (luxon, console.log) are I/O. Only the reset of the visited list is kept.
- `printBoard`, the benchmarking `main`, `freeList`, and malloc/free are left out. They are output and memory management, with no effect on the boards.
- `srand(time(NULL))`, `rand()` and `Math.random()`: each random index is a nondeterministic choice in the range the code reduces it to. The distribution is not modelled.
- Movements.Session.SolvePuzzleOneLayer: the source loops until solved, which is not provable and may never happen. The model stops after `fuel` moves with StillRunning, so its guarantees are partial-correctness ones.
- EightPuzzle.SolveOneLayer: likewise bounded by `fuel`, with the outcome OutOfFuel. A `fuel` of 0 still makes the one move the do-while always makes.
- EightPuzzle.SolveOneLayer: when the first candidate's distance is exactly 999, chooseBoard's scan stops at that first 999 having counted no board, so `rand() % 0` is undefined behaviour, whatever the later candidates score. The model returns the outcome DivisionByZero there and proves that it cannot happen on a permutation of 1..9.
- EightPuzzle.ChooseBoard: requires `d[0] != 999`, because the C code divides by zero otherwise. Its random fallback is stated only as "some scanned index".
- EightPuzzle.FindEmptySpace: requires a 9 on the board, because without one the C function falls off its end without a return value.
- EightPuzzle.MovePiece: requires the target index to be on the board, because otherwise C writes out of bounds. Its callers only pass valid directions.
- EightPuzzle.ScrambleBoard: the distances it computes are never read, so they are not modelled. It uses the corrected loop guard (see Findings).
- EightPuzzle.SolveTwoLayers: despite its name it is a copy of solveOneLayer, looking one layer deep, and is modelled as such.
- States.State.constructor: the node's nine-int copy is held as a value. It is written once by the memcpy and never again, so its identity as a separate heap block is not modelled.
- Movements.Shuffle: the TypeError thrown when no move is legal (an undefined position reaching moveHelper) is the outcome ThrewTypeError; the exception itself is not modelled.
- Movements.Session.SolvePuzzleOneLayer: likewise, the TypeError on a board with no legal move is the status Threw.
- `solveGreedyOneLayer`, `solveGreedyTwoLayer` and `solveCustom` are imported by the UI (src/pages/index.tsx:4) but are defined in no file of the repository, so they are not modelled. src/utils/movements.ts exports `solve` and `solvePuzzleOneLayer` instead, so the UI as shown never reaches the modelled `solve`.
- Integer width: cells and scores are unbounded integers. The 32-bit `int` of C (where `d += abs(i+1 - board[i])` at main.c:105 can overflow) and the double of JavaScript (exact only up to 2^53) are not modelled, so the model matches the source only while cell values stay small, as they do on every board the game builds (1..9, or 0..N²-1).
- The UI (src/pages/index.tsx), styling configuration and type declarations have no engine behaviour.

## Findings

| source | as written | input that shows it | evidently intended | confidence | as-written member | corrected member |
|---|---|---|---|---|---|---|
| main.c:153 | the guard `possibleMoves[i] != -1 && i < 4` reads the entry before it tests the bound | board {1,2,3,4,9,5,6,7,8}: all four directions are valid, so the guard reads possibleMoves[4], one past the malloc'd four ints | test `i < 4` first, and stop after four entries | not executed | EightPuzzle.GuardReadsPastEndAtCentre | EightPuzzle.ListPossibleBoards |
| main.c:169 | the same guard in scrambleBoard | the same board: the empty square in the centre | test `i < 4` first | not executed | EightPuzzle.GuardReadsPastEndAtCentre | EightPuzzle.ScrambleBoard |
