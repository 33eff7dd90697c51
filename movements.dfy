/** The TypeScript puzzle engine of src/utils/movements.ts: locating the empty
    cell, move legality, applying a move, shuffling, solved detection, the two
    scores and the greedy "best son" solver.

    Boards are values here. `moveHelper` and `shuffle` work on a deep copy in
    the source, so no caller ever sees its board change; a Dafny `seq` has
    that behaviour built in. The sha1 fingerprint the solver keeps of each
    visited board is modelled as the board itself. */
module Movements {
  import opened BoardModel

  /** generateInitialBoard as written a second time in movements.ts. */
  function GenerateInitialBoard(n: int): (r: Board)
    ensures r == BoardModel.GenerateInitialBoard(n)
  {
    var len: nat := if n < 0 then 0 else n;
    var rows := seq(len, i => Range(i * len + 1, i * len + len + 1));
    seq(len, i requires 0 <= i < len =>
      if i == n - 1 then rows[i][..|rows[i]| - 1] + [0] else rows[i])
  }

  // ---------------------------------------------------------------------
  // The empty cell

  /** The position findEmptyPosition answers when the board has no 0. */
  const NoEmpty := Position(-1, -1)

  /** (i, j) comes strictly before p in row-major order. */
  predicate Precedes(i: int, j: int, p: Position)
  {
    i < p.x || (i == p.x && j < p.y)
  }

  /** First column at or after `from` holding 0, or -1. */
  function ZeroColumn(row: seq<int>, from: nat): (j: int)
    requires from <= |row|
    ensures j == -1 || (from <= j < |row| && row[j] == 0)
    ensures forall k :: from <= k < |row| && (j == -1 || k < j) ==> row[k] != 0
    decreases |row| - from
  {
    if from == |row| then -1
    else if row[from] == 0 then from
    else ZeroColumn(row, from + 1)
  }

  /** The first 0 in row-major order among rows i.., or NoEmpty. */
  function EmptyPositionFrom(b: Board, i: nat): (p: Position)
    requires i <= |b|
    ensures p == NoEmpty || (i <= p.x < |b| && 0 <= p.y < |b[p.x]| && b[p.x][p.y] == 0)
    ensures forall r, c :: i <= r < |b| && 0 <= c < |b[r]| && (p == NoEmpty || Precedes(r, c, p))
              ==> b[r][c] != 0
    decreases |b| - i
  {
    if i == |b| then NoEmpty
    else
      var j := ZeroColumn(b[i], 0);
      if j >= 0 then Position(i, j) else EmptyPositionFrom(b, i + 1)
  }

  /** Where findEmptyPosition finds the empty cell. */
  function EmptyPosition(b: Board): (p: Position)
    ensures p == NoEmpty || (0 <= p.x < |b| && 0 <= p.y < |b[p.x]| && b[p.x][p.y] == 0)
    ensures forall r, c :: 0 <= r < |b| && 0 <= c < |b[r]| && (p == NoEmpty || Precedes(r, c, p))
              ==> b[r][c] != 0
  {
    EmptyPositionFrom(b, 0)
  }

  /** findEmptyPosition: scan the rows in order and each row left to right;
      answer the first cell holding 0, or (-1, -1) when there is none. */
  method FindEmptyPosition(board: Board) returns (p: Position)
    ensures p == EmptyPosition(board)
    ensures p == NoEmpty <==> forall i, j :: 0 <= i < |board| && 0 <= j < |board[i]| ==> board[i][j] != 0
    ensures p != NoEmpty ==>
      0 <= p.x < |board| && 0 <= p.y < |board[p.x]| && board[p.x][p.y] == 0 &&
      forall i, j :: 0 <= i < |board| && 0 <= j < |board[i]| && Precedes(i, j, p) ==> board[i][j] != 0
  {
    var i := 0;
    while i < |board|
      invariant 0 <= i <= |board|
      invariant forall r, c :: 0 <= r < i && 0 <= c < |board[r]| ==> board[r][c] != 0
    {
      var j := 0;
      while j < |board[i]|
        invariant 0 <= j <= |board[i]|
        invariant forall c :: 0 <= c < j ==> board[i][c] != 0
      {
        if board[i][j] == 0 {
          p := Position(i, j);
          var e := EmptyPosition(board);
          assert e != NoEmpty && !Precedes(e.x, e.y, p) && !Precedes(i, j, e);
          return;
        }
        j := j + 1;
      }
      i := i + 1;
    }
    p := NoEmpty;
  }

  // ---------------------------------------------------------------------
  // Legal moves

  predicate InBounds(p: Position, b: Board)
  {
    0 <= p.x < |b| && 0 <= p.y < |b[p.x]|
  }

  /** Orthogonal neighbours: same row or same column, at distance 1. */
  predicate Adjacent(p: Position, q: Position)
  {
    Abs(p.x - q.x) + Abs(p.y - q.y) == 1
  }

  /** canMove: the tile at `position` may slide into the empty cell. */
  function CanMove(position: Position, board: Board): (r: bool)
    ensures r <==> InBounds(position, board) && EmptyPosition(board) != NoEmpty &&
                   Adjacent(position, EmptyPosition(board))
  {
    var x, y := position.x, position.y;
    if x < 0 || x >= |board| || y < 0 || y >= |board[x]| then false
    else
      var e := EmptyPosition(board);
      if x == e.x && y == e.y then false
      else if x == e.x && Abs(y - e.y) == 1 then true
      else if y == e.y && Abs(x - e.x) == 1 then true
      else false
  }

  /** The four candidate cells around e, in the order up, down, left, right. */
  function Neighbours(e: Position): seq<Position>
  {
    [Position(e.x - 1, e.y), Position(e.x + 1, e.y), Position(e.x, e.y - 1), Position(e.x, e.y + 1)]
  }

  /** a is obtained from b by deleting elements. */
  predicate IsSubsequence<T(==)>(a: seq<T>, b: seq<T>)
    decreases |b|
  {
    if a == [] then true
    else if b == [] then false
    else if a[0] == b[0] then IsSubsequence(a[1..], b[1..])
    else IsSubsequence(a, b[1..])
  }

  /** filterMoves: keep, in order, the candidates canMove accepts. */
  function FilterMoves(possibleMoves: seq<Position>, board: Board): (r: seq<Position>)
    ensures |r| <= |possibleMoves| && IsSubsequence(r, possibleMoves)
    ensures forall q :: q in r ==> CanMove(q, board)
    ensures forall q :: q in possibleMoves && CanMove(q, board) ==> q in r
  {
    if possibleMoves == [] then []
    else if CanMove(possibleMoves[0], board) then
      [possibleMoves[0]] + FilterMoves(possibleMoves[1..], board)
    else
      FilterMoves(possibleMoves[1..], board)
  }

  /** filterMoves keeps each accepted candidate as many times as it occurs,
      and drops every rejected one. */
  lemma {:induction false} FilterMovesCounts(possibleMoves: seq<Position>, board: Board)
    ensures forall q :: multiset(FilterMoves(possibleMoves, board))[q] ==
              if CanMove(q, board) then multiset(possibleMoves)[q] else 0
    decreases |possibleMoves|
  {
    if possibleMoves != [] {
      assert possibleMoves == [possibleMoves[0]] + possibleMoves[1..];
      FilterMovesCounts(possibleMoves[1..], board);
    }
  }

  /** getPossibleMoves: the legal moves, in the order up, down, left, right. */
  function GetPossibleMoves(board: Board): (r: seq<Position>)
    ensures |r| <= 4
    ensures IsSubsequence(r, Neighbours(EmptyPosition(board)))
    ensures forall q :: q in r <==> CanMove(q, board)
  {
    var e := EmptyPosition(board);
    assert forall q :: CanMove(q, board) ==> q in Neighbours(e);
    FilterMoves(Neighbours(e), board)
  }

  // ---------------------------------------------------------------------
  // Applying a move

  /** The board after the tile at `position` slides into the empty cell; the
      board itself when the move is not legal. */
  function AfterMove(position: Position, board: Board): (moved: Board)
    ensures SameShape(moved, board)
    ensures !CanMove(position, board) ==> moved == board
  {
    if !CanMove(position, board) then board
    else
      var e := EmptyPosition(board);
      var withTile := board[e.x := board[e.x][e.y := board[position.x][position.y]]];
      withTile[position.x := withTile[position.x][position.y := 0]]
  }

  /** Same number of rows, and rows of the same lengths. */
  ghost predicate SameShape(a: Board, b: Board)
  {
    |a| == |b| && forall i :: 0 <= i < |a| ==> |a[i]| == |b[i]|
  }

  /** A legal move puts the tile in the empty cell and 0 where the tile was,
      and leaves every other cell alone. */
  lemma AfterMoveCells(position: Position, board: Board)
    requires CanMove(position, board)
    ensures var e := EmptyPosition(board);
            var moved := AfterMove(position, board);
            SameShape(moved, board) &&
            moved[e.x][e.y] == board[position.x][position.y] &&
            moved[position.x][position.y] == 0 &&
            forall i, j ::
              (0 <= i < |board| && 0 <= j < |board[i]| && Position(i, j) != e && Position(i, j) != position)
              ==> moved[i][j] == board[i][j]
  {
    assert position != EmptyPosition(board);
  }

  /** moveHelper: on an illegal move the board comes back as it was;
      otherwise a copy in which the empty cell receives the tile and the
      tile's cell becomes 0. */
  method MoveHelper(position: Position, board: Board) returns (newBoard: Board)
    ensures newBoard == AfterMove(position, board)
  {
    var x, y := position.x, position.y;
    if !CanMove(position, board) {
      return board;
    }
    newBoard := board;
    var emptyPosition := FindEmptyPosition(newBoard);
    var emptyX, emptyY := emptyPosition.x, emptyPosition.y;
    newBoard := newBoard[emptyX := newBoard[emptyX][emptyY := newBoard[x][y]]];
    newBoard := newBoard[x := newBoard[x][y := 0]];
  }

  /** A legal move keeps the shape and the multiset of values: it swaps the
      empty cell with one neighbour. */
  lemma MovePreservesValues(position: Position, board: Board)
    ensures SameShape(AfterMove(position, board), board)
    ensures multiset(Flatten(AfterMove(position, board))) == multiset(Flatten(board))
  {
    if CanMove(position, board) {
      AfterMoveCells(position, board);
      var e := EmptyPosition(board);
      var x, y := position.x, position.y;
      var v := board[x][y];
      var b1 := board[e.x := board[e.x][e.y := v]];
      assert b1[x][y] == v;
      FlattenUpdate(board, e.x, e.y, v);
      FlattenUpdate(b1, x, y, 0);
      MultisetCancel(multiset(Flatten(AfterMove(position, board))), multiset(Flatten(board)), v);
    }
  }

  lemma MultisetCancel(a: multiset<int>, c: multiset<int>, v: int)
    requires a + multiset{v} == c + multiset{v}
    ensures a == c
  {
    forall z ensures a[z] == c[z] {
      assert (a + multiset{v})[z] == (c + multiset{v})[z];
    }
  }

  /** A legal move keeps a board valid. */
  lemma MoveKeepsValid(position: Position, board: Board)
    requires Valid(board)
    ensures Valid(AfterMove(position, board))
  {
    MovePreservesValues(position, board);
  }

  /** Moving the tile back into the cell it came from undoes a legal move,
      on a board with a single empty cell. */
  lemma MoveIsReversible(position: Position, board: Board)
    requires CanMove(position, board) && AtMostOneZero(board)
    ensures var e := EmptyPosition(board);
            var moved := AfterMove(position, board);
            EmptyPosition(moved) == position && CanMove(e, moved) && AfterMove(e, moved) == board
  {
    var e := EmptyPosition(board);
    var moved := AfterMove(position, board);
    AfterMoveCells(position, board);
    assert board[position.x][position.y] != 0;
    assert moved[position.x][position.y] == 0;
    forall i, j | 0 <= i < |moved| && 0 <= j < |moved[i]| && moved[i][j] == 0
      ensures i == position.x && j == position.y
    {
    }
    var e' := EmptyPosition(moved);
    assert e' == position;
    AfterMoveCells(e, moved);
    var back := AfterMove(e, moved);
    forall i | 0 <= i < |board| ensures back[i] == board[i] {
    }
  }

  // ---------------------------------------------------------------------
  // Move sequences

  /** The board reached by applying the moves in order with moveHelper. */
  function Replay(board: Board, moves: seq<Position>): Board
    decreases |moves|
  {
    if moves == [] then board else Replay(AfterMove(moves[0], board), moves[1..])
  }

  /** Every move is one getPossibleMoves offers on the board it is applied to. */
  ghost predicate IsLegalPath(board: Board, moves: seq<Position>)
    decreases |moves|
  {
    moves == [] ||
    (moves[0] in GetPossibleMoves(board) && IsLegalPath(AfterMove(moves[0], board), moves[1..]))
  }

  lemma TailOfAppend<T>(s: seq<T>, m: T)
    requires |s| > 0
    ensures (s + [m])[0] == s[0] && (s + [m])[1..] == s[1..] + [m]
  {
  }

  lemma {:induction false} ReplayExtend(board: Board, moves: seq<Position>, m: Position)
    ensures Replay(board, moves + [m]) == AfterMove(m, Replay(board, moves))
    ensures IsLegalPath(board, moves + [m]) <==>
            IsLegalPath(board, moves) && m in GetPossibleMoves(Replay(board, moves))
    decreases |moves|
  {
    if moves != [] {
      TailOfAppend(moves, m);
      ReplayExtend(AfterMove(moves[0], board), moves[1..], m);
    }
  }

  /** Replaying moves keeps the values and the shape of the board. */
  lemma {:induction false} ReplayPreservesValues(board: Board, moves: seq<Position>)
    ensures SameShape(Replay(board, moves), board)
    ensures multiset(Flatten(Replay(board, moves))) == multiset(Flatten(board))
    ensures Valid(board) ==> Valid(Replay(board, moves))
    decreases |moves|
  {
    if moves != [] {
      MovePreservesValues(moves[0], board);
      ReplayPreservesValues(AfterMove(moves[0], board), moves[1..]);
    }
  }

  /** A valid board with at least two rows always offers a move. */
  lemma ValidHasMove(board: Board)
    requires Valid(board) && |board| >= 2
    ensures |GetPossibleMoves(board)| > 0
  {
    ValidHasSingleZero(board);
    var e := EmptyPosition(board);
    var i, j :| 0 <= i < |board| && 0 <= j < |board| && board[i][j] == 0;
    assert e != NoEmpty;
    var q := if e.x > 0 then Position(e.x - 1, e.y) else Position(e.x + 1, e.y);
    assert CanMove(q, board);
    assert q in GetPossibleMoves(board);
  }

  datatype Outcome<T> = Returned(value: T) | ThrewTypeError

  /** shuffle: `moves` times, pick one of the legal moves at random and apply
      it. The choice is left open here. When no move is legal the source
      indexes an empty array and moveHelper throws a TypeError. */
  method Shuffle(board: Board, moves: int) returns (result: Outcome<Board>, ghost path: seq<Position>)
    ensures moves <= 0 ==> result == Returned(board)
    ensures result.Returned? ==>
      |path| == (if moves < 0 then 0 else moves) && IsLegalPath(board, path) &&
      result.value == Replay(board, path) &&
      SameShape(result.value, board) &&
      multiset(Flatten(result.value)) == multiset(Flatten(board))
    ensures result.ThrewTypeError? ==>
      |path| < moves && IsLegalPath(board, path) && GetPossibleMoves(Replay(board, path)) == []
    ensures Valid(board) && |board| >= 2 ==> result.Returned? && Valid(result.value)
  {
    var newBoard := board;
    path := [];
    var i := 0;
    while i < moves
      invariant 0 <= i && (i <= moves || i == 0)
      invariant |path| == i && IsLegalPath(board, path) && newBoard == Replay(board, path)
      decreases moves - i
    {
      var emptyPosition := FindEmptyPosition(newBoard);
      var x, y := emptyPosition.x, emptyPosition.y;
      var possibleMoves := [Position(x - 1, y), Position(x + 1, y), Position(x, y - 1), Position(x, y + 1)];
      assert possibleMoves == Neighbours(EmptyPosition(newBoard));
      var possibleMovesFiltered := FilterMoves(possibleMoves, newBoard);
      assert possibleMovesFiltered == GetPossibleMoves(newBoard);
      if |possibleMovesFiltered| == 0 {
        ReplayPreservesValues(board, path);
        if Valid(board) && |board| >= 2 {
          ValidHasMove(newBoard);
        }
        return ThrewTypeError, path;
      }
      var randomIndex :| 0 <= randomIndex < |possibleMovesFiltered|;
      var move := possibleMovesFiltered[randomIndex];
      newBoard := MoveHelper(move, newBoard);
      ReplayExtend(board, path, move);
      path := path + [move];
      i := i + 1;
    }
    ReplayPreservesValues(board, path);
    result := Returned(newBoard);
  }

  // ---------------------------------------------------------------------
  // Solved detection

  /** isBoardSolved: the board's toString equals that of the solved board of
      the same number of rows. toString joins the rows' own comma lists with
      commas, so an empty row leaves an empty field, which the solved board
      never has; and integers print distinctly. The string test is therefore
      equality of the row-major flattenings on a board with no empty row. */
  function IsBoardSolved(board: Board): (solved: bool)
    ensures solved <==>
              (forall i :: 0 <= i < |board| ==> board[i] != []) &&
              (board == [] || Flatten(board) == Range(1, |board| * |board|) + [0])
  {
    if board == [] then true
    else
      FlattenSolved(|board|);
      Flatten(board) == Flatten(GenerateInitialBoard(|board|)) &&
      forall i :: 0 <= i < |board| ==> board[i] != []
  }

  /** A board whose flattening is that of the solved board but which has an
      empty row prints an extra comma, so it is not solved. */
  lemma EmptyRowNotSolved()
    ensures !IsBoardSolved([[1, 2, 3, 4, 5, 6, 7, 8, 0], [], []])
  {
  }

  /** On an N x N board, solved means equal to the solved board cell by cell. */
  lemma SolvedIffInitial(board: Board)
    requires IsSquare(board)
    ensures IsBoardSolved(board) <==> board == BoardModel.GenerateInitialBoard(|board|)
  {
    var init := BoardModel.GenerateInitialBoard(|board|);
    if IsBoardSolved(board) {
      FlattenInjective(board, init, |board|);
    }
  }

  // ---------------------------------------------------------------------
  // Scores

  /** City-block distance of tile `value` at (i, j) from its home cell;
      the empty cell costs nothing. Math.floor of the quotient is Dafny's
      `/` for a positive divisor. */
  function TileCost(value: int, i: int, j: int, n: int): nat
    requires n > 0
  {
    if value == 0 then 0
    else Abs((value - 1) / n - i) + Abs(TruncRem(value - 1, n) - j)
  }

  /** Cost of the first k cells of row i. */
  function RowCost(row: seq<int>, i: int, n: int, k: nat): nat
    requires k <= |row| && (k > 0 ==> n > 0)
  {
    if k == 0 then 0 else RowCost(row, i, n, k - 1) + TileCost(row[k - 1], i, k - 1, n)
  }

  /** Cost of the first k rows. */
  function CityBlockUpTo(b: Board, k: nat): nat
    requires k <= |b|
  {
    if k == 0 then 0 else CityBlockUpTo(b, k - 1) + RowCost(b[k - 1], k - 1, |b|, |b[k - 1]|)
  }

  function CityBlockScore(b: Board): nat
  {
    CityBlockUpTo(b, |b|)
  }

  /** boardScoreCityBlock: sum over the non-empty tiles of their city-block
      distance from home. */
  method BoardScoreCityBlock(board: Board) returns (score: int)
    ensures score == CityBlockScore(board)
  {
    score := 0;
    var i := 0;
    while i < |board|
      invariant 0 <= i <= |board| && score == CityBlockUpTo(board, i)
    {
      var j := 0;
      while j < |board[i]|
        invariant 0 <= j <= |board[i]|
        invariant score == CityBlockUpTo(board, i) + RowCost(board[i], i, |board|, j)
      {
        var value := board[i][j];
        if value != 0 {
          var x := (value - 1) / |board|;
          var y := TruncRem(value - 1, |board|);
          score := score + Abs(x - i) + Abs(y - j);
        }
        j := j + 1;
      }
      i := i + 1;
    }
  }

  lemma {:induction false} RowCostZero(row: seq<int>, i: int, n: int, k: nat)
    requires k <= |row| && n > 0
    ensures RowCost(row, i, n, k) == 0 <==> forall j :: 0 <= j < k ==> TileCost(row[j], i, j, n) == 0
  {
    if k > 0 {
      RowCostZero(row, i, n, k - 1);
    }
  }

  lemma {:induction false} CityBlockUpToZero(b: Board, k: nat)
    requires k <= |b|
    ensures CityBlockUpTo(b, k) == 0 <==>
      forall i, j :: 0 <= i < k && 0 <= j < |b[i]| ==> TileCost(b[i][j], i, j, |b|) == 0
  {
    if k > 0 {
      CityBlockUpToZero(b, k - 1);
      RowCostZero(b[k - 1], k - 1, |b|, |b[k - 1]|);
    }
  }

  /** A tile of cost zero on an N x N board holding values below N*N sits
      at home: value i*N+j+1 at (i, j). */
  lemma TileAtHome(value: int, i: int, j: int, n: int)
    requires n > 0 && 0 <= i < n && 0 <= j < n && 0 < value < n * n
    requires TileCost(value, i, j, n) == 0
    ensures value == i * n + j + 1 && !(i == n - 1 && j == n - 1)
  {
    IndexCell(value - 1, n);
    CellIndexBound(i, j, n);
  }

  /** Every tile of the solved board is at home. */
  lemma SolvedCellsAtHome(n: nat, i: int, j: int)
    requires n > 0 && 0 <= i < n && 0 <= j < n
    ensures TileCost(SolvedCell(n, i, j), i, j, n) == 0
  {
    if !(i == n - 1 && j == n - 1) {
      DivModUnique(i, j, n);
    }
  }

  /** The city-block score of the solved board is 0. */
  lemma CityBlockZeroOnSolved(n: nat)
    ensures CityBlockScore(BoardModel.GenerateInitialBoard(n)) == 0
  {
    var b := BoardModel.GenerateInitialBoard(n);
    forall i, j | 0 <= i < n && 0 <= j < |b[i]| ensures TileCost(b[i][j], i, j, n) == 0 {
      SolvedCellsAtHome(n, i, j);
    }
    CityBlockUpToZero(b, n);
  }

  /** Every cell of a valid N x N board holds a value in 0..N*N-1. */
  lemma ValidValuesInRange(board: Board)
    requires Valid(board)
    ensures forall i, j :: 0 <= i < |board| && 0 <= j < |board| ==> 0 <= board[i][j] < |board| * |board|
  {
    var n := |board|;
    forall i, j | 0 <= i < n && 0 <= j < n ensures 0 <= board[i][j] < n * n {
      FlattenAt(board, n, i, j);
      assert board[i][j] in multiset(Flatten(board));
      assert board[i][j] in Range(0, n * n);
    }
  }

  /** A valid board whose tiles are all at home is the solved board. */
  lemma AllHomeIsSolved(board: Board)
    requires Valid(board) && |board| > 0
    requires forall i, j :: 0 <= i < |board| && 0 <= j < |board[i]| ==> TileCost(board[i][j], i, j, |board|) == 0
    ensures board == BoardModel.GenerateInitialBoard(|board|)
  {
    var n := |board|;
    var init := BoardModel.GenerateInitialBoard(n);
    ValidHasSingleZero(board);
    ValidValuesInRange(board);
    var last := board[n - 1][n - 1];
    if last != 0 {
      TileAtHome(last, n - 1, n - 1, n);
      assert false;
    }
    forall i, j | 0 <= i < n && 0 <= j < n ensures board[i][j] == init[i][j] {
      if !(i == n - 1 && j == n - 1) {
        TileAtHome(board[i][j], i, j, n);
      }
    }
    forall i | 0 <= i < n ensures board[i] == init[i] {
    }
  }

  /** On a valid board, the city-block score is 0 exactly when it is solved. */
  lemma CityBlockZeroIffSolved(board: Board)
    requires Valid(board)
    ensures CityBlockScore(board) == 0 <==> IsBoardSolved(board)
  {
    var n := |board|;
    SolvedIffInitial(board);
    CityBlockUpToZero(board, n);
    if IsBoardSolved(board) {
      CityBlockZeroOnSolved(n);
    } else if n > 0 && CityBlockScore(board) == 0 {
      AllHomeIsSolved(board);
    }
  }

  /** The score of boardScoreSlow for the first k cells of row i. */
  function SlowRow(row: seq<int>, i: int, k: nat): nat
    requires k <= |row|
  {
    if k == 0 then 0 else SlowRow(row, i, k - 1) + Abs(i + (k - 1) + 1 - row[k - 1])
  }

  function SlowUpTo(b: Board, k: nat): nat
    requires k <= |b|
  {
    if k == 0 then 0 else SlowUpTo(b, k - 1) + SlowRow(b[k - 1], k - 1, |b[k - 1]|)
  }

  /** boardScoreSlow: the sum over all cells of |i + j + 1 - value|. */
  method BoardScoreSlow(board: Board) returns (score: int)
    ensures score == SlowUpTo(board, |board|)
  {
    score := 0;
    var i := 0;
    while i < |board|
      invariant 0 <= i <= |board| && score == SlowUpTo(board, i)
    {
      var j := 0;
      while j < |board[i]|
        invariant 0 <= j <= |board[i]| && score == SlowUpTo(board, i) + SlowRow(board[i], i, j)
      {
        score := score + Abs(i + j + 1 - board[i][j]);
        j := j + 1;
      }
      i := i + 1;
    }
  }

  // ---------------------------------------------------------------------
  // The "best son" solver

  /** City-block score of the board each move leads to. */
  function ChildScores(board: Board, moves: seq<Position>): (r: seq<int>)
    ensures |r| == |moves|
  {
    if moves == [] then []
    else [CityBlockScore(AfterMove(moves[0], board))] + ChildScores(board, moves[1..])
  }

  lemma {:induction false} ChildScoresAt(board: Board, moves: seq<Position>, t: int)
    requires 0 <= t < |moves|
    ensures ChildScores(board, moves)[t] == CityBlockScore(AfterMove(moves[t], board))
    decreases |moves|
  {
    if t > 0 {
      ChildScoresAt(board, moves[1..], t - 1);
    }
  }

  /** Candidate a comes before candidate c in a stable ascending sort:
      lower score first, ties in their original order. */
  predicate RanksBefore(scores: seq<int>, a: int, c: int)
    requires 0 <= a < |scores| && 0 <= c < |scores|
  {
    scores[a] < scores[c] || (scores[a] == scores[c] && a < c)
  }

  ghost predicate InRange(order: seq<int>, n: int)
  {
    forall t :: 0 <= t < |order| ==> 0 <= order[t] < n
  }

  ghost predicate SortedBy(scores: seq<int>, order: seq<int>)
    requires InRange(order, |scores|)
  {
    forall a, c :: 0 <= a < c < |order| ==> RanksBefore(scores, order[a], order[c])
  }

  /** Insert index k in front of the first entry of `order` scoring at least
      as much. */
  function Insert(scores: seq<int>, k: int, order: seq<int>): (r: seq<int>)
    requires 0 <= k < |scores| && InRange(order, |scores|)
    ensures |r| == |order| + 1 && InRange(r, |scores|)
    ensures multiset(r) == multiset(order) + multiset{k}
    ensures forall t :: 0 <= t < |r| ==> r[t] == k || r[t] in order
  {
    if order == [] || scores[k] <= scores[order[0]] then [k] + order
    else
      var rest := Insert(scores, k, order[1..]);
      assert order == [order[0]] + order[1..];
      [order[0]] + rest
  }

  /** Inserting an index smaller than all others into a sorted order keeps
      it sorted. */
  lemma {:induction false} InsertSorted(scores: seq<int>, k: int, order: seq<int>)
    requires 0 <= k < |scores| && InRange(order, |scores|)
    requires forall t :: 0 <= t < |order| ==> k < order[t]
    requires SortedBy(scores, order)
    ensures SortedBy(scores, Insert(scores, k, order))
    decreases |order|
  {
    var r := Insert(scores, k, order);
    if order == [] || scores[k] <= scores[order[0]] {
      forall c | 0 < c < |r| ensures RanksBefore(scores, k, r[c]) {
        if c > 1 {
          assert RanksBefore(scores, order[0], order[c - 1]);
        }
      }
    } else {
      var tail := order[1..];
      var rest := Insert(scores, k, tail);
      InsertSorted(scores, k, tail);
      forall c | 0 <= c < |rest| ensures RanksBefore(scores, order[0], rest[c]) {
        if rest[c] != k {
          var s :| 0 <= s < |tail| && tail[s] == rest[c];
          assert order[s + 1] == rest[c];
        }
      }
      assert r == [order[0]] + rest;
    }
  }

  /** The indices from..|scores|-1 in the order a stable sort by ascending
      score puts them: the model of Array.prototype.sort with the score
      comparator (a stable sort since ECMAScript 2019). */
  function StableOrder(scores: seq<int>, from: nat): (r: seq<int>)
    requires from <= |scores|
    ensures |r| == |scores| - from
    ensures forall t :: 0 <= t < |r| ==> from <= r[t] < |scores|
    ensures SortedBy(scores, r)
    decreases |scores| - from
  {
    if from == |scores| then []
    else
      var rest := StableOrder(scores, from + 1);
      var r := Insert(scores, from, rest);
      InsertSorted(scores, from, rest);
      assert forall t :: 0 <= t < |r| ==> r[t] == from || r[t] in rest;
      r
  }

  /** The stable order lists every index from..|scores|-1 exactly once. */
  lemma {:induction false} StableOrderPermutation(scores: seq<int>, from: nat)
    requires from <= |scores|
    ensures multiset(StableOrder(scores, from)) == multiset(Range(from, |scores|))
    decreases |scores| - from
  {
    if from < |scores| {
      StableOrderPermutation(scores, from + 1);
      assert Range(from, |scores|) == [from] + Range(from + 1, |scores|);
    }
  }

  /** bestMovesInOrder: the legal moves sorted by the score of the board
      they lead to, ties in up, down, left, right order. */
  function RankedMoves(board: Board): (ranked: seq<Position>)
    ensures |ranked| == |GetPossibleMoves(board)|
    ensures forall s, t :: 0 <= s < t < |ranked| ==>
              CityBlockScore(AfterMove(ranked[s], board)) <= CityBlockScore(AfterMove(ranked[t], board))
  {
    var moves := GetPossibleMoves(board);
    var order := StableOrder(ChildScores(board, moves), 0);
    ArrangeByScore(board, moves, order);
    Arrange(moves, order)
  }

  /** Moves listed in a stable order of their child scores lead to boards of
      non-decreasing city-block score. */
  lemma ArrangeByScore(board: Board, moves: seq<Position>, order: seq<int>)
    requires InRange(order, |moves|) && SortedBy(ChildScores(board, moves), order)
    ensures forall s, t :: 0 <= s < t < |order| ==>
              CityBlockScore(AfterMove(Arrange(moves, order)[s], board)) <=
              CityBlockScore(AfterMove(Arrange(moves, order)[t], board))
  {
    var scores := ChildScores(board, moves);
    forall s, t | 0 <= s < t < |order|
      ensures CityBlockScore(AfterMove(Arrange(moves, order)[s], board)) <=
              CityBlockScore(AfterMove(Arrange(moves, order)[t], board))
    {
      assert RanksBefore(scores, order[s], order[t]);
      ChildScoresAt(board, moves, order[s]);
      ChildScoresAt(board, moves, order[t]);
    }
  }

  /** The moves listed in the given order of their indices. */
  function Arrange(moves: seq<Position>, order: seq<int>): (r: seq<Position>)
    requires InRange(order, |moves|)
    ensures |r| == |order|
  {
    seq(|order|, t requires 0 <= t < |order| => moves[order[t]])
  }

  /** Listing the moves along a permutation of their indices loses none and
      adds none. */
  lemma ArrangePermutation(moves: seq<Position>, order: seq<int>)
    requires InRange(order, |moves|) && multiset(order) == multiset(Range(0, |moves|))
    ensures forall m :: m in Arrange(moves, order) <==> m in moves
  {
    var r := Arrange(moves, order);
    forall m | m in moves ensures m in r {
      var u :| 0 <= u < |moves| && moves[u] == m;
      PermutationHas(order, |moves|, u);
      var s :| 0 <= s < |order| && order[s] == u;
      assert r[s] == m;
    }
  }

  /** Index of the first ranked move at or after `from` whose board is not
      yet visited, or |ranked|. */
  function FirstUnvisited(board: Board, ranked: seq<Position>, visited: seq<Board>, from: nat): (t: nat)
    requires from <= |ranked|
    ensures from <= t <= |ranked|
    ensures t < |ranked| ==> AfterMove(ranked[t], board) !in visited
    ensures forall s :: from <= s < t ==> AfterMove(ranked[s], board) in visited
    decreases |ranked| - from
  {
    if from == |ranked| then from
    else if AfterMove(ranked[from], board) !in visited then from
    else FirstUnvisited(board, ranked, visited, from + 1)
  }

  /** The scan stops at the first index whose board is unvisited. */
  lemma {:induction false} FirstUnvisitedStops(board: Board, ranked: seq<Position>, visited: seq<Board>, from: nat, i: nat)
    requires from <= i <= |ranked|
    requires forall s :: from <= s < i ==> AfterMove(ranked[s], board) in visited
    requires i < |ranked| ==> AfterMove(ranked[i], board) !in visited
    ensures FirstUnvisited(board, ranked, visited, from) == i
    decreases i - from
  {
    if from < i {
      FirstUnvisitedStops(board, ranked, visited, from + 1, i);
    }
  }

  /** The move the solver may record next: the first unvisited child in
      ranked order, or, when every child was visited, any ranked move. */
  ghost predicate IsGreedyMove(board: Board, visited: seq<Board>, move: Position)
  {
    var ranked := RankedMoves(board);
    var t := FirstUnvisited(board, ranked, visited, 0);
    if t < |ranked| then move == ranked[t] else move in ranked
  }

  /** The visited list after the step: only a greedy pick is recorded. */
  function VisitedAfterMove(board: Board, visited: seq<Board>, move: Position): seq<Board>
  {
    var ranked := RankedMoves(board);
    if FirstUnvisited(board, ranked, visited, 0) < |ranked|
    then visited + [AfterMove(move, board)]
    else visited
  }

  /** `moves` is a run of the solver from `board` with visited list `visited`:
      each step is taken from an unsolved board and is a greedy move. */
  ghost predicate GreedyRun(board: Board, visited: seq<Board>, moves: seq<Position>)
    decreases |moves|
  {
    moves == [] ||
    (!IsBoardSolved(board) && IsGreedyMove(board, visited, moves[0]) &&
     GreedyRun(AfterMove(moves[0], board), VisitedAfterMove(board, visited, moves[0]), moves[1..]))
  }

  function VisitedAfter(board: Board, visited: seq<Board>, moves: seq<Position>): seq<Board>
    decreases |moves|
  {
    if moves == [] then visited
    else VisitedAfter(AfterMove(moves[0], board), VisitedAfterMove(board, visited, moves[0]), moves[1..])
  }

  /** A permutation of 0..n-1 holds every index below n. */
  lemma PermutationHas(order: seq<int>, n: nat, u: int)
    requires multiset(order) == multiset(Range(0, n)) && 0 <= u < n
    ensures u in order
  {
    assert Range(0, n)[u] == u;
    assert u in multiset(Range(0, n));
  }

  /** Every ranked move is a legal move, and every legal move is ranked. */
  lemma RankedAreLegal(board: Board)
    ensures forall m :: m in RankedMoves(board) <==> m in GetPossibleMoves(board)
    ensures |RankedMoves(board)| == |GetPossibleMoves(board)|
  {
    var moves := GetPossibleMoves(board);
    StableOrderPermutation(ChildScores(board, moves), 0);
    ArrangePermutation(moves, StableOrder(ChildScores(board, moves), 0));
  }

  /** Scanning any list of moves ranked by a stable sort of their scores,
      the first move whose board is unvisited has the lowest score among the
      unvisited ones, the lowest index among equal scores. */
  lemma FirstUnvisitedIsBest(board: Board, moves: seq<Position>, scores: seq<int>, visited: seq<Board>)
    requires |scores| == |moves|
    ensures var order := StableOrder(scores, 0);
            var t := FirstUnvisited(board, Arrange(moves, order), visited, 0);
            (t < |moves| ==>
               Arrange(moves, order)[t] == moves[order[t]] &&
               AfterMove(moves[order[t]], board) !in visited &&
               forall u :: 0 <= u < |moves| && u != order[t] && AfterMove(moves[u], board) !in visited
                 ==> RanksBefore(scores, order[t], u)) &&
            (t >= |moves| ==> forall u :: 0 <= u < |moves| ==> AfterMove(moves[u], board) in visited)
  {
    var order := StableOrder(scores, 0);
    StableOrderPermutation(scores, 0);
    var t := FirstUnvisited(board, Arrange(moves, order), visited, 0);
    forall u | 0 <= u < |moves| && AfterMove(moves[u], board) !in visited
      ensures t < |moves| && (u != order[t] ==> RanksBefore(scores, order[t], u))
    {
      var s := UnvisitedRankedAfterFirst(board, moves, order, visited, u);
      if u != order[t] {
        assert t < s;
      }
    }
  }

  /** An unvisited move sits at or after the first unvisited ranked move. */
  lemma UnvisitedRankedAfterFirst(board: Board, moves: seq<Position>, order: seq<int>, visited: seq<Board>, u: int)
    returns (s: int)
    requires InRange(order, |moves|) && multiset(order) == multiset(Range(0, |moves|))
    requires 0 <= u < |moves| && AfterMove(moves[u], board) !in visited
    ensures 0 <= s < |order| && order[s] == u
    ensures FirstUnvisited(board, Arrange(moves, order), visited, 0) <= s
  {
    PermutationHas(order, |moves|, u);
    s :| 0 <= s < |order| && order[s] == u;
    assert Arrange(moves, order)[s] == moves[u];
  }

  /** The greedy pick is the unvisited child with the lowest score, the
      earliest in up, down, left, right order among equal scores; when there
      is none, every child was visited. */
  lemma GreedyChoiceIsBest(board: Board, visited: seq<Board>)
    ensures var moves := GetPossibleMoves(board);
            var scores := ChildScores(board, moves);
            var order := StableOrder(scores, 0);
            var t := FirstUnvisited(board, RankedMoves(board), visited, 0);
            (t < |moves| ==>
               RankedMoves(board)[t] == moves[order[t]] &&
               AfterMove(moves[order[t]], board) !in visited &&
               forall u :: 0 <= u < |moves| && u != order[t] && AfterMove(moves[u], board) !in visited
                 ==> RanksBefore(scores, order[t], u)) &&
            (t >= |moves| ==> forall u :: 0 <= u < |moves| ==> AfterMove(moves[u], board) in visited)
  {
    var moves := GetPossibleMoves(board);
    FirstUnvisitedIsBest(board, moves, ChildScores(board, moves), visited);
  }

  /** A greedy run is a legal path. */
  lemma {:induction false} GreedyRunIsLegal(board: Board, visited: seq<Board>, moves: seq<Position>)
    requires GreedyRun(board, visited, moves)
    ensures IsLegalPath(board, moves)
    decreases |moves|
  {
    if moves != [] {
      RankedAreLegal(board);
      GreedyRunIsLegal(AfterMove(moves[0], board), VisitedAfterMove(board, visited, moves[0]), moves[1..]);
    }
  }

  /** One more greedy step extends a greedy run. */
  lemma {:induction false} GreedyRunExtend(board: Board, visited: seq<Board>, moves: seq<Position>, m: Position)
    requires GreedyRun(board, visited, moves)
    requires !IsBoardSolved(Replay(board, moves))
    requires IsGreedyMove(Replay(board, moves), VisitedAfter(board, visited, moves), m)
    ensures GreedyRun(board, visited, moves + [m])
    ensures VisitedAfter(board, visited, moves + [m])
         == VisitedAfterMove(Replay(board, moves), VisitedAfter(board, visited, moves), m)
    decreases |moves|
  {
    if moves != [] {
      TailOfAppend(moves, m);
      GreedyRunExtend(AfterMove(moves[0], board), VisitedAfterMove(board, visited, moves[0]), moves[1..], m);
    }
  }

  /** A solver step that commits to the first unvisited child extends the
      run and records that child as visited. */
  lemma GreedyStepFresh(board: Board, visited: seq<Board>, moves: seq<Position>,
                        current: Board, seen: seq<Board>, i: int)
    requires GreedyRun(board, visited, moves) && !IsBoardSolved(current)
    requires current == Replay(board, moves) && seen == VisitedAfter(board, visited, moves)
    requires i == FirstUnvisited(current, RankedMoves(current), seen, 0) < |RankedMoves(current)|
    ensures var m := RankedMoves(current)[i];
            GreedyRun(board, visited, moves + [m]) &&
            Replay(board, moves + [m]) == AfterMove(m, current) &&
            VisitedAfter(board, visited, moves + [m]) == seen + [AfterMove(m, current)]
  {
    var m := RankedMoves(current)[i];
    GreedyRunExtend(board, visited, moves, m);
    ReplayExtend(board, moves, m);
  }

  /** A solver step taken when every child was visited extends the run and
      leaves the visited list as it was. */
  lemma GreedyStepFallback(board: Board, visited: seq<Board>, moves: seq<Position>,
                           current: Board, seen: seq<Board>, m: Position)
    requires GreedyRun(board, visited, moves) && !IsBoardSolved(current)
    requires current == Replay(board, moves) && seen == VisitedAfter(board, visited, moves)
    requires FirstUnvisited(current, RankedMoves(current), seen, 0) == |RankedMoves(current)|
    requires m in RankedMoves(current)
    ensures GreedyRun(board, visited, moves + [m])
    ensures Replay(board, moves + [m]) == AfterMove(m, current)
    ensures VisitedAfter(board, visited, moves + [m]) == seen
  {
    GreedyRunExtend(board, visited, moves, m);
    ReplayExtend(board, moves, m);
  }

  /** The scan of solvePuzzleOneLayer over the ranked moves: the index of
      the first move whose board is not in `visited`, |ranked| when there is
      none. */
  method ScanUnvisited(current: Board, ranked: seq<Position>, visited: seq<Board>) returns (i: nat)
    ensures i == FirstUnvisited(current, ranked, visited, 0)
  {
    i := 0;
    while i < |ranked|
      invariant 0 <= i <= |ranked|
      invariant forall s :: 0 <= s < i ==> AfterMove(ranked[s], current) in visited
    {
      var newBoard := MoveHelper(ranked[i], current);
      if newBoard !in visited {
        break;
      }
      i := i + 1;
    }
    FirstUnvisitedStops(current, ranked, visited, 0, i);
  }

  datatype Status = Solved | Threw | StillRunning

  /** The module-level state of movements.ts: the fingerprints of the boards
      the current solve has already committed to. */
  class Session {
    var alreadyVisitedBoards: seq<Board>

    constructor ()
      ensures alreadyVisitedBoards == []
    {
      alreadyVisitedBoards := [];
    }

    /** solvePuzzleOneLayer. It runs until the board is solved, which the
        source never bounds; the model stops after `fuel` moves with
        StillRunning. Threw stands for the TypeError raised when a board
        offers no move at all. */
    method SolvePuzzleOneLayer(board: Board, fuel: nat) returns (status: Status, solution: seq<Position>)
      modifies this
      ensures GreedyRun(board, old(alreadyVisitedBoards), solution)
      ensures alreadyVisitedBoards == VisitedAfter(board, old(alreadyVisitedBoards), solution)
      ensures IsLegalPath(board, solution)
      ensures status == Solved ==> IsBoardSolved(Replay(board, solution))
      ensures status == Threw ==>
        !IsBoardSolved(Replay(board, solution)) && GetPossibleMoves(Replay(board, solution)) == []
      ensures status == StillRunning ==> |solution| == fuel && !IsBoardSolved(Replay(board, solution))
      ensures IsBoardSolved(board) ==> status == Solved && solution == []
      ensures Valid(board) && |board| >= 2 ==> status != Threw
    {
      ghost var visited0 := alreadyVisitedBoards;
      var current := board;
      solution := [];
      var threw := false;
      while !IsBoardSolved(current) && !threw && |solution| < fuel
        invariant GreedyRun(board, visited0, solution)
        invariant current == Replay(board, solution)
        invariant alreadyVisitedBoards == VisitedAfter(board, visited0, solution)
        invariant |solution| <= fuel
        invariant threw ==> !IsBoardSolved(current) && GetPossibleMoves(current) == []
        invariant threw ==> !(Valid(board) && |board| >= 2)
        decreases fuel - |solution|, if threw then 0 else 1
      {
        // possibleMoves sorted by the city-block score of the board each leads to
        var bestMovesInOrder := RankedMoves(current);

        var visited := alreadyVisitedBoards;
        var i := ScanUnvisited(current, bestMovesInOrder, visited);

        if i < |bestMovesInOrder| {
          var move := bestMovesInOrder[i];
          var newBoard := MoveHelper(move, current);
          GreedyStepFresh(board, visited0, solution, current, visited, i);
          alreadyVisitedBoards := visited + [newBoard];
          solution := solution + [move];
          current := newBoard;
        } else if |bestMovesInOrder| == 0 {
          RankedAreLegal(current);
          if Valid(board) && |board| >= 2 {
            ReplayPreservesValues(board, solution);
            ValidHasMove(current);
          }
          threw := true;
        } else {
          var index :| 0 <= index < |bestMovesInOrder|;
          var move := bestMovesInOrder[index];
          var newBoard := MoveHelper(move, current);
          GreedyStepFallback(board, visited0, solution, current, visited, move);
          solution := solution + [move];
          current := newBoard;
        }
      }
      GreedyRunIsLegal(board, visited0, solution);
      status := if IsBoardSolved(current) then Solved else if threw then Threw else StillRunning;
    }

    /** solve: clear the visited list, then run the one-layer solver. */
    method Solve(board: Board, fuel: nat) returns (status: Status, solution: seq<Position>)
      modifies this
      ensures GreedyRun(board, [], solution)
      ensures alreadyVisitedBoards == VisitedAfter(board, [], solution)
      ensures IsLegalPath(board, solution)
      ensures status == Solved ==> IsBoardSolved(Replay(board, solution))
      ensures status == Threw ==>
        !IsBoardSolved(Replay(board, solution)) && GetPossibleMoves(Replay(board, solution)) == []
      ensures status == StillRunning ==> |solution| == fuel && !IsBoardSolved(Replay(board, solution))
      ensures IsBoardSolved(board) ==> status == Solved && solution == []
      ensures Valid(board) && |board| >= 2 ==> status != Threw
    {
      alreadyVisitedBoards := [];
      status, solution := SolvePuzzleOneLayer(board, fuel);
    }
  }
}
