/** The C engine of main.c: the 3 x 3 puzzle stored row-major in nine ints,
    with 9 marking the empty square, scrambled by random slides and solved
    by a greedy search that remembers every board it has stood on.

    Boards the C code only reads are `seq<int>`; boards it writes are
    `array<int>`. rand() is an unconstrained choice within the range the
    code reduces it to. */
module EightPuzzle {
  import opened States
  import BoardModel

  /** The solved board {1, ..., 9}. */
  const SolvedBoard: seq<int> := [1, 2, 3, 4, 5, 6, 7, 8, 9]

  /** The value that marks the empty square. */
  const Empty := 9

  /** The marker chooseBoard reads as "no board here". */
  const NoBoard := 999

  /** Nine cells, one of them empty: what findEmptySpace needs. */
  predicate HasEmpty(s: seq<int>)
  {
    |s| == 9 && Empty in s
  }

  /** A board of the game: the values 1..9, each once. */
  ghost predicate IsPermutation(s: seq<int>)
  {
    multiset(s) == multiset(SolvedBoard)
  }

  // ---------------------------------------------------------------------
  // findEmptySpace, isSolved

  /** The first cell holding the empty marker. */
  function EmptyIndex(s: seq<int>): (p: int)
    requires Empty in s
    ensures 0 <= p < |s| && s[p] == Empty
    ensures forall k :: 0 <= k < p ==> s[k] != Empty
  {
    if s[0] == Empty then 0 else 1 + EmptyIndex(s[1..])
  }

  /** findEmptySpace: scan the nine cells for 9. Without a 9 the C function
      runs off its end and returns nothing, so the board must have one. */
  method FindEmptySpace(board: seq<int>) returns (pos: int)
    requires HasEmpty(board)
    ensures pos == EmptyIndex(board)
  {
    pos := 0;
    while board[pos] != Empty
      invariant 0 <= pos < 9 && Empty in board[pos..]
      invariant forall k :: 0 <= k < pos ==> board[k] != Empty
      decreases 9 - pos
    {
      assert board[pos..] == [board[pos]] + board[pos + 1..];
      pos := pos + 1;
    }
  }

  /** isSolved: the nine cells are 1, 2, ..., 9. */
  predicate IsSolved(board: seq<int>): (solved: bool)
    requires |board| == 9
    ensures solved <==> forall i :: 0 <= i < 9 ==> board[i] == i + 1
  {
    board == SolvedBoard
  }

  // ---------------------------------------------------------------------
  // movePiece

  /** The cell the empty square trades places with, for the directions
      0 up, 1 down, 2 left, 3 right. */
  function Target(pos: int, direction: int): int
    requires 0 <= direction <= 3
  {
    if direction == 0 then pos - 3
    else if direction == 1 then pos + 3
    else if direction == 2 then pos - 1
    else pos + 1
  }

  /** The board after movePiece: the empty square's cell takes the value of
      the target cell, and the target cell becomes empty. */
  function MovedBoard(s: seq<int>, pos: int, direction: int): seq<int>
    requires 0 <= direction <= 3 && 0 <= pos < |s| && 0 <= Target(pos, direction) < |s|
  {
    var t := Target(pos, direction);
    s[pos := s[t]][t := Empty]
  }

  datatype MoveOutcome = NewPos(pos: int) | Exit(code: int)

  /** movePiece: slide in place and answer the new position of the empty
      square; any direction other than 0..3 prints an error and ends the
      process with status 1. */
  method MovePiece(pos: int, direction: int, board: array<int>) returns (outcome: MoveOutcome)
    requires 0 <= pos < board.Length
    requires 0 <= direction <= 3 ==> 0 <= Target(pos, direction) < board.Length
    modifies board
    ensures 0 <= direction <= 3 ==>
      outcome == NewPos(Target(pos, direction)) && board[..] == MovedBoard(old(board[..]), pos, direction)
    ensures !(0 <= direction <= 3) ==> outcome == Exit(1) && board[..] == old(board[..])
  {
    var newPos: int;
    if direction == 0 {
      newPos := pos - 3;
    } else if direction == 1 {
      newPos := pos + 3;
    } else if direction == 2 {
      newPos := pos - 1;
    } else if direction == 3 {
      newPos := pos + 1;
    } else {
      return Exit(1);
    }
    board[pos] := board[newPos];
    board[newPos] := Empty;
    return NewPos(newPos);
  }

  /** A slide from the empty square swaps two cells: the values stay the
      same, the target cell becomes the empty one. */
  lemma MovedBoardIsSwap(s: seq<int>, pos: int, direction: int)
    requires 0 <= direction <= 3 && 0 <= pos < |s| && 0 <= Target(pos, direction) < |s|
    requires s[pos] == Empty
    ensures var t := Target(pos, direction);
            var moved := MovedBoard(s, pos, direction);
            |moved| == |s| && moved[t] == Empty && moved[pos] == s[t] &&
            (forall k :: 0 <= k < |s| && k != pos && k != t ==> moved[k] == s[k]) &&
            multiset(moved) == multiset(s)
  {
    var t := Target(pos, direction);
    var s1 := s[pos := s[t]];
    assert multiset(s1) == multiset(s) - multiset{Empty} + multiset{s[t]};
    assert s1[t] == s[t];
  }

  /** The direction that undoes a slide. */
  function Opposite(direction: int): int
    requires 0 <= direction <= 3
  {
    if direction == 0 then 1 else if direction == 1 then 0 else if direction == 2 then 3 else 2
  }

  /** Sliding back from the target cell restores the board. */
  lemma MoveUndo(s: seq<int>, pos: int, direction: int)
    requires 0 <= direction <= 3 && 0 <= pos < |s| && 0 <= Target(pos, direction) < |s|
    requires s[pos] == Empty
    ensures Target(Target(pos, direction), Opposite(direction)) == pos
    ensures MovedBoard(MovedBoard(s, pos, direction), Target(pos, direction), Opposite(direction)) == s
  {
  }

  // ---------------------------------------------------------------------
  // listPossibleMoves

  /** The directions listPossibleMoves accepts for the empty square at pos,
      in the order up, down, left, right. */
  function ValidDirections(pos: int): (r: seq<int>)
    ensures |r| <= 4
    ensures forall k :: 0 <= k < |r| ==> 0 <= r[k] <= 3
    ensures forall k, l :: 0 <= k < l < |r| ==> r[k] < r[l]
  {
    (if pos - 3 >= 0 then [0] else []) +
    (if pos + 3 < 9 then [1] else []) +
    (if BoardModel.TruncRem(pos, 3) - 1 >= 0 then [2] else []) +
    (if BoardModel.TruncRem(pos, 3) + 1 < 3 then [3] else [])
  }

  /** The four-entry result of listPossibleMoves: the valid directions, then -1s. */
  function Padded(moves: seq<int>): (r: seq<int>)
    requires |moves| <= 4
    ensures |r| == 4
    ensures forall k :: 0 <= k < 4 ==> r[k] == if k < |moves| then moves[k] else -1
  {
    moves + seq(4 - |moves|, _ => -1)
  }

  /** listPossibleMoves: a new four-entry array of the valid directions,
      padded with -1. The board argument is not read. */
  method ListPossibleMoves(board: seq<int>, emptyPos: int) returns (possibleMoves: array<int>)
    ensures fresh(possibleMoves) && possibleMoves.Length == 4
    ensures possibleMoves[..] == Padded(ValidDirections(emptyPos))
  {
    possibleMoves := new int[4];
    var i := 0;
    ghost var accepted: seq<int> := [];
    if emptyPos - 3 >= 0 {
      possibleMoves[i] := 0;
      accepted := accepted + [0];
      i := i + 1;
    }
    if emptyPos + 3 < 9 {
      possibleMoves[i] := 1;
      accepted := accepted + [1];
      i := i + 1;
    }
    if BoardModel.TruncRem(emptyPos, 3) - 1 >= 0 {
      possibleMoves[i] := 2;
      accepted := accepted + [2];
      i := i + 1;
    }
    if BoardModel.TruncRem(emptyPos, 3) + 1 < 3 {
      possibleMoves[i] := 3;
      accepted := accepted + [3];
      i := i + 1;
    }
    assert accepted == ValidDirections(emptyPos) && i == |accepted|;
    assert forall k :: 0 <= k < i ==> possibleMoves[k] == accepted[k];
    while i < 4
      invariant |accepted| <= i <= 4
      invariant forall k :: 0 <= k < i ==> possibleMoves[k] == Padded(accepted)[k]
    {
      possibleMoves[i] := -1;
      i := i + 1;
    }
  }

  /** Row-major neighbours on the 3 x 3 grid. */
  predicate GridAdjacent(p: int, q: int)
  {
    0 <= p < 9 && 0 <= q < 9 && BoardModel.Abs(p / 3 - q / 3) + BoardModel.Abs(p % 3 - q % 3) == 1
  }

  /** A direction is accepted exactly when it names a grid neighbour of the
      empty square: the checks keep the slide on the board and in its row. */
  lemma ValidDirectionsAreSlides(pos: int, direction: int)
    requires 0 <= pos < 9
    ensures direction in ValidDirections(pos) <==>
            0 <= direction <= 3 && GridAdjacent(pos, Target(pos, direction))
  {
    if pos < 3 {
    } else if pos < 6 {
    } else {
    }
  }

  /** Every square has two to four slides; only the centre has four. */
  lemma DirectionCount(pos: int)
    requires 0 <= pos < 9
    ensures 2 <= |ValidDirections(pos)|
    ensures |ValidDirections(pos)| == 4 <==> pos == 4
  {
  }

  // ---------------------------------------------------------------------
  // calculateDistance

  /** The sum of |i + 1 - s[i]| over the first k cells. */
  function DistanceUpTo(s: seq<int>, k: nat): nat
    requires k <= |s|
  {
    if k == 0 then 0 else DistanceUpTo(s, k - 1) + BoardModel.Abs(k - s[k - 1])
  }

  function Distance(s: seq<int>): nat
    requires |s| == 9
  {
    DistanceUpTo(s, 9)
  }

  lemma {:induction false} DistanceUpToZero(s: seq<int>, k: nat)
    requires k <= |s|
    ensures DistanceUpTo(s, k) == 0 <==> forall j :: 0 <= j < k ==> s[j] == j + 1
  {
    if k > 0 {
      DistanceUpToZero(s, k - 1);
    }
  }

  /** The distance is 0 exactly on the solved board. */
  lemma DistanceZeroIffSolved(s: seq<int>)
    requires |s| == 9
    ensures Distance(s) == 0 <==> IsSolved(s)
  {
    DistanceUpToZero(s, 9);
    if Distance(s) == 0 {
      assert forall j :: 0 <= j < 9 ==> s[j] == SolvedBoard[j];
    }
  }

  lemma {:induction false} DistanceUpToBound(s: seq<int>, k: nat)
    requires k <= |s| && k <= 9
    requires forall j :: 0 <= j < |s| ==> 1 <= s[j] <= 9
    ensures DistanceUpTo(s, k) <= 8 * k
  {
    if k > 0 {
      DistanceUpToBound(s, k - 1);
    }
  }

  /** On a board of the game the distance is at most 72, so it never equals
      the 999 marker. */
  lemma PermutationDistanceBound(s: seq<int>)
    requires |s| == 9 && IsPermutation(s)
    ensures Distance(s) <= 72
  {
    forall j | 0 <= j < 9 ensures 1 <= s[j] <= 9 {
      assert s[j] in multiset(SolvedBoard);
    }
    DistanceUpToBound(s, 9);
  }

  /** calculateDistance: 0 on the solved board, otherwise the sum over the
      cells of |i + 1 - board[i]|. */
  method CalculateDistance(board: seq<int>) returns (d: int)
    requires |board| == 9
    ensures d == Distance(board)
  {
    var solved := IsSolved(board);
    if solved {
      DistanceZeroIffSolved(board);
      return 0;
    }
    d := 0;
    for i := 0 to 9
      invariant d == DistanceUpTo(board, i)
    {
      d := d + BoardModel.Abs(i + 1 - board[i]);
    }
  }

  // ---------------------------------------------------------------------
  // chooseBoard

  /** The entries of d before the first 999. */
  function LeadingMoves(d: seq<int>): (m: nat)
    ensures m <= |d|
    ensures forall i :: 0 <= i < m ==> d[i] != NoBoard
    ensures m < |d| ==> d[m] == NoBoard
  {
    if d == [] || d[0] == NoBoard then 0 else 1 + LeadingMoves(d[1..])
  }

  /** Among the first m boards, the unvisited one of least distance below
      999, the earliest of equal distances; -1 when there is none. */
  function BestUnvisited(boards: seq<seq<int>>, d: seq<int>, visited: seq<seq<int>>, m: nat): (b: int)
    requires m <= |boards| && m <= |d|
    ensures -1 <= b < m
    ensures b == -1 <==> forall j :: 0 <= j < m ==> boards[j] in visited || d[j] >= NoBoard
    ensures b >= 0 ==>
      boards[b] !in visited && d[b] < NoBoard &&
      forall j :: 0 <= j < m && boards[j] !in visited ==> d[b] <= d[j] && (j < b ==> d[b] < d[j])
  {
    if m == 0 then -1
    else
      var b := BestUnvisited(boards, d, visited, m - 1);
      if boards[m - 1] !in visited && d[m - 1] < NoBoard && (b == -1 || d[m - 1] < d[b]) then m - 1
      else b
  }

  /** chooseBoard: scan the boards until the 999 marker, keep the unvisited
      one of strictly lowest distance so far; when none is unvisited, pick
      one of the scanned boards at random. With no board at all the C code
      divides by zero, so d[0] must not be 999. */
  method ChooseBoard(possibleBoards: seq<seq<int>>, d: seq<int>, list: StateList) returns (best: int)
    requires |d| == 4 && d[0] != NoBoard
    requires LeadingMoves(d) <= |possibleBoards|
    requires forall i :: 0 <= i < LeadingMoves(d) ==> |possibleBoards[i]| == 9
    requires list.Valid()
    ensures var m := LeadingMoves(d);
            var b := BestUnvisited(possibleBoards, d, list.Contents, m);
            (b >= 0 ==> best == b) && (b < 0 ==> 0 <= best < m)
  {
    ghost var m := LeadingMoves(d);
    best := 0;
    var possibleMoves, exhausted := 0, true;
    var lowestD := NoBoard;
    var i := 0;
    while i < 4
      invariant 0 <= i <= m && possibleMoves == i
      invariant var b := BestUnvisited(possibleBoards, d, list.Contents, i);
                (exhausted <==> b < 0) &&
                (b >= 0 ==> best == b && lowestD == d[b]) &&
                (b < 0 ==> lowestD == NoBoard)
    {
      if d[i] == NoBoard {
        break;
      }
      if lowestD > d[i] {
        var inList := list.IsInList(possibleBoards[i]);
        if !inList {
          best := i;
          lowestD := d[i];
          exhausted := false;
        }
      }
      possibleMoves := possibleMoves + 1;
      i := i + 1;
    }
    if exhausted {
      var r :| 0 <= r < possibleMoves;
      best := r;
    }
  }

  // ---------------------------------------------------------------------
  // listPossibleBoards, scrambleBoard

  /** The boards one slide away, in the order of ValidDirections. */
  function Children(s: seq<int>): (r: seq<seq<int>>)
    requires HasEmpty(s)
    ensures 2 <= |r| <= 4 && forall k :: 0 <= k < |r| ==> |r[k]| == 9
  {
    var pos := EmptyIndex(s);
    var dirs := ValidDirections(pos);
    ValidDirectionsInRange(pos);
    DirectionCount(pos);
    seq(|dirs|, k requires 0 <= k < |dirs| => MovedBoard(s, pos, dirs[k]))
  }

  lemma ValidDirectionsInRange(pos: int)
    requires 0 <= pos < 9
    ensures forall k :: 0 <= k < |ValidDirections(pos)| ==>
              0 <= Target(pos, ValidDirections(pos)[k]) < 9
  {
  }

  /** Every child is a board with an empty square, holding the same values;
      there are two to four children. */
  lemma ChildrenAreSlides(s: seq<int>)
    requires HasEmpty(s)
    ensures 2 <= |Children(s)| <= 4
    ensures forall k :: 0 <= k < |Children(s)| ==>
              HasEmpty(Children(s)[k]) && multiset(Children(s)[k]) == multiset(s)
  {
    var pos := EmptyIndex(s);
    DirectionCount(pos);
    ValidDirectionsInRange(pos);
    forall k | 0 <= k < |Children(s)|
      ensures HasEmpty(Children(s)[k]) && multiset(Children(s)[k]) == multiset(s)
    {
      var dir := ValidDirections(pos)[k];
      MovedBoardIsSwap(s, pos, dir);
      assert Children(s)[k][Target(pos, dir)] == Empty;
    }
  }

  /** listPossibleBoards, with the loop guard testing the bound before
      reading the entry (main.c:153 tests them the other way round; see the
      lemma GuardReadsPastEndAtCentre). */
  method ListPossibleBoards(board: seq<int>) returns (count: int, possibleBoards: seq<seq<int>>)
    requires HasEmpty(board)
    ensures count == |possibleBoards| && possibleBoards == Children(board)
  {
    var emptyPos := FindEmptySpace(board);
    var possibleMoves := ListPossibleMoves(board, emptyPos);
    ghost var dirs := ValidDirections(emptyPos);
    ValidDirectionsInRange(emptyPos);
    possibleBoards := [];
    var i := 0;
    while i < 4 && possibleMoves[i] != -1
      invariant 0 <= i <= |dirs|
      invariant possibleMoves[..] == Padded(dirs)
      invariant possibleBoards == Children(board)[..i]
    {
      assert possibleMoves[i] == dirs[i];
      var row := new int[9](k requires 0 <= k < 9 => board[k]);
      assert row[..] == board;
      var _ := MovePiece(emptyPos, possibleMoves[i], row);
      possibleBoards := possibleBoards + [row[..]];
      i := i + 1;
    }
    assert i == |dirs|;
    count := i;
  }

  /** Step k of a run of slides: board k has an empty square and board
      k + 1 is one of its children. */
  ghost predicate SlideStep(trail: seq<seq<int>>, k: int)
    requires 0 <= k < |trail| - 1
  {
    HasEmpty(trail[k]) && trail[k + 1] in Children(trail[k])
  }

  /** Each board of the run is a child of the one before it. */
  ghost predicate IsSlideTrail(trail: seq<seq<int>>)
  {
    forall k :: 0 <= k < |trail| - 1 ==> SlideStep(trail, k)
  }

  lemma SlideTrailExtend(trail: seq<seq<int>>, next: seq<int>)
    requires IsSlideTrail(trail) && |trail| >= 1
    requires HasEmpty(trail[|trail| - 1]) && next in Children(trail[|trail| - 1])
    ensures IsSlideTrail(trail + [next])
  {
    var t := trail + [next];
    forall k | 0 <= k < |t| - 1
      ensures SlideStep(t, k)
    {
      if k < |trail| - 1 {
        assert SlideStep(trail, k);
      }
    }
  }

  /** Slides only move values around: every board of a run of slides holds
      the values of the first. */
  lemma {:induction false} SlideTrailKeepsValues(trail: seq<seq<int>>)
    requires IsSlideTrail(trail) && |trail| >= 1
    ensures forall k :: 0 <= k < |trail| ==> multiset(trail[k]) == multiset(trail[0])
    decreases |trail|
  {
    if |trail| > 1 {
      var prefix := trail[..|trail| - 1];
      forall k | 0 <= k < |prefix| - 1
        ensures SlideStep(prefix, k)
      {
        assert SlideStep(trail, k);
        assert prefix[k] == trail[k] && prefix[k + 1] == trail[k + 1];
      }
      SlideTrailKeepsValues(prefix);
      var last := |trail| - 1;
      assert SlideStep(trail, last - 1);
      ChildrenAreSlides(trail[last - 1]);
      var j :| 0 <= j < |Children(trail[last - 1])| && Children(trail[last - 1])[j] == trail[last];
      assert multiset(trail[last]) == multiset(trail[last - 1]);
      assert prefix[0] == trail[0] && prefix[last - 1] == trail[last - 1];
    }
  }

  /** scrambleBoard: fifty times, replace the board by one of its children
      chosen at random. */
  method ScrambleBoard(board: array<int>) returns (ghost trail: seq<seq<int>>)
    requires board.Length == 9 && Empty in board[..]
    modifies board
    ensures |trail| == 51 && trail[0] == old(board[..]) && trail[50] == board[..]
    ensures IsSlideTrail(trail)
    ensures HasEmpty(board[..]) && multiset(board[..]) == multiset(old(board[..]))
  {
    var maxIt := 50;
    trail := [board[..]];
    for j := 0 to maxIt
      invariant |trail| == j + 1 && trail[0] == old(board[..]) && trail[j] == board[..]
      invariant IsSlideTrail(trail)
      invariant HasEmpty(board[..]) && multiset(board[..]) == multiset(old(board[..]))
    {
      var i, possibleBoards := ListPossibleBoards(board[..]);
      ChildrenAreSlides(board[..]);
      var randomPos :| 0 <= randomPos < i;
      var next := possibleBoards[randomPos];
      SlideTrailExtend(trail, next);
      forall k | 0 <= k < 9 {
        board[k] := next[k];
      }
      assert board[..] == next;
      trail := trail + [next];
    }
  }

  // ---------------------------------------------------------------------
  // solveOneLayer

  /** The d array of the solver: the children's distances, then 999. */
  function Distances(children: seq<seq<int>>): (d: seq<int>)
    requires |children| <= 4 && forall k :: 0 <= k < |children| ==> |children[k]| == 9
    ensures |d| == 4
    ensures forall k :: |children| <= k < 4 ==> d[k] == NoBoard
    ensures LeadingMoves(d) <= |children|
  {
    var d := [ScoreAt(children, 0), ScoreAt(children, 1), ScoreAt(children, 2), ScoreAt(children, 3)];
    assert |children| < 4 ==> d[|children|] == NoBoard;
    d
  }

  /** Entry k of the d array. */
  function ScoreAt(children: seq<seq<int>>, k: nat): int
    requires forall j :: 0 <= j < |children| ==> |children[j]| == 9
  {
    if k < |children| then Distance(children[k]) else NoBoard
  }

  /** `next` is a board chooseBoard may pick from `s` with the list holding
      `visited`. */
  ghost predicate IsGreedyNext(s: seq<int>, visited: seq<seq<int>>, next: seq<int>)
    requires HasEmpty(s)
  {
    var children := Children(s);
    var d := Distances(children);
    var m := LeadingMoves(d);
    var b := BestUnvisited(children, d, visited, m);
    if b >= 0 then next == children[b] else next in children[..m]
  }

  /** Step k of a run: board k is a pick chooseBoard may make from board
      k - 1, which has an empty square, with the list holding boards 0 to
      k - 1; board k - 1 is not solved unless it is the start (the do-while
      stops at the first solved board it reaches). */
  ghost predicate GreedyStep(trail: seq<seq<int>>, k: int)
    requires 0 < k < |trail|
  {
    HasEmpty(trail[k - 1]) &&
    (k > 1 ==> trail[k - 1] != SolvedBoard) &&
    IsGreedyNext(trail[k - 1], trail[..k], trail[k])
  }

  /** A run of the solver: a start board followed by greedy steps. */
  ghost predicate IsGreedyTrail(trail: seq<seq<int>>)
  {
    |trail| >= 1 && forall k :: 0 < k < |trail| ==> GreedyStep(trail, k)
  }

  lemma GreedyTrailExtend(trail: seq<seq<int>>, next: seq<int>)
    requires IsGreedyTrail(trail) && HasEmpty(trail[|trail| - 1])
    requires |trail| > 1 ==> trail[|trail| - 1] != SolvedBoard
    requires IsGreedyNext(trail[|trail| - 1], trail, next)
    ensures IsGreedyTrail(trail + [next])
  {
    var t := trail + [next];
    forall k | 0 < k < |t|
      ensures GreedyStep(t, k)
    {
      assert t[..k] == trail[..k];
      if k < |trail| {
        assert GreedyStep(trail, k);
        assert t[k - 1] == trail[k - 1] && t[k] == trail[k];
      } else {
        assert t[..k] == trail && t[k - 1] == trail[|trail| - 1] && t[k] == next;
      }
    }
  }

  /** Along a run, every board after the first is a child of the board
      before it, and only the start and the final board may be solved. */
  lemma GreedyTrailSteps(trail: seq<seq<int>>)
    requires IsGreedyTrail(trail)
    ensures forall k :: 1 <= k < |trail| - 1 ==> trail[k] != SolvedBoard
    ensures IsSlideTrail(trail)
  {
    forall k | 0 <= k < |trail| - 1
      ensures SlideStep(trail, k)
      ensures k >= 1 ==> trail[k] != SolvedBoard
    {
      assert GreedyStep(trail, k + 1);
      GreedyNextIsChild(trail[k], trail[..k + 1], trail[k + 1]);
    }
  }

  /** chooseBoard's pick is always one of the children. */
  lemma GreedyNextIsChild(s: seq<int>, visited: seq<seq<int>>, next: seq<int>)
    requires HasEmpty(s) && IsGreedyNext(s, visited, next)
    ensures next in Children(s)
  {
  }

  /** chooseBoard's rule: while some scanned child below 999 is unvisited,
      the pick is unvisited and no scanned unvisited child is strictly
      closer to the goal; the pick is visited only when every scanned child
      below 999 is. (A distance above 999 never beats the initial lowest
      value 999, so such a child is only picked at random.) */
  lemma GreedyNextIsBest(s: seq<int>, visited: seq<seq<int>>, next: seq<int>)
    requires HasEmpty(s) && IsGreedyNext(s, visited, next)
    ensures var children := Children(s);
            var m := LeadingMoves(Distances(children));
            (next in visited ==>
               forall j :: 0 <= j < m && Distance(children[j]) < NoBoard ==> children[j] in visited) &&
            forall j :: 0 <= j < m && children[j] !in visited && Distance(children[j]) < NoBoard ==>
              next !in visited && Distance(next) <= Distance(children[j])
  {
    var children := Children(s);
    var d := Distances(children);
    var m := LeadingMoves(d);
    var b := BestUnvisited(children, d, visited, m);
    if b >= 0 {
      forall j | 0 <= j < m && children[j] !in visited
        ensures Distance(children[b]) <= Distance(children[j])
      {
        assert d[b] == ScoreAt(children, b) && d[j] == ScoreAt(children, j);
      }
    } else {
      forall j | 0 <= j < m && Distance(children[j]) < NoBoard
        ensures children[j] in visited
      {
        assert d[j] == ScoreAt(children, j);
      }
    }
  }

  datatype SolveOutcome = Reached | OutOfFuel | DivisionByZero

  /** solveOneLayer: record the board, then repeatedly move to the board
      chooseBoard picks and record it, until the board is solved. The loop
      is a do-while, so at least one move is made. The source never bounds
      the loop; the model stops with OutOfFuel once `fuel` moves (at least
      one) are made. DivisionByZero is chooseBoard's rand() % 0, reached
      only when the first child's distance is exactly 999. */
  method SolveOneLayer(board: array<int>, fuel: nat)
    returns (moveCount: int, outcome: SolveOutcome, ghost trail: seq<seq<int>>)
    requires board.Length == 9 && Empty in board[..]
    modifies board
    ensures moveCount >= 0 && |trail| == moveCount + 1 && trail[0] == old(board[..]) && trail[moveCount] == board[..]
    ensures IsGreedyTrail(trail)
    ensures outcome == Reached ==> moveCount >= 1 && board[..] == SolvedBoard
    ensures outcome == OutOfFuel ==> moveCount == (if fuel == 0 then 1 else fuel) && board[..] != SolvedBoard
    ensures HasEmpty(board[..])
    ensures outcome == DivisionByZero ==> Distance(Children(board[..])[0]) == NoBoard
    ensures multiset(board[..]) == multiset(old(board[..]))
    ensures IsPermutation(old(board[..])) ==> outcome != DivisionByZero
  {
    ghost var start := board[..];
    moveCount := 0;
    var list := new StateList();
    list.AddArrayToList(board);
    assert board[..9] == start;
    trail := [start];
    ghost var repr: set<object> := list.Repr;
    var solved, divisionByZero := false, false;
    while !solved && !divisionByZero && (moveCount == 0 || moveCount < fuel)
      invariant list.Valid() && list.Repr == repr && fresh(repr)
      invariant list.Contents == trail
      invariant |trail| == moveCount + 1 && trail[0] == start && trail[moveCount] == board[..]
      invariant moveCount <= if fuel == 0 then 1 else fuel
      invariant IsGreedyTrail(trail)
      invariant HasEmpty(board[..])
      invariant moveCount >= 1 ==> (solved <==> board[..] == SolvedBoard)
      invariant solved ==> moveCount >= 1
      invariant divisionByZero ==> Distance(Children(board[..])[0]) == NoBoard && !IsPermutation(board[..])
      invariant multiset(board[..]) == multiset(start)
      decreases fuel - moveCount, if solved || divisionByZero then 0 else 1
    {
      var next;
      divisionByZero, next, solved := SolveStep(board, list, trail);
      if !divisionByZero {
        moveCount := moveCount + 1;
        trail := trail + [next];
        repr := repr + {list.final};
      }
    }
    outcome := if divisionByZero then DivisionByZero else if solved then Reached else OutOfFuel;
  }

  /** One pass of the solver's do-while body and its isSolved test:
      chooseBoard's pick is copied over the board and appended to the list,
      unless there is no child to pick from. */
  method SolveStep(board: array<int>, list: StateList, ghost trail: seq<seq<int>>)
    returns (divisionByZero: bool, next: seq<int>, solved: bool)
    requires board.Length == 9 && HasEmpty(board[..])
    requires list.Valid() && board !in list.Repr
    requires list.Contents == trail && IsGreedyTrail(trail) && trail[|trail| - 1] == board[..]
    requires |trail| > 1 ==> board[..] != SolvedBoard
    modifies board, list.Repr
    ensures list.Valid() && board !in list.Repr
    ensures divisionByZero ==>
      !solved && list.Repr == old(list.Repr) && board[..] == old(board[..]) && list.Contents == trail &&
      Distance(Children(board[..])[0]) == NoBoard && !IsPermutation(board[..])
    ensures !divisionByZero ==>
      list.final != null && fresh(list.final) && list.Repr == old(list.Repr) + {list.final} &&
      list.Contents == trail + [next] && IsGreedyTrail(trail + [next]) && board[..] == next &&
      HasEmpty(next) && multiset(next) == multiset(old(board[..])) &&
      (solved <==> next == SolvedBoard)
  {
    var choice, noChild := ChooseNext(board[..], list);
    divisionByZero, next, solved := noChild, choice, false;
    if !divisionByZero {
      GreedyTrailExtend(trail, next);
      solved := IsSolved(next);
      Record(board, next, list);
    }
  }

  /** The scoring loop of the solver's do-while body: d holds the
      calculateDistance of each board, then 999. */
  method ScoreBoards(possibleBoards: seq<seq<int>>, numMoves: int) returns (d: seq<int>)
    requires numMoves == |possibleBoards| <= 4
    requires forall k :: 0 <= k < |possibleBoards| ==> |possibleBoards[k]| == 9
    ensures d == Distances(possibleBoards)
  {
    d := [NoBoard, NoBoard, NoBoard, NoBoard];
    for i := 0 to numMoves
      invariant |d| == 4
      invariant forall k :: 0 <= k < 4 ==> d[k] == if k < i then Distance(possibleBoards[k]) else NoBoard
    {
      var dist := CalculateDistance(possibleBoards[i]);
      d := d[i := dist];
    }
  }

  /** The body of the solver's do-while up to the memcpy: list the
      children, score them and let chooseBoard pick one. */
  method ChooseNext(board: seq<int>, list: StateList)
    returns (next: seq<int>, divisionByZero: bool)
    requires HasEmpty(board) && list.Valid()
    ensures list.Valid()
    ensures divisionByZero <==> Distance(Children(board)[0]) == NoBoard
    ensures IsPermutation(board) ==> !divisionByZero
    ensures !divisionByZero ==>
      IsGreedyNext(board, list.Contents, next) && HasEmpty(next) && multiset(next) == multiset(board)
  {
    var numMoves, possibleBoards := ListPossibleBoards(board);
    ChildrenAreSlides(board);
    var d := ScoreBoards(possibleBoards, numMoves);
    assert list.Valid();
    if d[0] == NoBoard {
      if IsPermutation(board) {
        PermutationDistanceBound(possibleBoards[0]);
      }
      return board, true;
    }
    var best := ChooseBoard(possibleBoards, d, list);
    next := possibleBoards[best];
    divisionByZero := false;
  }

  /** The end of the solver's do-while body: memcpy the chosen board over
      the nine cells and append it to the list. */
  method Record(board: array<int>, next: seq<int>, list: StateList)
    requires board.Length == 9 && |next| == 9
    requires list.Valid() && board !in list.Repr
    modifies board, list.Repr
    ensures board[..] == next
    ensures list.Valid() && board !in list.Repr
    ensures list.final != null && fresh(list.final)
    ensures list.Repr == old(list.Repr) + {list.final}
    ensures list.Contents == old(list.Contents) + [next]
  {
    forall k | 0 <= k < 9 {
      board[k] := next[k];
    }
    assert board[..] == next && board[..9] == next;
    list.AddArrayToList(board);
  }

  /** solveTwoLayers: main.c:211-236 is a line-for-line copy of
      solveOneLayer, so it behaves exactly like it. */
  method SolveTwoLayers(board: array<int>, fuel: nat)
    returns (moveCount: int, outcome: SolveOutcome, ghost trail: seq<seq<int>>)
    requires board.Length == 9 && Empty in board[..]
    modifies board
    ensures moveCount >= 0 && |trail| == moveCount + 1 && trail[0] == old(board[..]) && trail[moveCount] == board[..]
    ensures IsGreedyTrail(trail)
    ensures outcome == Reached ==> moveCount >= 1 && board[..] == SolvedBoard
    ensures outcome == OutOfFuel ==> moveCount == (if fuel == 0 then 1 else fuel) && board[..] != SolvedBoard
    ensures HasEmpty(board[..])
    ensures outcome == DivisionByZero ==> Distance(Children(board[..])[0]) == NoBoard
    ensures multiset(board[..]) == multiset(old(board[..]))
    ensures IsPermutation(old(board[..])) ==> outcome != DivisionByZero
  {
    moveCount, outcome, trail := SolveOneLayer(board, fuel);
  }

  // ---------------------------------------------------------------------
  // The loop guard of listPossibleBoards and scrambleBoard as written

  /** The index the guard `possibleMoves[i] != -1 && i < 4` reads on its
      last test, starting from i: it reads the entry before it tests the
      bound, so at i == 4 it reads possibleMoves[4]. */
  function AsWrittenLastRead(moves: seq<int>, i: nat): (r: nat)
    requires |moves| == 4 && i <= 4
    ensures i <= r <= 4
    ensures r < 4 ==> moves[r] == -1
    ensures forall k :: i <= k < r ==> moves[k] != -1
    decreases 4 - i
  {
    if i == 4 then 4
    else if moves[i] == -1 then i
    else AsWrittenLastRead(moves, i + 1)
  }

  /** With the empty square in the centre all four directions are valid,
      no entry is -1, and the guard as written reads one int past the four
      that listPossibleMoves allocates; e.g. the board
      {1, 2, 3, 4, 9, 5, 6, 7, 8}. */
  lemma GuardReadsPastEndAtCentre()
    ensures var board := [1, 2, 3, 4, 9, 5, 6, 7, 8];
            var moves := Padded(ValidDirections(EmptyIndex(board)));
            AsWrittenLastRead(moves, 0) == |moves|
  {
    var board := [1, 2, 3, 4, 9, 5, 6, 7, 8];
    assert EmptyIndex(board) == 4;
  }

  /** Everywhere else the guard as written stops at a -1 inside the array. */
  lemma GuardInBoundsOffCentre(pos: int)
    requires 0 <= pos < 9 && pos != 4
    ensures AsWrittenLastRead(Padded(ValidDirections(pos)), 0) < 4
  {
    DirectionCount(pos);
    var moves := Padded(ValidDirections(pos));
    assert moves[3] == -1;
  }
}
