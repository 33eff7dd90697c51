/** The board shape shared by the TypeScript engine, and the solved-board
    factory of src/utils/board.ts.

    A board is an array of rows (N rows of N numbers on every board the game
    builds), 0 marks the empty cell, and a position names a cell by row `x`
    and column `y`. */
module BoardModel {

  type Board = seq<seq<int>>

  datatype Position = Position(x: int, y: int)

  /** Math.abs, and the `abs` of C, on integers. */
  function Abs(a: int): nat
  {
    if a < 0 then -a else a
  }

  /** The `%` of JavaScript and of C: the remainder takes the sign of the
      dividend, where Dafny's `%` never returns a negative remainder. */
  function TruncRem(a: int, n: int): int
    requires n > 0
  {
    if a >= 0 then a % n else -((-a) % n)
  }

  /** The integers lo, lo+1, ..., hi-1. */
  function Range(lo: int, hi: int): (r: seq<int>)
    ensures |r| == if lo <= hi then hi - lo else 0
    ensures forall k :: 0 <= k < |r| ==> r[k] == lo + k
    decreases hi - lo
  {
    if lo >= hi then [] else [lo] + Range(lo + 1, hi)
  }

  /** Every row has exactly n cells. */
  ghost predicate Rectangular(b: Board, n: int)
  {
    forall i :: 0 <= i < |b| ==> |b[i]| == n
  }

  /** N rows of N cells. */
  ghost predicate IsSquare(b: Board)
  {
    Rectangular(b, |b|)
  }

  /** The cells in row-major order: the order in which `toString` lists them. */
  function Flatten(b: Board): seq<int>
  {
    if b == [] then [] else b[0] + Flatten(b[1..])
  }

  /** The invariant of every board of the game: N x N, holding 0..N*N-1 once each. */
  ghost predicate Valid(b: Board)
  {
    IsSquare(b) && multiset(Flatten(b)) == multiset(Range(0, |b| * |b|))
  }

  /** What cell (i, j) of the solved N x N board holds. */
  function SolvedCell(n: int, i: int, j: int): int
  {
    if i == n - 1 && j == n - 1 then 0 else i * n + j + 1
  }

  /** generateInitialBoard of src/utils/board.ts: N counting rows (row i is
      i*N+1, ..., i*N+N), then the
      last entry of the last row is sliced off and 0 appended. A negative N
      gives no rows, as Array.from does with a negative length. */
  function GenerateInitialBoard(n: int): (r: Board)
    ensures |r| == (if n < 0 then 0 else n)
    ensures IsSquare(r)
    ensures forall i, j :: 0 <= i < |r| && 0 <= j < |r| ==> r[i][j] == SolvedCell(n, i, j)
  {
    var len: nat := if n < 0 then 0 else n;
    var rows := seq(len, i => Range(i * len + 1, i * len + len + 1));
    seq(len, i requires 0 <= i < len =>
      if i == n - 1 then rows[i][..|rows[i]| - 1] + [0] else rows[i])
  }

  // ---------------------------------------------------------------------
  // Arithmetic on row-major indices

  lemma MulLeft(a: int, c: int, n: int)
    requires n >= 0 && a <= c
    ensures a * n <= c * n
  {
    assert c * n - a * n == (c - a) * n;
  }

  /** Row-major index k = i*n + j splits back into row i and column j. */
  lemma DivModUnique(i: int, j: int, n: int)
    requires n > 0 && 0 <= j < n
    ensures (i * n + j) / n == i && (i * n + j) % n == j
  {
    var k := i * n + j;
    var q, r := k / n, k % n;
    assert k == q * n + r;
    assert (q - i) * n == j - r;
    if q > i {
      MulLeft(1, q - i, n);
      assert false;
    } else if q < i {
      MulLeft(1, i - q, n);
      assert false;
    }
  }

  /** A cell of an N x N grid has a row-major index below N*N. */
  lemma CellIndexBound(i: int, j: int, n: int)
    requires 0 <= i < n && 0 <= j < n
    ensures 0 <= i * n + j < n * n
    ensures i * n + j == n * n - 1 <==> i == n - 1 && j == n - 1
  {
    MulLeft(0, i, n);
    MulLeft(i, n - 1, n);
    assert (n - 1) * n == n * n - n;
    if i < n - 1 {
      MulLeft(i, n - 2, n);
      assert (n - 2) * n == n * n - 2 * n;
    }
  }

  /** A row-major index below N*N names a cell of the N x N grid. */
  lemma IndexCell(k: int, n: int)
    requires n > 0 && 0 <= k < n * n
    ensures 0 <= k / n < n && 0 <= k % n < n && k == (k / n) * n + k % n
  {
    var q := k / n;
    assert k == q * n + k % n;
    if q >= n {
      MulLeft(n, q, n);
      assert false;
    }
    if q < 0 {
      MulLeft(q, -1, n);
      assert false;
    }
  }

  // ---------------------------------------------------------------------
  // Flatten

  lemma {:induction false} FlattenLength(b: Board, n: int)
    requires Rectangular(b, n) && n >= 0
    ensures |Flatten(b)| == |b| * n
  {
    if b != [] {
      FlattenLength(b[1..], n);
      assert |b| * n == n + (|b| - 1) * n;
    }
  }

  /** Cell (i, j) of a board with rows of length n sits at index i*n + j of
      the flattened board. */
  lemma {:induction false} FlattenAt(b: Board, n: int, i: int, j: int)
    requires Rectangular(b, n) && 0 <= i < |b| && 0 <= j < n
    ensures |Flatten(b)| == |b| * n
    ensures 0 <= i * n + j < |Flatten(b)| && Flatten(b)[i * n + j] == b[i][j]
  {
    FlattenLength(b, n);
    MulLeft(0, i, n);
    MulLeft(i + 1, |b|, n);
    if i > 0 {
      FlattenAt(b[1..], n, i - 1, j);
      assert i * n + j == n + ((i - 1) * n + j);
    }
  }

  /** No two different cells hold 0. */
  ghost predicate AtMostOneZero(b: Board)
  {
    forall i, j, k, l ::
      (0 <= i < |b| && 0 <= j < |b[i]| && 0 <= k < |b| && 0 <= l < |b[k]| &&
       b[i][j] == 0 && b[k][l] == 0) ==> i == k && j == l
  }

  /** Every value of the flattened board is held by some cell. */
  lemma {:induction false} FlattenMember(b: Board, v: int)
    requires v in Flatten(b)
    ensures exists i, j :: 0 <= i < |b| && 0 <= j < |b[i]| && b[i][j] == v
  {
    if v in b[0] {
      var j :| 0 <= j < |b[0]| && b[0][j] == v;
      assert b[0][j] == v;
    } else {
      FlattenMember(b[1..], v);
      var i, j :| 0 <= i < |b[1..]| && 0 <= j < |b[1..][i]| && b[1..][i][j] == v;
      assert b[i + 1][j] == v;
    }
  }

  /** Boards with rows of length n and equal flattenings are equal. */
  lemma FlattenInjective(a: Board, c: Board, n: int)
    requires Rectangular(a, n) && Rectangular(c, n) && |a| == |c| && n >= 0
    requires Flatten(a) == Flatten(c)
    ensures a == c
  {
    forall i | 0 <= i < |a| ensures a[i] == c[i] {
      forall j | 0 <= j < n ensures a[i][j] == c[i][j] {
        FlattenAt(a, n, i, j);
        FlattenAt(c, n, i, j);
      }
    }
  }

  lemma RowUpdate(row: seq<int>, j: int, v: int)
    requires 0 <= j < |row|
    ensures multiset(row[j := v]) + multiset{row[j]} == multiset(row) + multiset{v}
  {
    assert row == row[..j] + [row[j]] + row[j + 1..];
    assert row[j := v] == row[..j] + [v] + row[j + 1..];
  }

  /** Replacing one cell replaces one occurrence in the multiset of values. */
  lemma {:induction false} FlattenUpdate(b: Board, i: int, j: int, v: int)
    requires 0 <= i < |b| && 0 <= j < |b[i]|
    ensures multiset(Flatten(b[i := b[i][j := v]])) + multiset{b[i][j]}
         == multiset(Flatten(b)) + multiset{v}
  {
    var b' := b[i := b[i][j := v]];
    var rest := Flatten(b[1..]);
    assert Flatten(b) == b[0] + rest;
    if i == 0 {
      assert b'[1..] == b[1..];
      assert Flatten(b') == b[0][j := v] + rest;
      RowUpdate(b[0], j, v);
    } else {
      var tail := b[1..];
      assert tail[i - 1] == b[i];
      assert b'[1..] == tail[i - 1 := tail[i - 1][j := v]];
      assert Flatten(b') == b[0] + Flatten(b'[1..]);
      FlattenUpdate(tail, i - 1, j, v);
      assert multiset(Flatten(b'[1..])) + multiset{b[i][j]} == multiset(rest) + multiset{v};
      assert multiset(Flatten(b')) == multiset(b[0]) + multiset(Flatten(b'[1..]));
      assert multiset(Flatten(b)) == multiset(b[0]) + multiset(rest);
      calc {
        multiset(Flatten(b')) + multiset{b[i][j]};
        multiset(b[0]) + (multiset(Flatten(b'[1..])) + multiset{b[i][j]});
        multiset(b[0]) + (multiset(rest) + multiset{v});
        multiset(Flatten(b)) + multiset{v};
      }
    }
  }

  // ---------------------------------------------------------------------
  // Properties of the solved board

  /** The solved board read row by row is 1, 2, ..., N*N-1 followed by 0. */
  lemma FlattenSolved(n: nat)
    requires n >= 1
    ensures Flatten(GenerateInitialBoard(n)) == Range(1, n * n) + [0]
  {
    var r := GenerateInitialBoard(n);
    var want := Range(1, n * n) + [0];
    FlattenLength(r, n);
    assert |want| == n * n by { MulLeft(1, n, n); }
    forall k | 0 <= k < n * n ensures Flatten(r)[k] == want[k] {
      IndexCell(k, n);
      var i, j := k / n, k % n;
      FlattenAt(r, n, i, j);
      CellIndexBound(i, j, n);
    }
  }

  /** For N >= 1 the solved board is a permutation of 0..N*N-1. */
  lemma SolvedIsPermutation(n: nat)
    requires n >= 1
    ensures Valid(GenerateInitialBoard(n))
  {
    FlattenSolved(n);
    MulLeft(1, n, n);
    assert Range(0, n * n) == [0] + Range(1, n * n);
  }

  /** A value occurring at two different indices occurs at least twice. */
  lemma TwiceAtLeast(s: seq<int>, a: int, c: int)
    requires 0 <= a < c < |s| && s[a] == s[c]
    ensures multiset(s)[s[a]] >= 2
  {
    assert s == s[..a] + [s[a]] + s[a + 1..c] + [s[c]] + s[c + 1..];
  }

  /** A valid board has exactly one empty cell. */
  lemma ValidHasSingleZero(b: Board)
    requires Valid(b) && |b| >= 1
    ensures exists i, j :: 0 <= i < |b| && 0 <= j < |b| && b[i][j] == 0
    ensures AtMostOneZero(b)
  {
    var n := |b|;
    MulLeft(1, n, n);
    assert Range(0, n * n) == [0] + Range(1, n * n);
    assert multiset(Flatten(b))[0] == 1;
    assert 0 in multiset(Flatten(b));
    FlattenMember(b, 0);
    forall i, j, k, l |
      0 <= i < n && 0 <= j < |b[i]| && 0 <= k < n && 0 <= l < |b[k]| &&
      b[i][j] == 0 && b[k][l] == 0
      ensures i == k && j == l
    {
      FlattenAt(b, n, i, j);
      FlattenAt(b, n, k, l);
      var p, q := i * n + j, k * n + l;
      if p < q {
        TwiceAtLeast(Flatten(b), p, q);
      } else if q < p {
        TwiceAtLeast(Flatten(b), q, p);
      } else {
        DivModUnique(i, j, n);
        DivModUnique(k, l, n);
      }
    }
  }
}
