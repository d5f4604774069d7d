/** The N×N board as a flat sequence of cells: cell i is at row i / N and
    column i % N, value 0 is the blank. */
module Board {

  /** A board of side `n`: n·n cells holding each of 0 .. n·n-1 exactly once. */
  ghost predicate IsBoard(n: nat, b: seq<int>)
  {
    && |b| == n * n
    && (forall i :: 0 <= i < |b| ==> 0 <= b[i] < n * n)
    && (forall i, j :: 0 <= i < j < |b| ==> b[i] != b[j])
    && (forall v :: 0 <= v < n * n ==> v in b)
  }

  /** `list.index`: the first position holding `v`. */
  function IndexOf(s: seq<int>, v: int): (r: nat)
    requires v in s
    ensures r < |s| && s[r] == v
    ensures forall k :: 0 <= k < r ==> s[k] != v
  {
    if s[0] == v then 0 else 1 + IndexOf(s[1..], v)
  }

  function Abs(x: int): nat
  {
    if x < 0 then -x else x
  }

  /** The legality test of a tap: the tile's cell and the blank's cell are one
      row apart in the same column, or one column apart in the same row. */
  predicate Adjacent(n: nat, idx: nat, emptyIdx: nat)
    requires n > 0
    ensures Adjacent(n, idx, emptyIdx) ==> idx != emptyIdx
  {
    var row, col := idx / n, idx % n;
    var er, ec := emptyIdx / n, emptyIdx % n;
    (Abs(row - er) == 1 && col == ec) || (Abs(col - ec) == 1 && row == er)
  }

  /** Whether tapping the tile showing `v` moves it. */
  ghost predicate IsLegalMove(n: nat, b: seq<int>, v: int)
    requires n > 0 && IsBoard(n, b) && v in b
  {
    assert 0 in b;
    Adjacent(n, IndexOf(b, v), IndexOf(b, 0))
  }

  /** The board after tapping `v`: tile and blank exchanged when the tap is
      legal, the board itself otherwise. */
  function Move(n: nat, b: seq<int>, v: int): (r: seq<int>)
    requires n > 0 && IsBoard(n, b) && v in b
    ensures IsBoard(n, r)
    ensures IsLegalMove(n, b, v) ==>
      && r[IndexOf(b, 0)] == v && r[IndexOf(b, v)] == 0
      && forall k :: 0 <= k < |b| && k != IndexOf(b, 0) && k != IndexOf(b, v) ==> r[k] == b[k]
    ensures !IsLegalMove(n, b, v) ==> r == b
  {
    assert 0 in b;
    var idx, emptyIdx := IndexOf(b, v), IndexOf(b, 0);
    if Adjacent(n, idx, emptyIdx) then
      SwapPreservesBoard(n, b, emptyIdx, idx);
      Swap(b, emptyIdx, idx)
    else
      b
  }

  /** The statement `tiles[i], tiles[j] = tiles[j], tiles[i]`. */
  function Swap(b: seq<int>, i: nat, j: nat): (r: seq<int>)
    requires i < |b| && j < |b|
    ensures |r| == |b| && r[i] == b[j] && r[j] == b[i]
    ensures forall k :: 0 <= k < |b| && k != i && k != j ==> r[k] == b[k]
    ensures multiset(r) == multiset(b)
  {
    b[i := b[j]][j := b[i]]
  }

  lemma SwapPreservesBoard(n: nat, b: seq<int>, i: nat, j: nat)
    requires IsBoard(n, b) && i < |b| && j < |b|
    ensures IsBoard(n, Swap(b, i, j))
  {
    var r := Swap(b, i, j);
    forall v | 0 <= v < n * n
      ensures v in r
    {
      var k := IndexOf(b, v);
      if k == i {
        assert r[j] == v;
      } else if k == j {
        assert r[i] == v;
      } else {
        assert r[k] == v;
      }
    }
  }

  /** On a board every value sits at exactly one position. */
  lemma IndexOfBoard(n: nat, b: seq<int>, k: nat)
    requires IsBoard(n, b) && k < |b|
    ensures IndexOf(b, b[k]) == k
  {
  }

  /** The move rule in terms of flat positions: a vertical neighbour is n
      cells away, a horizontal one is the next cell in the same row. Both
      directions of the equivalence hold. */
  lemma {:induction false} AdjacentFlat(n: nat, idx: nat, emptyIdx: nat)
    requires n > 0
    ensures Adjacent(n, idx, emptyIdx) <==>
      (Abs(idx - emptyIdx) == n || (Abs(idx - emptyIdx) == 1 && idx / n == emptyIdx / n))
  {
    var row, col := idx / n, idx % n;
    var er, ec := emptyIdx / n, emptyIdx % n;
    assert idx == n * row + col && emptyIdx == n * er + ec;
    if Abs(idx - emptyIdx) == n {
      if idx > emptyIdx {
        DivModUnique(idx, n, er + 1, ec);
      } else {
        DivModUnique(emptyIdx, n, row + 1, col);
      }
    }
    if col == ec && Abs(row - er) == 1 {
      if row > er {
        assert n * row == n * er + n;
      } else {
        assert n * er == n * row + n;
      }
    }
  }

  lemma DivModUnique(x: int, n: nat, q: int, r: int)
    requires n > 0 && x == n * q + r && 0 <= r < n
    ensures x / n == q && x % n == r
  {
    var d := x / n - q;
    assert n * d == r - x % n;
    MulBound(n, d);
  }

  /** One row further down: the row grows by one and the column stays. */
  lemma DivStep(x: nat, n: nat)
    requires n > 0
    ensures (x + n) / n == x / n + 1 && (x + n) % n == x % n
  {
    assert x + n == n * (x / n + 1) + x % n;
    DivModUnique(x + n, n, x / n + 1, x % n);
  }

  /** A cell of an n×n board lies in one of the rows 0 .. n-1. */
  lemma RowBound(x: nat, n: nat)
    requires n > 0
    ensures x < n * n ==> x / n < n
  {
    var q := x / n;
    assert x == n * q + x % n;
    MulBound(n, q - n + 1);
  }

  lemma MulBound(n: nat, d: int)
    ensures d >= 1 ==> n * d >= n
    ensures d <= -1 ==> n * d <= 0 - n
  {
  }

  /** The legality test is symmetric in the two cells. */
  lemma AdjacentSymmetric(n: nat, idx: nat, emptyIdx: nat)
    requires n > 0
    ensures Adjacent(n, idx, emptyIdx) == Adjacent(n, emptyIdx, idx)
  {
  }

  /** Diagonal neighbours and the blank itself are never legal. */
  lemma LegalNeverDiagonalOrBlank(n: nat, b: seq<int>, v: int)
    requires n > 0 && IsBoard(n, b) && v in b
    ensures IsLegalMove(n, b, v) ==> v != 0
    ensures 0 in b && IndexOf(b, v) / n != IndexOf(b, 0) / n && IndexOf(b, v) % n != IndexOf(b, 0) % n
      ==> !IsLegalMove(n, b, v)
  {
  }

  /** Tapping the same tile again undoes a move. */
  lemma MoveUndo(n: nat, b: seq<int>, v: int)
    requires n > 0 && IsBoard(n, b) && v in b
    ensures v in Move(n, b, v) && Move(n, Move(n, b, v), v) == b
  {
    assert 0 in b;
    var idx, emptyIdx := IndexOf(b, v), IndexOf(b, 0);
    var r := Move(n, b, v);
    if IsLegalMove(n, b, v) {
      assert r[emptyIdx] == v && r[idx] == 0;
      IndexOfBoard(n, r, emptyIdx);
      IndexOfBoard(n, r, idx);
      AdjacentSymmetric(n, idx, emptyIdx);
      assert Move(n, r, v) == Swap(r, idx, emptyIdx);
      assert Swap(r, idx, emptyIdx) == b;
    }
  }

  /** The board after a sequence of taps, each of a value on the board. */
  function Play(n: nat, b: seq<int>, taps: seq<int>): (r: seq<int>)
    requires n > 0 && IsBoard(n, b)
    requires forall k :: 0 <= k < |taps| ==> 0 <= taps[k] < n * n
    ensures IsBoard(n, r)
    decreases |taps|
  {
    if |taps| == 0 then b else Play(n, Move(n, b, taps[0]), taps[1..])
  }

  /** The winning layout: 1, 2, …, n·n-1 followed by the blank. */
  function Target(n: nat): (r: seq<int>)
    requires n > 0
    ensures |r| == n * n && r[n * n - 1] == 0
    ensures forall i :: 0 <= i < n * n - 1 ==> r[i] == i + 1
  {
    assert n * n >= 1 by { assert n * n >= n * 1; }
    seq(n * n - 1, i => i + 1) + [0]
  }

  /** `check_win`: the board is exactly the winning layout. */
  function CheckWin(n: nat, b: seq<int>): (won: bool)
    requires n > 0
    ensures won <==> |b| == n * n && b[n * n - 1] == 0 && forall i :: 0 <= i < n * n - 1 ==> b[i] == i + 1
  {
    var t := Target(n);
    assert |b| == n * n && b[n * n - 1] == 0 && (forall i :: 0 <= i < n * n - 1 ==> b[i] == i + 1) ==> b == t;
    b == t
  }

  /** The winning layout is a board. */
  lemma TargetIsBoard(n: nat)
    requires n > 0
    ensures IsBoard(n, Target(n))
  {
    var t := Target(n);
    forall v | 0 <= v < n * n
      ensures v in t
    {
      if v == 0 {
        assert t[n * n - 1] == v;
      } else {
        assert t[v - 1] == v;
      }
    }
  }
}
