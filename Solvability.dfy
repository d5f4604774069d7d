/** The parity test that decides whether a board can be solved, and the proof
    that no legal move changes its verdict. */
module Solvability {
  import opened InversionCount
  import opened Board

  /** The board without its blank, in board order. */
  function NonBlank(s: seq<int>): seq<int>
  {
    if |s| == 0 then [] else (if s[0] == 0 then [] else [s[0]]) + NonBlank(s[1..])
  }

  /** Filtering keeps exactly the non-blank values, in order: a sequence
      without a blank is returned unchanged, and no blank survives. */
  lemma {:induction false} NonBlankProperties(s: seq<int>)
    ensures 0 !in NonBlank(s)
    ensures 0 !in s ==> NonBlank(s) == s
    decreases |s|
  {
    if |s| > 0 {
      NonBlankProperties(s[1..]);
      assert s == [s[0]] + s[1..];
    }
  }

  /** The blank's row, counted from 1 at the top. */
  function BlankRow(n: nat, b: seq<int>): (row: nat)
    requires n > 0 && 0 in b
    ensures 1 <= row && (|b| <= n * n ==> row <= n)
  {
    RowBound(IndexOf(b, 0), n);
    IndexOf(b, 0) / n + 1
  }

  /** `is_solvable`: for odd n the inversions among the tiles are even; for
      even n the inversions plus the blank's row are even. */
  predicate Solvable(n: nat, b: seq<int>)
    requires n > 0 && 0 in b
  {
    ParityRule(n, Inversions(NonBlank(b)), BlankRow(n, b))
  }

  /** The final test of `is_solvable` on the inversion count and the blank's row. */
  predicate ParityRule(n: nat, inv: int, blankRow: int)
  {
    if n % 2 == 0 then (inv + blankRow) % 2 == 0 else inv % 2 == 0
  }

  lemma {:induction false} NonBlankConcat(s: seq<int>, t: seq<int>)
    ensures NonBlank(s + t) == NonBlank(s) + NonBlank(t)
    decreases |s|
  {
    if |s| == 0 {
      assert s + t == t;
    } else {
      assert (s + t)[1..] == s[1..] + t;
      NonBlankConcat(s[1..], t);
    }
  }

  /** Removing the blank from a board split around the blank and a tile. */
  lemma NonBlankAround(a: seq<int>, m: seq<int>, c: seq<int>, v: int)
    requires v != 0 && 0 !in m
    ensures NonBlank(a + [0] + m + [v] + c) == NonBlank(a) + m + [v] + NonBlank(c)
    ensures NonBlank(a + [v] + m + [0] + c) == NonBlank(a) + [v] + m + NonBlank(c)
  {
    assert NonBlank([0]) == [] by { assert [0][1..] == []; }
    assert NonBlank([v]) == [v] by { assert [v][1..] == []; }
    NonBlankProperties(m);
    var pa, pc := NonBlank(a), NonBlank(c);
    calc {
      NonBlank(a + [0] + m + [v] + c);
      { NonBlankConcat(a + [0] + m + [v], c); }
      NonBlank(a + [0] + m + [v]) + pc;
      { NonBlankConcat(a + [0] + m, [v]); }
      NonBlank(a + [0] + m) + [v] + pc;
      { NonBlankConcat(a + [0], m); }
      NonBlank(a + [0]) + m + [v] + pc;
      { NonBlankConcat(a, [0]); assert pa + [] == pa; }
      pa + m + [v] + pc;
    }
    calc {
      NonBlank(a + [v] + m + [0] + c);
      { NonBlankConcat(a + [v] + m + [0], c); }
      NonBlank(a + [v] + m + [0]) + pc;
      { NonBlankConcat(a + [v] + m, [0]); }
      NonBlank(a + [v] + m) + [] + pc;
      { assert NonBlank(a + [v] + m) + [] == NonBlank(a + [v] + m); }
      NonBlank(a + [v] + m) + pc;
      { NonBlankConcat(a + [v], m); }
      NonBlank(a + [v]) + m + pc;
      { NonBlankConcat(a, [v]); }
      pa + [v] + m + pc;
    }
  }

  /** The blank exchanged with the tile one cell to its right keeps the
      board without its blank and the blank's row; exchanged with the tile
      one row below, the tile passes the n - 1 tiles between and the blank
      goes one row down. */
  lemma SwapForward(n: nat, b: seq<int>, e: nat, t: nat)
    requires n > 0 && IsBoard(n, b)
    requires e < t < |b| && b[e] == 0
    requires t - e == n || (t - e == 1 && t / n == e / n)
    ensures IsBoard(n, Swap(b, e, t)) && 0 in b && 0 in Swap(b, e, t)
    ensures t - e == 1 ==>
      NonBlank(Swap(b, e, t)) == NonBlank(b) && BlankRow(n, Swap(b, e, t)) == BlankRow(n, b)
    ensures t - e == n ==>
      && BlankRow(n, Swap(b, e, t)) == BlankRow(n, b) + 1
      && (Inversions(NonBlank(Swap(b, e, t))) + Inversions(NonBlank(b)) + n - 1) % 2 == 0
  {
    SwapRows(n, b, e, t);
    if t - e == 1 {
      BetweenDistinct(n, b, e, t);
      SwapRight(b, e, t);
    } else {
      SwapDown(n, b, e, t);
    }
  }

  /** The exchange with the cell one row below. */
  lemma SwapDown(n: nat, b: seq<int>, e: nat, t: nat)
    requires n > 0 && IsBoard(n, b)
    requires t == e + n && t < |b| && b[e] == 0
    ensures 0 in b && 0 in Swap(b, e, t)
    ensures BlankRow(n, Swap(b, e, t)) == BlankRow(n, b) + 1
    ensures (Inversions(NonBlank(Swap(b, e, t))) + Inversions(NonBlank(b)) + n - 1) % 2 == 0
  {
    SwapDownRow(n, b, e, t);
    BetweenDistinct(n, b, e, t);
    SwapDownParity(n, b, e, t);
  }

  lemma SwapDownRow(n: nat, b: seq<int>, e: nat, t: nat)
    requires n > 0 && IsBoard(n, b)
    requires t == e + n && t < |b| && b[e] == 0
    ensures 0 in b && 0 in Swap(b, e, t)
    ensures BlankRow(n, Swap(b, e, t)) == BlankRow(n, b) + 1
  {
    SwapRows(n, b, e, t);
    assert t / n == e / n + 1 by { DivStep(e, n); }
  }

  lemma SwapDownParity(n: nat, b: seq<int>, e: nat, t: nat)
    requires t == e + n && t < |b| && b[e] == 0 && b[t] != 0
    requires 0 !in b[e + 1..t] && b[t] !in b[e + 1..t]
    ensures (Inversions(NonBlank(Swap(b, e, t))) + Inversions(NonBlank(b)) + n - 1) % 2 == 0
  {
    var x, y, k := Inversions(NonBlank(Swap(b, e, t))), Inversions(NonBlank(b)), |b[e + 1..t]|;
    assert (x + y + k) % 2 == 0 by { SwapInversionsSplit(b, e, t); }
    ParityShift(x, y, k, n);
  }

  lemma ParityShift(x: int, y: int, k: int, n: int)
    requires (x + y + k) % 2 == 0 && k == n - 1
    ensures (x + y + n - 1) % 2 == 0
  {
  }

  /** The exchange with the next cell keeps the board without its blank. */
  lemma SwapRight(b: seq<int>, e: nat, t: nat)
    requires t == e + 1 && t < |b| && b[e] == 0 && b[t] != 0
    ensures NonBlank(Swap(b, e, t)) == NonBlank(b)
  {
    assert b[e + 1..t] == [];
    NonBlankOfSplit(b, e, t);
  }

  /** The blank's row before and after the exchange. */
  lemma SwapRows(n: nat, b: seq<int>, e: nat, t: nat)
    requires n > 0 && IsBoard(n, b)
    requires e < t < |b| && b[e] == 0
    ensures IsBoard(n, Swap(b, e, t)) && 0 in b && 0 in Swap(b, e, t)
    ensures BlankRow(n, b) == e / n + 1 && BlankRow(n, Swap(b, e, t)) == t / n + 1
  {
    SwapSplit(n, b, e, t);
  }

  /** The arithmetic of the parity argument for a vertical move: the count's
      parity changes by n - 1 and the row by one. */
  lemma RowParity(n: nat, invB: int, invR: int, rowB: int, rowR: int)
    requires (invR + invB + n - 1) % 2 == 0
    requires Abs(rowR - rowB) == 1
    ensures ParityRule(n, invR, rowR) == ParityRule(n, invB, rowB)
  {
  }

  /** Where the blank is before and after the exchange. */
  lemma SwapSplit(n: nat, b: seq<int>, e: nat, t: nat)
    requires n > 0 && IsBoard(n, b)
    requires e < t < |b| && b[e] == 0
    ensures IsBoard(n, Swap(b, e, t))
    ensures IndexOf(b, 0) == e && IndexOf(Swap(b, e, t), 0) == t
  {
    SwapPreservesBoard(n, b, e, t);
    IndexOfBoard(n, b, e);
    IndexOfBoard(n, Swap(b, e, t), t);
  }

  /** The exchange moves the tile over the t - e - 1 cells between. */
  lemma SwapInversionsSplit(b: seq<int>, e: nat, t: nat)
    requires e < t < |b| && b[e] == 0 && b[t] != 0
    requires 0 !in b[e + 1..t] && b[t] !in b[e + 1..t]
    ensures (Inversions(NonBlank(Swap(b, e, t))) + Inversions(NonBlank(b)) + |b[e + 1..t]|) % 2 == 0
  {
    NonBlankOfSplit(b, e, t);
    ParityFromSplit(NonBlank(b), NonBlank(Swap(b, e, t)), NonBlank(b[..e]), b[t], b[e + 1..t], NonBlank(b[t + 1..]));
  }

  lemma ParityFromSplit(nb: seq<int>, nr: seq<int>, p: seq<int>, x: int, m: seq<int>, q: seq<int>)
    requires x !in m
    requires nb == p + m + [x] + q && nr == p + [x] + m + q
    ensures (Inversions(nr) + Inversions(nb) + |m|) % 2 == 0
  {
    MoveAcross(p, x, m, q);
  }

  /** The board without its blank, before and after the exchange. */
  lemma NonBlankOfSplit(b: seq<int>, e: nat, t: nat)
    requires e < t < |b| && b[e] == 0 && b[t] != 0
    requires 0 !in b[e + 1..t]
    ensures NonBlank(b) == NonBlank(b[..e]) + b[e + 1..t] + [b[t]] + NonBlank(b[t + 1..])
    ensures NonBlank(Swap(b, e, t)) == NonBlank(b[..e]) + [b[t]] + b[e + 1..t] + NonBlank(b[t + 1..])
  {
    SplitAt(b, e, t);
    NonBlankAround(b[..e], b[e + 1..t], b[t + 1..], b[t]);
  }

  /** The cells strictly between two cells hold neither of their values. */
  lemma BetweenDistinct(n: nat, b: seq<int>, e: nat, t: nat)
    requires IsBoard(n, b) && e < t < |b|
    ensures b[e] != b[t] && b[e] !in b[e + 1..t] && b[t] !in b[e + 1..t]
  {
    var m := b[e + 1..t];
    forall k | 0 <= k < |m| ensures m[k] != b[e] && m[k] != b[t] {
      assert m[k] == b[e + 1 + k];
    }
  }

  lemma SplitAt(b: seq<int>, e: nat, t: nat)
    requires e < t < |b|
    ensures b == b[..e] + [b[e]] + b[e + 1..t] + [b[t]] + b[t + 1..]
    ensures Swap(b, e, t) == b[..e] + [b[t]] + b[e + 1..t] + [b[e]] + b[t + 1..]
  {
  }

  /** The two shapes of a legal tap. A horizontal move keeps the order of
      the tiles and the blank's row. A vertical move takes the tile past the
      n - 1 tiles between, which changes the inversion count by n - 1 modulo
      2, and moves the blank one row up or down. */
  lemma MoveShape(n: nat, b: seq<int>, v: int)
    requires n > 0 && IsBoard(n, b) && v in b && IsLegalMove(n, b, v)
    ensures 0 in b && 0 in Move(n, b, v)
    ensures Abs(IndexOf(b, v) - IndexOf(b, 0)) == 1 || Abs(IndexOf(b, v) - IndexOf(b, 0)) == n
    ensures Abs(IndexOf(b, v) - IndexOf(b, 0)) == 1 ==>
      NonBlank(Move(n, b, v)) == NonBlank(b) && BlankRow(n, Move(n, b, v)) == BlankRow(n, b)
    ensures Abs(IndexOf(b, v) - IndexOf(b, 0)) == n ==>
      && Abs(BlankRow(n, Move(n, b, v)) - BlankRow(n, b)) == 1
      && (Inversions(NonBlank(Move(n, b, v))) + Inversions(NonBlank(b)) + n - 1) % 2 == 0
  {
    assert 0 in b;
    var idx, emptyIdx := IndexOf(b, v), IndexOf(b, 0);
    AdjacentFlat(n, idx, emptyIdx);
    if emptyIdx < idx {
      MoveShapeBlankFirst(n, b, v, emptyIdx, idx);
    } else {
      MoveShapeTileFirst(n, b, v, emptyIdx, idx);
    }
  }

  lemma MoveShapeBlankFirst(n: nat, b: seq<int>, v: int, e: nat, t: nat)
    requires n > 0 && IsBoard(n, b) && v in b && 0 in b
    requires e == IndexOf(b, 0) && t == IndexOf(b, v) && e < t
    requires t - e == n || (t - e == 1 && t / n == e / n)
    ensures IsBoard(n, Swap(b, e, t)) && 0 in b && 0 in Swap(b, e, t)
    ensures t - e == 1 ==>
      NonBlank(Swap(b, e, t)) == NonBlank(b) && BlankRow(n, Swap(b, e, t)) == BlankRow(n, b)
    ensures t - e == n ==>
      && Abs(BlankRow(n, Swap(b, e, t)) - BlankRow(n, b)) == 1
      && (Inversions(NonBlank(Swap(b, e, t))) + Inversions(NonBlank(b)) + n - 1) % 2 == 0
  {
    SwapForward(n, b, e, t);
  }

  lemma MoveShapeTileFirst(n: nat, b: seq<int>, v: int, e: nat, t: nat)
    requires n > 0 && IsBoard(n, b) && v in b && 0 in b
    requires e == IndexOf(b, 0) && t == IndexOf(b, v) && t < e
    requires e - t == n || (e - t == 1 && t / n == e / n)
    ensures IsBoard(n, Swap(b, e, t)) && 0 in b && 0 in Swap(b, e, t)
    ensures e - t == 1 ==>
      NonBlank(Swap(b, e, t)) == NonBlank(b) && BlankRow(n, Swap(b, e, t)) == BlankRow(n, b)
    ensures e - t == n ==>
      && Abs(BlankRow(n, Swap(b, e, t)) - BlankRow(n, b)) == 1
      && (Inversions(NonBlank(Swap(b, e, t))) + Inversions(NonBlank(b)) + n - 1) % 2 == 0
  {
    var r := Swap(b, e, t);
    SwapPreservesBoard(n, b, e, t);
    SwapForward(n, r, t, e);
    assert Swap(r, t, e) == b;
  }

  /** A legal tap never changes the verdict of the solvability test. */
  lemma MovePreservesSolvable(n: nat, b: seq<int>, v: int)
    requires n > 0 && IsBoard(n, b) && v in b
    ensures 0 in Move(n, b, v) && 0 in b
    ensures Solvable(n, Move(n, b, v)) == Solvable(n, b)
  {
    assert 0 in b;
    var r := Move(n, b, v);
    assert 0 in r;
    if IsLegalMove(n, b, v) {
      MoveShape(n, b, v);
      if Abs(IndexOf(b, v) - IndexOf(b, 0)) != 1 {
        RowParity(n, Inversions(NonBlank(b)), Inversions(NonBlank(r)), BlankRow(n, b), BlankRow(n, r));
      }
    }
  }

  /** Solvability is the same all along any sequence of taps. */
  lemma {:induction false} PlayPreservesSolvable(n: nat, b: seq<int>, taps: seq<int>)
    requires n > 0 && IsBoard(n, b)
    requires forall k :: 0 <= k < |taps| ==> 0 <= taps[k] < n * n
    ensures 0 in b && 0 in Play(n, b, taps)
    ensures Solvable(n, Play(n, b, taps)) == Solvable(n, b)
    decreases |taps|
  {
    assert 0 in b;
    if |taps| > 0 {
      MovePreservesSolvable(n, b, taps[0]);
      PlayPreservesSolvable(n, Move(n, b, taps[0]), taps[1..]);
    }
  }

  /** The winning layout passes the solvability test for every n. */
  lemma TargetSolvable(n: nat)
    requires n > 0
    ensures IsBoard(n, Target(n)) && Solvable(n, Target(n))
  {
    TargetIsBoard(n);
    TargetNonBlank(n);
    TargetBlankRow(n);
    AscendingNoInversions(1, n * n - 1);
  }

  lemma TargetNonBlank(n: nat)
    requires n > 0
    ensures n * n >= 1 && NonBlank(Target(n)) == seq(n * n - 1, i => 1 + i)
  {
    var t := Target(n);
    var asc := seq(n * n - 1, i => 1 + i);
    assert t == asc + [0];
    NonBlankConcat(asc, [0]);
    NonBlankProperties(asc);
    assert NonBlank([0]) == [] by { assert [0][1..] == []; }
  }

  lemma TargetBlankRow(n: nat)
    requires n > 0
    ensures 0 in Target(n) && BlankRow(n, Target(n)) == n
  {
    var t := Target(n);
    var k := n * n - 1;
    TargetIsBoard(n);
    IndexOfBoard(n, t, k);
    DivModUnique(k, n, n - 1, n - 1);
  }

  /** Every board reachable from the winning layout passes the test. */
  lemma ReachableFromTargetSolvable(n: nat, taps: seq<int>)
    requires n > 0
    requires forall k :: 0 <= k < |taps| ==> 0 <= taps[k] < n * n
    ensures IsBoard(n, Target(n)) && 0 in Play(n, Target(n), taps)
    ensures Solvable(n, Play(n, Target(n), taps))
  {
    TargetSolvable(n);
    PlayPreservesSolvable(n, Target(n), taps);
  }

  /** A board that fails the test can never be brought to the winning layout. */
  lemma UnsolvableNeverWins(n: nat, b: seq<int>, taps: seq<int>)
    requires n > 0 && IsBoard(n, b)
    requires forall k :: 0 <= k < |taps| ==> 0 <= taps[k] < n * n
    requires 0 in b && !Solvable(n, b)
    ensures !CheckWin(n, Play(n, b, taps))
  {
    TargetSolvable(n);
    PlayPreservesSolvable(n, b, taps);
  }
}
