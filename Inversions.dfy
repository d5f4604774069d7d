/** Inversion counting over a sequence of integers, and how the count changes
    when one element moves past others. */
module InversionCount {

  /** How many elements of `t` are smaller than `x`. The recursion drops the
      last element, so each step matches one more `j` of the inner loop of
      `CountInversions`. */
  function CountLess(x: int, t: seq<int>): (r: nat)
    ensures r <= |t|
  {
    if |t| == 0 then 0 else CountLess(x, t[..|t| - 1]) + (if t[|t| - 1] < x then 1 else 0)
  }

  /** The number of pairs i < j with s[i] > s[j]. */
  function Inversions(s: seq<int>): nat
  {
    if |s| == 0 then 0 else CountLess(s[0], s[1..]) + Inversions(s[1..])
  }

  /** The nested loops of the solvability test: for each i, count the later j
      with s[i] > s[j]. */
  method CountInversions(s: seq<int>) returns (inv: nat)
    ensures inv == Inversions(s)
  {
    inv := 0;
    for i := 0 to |s|
      invariant inv + Inversions(s[i..]) == Inversions(s)
    {
      ghost var before := inv;
      for j := i + 1 to |s|
        invariant inv == before + CountLess(s[i], s[i + 1..j])
      {
        assert s[i + 1..j + 1][..j - i - 1] == s[i + 1..j];
        if s[i] > s[j] {
          inv := inv + 1;
        }
      }
      assert s[i..][1..] == s[i + 1..] == s[i + 1..|s|];
    }
  }

  lemma InversionsCons(x: int, t: seq<int>)
    ensures Inversions([x] + t) == CountLess(x, t) + Inversions(t)
  {
    assert ([x] + t)[1..] == t;
  }

  lemma {:induction false} CountLessConcat(x: int, t: seq<int>, u: seq<int>)
    ensures CountLess(x, t + u) == CountLess(x, t) + CountLess(x, u)
    decreases |u|
  {
    if |u| > 0 {
      assert (t + u)[..|t + u| - 1] == t + u[..|u| - 1];
      CountLessConcat(x, t, u[..|u| - 1]);
    } else {
      assert t + u == t;
    }
  }

  /** No element of `t` is smaller than `x`. */
  lemma {:induction false} CountLessNone(x: int, t: seq<int>)
    requires forall k :: 0 <= k < |t| ==> x <= t[k]
    ensures CountLess(x, t) == 0
    decreases |t|
  {
    if |t| > 0 {
      CountLessNone(x, t[..|t| - 1]);
    }
  }

  /** Exchanging two neighbouring distinct values changes the count by exactly one. */
  lemma {:induction false} AdjacentSwap(p: seq<int>, a: int, b: int, q: seq<int>)
    requires a < b
    ensures Inversions(p + [b, a] + q) == Inversions(p + [a, b] + q) + 1
    decreases |p|
  {
    if |p| == 0 {
      assert p + [b, a] + q == [b] + ([a] + q);
      assert p + [a, b] + q == [a] + ([b] + q);
      assert ([b] + ([a] + q))[1..] == [a] + q;
      assert ([a] + ([b] + q))[1..] == [b] + q;
      assert ([a] + q)[1..] == q;
      assert ([b] + q)[1..] == q;
      CountLessConcat(b, [a], q);
      CountLessConcat(a, [b], q);
      assert CountLess(b, [a]) == 1 by { assert [a][..0] == []; }
      assert CountLess(a, [b]) == 0 by { assert [b][..0] == []; }
    } else {
      var x, p' := p[0], p[1..];
      assert p + [b, a] + q == [x] + (p' + [b, a] + q);
      assert p + [a, b] + q == [x] + (p' + [a, b] + q);
      assert ([x] + (p' + [b, a] + q))[1..] == p' + [b, a] + q;
      assert ([x] + (p' + [a, b] + q))[1..] == p' + [a, b] + q;
      CountLessConcat(x, p' + [b, a], q);
      CountLessConcat(x, p', [b, a]);
      CountLessConcat(x, p' + [a, b], q);
      CountLessConcat(x, p', [a, b]);
      CountLessConcat(x, [a], [b]);
      CountLessConcat(x, [b], [a]);
      assert [a] + [b] == [a, b] && [b] + [a] == [b, a];
      AdjacentSwap(p', a, b, q);
    }
  }

  /** Moving `x` across the block `m` (none of whose values is `x`) changes the
      parity of the count by the parity of |m|. */
  lemma {:induction false} MoveAcross(p: seq<int>, x: int, m: seq<int>, q: seq<int>)
    requires x !in m
    ensures (Inversions(p + [x] + m + q) + Inversions(p + m + [x] + q) + |m|) % 2 == 0
    decreases |m|
  {
    if |m| == 0 {
      assert p + [x] + m + q == p + m + [x] + q;
    } else {
      var y, m' := m[0], m[1..];
      assert x != y;
      assert p + [x] + m + q == p + [x, y] + (m' + q);
      assert p + [y] + [x] + m' + q == p + [y, x] + (m' + q);
      if x < y {
        AdjacentSwap(p, x, y, m' + q);
      } else {
        AdjacentSwap(p, y, x, m' + q);
      }
      MoveAcross(p + [y], x, m', q);
      assert p + [y] + m' + [x] + q == p + m + [x] + q;
    }
  }

  /** An ascending run of consecutive integers has no inversions. */
  lemma {:induction false} AscendingNoInversions(lo: int, k: nat)
    ensures Inversions(seq(k, i => lo + i)) == 0
    decreases k
  {
    var s := seq(k, i => lo + i);
    if k > 0 {
      assert s[1..] == seq(k - 1, i => (lo + 1) + i);
      CountLessNone(lo, s[1..]);
      AscendingNoInversions(lo + 1, k - 1);
    }
  }
}
