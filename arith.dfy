/** Integer facts the tile arithmetic needs and the solver does not find alone
    (products of two variables, quotients by a variable). */
module Arith {

  lemma MulLe(a: int, b: int, c: int)
    requires a <= b && 0 <= c
    ensures a * c <= b * c
  {
    assert b * c - a * c == (b - a) * c;
  }

  lemma MulLt(a: int, b: int, c: int)
    requires a < b && 0 < c
    ensures a * c + c <= b * c
  {
    MulLe(a + 1, b, c);
    assert (a + 1) * c == a * c + c;
  }

  /** The quotient and remainder of x by d are the only q, r with x == q * d + r and 0 <= r < d
      (Dafny's `/` and `%`, which agree with Python's floor division when d > 0). */
  lemma DivModUnique(x: int, d: int, q: int, r: int)
    requires 0 < d && 0 <= r < d && x == q * d + r
    ensures x / d == q && x % d == r
  {
    var q', r' := x / d, x % d;
    assert x == q' * d + r';
    if q' < q {
      MulLt(q', q, d);
    } else if q < q' {
      MulLt(q, q', d);
    }
  }

  lemma DivMulExact(q: int, d: int)
    requires 0 < d
    ensures (q * d) / d == q && (q * d) % d == 0
  {
    DivModUnique(q * d, d, q, 0);
  }

  /** If q is the ceiling of a / b and r that of q / c, then r is that of a / (b * c). */
  lemma CeilChain(a: int, b: int, c: int, q: int, r: int)
    requires b > 0 && c > 0
    requires a <= q * b < a + b
    requires q <= r * c < q + c
    ensures a <= r * (b * c) < a + b * c
  {
    var rc := r * c;
    MulLe(q, rc, b);
    MulLe(rc, q + c - 1, b);
    var bc := b * c;
    assert rc * b == r * bc;
    assert (q + c - 1) * b == q * b + bc - b;
  }
}

/** Facts about sequences of integers: strictly increasing runs and ranges. */
module IntSeqs {

  ghost predicate Increasing(xs: seq<int>) {
    forall i, j :: 0 <= i < j < |xs| ==> xs[i] < xs[j]
  }

  ghost predicate Between(xs: seq<int>, lo: int, hi: int) {
    forall i :: 0 <= i < |xs| ==> lo <= xs[i] < hi
  }

  lemma IncreasingConcat(a: seq<int>, b: seq<int>, lo: int, mid: int, hi: int)
    requires Increasing(a) && Increasing(b) && Between(a, lo, mid) && Between(b, mid, hi)
    requires lo <= mid <= hi
    ensures Increasing(a + b) && Between(a + b, lo, hi)
  {
    var s := a + b;
    forall i, j | 0 <= i < j < |s|
      ensures s[i] < s[j]
    {
      if j < |a| {
        assert s[i] == a[i] && s[j] == a[j];
      } else if i >= |a| {
        assert s[i] == b[i - |a|] && s[j] == b[j - |a|];
      } else {
        assert s[i] == a[i] && s[j] == b[j - |a|];
      }
    }
  }

  /** Adding a constant to every element keeps the order and moves the range. */
  lemma IncreasingShifted(xs: seq<int>, ys: seq<int>, c: int, lo: int, hi: int)
    requires |ys| == |xs| && forall i :: 0 <= i < |xs| ==> ys[i] == xs[i] + c
    requires Increasing(xs) && Between(xs, lo, hi)
    ensures Increasing(ys) && Between(ys, lo + c, hi + c)
  {
  }

  /** A range inside a wider one. */
  lemma BetweenWiden(xs: seq<int>, lo: int, hi: int, lo2: int, hi2: int)
    requires Between(xs, lo, hi) && lo2 <= lo && hi <= hi2
    ensures Between(xs, lo2, hi2)
  {
  }

  lemma {:induction false} IncreasingGaps(xs: seq<int>, i: nat, j: nat)
    requires Increasing(xs) && i <= j < |xs|
    decreases j - i
    ensures xs[j] >= xs[i] + (j - i)
  {
    if i < j {
      IncreasingGaps(xs, i, j - 1);
    }
  }

  /** A strictly increasing sequence of n integers drawn from 1..n is 1, 2, ..., n. */
  lemma IncreasingFills(xs: seq<int>)
    requires Increasing(xs) && Between(xs, 1, |xs| + 1)
    ensures forall i :: 0 <= i < |xs| ==> xs[i] == i + 1
  {
    forall i | 0 <= i < |xs|
      ensures xs[i] == i + 1
    {
      IncreasingGaps(xs, 0, i);
      IncreasingGaps(xs, i, |xs| - 1);
    }
  }
}
