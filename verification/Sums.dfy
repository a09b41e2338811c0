/** Finite sums of integers, used to account for weights and selections. */
module Sums {

  function Sum(xs: seq<int>): int {
    if xs == [] then 0 else Sum(xs[..|xs| - 1]) + xs[|xs| - 1]
  }

  lemma {:induction false} SumSnoc(xs: seq<int>, x: int)
    ensures Sum(xs + [x]) == Sum(xs) + x
  {
    assert (xs + [x])[..|xs|] == xs;
  }

  lemma {:induction false} SumUpdate(xs: seq<int>, i: nat, v: int)
    requires i < |xs|
    ensures Sum(xs[i := v]) == Sum(xs) - xs[i] + v
  {
    var n := |xs| - 1;
    if i == n {
      assert xs[i := v][..n] == xs[..n];
    } else {
      SumUpdate(xs[..n], i, v);
      assert xs[i := v][..n] == xs[..n][i := v];
    }
  }

  /** Sums of columns related pointwise are related in the same way. */
  lemma {:induction false} SumAdd(xs: seq<int>, ys: seq<int>, zs: seq<int>)
    requires |xs| == |ys| == |zs|
    requires forall i :: 0 <= i < |zs| ==> zs[i] == xs[i] + ys[i]
    ensures Sum(zs) == Sum(xs) + Sum(ys)
  {
    if zs != [] {
      var n := |zs| - 1;
      SumAdd(xs[..n], ys[..n], zs[..n]);
    }
  }

  lemma {:induction false} SumScale(xs: seq<int>, zs: seq<int>, a: int)
    requires |xs| == |zs|
    requires forall i :: 0 <= i < |zs| ==> zs[i] == a * xs[i]
    ensures Sum(zs) == a * Sum(xs)
  {
    if zs != [] {
      var n := |zs| - 1;
      SumScale(xs[..n], zs[..n], a);
      Distribute(a, Sum(xs[..n]), xs[n]);
    }
  }

  lemma Distribute(a: int, x: int, y: int)
    ensures a * (x + y) == a * x + a * y
  {
  }

  lemma {:induction false} SumAtLeast(xs: seq<int>, lo: int)
    requires forall i :: 0 <= i < |xs| ==> xs[i] >= lo
    ensures Sum(xs) >= |xs| * lo
  {
    if xs != [] {
      SumAtLeast(xs[..|xs| - 1], lo);
      assert |xs| * lo == (|xs| - 1) * lo + lo;
    }
  }

  lemma {:induction false} SumOfZeros(xs: seq<int>)
    requires forall i :: 0 <= i < |xs| ==> xs[i] == 0
    ensures Sum(xs) == 0
  {
    if xs != [] {
      SumOfZeros(xs[..|xs| - 1]);
    }
  }

  /** Columns that are pointwise ordered and have the same sum are equal. */
  lemma {:induction false} EqualByDomination(xs: seq<int>, ys: seq<int>)
    requires |xs| == |ys|
    requires forall i :: 0 <= i < |xs| ==> xs[i] <= ys[i]
    ensures Sum(xs) <= Sum(ys)
    ensures Sum(xs) == Sum(ys) ==> xs == ys
  {
    if xs != [] {
      var n := |xs| - 1;
      EqualByDomination(xs[..n], ys[..n]);
      assert xs[n] <= ys[n];
      if Sum(xs) == Sum(ys) {
        assert xs[..n] == ys[..n] && xs[n] == ys[n];
        assert xs == xs[..n] + [xs[n]] && ys == ys[..n] + [ys[n]];
      }
    }
  }

  /** Every element of a column of non-negative numbers is at most the sum. */
  lemma {:induction false} ElementAtMostSum(xs: seq<int>, i: nat)
    requires i < |xs|
    requires forall j :: 0 <= j < |xs| ==> xs[j] >= 0
    ensures 0 <= xs[i] <= Sum(xs)
  {
    SumUpdate(xs, i, 0);
    SumAtLeast(xs[i := 0], 0);
  }

  /** If every element is at most zero, so is the sum: a positive sum has a positive element. */
  lemma {:induction false} PositiveElement(xs: seq<int>) returns (i: nat)
    requires Sum(xs) > 0
    ensures i < |xs| && xs[i] > 0
  {
    var n := |xs| - 1;
    if xs[n] > 0 { i := n; } else { i := PositiveElement(xs[..n]); }
  }

  lemma ProductNonNegative(a: int, b: int)
    requires a >= 0 && b >= 0
    ensures a * b >= 0
  {
  }

  /** Multiplication by repeated addition: the form in which balances are kept over a run. */
  function Times(n: nat, x: int): int {
    if n == 0 then 0 else Times(n - 1, x) + x
  }

  lemma {:induction false} TimesIsProduct(n: nat, x: int)
    ensures Times(n, x) == n * x
  {
    if n > 0 {
      TimesIsProduct(n - 1, x);
    }
  }
}
