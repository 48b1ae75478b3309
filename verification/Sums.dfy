/** Sums of a quantity over a list, in integers and in reals. The quantity is a function value, so
    that one set of lemmas serves liquidity, fee claims and token values alike. */
module Sums {

  ghost function Sum<T>(xs: seq<T>, f: T -> int): int {
    if xs == [] then 0 else Sum(xs[..|xs| - 1], f) + f(xs[|xs| - 1])
  }

  ghost function SumR<T>(xs: seq<T>, f: T -> real): real {
    if xs == [] then 0.0 else SumR(xs[..|xs| - 1], f) + f(xs[|xs| - 1])
  }

  lemma SumAppend<T>(xs: seq<T>, x: T, f: T -> int)
    ensures Sum(xs + [x], f) == Sum(xs, f) + f(x)
  {
    assert (xs + [x])[..|xs|] == xs;
  }

  lemma SumAppendR<T>(xs: seq<T>, x: T, f: T -> real)
    ensures SumR(xs + [x], f) == SumR(xs, f) + f(x)
  {
    assert (xs + [x])[..|xs|] == xs;
  }

  lemma {:induction false} SumUpdate<T>(xs: seq<T>, i: nat, x: T, f: T -> int)
    requires i < |xs|
    ensures Sum(xs[i := x], f) == Sum(xs, f) - f(xs[i]) + f(x)
  {
    var n := |xs| - 1;
    if i < n {
      SumUpdate(xs[..n], i, x, f);
      assert xs[i := x][..n] == xs[..n][i := x];
    } else {
      assert xs[i := x][..n] == xs[..n];
    }
  }

  lemma {:induction false} SumUpdateR<T>(xs: seq<T>, i: nat, x: T, f: T -> real)
    requires i < |xs|
    ensures SumR(xs[i := x], f) == SumR(xs, f) - f(xs[i]) + f(x)
  {
    var n := |xs| - 1;
    if i < n {
      SumUpdateR(xs[..n], i, x, f);
      assert xs[i := x][..n] == xs[..n][i := x];
    } else {
      assert xs[i := x][..n] == xs[..n];
    }
  }

  /** Termwise f <= g + c * h gives the same for the sums. */
  lemma {:induction false} SumBound<T>(xs: seq<T>, f: T -> int, g: T -> int, h: T -> int, c: int)
    requires forall x :: x in xs ==> f(x) <= g(x) + c * h(x)
    ensures Sum(xs, f) <= Sum(xs, g) + c * Sum(xs, h)
  {
    if xs != [] {
      var ys, y := xs[..|xs| - 1], xs[|xs| - 1];
      SumBound(ys, f, g, h, c);
      assert y in xs;
      assert c * Sum(xs, h) == c * Sum(ys, h) + c * h(y);
    }
  }

  lemma SumLinear<T>(xs: seq<T>, f: T -> int, g: T -> int, h: T -> int, c: int)
    requires forall x :: x in xs ==> f(x) == g(x) + c * h(x)
    ensures Sum(xs, f) == Sum(xs, g) + c * Sum(xs, h)
  {
    SumBound(xs, f, g, h, c);
    forall x | x in xs ensures g(x) <= f(x) + (-c) * h(x) {}
    SumBound(xs, g, f, h, -c);
    assert (-c) * Sum(xs, h) == -(c * Sum(xs, h));
  }

  lemma SumSame<T>(xs: seq<T>, f: T -> int, g: T -> int)
    requires forall x :: x in xs ==> f(x) == g(x)
    ensures Sum(xs, f) == Sum(xs, g)
  {
    SumLinear(xs, f, g, g, 0);
  }

  lemma {:induction false} SumLinearR<T>(xs: seq<T>, f: T -> real, g: T -> real, h: T -> int, c: real)
    requires forall x :: x in xs ==> f(x) == g(x) + c * (h(x) as real)
    ensures SumR(xs, f) == SumR(xs, g) + c * (Sum(xs, h) as real)
  {
    if xs != [] {
      var ys, y := xs[..|xs| - 1], xs[|xs| - 1];
      SumLinearR(ys, f, g, h, c);
      assert y in xs;
      assert c * (Sum(xs, h) as real) == c * (Sum(ys, h) as real) + c * (h(y) as real);
    }
  }

  /** Nonnegative terms: each is at most the sum. */
  lemma {:induction false} SumCovers<T>(xs: seq<T>, f: T -> int)
    requires forall x :: x in xs ==> 0 <= f(x)
    ensures 0 <= Sum(xs, f)
    ensures forall x :: x in xs ==> f(x) <= Sum(xs, f)
  {
    if xs != [] {
      var ys, y := xs[..|xs| - 1], xs[|xs| - 1];
      assert xs == ys + [y];
      SumCovers(ys, f);
    }
  }

  /** Termwise f <= g for reals, and if the sums agree then so does every term. */
  lemma {:induction false} SumMonotoneR<T>(xs: seq<T>, f: T -> real, g: T -> real)
    requires forall x :: x in xs ==> f(x) <= g(x)
    ensures SumR(xs, f) <= SumR(xs, g)
    ensures SumR(xs, f) == SumR(xs, g) ==> forall x :: x in xs ==> f(x) == g(x)
  {
    if xs != [] {
      var ys, y := xs[..|xs| - 1], xs[|xs| - 1];
      assert xs == ys + [y];
      SumMonotoneR(ys, f, g);
    }
  }

  lemma {:induction false} SumSameR<T>(xs: seq<T>, f: T -> real, g: T -> real)
    requires forall x :: x in xs ==> f(x) == g(x)
    ensures SumR(xs, f) == SumR(xs, g)
  {
    if xs != [] {
      var ys, y := xs[..|xs| - 1], xs[|xs| - 1];
      assert xs == ys + [y];
      SumSameR(ys, f, g);
    }
  }

  /** Replacing one element: every other term stays within its old bound, and so does the new one. */
  lemma {:induction false} SumUpdateBound<T>(xs: seq<T>, i: nat, x: T, f: T -> int, g: T -> int)
    requires i < |xs| && f(x) <= g(xs[i])
    requires forall j :: 0 <= j < |xs| && j != i ==> f(xs[j]) <= g(xs[j])
    ensures Sum(xs[i := x], f) <= Sum(xs, g)
  {
    var n := |xs| - 1;
    if i < n {
      SumUpdateBound(xs[..n], i, x, f, g);
      assert xs[i := x][..n] == xs[..n][i := x];
    } else {
      assert xs[i := x][..n] == xs[..n];
      forall y | y in xs[..n] ensures f(y) <= g(y) + 0 * f(y) {
        var j :| 0 <= j < n && xs[j] == y;
      }
      SumBound(xs[..n], f, g, f, 0);
    }
  }
}
