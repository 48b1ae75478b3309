/** Powers of reals with whole exponents, and the powers of two with a sign. */
module RealPowers {

  function Pow(x: real, n: nat): real {
    if n == 0 then 1.0 else x * Pow(x, n - 1)
  }

  lemma {:induction false} PowPositive(x: real, n: nat)
    requires x > 0.0
    ensures Pow(x, n) > 0.0
  {
    if n > 0 {
      PowPositive(x, n - 1);
    }
  }

  lemma {:induction false} PowAdds(x: real, a: nat, b: nat)
    ensures Pow(x, a + b) == Pow(x, a) * Pow(x, b)
  {
    if a > 0 {
      PowAdds(x, a - 1, b);
      Associate(x, Pow(x, a - 1), Pow(x, b));
    }
  }

  lemma Associate(a: real, b: real, c: real)
    ensures (a * b) * c == a * (b * c)
  {
  }

  lemma {:induction false} PowOfProduct(x: real, y: real, n: nat)
    ensures Pow(x * y, n) == Pow(x, n) * Pow(y, n)
  {
    if n > 0 {
      PowOfProduct(x, y, n - 1);
      FourFactors(x, y, Pow(x, n - 1), Pow(y, n - 1));
    }
  }

  lemma FourFactors(a: real, b: real, c: real, d: real)
    ensures (a * b) * (c * d) == (a * c) * (b * d)
  {
  }

  lemma {:induction false} PowOfPow(x: real, a: nat, b: nat)
    ensures Pow(Pow(x, a), b) == Pow(x, a * b)
  {
    if b > 0 {
      PowOfPow(x, a, b - 1);
      assert a * b == a + a * (b - 1);
      PowAdds(x, a, a * (b - 1));
    }
  }

  lemma {:induction false} PowOfOne(n: nat)
    ensures Pow(1.0, n) == 1.0
  {
    if n > 0 {
      PowOfOne(n - 1);
    }
  }

  lemma Products(a: real, b: real, c: real, d: real)
    requires 0.0 <= a <= c && 0.0 <= b <= d
    ensures a * b <= c * d
  {
    assert a * b <= c * b;
    assert c * b <= c * d;
  }

  lemma {:induction false} PowMonotone(x: real, y: real, n: nat)
    requires 0.0 <= x <= y
    ensures 0.0 <= Pow(x, n) <= Pow(y, n)
  {
    if n > 0 {
      PowMonotone(x, y, n - 1);
      Products(x, Pow(x, n - 1), y, Pow(y, n - 1));
    }
  }

  /** Powers of a number within (0, 1] shrink. */
  lemma PowShrinks(x: real, a: nat, b: nat)
    requires 0.0 < x <= 1.0 && a <= b
    ensures 0.0 < Pow(x, b) <= Pow(x, a)
  {
    PowAdds(x, a, b - a);
    PowPositive(x, a);
    PowPositive(x, b);
    PowMonotone(x, 1.0, b - a);
    PowOfOne(b - a);
    Products(Pow(x, a), Pow(x, b - a), Pow(x, a), 1.0);
  }

  /** Bernoulli's inequality. */
  lemma {:induction false} Bernoulli(x: real, n: nat)
    requires 0.0 <= x <= 1.0
    ensures Pow(1.0 - x, n) >= 1.0 - (n as real) * x
  {
    if n > 0 {
      Bernoulli(x, n - 1);
      PowMonotone(0.0, 1.0 - x, n - 1);
      var p := Pow(1.0 - x, n - 1);
      var m := (n - 1) as real;
      assert p - x * p >= 1.0 - m * x - x by {
        PowMonotone(1.0 - x, 1.0, n - 1);
        PowOfOne(n - 1);
        Products(x, p, x, 1.0);
      }
      assert (1.0 - x) * p == p - x * p;
    }
  }

  /** Powers can be compared by their bases. */
  lemma Root(x: real, y: real, n: nat)
    requires x > 0.0 && y > 0.0 && n > 0 && Pow(x, n) <= Pow(y, n)
    ensures x <= y
  {
    if y < x {
      StrictlyMonotone(y, x, n);
    }
  }

  lemma {:induction false} StrictlyMonotone(x: real, y: real, n: nat)
    requires 0.0 < x < y && n > 0
    ensures Pow(x, n) < Pow(y, n)
  {
    PowMonotone(x, y, n - 1);
    PowPositive(x, n - 1);
    var a, b := Pow(x, n - 1), Pow(y, n - 1);
    assert x * a < y * a;
    assert y * a <= y * b;
  }

  /** 2^z. */
  function Two(z: int): (r: real)
    ensures r > 0.0
  {
    PowPositive(2.0, if z >= 0 then z else -z);
    if z >= 0 then Pow(2.0, z) else 1.0 / Pow(2.0, -z)
  }

  lemma TwoNext(z: int)
    ensures Two(z + 1) == 2.0 * Two(z)
  {
    if z < 0 {
      var p := Pow(2.0, -z - 1);
      PowPositive(2.0, -z - 1);
      assert Pow(2.0, -z) == 2.0 * p;
      HalfOf(p);
    }
  }

  lemma HalfOf(p: real)
    requires p > 0.0
    ensures 2.0 * (1.0 / (2.0 * p)) == 1.0 / p
  {
    var a := 1.0 / (2.0 * p);
    assert a * (2.0 * p) == 1.0;
    assert (2.0 * a) * p == 1.0;
  }

  lemma {:induction false} TwoAdds(a: int, b: int)
    ensures Two(a + b) == Two(a) * Two(b)
    decreases if b < 0 then -b else b
  {
    if b == 0 {
      assert Two(0) == 1.0;
    } else {
      hide Two;
      var lower := if b > 0 then b - 1 else b;
      TwoAdds(a, if b > 0 then b - 1 else b + 1);
      TwoNext(a + lower);
      TwoNext(lower);
      Swap(Two(a), Two(lower));
    }
  }

  lemma Swap(a: real, b: real)
    ensures a * (2.0 * b) == 2.0 * (a * b)
  {
  }

  lemma TwoGrows(a: int, b: int)
    requires a <= b
    ensures Two(a) <= Two(b)
  {
    TwoAdds(a, b - a);
    PowMonotone(1.0, 2.0, b - a);
    PowOfOne(b - a);
    Products(Two(a), 1.0, Two(a), Two(b - a));
  }

  /** (2^z)^n = 2^(z n). */
  lemma {:induction false} TwoOfProduct(z: int, n: nat)
    ensures Pow(Two(z), n) == Two(z * n)
  {
    if n > 0 {
      TwoOfProduct(z, n - 1);
      assert z * n == z + z * (n - 1);
      TwoAdds(z, z * (n - 1));
    } else {
      assert z * n == 0;
    }
  }
}
