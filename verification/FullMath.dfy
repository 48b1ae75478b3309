/** Multiply-divide with both roundings (full_math.rs, unsafe_math.rs).
    Machine widths are explicit: a result outside its width is None. */
module FullMath {
  import opened Wrappers

  const U64_MAX: nat := 0xFFFF_FFFF_FFFF_FFFF
  const U128_MAX: nat := 0xFFFF_FFFF_FFFF_FFFF_FFFF_FFFF_FFFF_FFFF
  const U256_MAX: nat :=
    0xFFFF_FFFF_FFFF_FFFF_FFFF_FFFF_FFFF_FFFF_FFFF_FFFF_FFFF_FFFF_FFFF_FFFF_FFFF_FFFF
  const U128_MOD: nat := 0x1_0000_0000_0000_0000_0000_0000_0000_0000
  const I128_MAX: int := 0x7FFF_FFFF_FFFF_FFFF_FFFF_FFFF_FFFF_FFFF
  const Q64: nat := 0x1_0000_0000_0000_0000

  /** q is the quotient n / d rounded down. */
  predicate IsFloor(q: int, n: int, d: int) {
    q * d <= n < (q + 1) * d
  }

  /** q is the quotient n / d rounded up. */
  predicate IsCeil(q: int, n: int, d: int) {
    (q - 1) * d < n <= q * d
  }

  lemma FloorOfDiv(n: nat, d: nat)
    requires d > 0
    ensures IsFloor(n / d, n, d)
  {
    assert n == d * (n / d) + n % d;
  }

  lemma CeilOfDiv(n: nat, d: nat)
    requires d > 0
    ensures IsCeil((n + d - 1) / d, n, d)
  {
    FloorOfDiv(n + d - 1, d);
    var q := (n + d - 1) / d;
    assert (q + 1) * d == q * d + d;
    assert (q - 1) * d == q * d - d;
  }

  /** floor(a * b / d); the product must fit `wide`, the quotient `limit`. */
  function MulDivFloor(a: nat, b: nat, d: nat, wide: nat, limit: nat): (r: Option<nat>)
    ensures r.Some? ==> d > 0 && IsFloor(r.value, a * b, d) && r.value <= limit
  {
    if d == 0 || a * b > wide then None
    else
      FloorOfDiv(a * b, d);
      var q := a * b / d;
      if q > limit then None else Some(q)
  }

  /** ceil(a * b / d); the product plus d - 1 must fit `wide`, the quotient `limit`. */
  function MulDivCeil(a: nat, b: nat, d: nat, wide: nat, limit: nat): (r: Option<nat>)
    ensures r.Some? ==> d > 0 && IsCeil(r.value, a * b, d) && r.value <= limit
  {
    if d == 0 || a * b + (d - 1) > wide then None
    else
      CeilOfDiv(a * b, d);
      var q := (a * b + d - 1) / d;
      if q > limit then None else Some(q)
  }

  /** A floor is refused exactly when a width is exceeded. */
  lemma MulDivFloorFails(a: nat, b: nat, d: nat, wide: nat, limit: nat)
    ensures MulDivFloor(a, b, d, wide, limit).None? <==> d == 0 || a * b > wide || (limit + 1) * d <= a * b
  {
    if d > 0 {
      FloorOfDiv(a * b, d);
      FloorIsGreatest(a * b / d, a * b, d, limit + 1);
    }
  }

  lemma MulDivCeilFails(a: nat, b: nat, d: nat, wide: nat, limit: nat)
    ensures MulDivCeil(a, b, d, wide, limit).None? <==> d == 0 || a * b + (d - 1) > wide || limit * d < a * b
  {
    if d > 0 {
      CeilOfDiv(a * b, d);
      CeilIsLeast((a * b + d - 1) / d, a * b, d, limit);
    }
  }

  lemma ProductBound(a: nat, b: nat, c: nat, d: nat)
    requires a <= c && b <= d
    ensures a * b <= c * d
  {
    assert a * b <= c * b <= c * d;
  }

  lemma ScaledOrder(a: nat, b: nat, d: nat)
    ensures a <= b ==> a * d <= b * d
  {
  }

  // The three instances of the MulDiv trait: u64, U128 and U256 (whose result must fit 128 bits).

  function MulDivFloor64(a: nat, b: nat, d: nat): (r: Option<nat>)
  {
    MulDivFloor(a, b, d, U128_MAX, U64_MAX)
  }

  function MulDivCeil64(a: nat, b: nat, d: nat): (r: Option<nat>)
  {
    MulDivCeil(a, b, d, U128_MAX, U64_MAX)
  }

  function MulDivFloor128(a: nat, b: nat, d: nat): (r: Option<nat>)
  {
    MulDivFloor(a, b, d, U256_MAX, U128_MAX)
  }

  function MulDivCeil128(a: nat, b: nat, d: nat): (r: Option<nat>)
  {
    MulDivCeil(a, b, d, U256_MAX, U128_MAX)
  }

  /** Keeps a value below u64::MAX and replaces anything else by zero. */
  function ToUnderflow64(x: nat): (r: nat)
    ensures r <= x && r < U64_MAX
    ensures x < U64_MAX ==> r == x
  {
    if x < U64_MAX then x else 0
  }

  /** Quotient rounded up, computed from quotient and remainder. */
  function DivRoundingUp(x: nat, y: nat): (r: nat)
    requires y > 0
    ensures IsCeil(r, x, y)
  {
    assert x == y * (x / y) + x % y;
    var q := x / y;
    assert (q + 1) * y == q * y + y;
    assert (q - 1) * y == q * y - y;
    q + (if x % y > 0 then 1 else 0)
  }

  // Rounding a quotient twice is the same as rounding once by the product of the divisors.

  lemma NestedFloor(n: nat, b: nat, a: nat, m: nat, q: nat)
    requires a > 0 && b > 0
    requires IsFloor(m, n, b) && IsFloor(q, m, a)
    ensures IsFloor(q, n, a * b)
  {
    assert q * (a * b) == (q * a) * b;
    assert (q * a) * b <= m * b;
    assert m + 1 <= (q + 1) * a;
    assert (m + 1) * b <= ((q + 1) * a) * b;
    assert ((q + 1) * a) * b == (q + 1) * (a * b);
  }

  lemma NestedCeil(n: nat, b: nat, a: nat, m: nat, q: int)
    requires a > 0 && b > 0
    requires IsCeil(m, n, b) && IsCeil(q, m, a)
    ensures IsCeil(q, n, a * b)
  {
    assert m * b <= (q * a) * b;
    assert (q * a) * b == q * (a * b);
    assert (q - 1) * a <= m - 1;
    assert ((q - 1) * a) * b <= (m - 1) * b;
    assert ((q - 1) * a) * b == (q - 1) * (a * b);
  }

  /** An integer at most n / d is at most its floor; one below ceil(n / d) is strictly below n / d. */
  lemma FloorIsGreatest(q: int, n: int, d: int, x: int)
    requires d > 0 && IsFloor(q, n, d)
    ensures x * d <= n <==> x <= q
  {
    if x > q {
      assert (q + 1) * d <= x * d;
    } else {
      assert x * d <= q * d;
    }
  }

  lemma CeilIsLeast(q: int, n: int, d: int, x: int)
    requires d > 0 && IsCeil(q, n, d)
    ensures n <= x * d <==> q <= x
  {
    if x < q {
      assert x * d <= (q - 1) * d;
    } else {
      assert q * d <= x * d;
    }
  }
}
