/** The prices of the ticks measured against exact powers (tick_math.rs): a tick's price is a power of the
    first factor up to a hundredth of a tick, and the factor that changes the base of the logarithm is
    right to far less than that. */
module TickLogarithm {
  import opened FullMath
  import opened Powers
  import opened TickMath
  import opened RealPowers

  /** Bounds of the first factor that leave room for the rounding of all the others. */
  const LOW: real := 0.99995000374968727699
  const HIGH: real := 0.99995000374968807696

  /** What one truncation can lose. */
  const KEPT: real := 0.999999986

  const UNIT: real := 18446744073709551616.0

  // The three numbers of the conversion: ticks per 2^-16 of the logarithm, and the two margins.
  const PER_STEP: nat := 59543866431248 * 0x1_0000
  const MARGIN_LOW: nat := 184467440737095516
  const MARGIN_HIGH: nat := 15793534762490258745

  /** Between HALVES and HALVES + 1 factors make up 2^DOUBLINGS. */
  const DOUBLINGS: nat := 76800
  const HALVES: nat := 1064727302
  const SCALE: nat := 5033164800

  // ---------------------------------------------------------------------------------------------
  // The factors are powers of the first

  function MagicReal(i: nat): real
    requires i < 19
  {
    Magic(i) as real / UNIT
  }

  lemma MagicSquares(i: nat)
    requires i < 18
    ensures MagicReal(i + 1) <= 1.0000000000000004 * (MagicReal(i) * MagicReal(i))
    ensures MagicReal(i + 1) >= (if i < 17 then 0.9999999999999996 else 0.99999999999) * (MagicReal(i) * MagicReal(i))
    ensures MagicReal(i) > 0.0
  {
  }

  lemma FirstMagic()
    ensures LOW <= 0.9999999999999996 * MagicReal(0) && 1.0000000000000004 * MagicReal(0) <= HIGH
  {
  }

  lemma SquareScaled(c: real, x: real)
    ensures c * (c * (x * x)) == (c * x) * (c * x)
  {
  }

  lemma {:induction false} MagicAbove(i: nat)
    requires i < 18
    ensures 0.9999999999999996 * MagicReal(i) >= Pow(LOW, Pow2(i)) > 0.0
  {
    hide MagicReal, Pow;
    PowPositive(LOW, Pow2(i));
    FirstMagic();
    if i == 0 {
      FirstPower(LOW);
    } else {
      MagicAbove(i - 1);
      MagicSquares(i - 1);
      var c, p := 0.9999999999999996, Pow(LOW, Pow2(i - 1));
      PowAdds(LOW, Pow2(i - 1), Pow2(i - 1));
      Products(p, p, c * MagicReal(i - 1), c * MagicReal(i - 1));
      SquareScaled(c, MagicReal(i - 1));
    }
  }

  lemma FirstPower(x: real)
    ensures Pow(x, 1) == x && Pow(x, 0) == 1.0
  {
    assert Pow(x, 1) == x * Pow(x, 0);
  }

  lemma {:induction false} MagicBelow(i: nat)
    requires i < 19
    ensures 0.0 < 1.0000000000000004 * MagicReal(i) <= Pow(HIGH, Pow2(i))
  {
    hide MagicReal, Pow;
    FirstMagic();
    if i == 0 {
      FirstPower(HIGH);
      MagicSquares(0);
    } else {
      MagicBelow(i - 1);
      MagicSquares(i - 1);
      var d, p := 1.0000000000000004, Pow(HIGH, Pow2(i - 1));
      PowAdds(HIGH, Pow2(i - 1), Pow2(i - 1));
      Products(d * MagicReal(i - 1), d * MagicReal(i - 1), p, p);
      SquareScaled(d, MagicReal(i - 1));
      MagicPositive(i);
    }
  }

  lemma MagicPositive(i: nat)
    requires i < 19
    ensures 0.0 < MagicReal(i) < 1.0
  {
  }

  /** Every factor is at least its power of LOW, up to the loss that one truncation may cause. */
  lemma FactorAbove(i: nat)
    requires i < 19
    ensures MagicReal(i) >= 0.99999999999 * Pow(LOW, Pow2(i)) && Pow(LOW, Pow2(i)) > 0.0
  {
    hide MagicReal, Pow;
    PowPositive(LOW, Pow2(i));
    if i < 18 {
      MagicAbove(i);
    } else {
      MagicAbove(17);
      MagicSquares(17);
      var p := Pow(LOW, Pow2(17));
      PowAdds(LOW, Pow2(17), Pow2(17));
      Products(p, p, MagicReal(17), MagicReal(17));
    }
  }

  // ---------------------------------------------------------------------------------------------
  // The ratio of a tick

  /** One factor multiplied in and truncated. */
  lemma FactorKept(r: nat, i: nat)
    requires i < 19 && r >= AllOnes(i)
    ensures var r' := r * Magic(i) / Q64;
            && r' as real <= (r as real) * MagicReal(i)
            && r' as real >= KEPT * ((r as real) * Pow(LOW, Pow2(i)))
  {
    hide Magic, AllOnes, MagicReal, Pow;
    var r', y, p := r * Magic(i) / Q64, (r as real) * MagicReal(i), Pow(LOW, Pow2(i));
    StaysAbove(r, true, i);
    OnesAtLeast(i + 1);
    FactorAbove(i);
    RealQuotient(r, i);
    assert r' as real <= y < r' as real + 1.0;
    assert r' as real >= 76162531.0;
    assert y >= 0.99999999999 * ((r as real) * p) by {
      Products(r as real, 0.99999999999 * p, r as real, MagicReal(i));
      Move(r as real, 0.99999999999, p);
    }
  }

  lemma Move(a: real, b: real, c: real)
    ensures a * (b * c) == b * (a * c)
  {
  }

  lemma RealQuotient(r: nat, i: nat)
    requires i < 19
    ensures (r * Magic(i) / Q64) as real <= (r as real) * MagicReal(i) < (r * Magic(i) / Q64) as real + 1.0
  {
    hide Magic;
    var m, q := Magic(i), r * Magic(i) / Q64;
    FloorOfDiv(r * m, Q64);
    assert (q * Q64) as real == (q as real) * UNIT;
    assert (r * m) as real == (r as real) * (m as real);
    Over(r as real, m as real);
  }

  lemma Over(a: real, b: real)
    ensures (a * (b / UNIT)) * UNIT == a * b
  {
    assert (b / UNIT) * UNIT == b;
    Associate(a, b / UNIT, UNIT);
  }

  lemma OnesAtLeast(i: nat)
    requires i <= 19
    ensures AllOnes(i) >= 76162531
  {
  }

  lemma HalfOfExponent(n: nat, i: nat)
    ensures n / 2 * Pow2(i + 1) + (if n % 2 == 1 then Pow2(i) else 0) == n * Pow2(i)
  {
    hide Pow2;
    var h, q := n / 2, Pow2(i);
    assert Pow2(i + 1) == 2 * q by { PowerDoubles(i); }
    assert n == 2 * h + n % 2;
    assert h * (2 * q) == (2 * h) * q;
    assert n * q == (2 * h) * q + (n % 2) * q;
  }

  lemma Pow2Zero()
    ensures Pow2(0) == 1
  {
  }

  lemma PowerDoubles(i: nat)
    ensures Pow2(i + 1) == 2 * Pow2(i)
  {
  }

  lemma {:induction false} RatioAtLeast(r: nat, n: nat, i: nat)
    requires i <= 19 && r >= AllOnes(i)
    ensures RatioFrom(r, n, i) as real >= (r as real) * (Pow(LOW, n * Pow2(i)) * Pow(KEPT, 19 - i))
    decreases 19 - i
  {
    hide Magic, AllOnes, RatioFrom, Pow, Pow2;
    if i == 19 {
      RatioAtEnd(r, n);
    } else {
      var r' := if n % 2 == 1 then r * Magic(i) / Q64 else r;
      FactorStep(r, n, i, r', n / 2);
      StaysAbove(r, n % 2 == 1, i);
      RatioAtLeast(r', n / 2, i + 1);
      if n % 2 == 1 {
        FactorKept(r, i);
      }
      FactorAtLeast(r as real, r' as real, n, i);
    }
  }

  lemma RatioAtEnd(r: nat, n: nat)
    ensures RatioFrom(r, n, 19) as real >= (r as real) * (Pow(LOW, n * Pow2(19)) * Pow(KEPT, 0))
  {
    hide Pow, Pow2;
    FirstPower(KEPT);
    FirstPower(LOW);
    PowShrinks(LOW, 0, n * Pow2(19));
    Products(r as real, Pow(LOW, n * Pow2(19)), r as real, 1.0);
  }

  lemma FactorAtLeast(r: real, r': real, n: nat, i: nat)
    requires i < 19 && r >= 0.0 && if n % 2 == 1 then r' >= KEPT * (r * Pow(LOW, Pow2(i))) else r' == r
    ensures r' * (Pow(LOW, n / 2 * Pow2(i + 1)) * Pow(KEPT, 18 - i)) >= r * (Pow(LOW, n * Pow2(i)) * Pow(KEPT, 19 - i))
  {
    hide Pow, Pow2;
    LowSplits(n, i);
    KeptSplits(i);
    var x, k, x', k' := Pow(LOW, n * Pow2(i)), Pow(KEPT, 19 - i), Pow(LOW, n / 2 * Pow2(i + 1)), Pow(KEPT, 18 - i);
    if n % 2 == 1 {
      PowPositive(LOW, Pow2(i));
      OddAtLeast(r, r', Pow(LOW, Pow2(i)), x', k', x, k);
    } else {
      EvenAtLeast(r, x, k', k);
    }
  }

  lemma LowSplits(n: nat, i: nat)
    ensures Pow(LOW, n / 2 * Pow2(i + 1)) > 0.0
    ensures Pow(LOW, n * Pow2(i)) == if n % 2 == 1 then Pow(LOW, n / 2 * Pow2(i + 1)) * Pow(LOW, Pow2(i)) else Pow(LOW, n / 2 * Pow2(i + 1))
  {
    hide Pow, Pow2;
    HalfOfExponent(n, i);
    PowPositive(LOW, n / 2 * Pow2(i + 1));
    PowAdds(LOW, n / 2 * Pow2(i + 1), Pow2(i));
  }

  lemma KeptSplits(i: nat)
    requires i < 19
    ensures Pow(KEPT, 18 - i) > 0.0 && Pow(KEPT, 19 - i) == KEPT * Pow(KEPT, 18 - i)
  {
    PowPositive(KEPT, 18 - i);
  }

  lemma OddAtLeast(r: real, r': real, p: real, x': real, k': real, x: real, k: real)
    requires r >= 0.0 && p > 0.0 && x' > 0.0 && k' > 0.0 && r' >= KEPT * (r * p)
    requires x == x' * p && k == KEPT * k'
    ensures r' * (x' * k') >= r * (x * k)
  {
    Nonnegative(r, p, x', k');
    Products(KEPT * (r * p), x' * k', r', x' * k');
    Rearranged(r, p, x', k');
  }

  lemma EvenAtLeast(r: real, x: real, k': real, k: real)
    requires r >= 0.0 && x > 0.0 && k' > 0.0 && k == KEPT * k'
    ensures r * (x * k') >= r * (x * k)
  {
    Products(x, k, x, k');
    Products(r, x * k, r, x * k');
  }

  lemma Nonnegative(r: real, p: real, x: real, k: real)
    requires r >= 0.0 && p > 0.0 && x > 0.0 && k > 0.0
    ensures 0.0 <= KEPT * (r * p) && 0.0 <= x * k
  {
  }

  lemma Rearranged(r: real, p: real, x: real, k: real)
    ensures (KEPT * (r * p)) * (x * k) == r * ((x * p) * (KEPT * k))
  {
    FourFactors(KEPT, k, r * p, x);
    assert (r * p) * x == r * (x * p);
    FourFactors(KEPT, r, k, x * p);
    Rest(r, x * p, k);
  }

  lemma Rest(r: real, y: real, k: real)
    ensures (KEPT * k) * (r * y) == r * (y * (KEPT * k))
  {
  }

  lemma {:induction false} RatioAtMost(r: nat, n: nat, i: nat)
    requires i <= 19 && n < Pow2(19 - i)
    ensures RatioFrom(r, n, i) as real <= (r as real) * Pow(HIGH, n * Pow2(i))
    decreases 19 - i
  {
    hide Magic, RatioFrom, Pow, Pow2;
    if i == 19 {
      Pow2Zero();
      RatioEnd(r);
      FirstPower(HIGH);
    } else {
      var r' := if n % 2 == 1 then r * Magic(i) / Q64 else r;
      FactorStep(r, n, i, r', n / 2);
      PowerDoubles(18 - i);
      RatioAtMost(r', n / 2, i + 1);
      if n % 2 == 1 {
        FactorCut(r, i);
      }
      FactorAtMost(r as real, r' as real, n, i);
    }
  }

  lemma FactorCut(r: nat, i: nat)
    requires i < 19
    ensures (r * Magic(i) / Q64) as real <= (r as real) * Pow(HIGH, Pow2(i))
  {
    hide Magic, Pow, Pow2, MagicReal;
    RealQuotient(r, i);
    MagicBelow(i);
    MagicPositive(i);
    Products(r as real, MagicReal(i), r as real, Pow(HIGH, Pow2(i)));
  }

  lemma FactorAtMost(r: real, r': real, n: nat, i: nat)
    requires i < 19 && 0.0 <= r' && if n % 2 == 1 then r' <= r * Pow(HIGH, Pow2(i)) else r' == r
    ensures r' * Pow(HIGH, n / 2 * Pow2(i + 1)) <= r * Pow(HIGH, n * Pow2(i))
  {
    hide Pow, Pow2;
    HalfOfExponent(n, i);
    var e := n / 2 * Pow2(i + 1);
    PowPositive(HIGH, e);
    if n % 2 == 1 {
      PowAdds(HIGH, e, Pow2(i));
      OddAtMost(r, r', Pow(HIGH, Pow2(i)), Pow(HIGH, e), Pow(HIGH, n * Pow2(i)));
    }
  }

  lemma OddAtMost(r: real, r': real, p: real, x': real, x: real)
    requires x' > 0.0 && 0.0 <= r' <= r * p && x == x' * p
    ensures r' * x' <= r * x
  {
    Products(r', x', r * p, x');
    Associate(r, p, x');
  }

  // ---------------------------------------------------------------------------------------------
  // How many factors make up a power of two

  function Mixed(x: real, n: nat, m: nat): real {
    Pow(x, n) * Pow(2.0, m)
  }

  function Bound(x: real, a: real, one: bool, two: bool): real {
    (a * a) * ((if one then x else 1.0) * (if two then 2.0 else 1.0))
  }

  lemma MixedDouble(x: real, n: nat, m: nat, one: bool, two: bool)
    requires x > 0.0
    ensures Mixed(x, 2 * n + (if one then 1 else 0), 2 * m + (if two then 1 else 0)) == Bound(x, Mixed(x, n, m), one, two)
    ensures Mixed(x, n, m) > 0.0
  {
    hide Pow;
    PowPositive(x, n);
    PowPositive(2.0, m);
    FirstPower(x);
    FirstPower(2.0);
    PowAdds(x, n, n);
    PowAdds(2.0, m, m);
    PowAdds(x, 2 * n, if one then 1 else 0);
    PowAdds(2.0, 2 * m, if two then 1 else 0);
    var a, b := Pow(x, n), Pow(2.0, m);
    FourFactors(a, b, a, b);
    FourFactors(a * a, if one then x else 1.0, b * b, if two then 2.0 else 1.0);
  }

  lemma DoubleLow(x: real, n: nat, m: nat, a: real, one: bool, two: bool, a': real)
    requires x > 0.0 && 0.0 <= a <= Mixed(x, n, m) && a' <= Bound(x, a, one, two)
    ensures a' <= Mixed(x, 2 * n + (if one then 1 else 0), 2 * m + (if two then 1 else 0))
  {
    hide Mixed;
    MixedDouble(x, n, m, one, two);
    var z := Mixed(x, n, m);
    Products(a, a, z, z);
    Products(a * a, (if one then x else 1.0) * (if two then 2.0 else 1.0), z * z, (if one then x else 1.0) * (if two then 2.0 else 1.0));
  }

  lemma DoubleHigh(x: real, n: nat, m: nat, a: real, one: bool, two: bool, a': real)
    requires x > 0.0 && Mixed(x, n, m) <= a && Bound(x, a, one, two) <= a'
    ensures Mixed(x, 2 * n + (if one then 1 else 0), 2 * m + (if two then 1 else 0)) <= a'
  {
    hide Mixed;
    MixedDouble(x, n, m, one, two);
    var z := Mixed(x, n, m);
    Products(z, z, a, a);
    Products(z * z, (if one then x else 1.0) * (if two then 2.0 else 1.0), a * a, (if one then x else 1.0) * (if two then 2.0 else 1.0));
  }

  lemma MixedOne(x: real)
    ensures Mixed(x, 1, 0) == x
  {
    hide Pow;
    FirstPower(x);
    FirstPower(2.0);
  }

  /** LOW^HALVES * 2^DOUBLINGS is at least one. */
  lemma LowPair()
    ensures Mixed(LOW, HALVES, DOUBLINGS) >= 1.0
  {
    hide Mixed;
    MixedOne(LOW);
    DoubleLow(LOW, 1, 0, 0.99995000374968727699, true, false, 0.99985001874781199508);
    DoubleLow(LOW, 3, 0, 0.99985001874781199508, true, false, 0.99965007873556309379);
    DoubleLow(LOW, 7, 0, 0.99965007873556309379, true, false, 0.99925031864908523732);
    DoubleLow(LOW, 15, 0, 0.99925031864908523732, true, false, 0.99845127800439961225);
    DoubleLow(LOW, 31, 0, 0.99845127800439961225, true, false, 0.99685511303897327444);
    DoubleLow(LOW, 63, 0, 0.99685511303897327444, false, false, 0.99372011639194418479);
    DoubleLow(LOW, 126, 0, 0.99372011639194418479, true, false, 0.98743029944127295059);
    DoubleLow(LOW, 253, 0, 0.98743029944127295059, true, false, 0.97496984898088405538);
    DoubleLow(LOW, 507, 0, 0.97496984898088405538, true, false, 0.95051868167581278148);
    DoubleLow(LOW, 1015, 0, 0.95051868167581278148, false, false, 0.90348576421472510876);
    DoubleLow(LOW, 2030, 0, 0.90348576421472510876, true, false, 0.81624571487317812206);
    DoubleLow(LOW, 4061, 0, 0.81624571487317812206, true, false, 0.66622375669372880238);
    DoubleLow(LOW, 8123, 0, 0.66622375669372880238, false, true, 0.88770818796620950643);
    DoubleLow(LOW, 16246, 1, 0.88770818796620950643, false, false, 0.78802582698225114836);
    DoubleLow(LOW, 32492, 2, 0.78802582698225114836, true, false, 0.62095365708435971273);
    DoubleLow(LOW, 64985, 4, 0.62095365708435971273, true, true, 0.77112833304009121266);
    DoubleLow(LOW, 129971, 9, 0.77112833304009121266, true, false, 0.59460917630159890977);
    DoubleLow(LOW, 259943, 18, 0.59460917630159890977, false, true, 0.70712014508413186906);
    DoubleLow(LOW, 519886, 37, 0.70712014508413186906, false, true, 1.00003779916760740780);
    DoubleLow(LOW, 1039772, 75, 1.00003779916760740780, true, false, 1.00002559973397444028);
    DoubleLow(LOW, 2079545, 150, 1.00002559973397444028, true, false, 1.00000120131316835680);
    DoubleLow(LOW, 4159091, 300, 1.00000120131316835680, false, false, 1.00000240262777986692);
    DoubleLow(LOW, 8318182, 600, 1.00000240262777986692, false, false, 1.00000480526133235408);
    DoubleLow(LOW, 16636364, 1200, 1.00000480526133235408, false, false, 1.00000961054575524463);
    DoubleLow(LOW, 33272728, 2400, 1.00000961054575524463, false, false, 1.00001922118387307897);
    DoubleLow(LOW, 66545456, 4800, 1.00001922118387307897, false, false, 1.00003844273720006742);
    DoubleLow(LOW, 133090912, 9600, 1.00003844273720006742, true, false, 1.00002688685787214508);
    DoubleLow(LOW, 266181825, 19200, 1.00002688685787214508, true, false, 1.00000377549981439834);
    DoubleLow(LOW, 532363651, 38400, 1.00000377549981439834, false, false, 1.00000755101388319552);
  }

  /** HIGH^(HALVES + 1) * 2^DOUBLINGS is at most one. */
  lemma HighPair()
    ensures Mixed(HIGH, HALVES + 1, DOUBLINGS) <= 1.0
  {
    hide Mixed;
    MixedOne(HIGH);
    DoubleHigh(HIGH, 1, 0, 0.99995000374968807696, true, false, 0.99985001874781439476);
    DoubleHigh(HIGH, 3, 0, 0.99985001874781439476, true, false, 0.99965007873556869193);
    DoubleHigh(HIGH, 7, 0, 0.99965007873556869193, true, false, 0.99925031864909722854);
    DoubleHigh(HIGH, 15, 0, 0.99925031864909722854, true, false, 0.99845127800442437429);
    DoubleHigh(HIGH, 31, 0, 0.99845127800442437429, true, false, 0.99685511303902351685);
    DoubleHigh(HIGH, 63, 0, 0.99685511303902351685, false, false, 0.99372011639204435360);
    DoubleHigh(HIGH, 126, 0, 0.99372011639204435360, true, false, 0.98743029944147281012);
    DoubleHigh(HIGH, 253, 0, 0.98743029944147281012, true, false, 0.97496984898127951035);
    DoubleHigh(HIGH, 507, 0, 0.97496984898127951035, true, false, 0.95051868167658461671);
    DoubleHigh(HIGH, 1015, 0, 0.95051868167658461671, false, false, 0.90348576421619239638);
    DoubleHigh(HIGH, 2030, 0, 0.90348576421619239638, true, false, 0.81624571487582998948);
    DoubleHigh(HIGH, 4061, 0, 0.81624571487582998948, true, false, 0.66622375669805826977);
    DoubleHigh(HIGH, 8123, 0, 0.66622375669805826977, false, true, 0.88770818797774708255);
    DoubleHigh(HIGH, 16246, 1, 0.88770818797774708255, false, false, 0.78802582700273514995);
    DoubleHigh(HIGH, 32492, 2, 0.78802582700273514995, true, false, 0.62095365711664244003);
    DoubleHigh(HIGH, 64985, 4, 0.62095365711664244003, true, true, 0.77112833312027213098);
    DoubleHigh(HIGH, 129971, 9, 0.77112833312027213098, true, false, 0.59460917642525275874);
    DoubleHigh(HIGH, 259943, 18, 0.59460917642525275874, false, true, 0.70712014537823472223);
    DoubleHigh(HIGH, 519886, 37, 0.70712014537823472223, false, true, 1.00003779999947161680);
    DoubleHigh(HIGH, 1039772, 75, 1.00003779999947161680, true, false, 1.00002560139768336323);
    DoubleHigh(HIGH, 2079545, 150, 1.00002560139768336323, true, false, 1.00000120464050582382);
    DoubleHigh(HIGH, 4159091, 300, 1.00000120464050582382, false, false, 1.00000240928246280639);
    DoubleHigh(HIGH, 8318182, 600, 1.00000240928246280639, false, false, 1.00000481857073025477);
    DoubleHigh(HIGH, 16636364, 1200, 1.00000481857073025477, false, false, 1.00000963716467913343);
    DoubleHigh(HIGH, 33272728, 2400, 1.00000963716467913343, false, false, 1.00001927442223320992);
    DoubleHigh(HIGH, 66545456, 4800, 1.00001927442223320992, false, false, 1.00003854921596977227);
    DoubleHigh(HIGH, 133090912, 9600, 1.00003854921596977227, true, false, 1.00002709981296287495);
    DoubleHigh(HIGH, 266181825, 19200, 1.00002709981296287495, true, false, 1.00000420140019890765);
    DoubleHigh(HIGH, 532363651, 38400, 1.00000420140019890765, true, false, 0.99995840614762826136);
  }

  // ---------------------------------------------------------------------------------------------
  // Price of a tick against power of two

  const SPARE: nat := 0x200_0000

  function Relative(t: int): real
    requires MIN_TICK <= t <= MAX_TICK
  {
    SqrtPriceAtTick(t) as real / UNIT
  }

  lemma LowPairs(u: nat)
    ensures Pow(LOW, u * HALVES) * Two(u * DOUBLINGS) >= 1.0
  {
    hide Pow, Two;
    LowPair();
    PairAtLeast(LOW, HALVES, DOUBLINGS, u);
  }

  lemma HighPairs(u: nat)
    ensures Pow(HIGH, u * (HALVES + 1)) * Two(u * DOUBLINGS) <= 1.0
  {
    hide Pow, Two;
    HighPair();
    PairAtMost(HIGH, HALVES + 1, DOUBLINGS, u);
  }

  lemma PairAtLeast(x: real, n: nat, m: nat, u: nat)
    requires Mixed(x, n, m) >= 1.0
    ensures Pow(x, u * n) * Two(u * m) >= 1.0
  {
    hide Pow, Two;
    PowMonotone(1.0, Mixed(x, n, m), u);
    PowOfOne(u);
    PairPower(x, n, m, u);
  }

  lemma PairAtMost(x: real, n: nat, m: nat, u: nat)
    requires x > 0.0 && Mixed(x, n, m) <= 1.0
    ensures Pow(x, u * n) * Two(u * m) <= 1.0
  {
    hide Pow, Two;
    PowPositive(x, n);
    PowPositive(2.0, m);
    PowMonotone(Mixed(x, n, m), 1.0, u);
    PowOfOne(u);
    PairPower(x, n, m, u);
  }

  lemma PairPower(x: real, n: nat, m: nat, u: nat)
    ensures Pow(Mixed(x, n, m), u) == Pow(x, u * n) * Two(u * m)
  {
    hide Pow, Two;
    var a, b := Pow(x, n), Pow(2.0, m);
    assert Mixed(x, n, m) == a * b;
    PowOfProduct(a, b, u);
    assert Pow(Mixed(x, n, m), u) == Pow(a, u) * Pow(b, u);
    PowOfPow(x, n, u);
    PowOfPow(2.0, m, u);
    assert n * u == u * n && m * u == u * m;
    TwoOfNat(u * m);
  }

  lemma TwoOfNat(n: nat)
    ensures Two(n) == Pow(2.0, n)
  {
    hide Pow;
  }

  /** All truncations together lose less than the 150th part of a tick. */
  lemma KeptAll()
    ensures Pow(Pow(KEPT, 19), SCALE) >= Pow(LOW, SPARE) > 0.0
    ensures Pow(KEPT, SCALE) >= Pow(HIGH, SPARE) > 0.0
  {
    hide Pow;
    PowPositive(LOW, SPARE);
    PowPositive(HIGH, SPARE);
    PowOfPow(KEPT, 19, 150);
    PowOfPow(Pow(KEPT, 19), 150, SPARE);
    PowOfPow(KEPT, 150, SPARE);
    Bernoulli(0.000000014, 2850);
    Bernoulli(0.000000014, 150);
    PowMonotone(LOW, Pow(KEPT, 2850), SPARE);
    PowMonotone(HIGH, Pow(KEPT, 150), SPARE);
  }

  lemma Cancel(a: real, b: real, c: real)
    requires c > 0.0 && a * c <= b * c
    ensures a <= b
  {
  }

  /** What is at least the truncated power, raised. */
  lemma RaisedLow(y: real, n: nat, k: nat)
    requires y >= Pow(LOW, n) * Pow(KEPT, 19) && n * SCALE + SPARE <= k
    ensures Pow(y, SCALE) >= Pow(LOW, k) > 0.0
  {
    hide Pow;
    PowPositive(KEPT, 19);
    KeptAll();
    RaisedProduct(y, LOW, n, Pow(KEPT, 19), SCALE, SPARE);
    PowShrinks(LOW, n * SCALE + SPARE, k);
  }

  lemma RaisedProduct(y: real, x: real, n: nat, q: real, scale: nat, spare: nat)
    requires 0.0 < x && 0.0 < q && y >= Pow(x, n) * q && Pow(q, scale) >= Pow(x, spare)
    ensures Pow(y, scale) >= Pow(x, n * scale + spare)
  {
    hide Pow;
    var p := Pow(x, n);
    PowPositive(x, n);
    PositiveProduct(p, q);
    PowMonotone(p * q, y, scale);
    PowOfProduct(p, q, scale);
    PowOfPow(x, n, scale);
    PowPositive(x, n * scale);
    PowPositive(x, spare);
    Products(Pow(x, n * scale), Pow(x, spare), Pow(x, n * scale), Pow(q, scale));
    PowAdds(x, n * scale, spare);
  }

  lemma PositiveProduct(a: real, b: real)
    requires a > 0.0 && b > 0.0
    ensures a * b > 0.0
  {
  }

  /** What is at most the power, raised. */
  lemma RaisedHigh(y: real, n: nat, k: nat)
    requires 0.0 < y <= Pow(HIGH, n) && k <= n * SCALE
    ensures 0.0 < Pow(y, SCALE) <= Pow(HIGH, k)
  {
    hide Pow;
    PowPositive(y, SCALE);
    PowMonotone(y, Pow(HIGH, n), SCALE);
    PowOfPow(HIGH, n, SCALE);
    PowShrinks(HIGH, k, n * SCALE);
  }

  /** The ratio of n factors as a fraction. */
  lemma RatioReal(n: nat) returns (y: real)
    requires n <= MAX_TICK
    ensures 0 < RatioFrom(Q64, n, 0) <= Q64 && y == RatioFrom(Q64, n, 0) as real / UNIT && 0.0 < y <= 1.0
    ensures Pow(LOW, n) * Pow(KEPT, 19) <= y <= Pow(HIGH, n)
  {
    hide RatioFrom, Pow, Magic;
    Pow2Values();
    var r := RatioFrom(Q64, n, 0);
    y := r as real / UNIT;
    assert AllOnes(0) == Q64;
    RatioBelow(Q64, n, 0);
    RatioAbove(Q64, n, 0);
    RatioAtLeast(Q64, n, 0);
    RatioAtMost(Q64, n, 0);
    assert n * Pow2(0) == n by { Pow2Zero(); }
    var a, b := Pow(LOW, n) * Pow(KEPT, 19), Pow(HIGH, n);
    assert Q64 as real == UNIT;
    assert UNIT * a <= r as real <= UNIT * b;
  }

  /** The inverse of a ratio, rounded down, times the ratio. */
  lemma InverseReal(ratio: nat, y: real)
    requires 0 < ratio <= Q64 && y == InverseRatio(ratio) as real / UNIT
    ensures KEPT <= y * (ratio as real / UNIT) <= 1.0 && y > 0.0
  {
    var q := InverseRatio(ratio);
    FloorOfDiv(U128_MAX, ratio);
    assert (q + 1) * ratio == q * ratio + ratio;
    var s := q * ratio;
    assert s as real == (q as real) * (ratio as real);
    assert U128_MAX as real - UNIT <= s as real <= U128_MAX as real;
    assert y * (ratio as real / UNIT) == s as real / (UNIT * UNIT) by {
      Quarter(q as real, ratio as real);
    }
    assert q > 0;
  }

  lemma Quarter(a: real, b: real)
    ensures (a / UNIT) * (b / UNIT) == a * b / (UNIT * UNIT)
  {
    var x, y := a / UNIT, b / UNIT;
    assert x * UNIT == a && y * UNIT == b;
    FourFactors(x, UNIT, y, UNIT);
    assert a * b == (x * y) * (UNIT * UNIT);
  }

  /** A tick a hundredth or more below the logarithm e / 65536, in ticks, has at most the price 2^(e / 65536). */
  lemma PriceAtMostPower(t: int, e: int)
    requires MIN_TICK <= t <= MAX_TICK && -0x40_0000 <= e <= 0x40_0000
    requires t * Q64 <= e * PER_STEP - MARGIN_LOW
    ensures Pow(Relative(t), SCALE) <= Two(e * DOUBLINGS)
  {
    hide Pow, Two, SqrtPriceAtTick, RatioFrom, InverseRatio;
    if t > 0 {
      var s := RatioReal(t);
      PriceAboveZero(t);
      InverseReal(RatioFrom(Q64, t, 0), Relative(t));
      RaisedLow(s, t, e * HALVES);
      LowPairs(e);
      PowPositive(Relative(t), SCALE);
      RaisedWithin(KEPT, Relative(t), s, SCALE);
      SettledLow(Pow(Relative(t), SCALE), Pow(s, SCALE), Pow(LOW, e * HALVES), Two(e * DOUBLINGS));
    } else {
      var y := RatioReal(-t);
      PriceBelowZero(-t);
      if e >= 0 {
        PowMonotone(y, 1.0, SCALE);
        PowOfOne(SCALE);
        TwoGrows(0, e * DOUBLINGS);
        TwoZero();
      } else {
        RaisedHigh(y, -t, -e * (HALVES + 1));
        HighPairs(-e);
        TwoAdds(e * DOUBLINGS, -e * DOUBLINGS);
        TwoZero();
        var two := Two(-e * DOUBLINGS);
        Products(Pow(y, SCALE), two, Pow(HIGH, -e * (HALVES + 1)), two);
        Cancel(Pow(y, SCALE), Two(e * DOUBLINGS), two);
      }
    }
  }

  lemma RaisedWithin(k: real, x: real, y: real, n: nat)
    requires 0.0 <= k <= x * y <= 1.0
    ensures Pow(k, n) <= Pow(x, n) * Pow(y, n) <= 1.0
  {
    hide Pow;
    var z := x * y;
    PowMonotone(k, z, n);
    PowMonotone(z, 1.0, n);
    PowOfOne(n);
    PowOfProduct(x, y, n);
  }

  lemma SettledLow(y: real, s: real, p: real, two: real)
    requires y > 0.0 && 0.0 < p <= s && y * s <= 1.0 <= p * two
    ensures y <= two
  {
    Products(y, p, y, s);
    Cancel(y, two, p);
  }

  lemma TwoZero()
    ensures Two(0) == 1.0
  {
  }

  /** A tick so far above it has at least the price 2^((e + 2) / 65536). */
  lemma PriceAtLeastPower(t: int, e: int)
    requires MIN_TICK <= t <= MAX_TICK && -0x40_0000 <= e <= 0x40_0000
    requires t * Q64 >= e * PER_STEP + MARGIN_HIGH
    ensures Pow(Relative(t), SCALE) >= Two((e + 2) * DOUBLINGS)
  {
    hide Pow, Two, SqrtPriceAtTick, RatioFrom, InverseRatio;
    var u := e + 2;
    TwoZero();
    if t > 0 {
      PositiveAtLeastPower(t, e);
    } else {
      var y := RatioReal(-t);
      PriceBelowZero(-t);
      RaisedLow(y, -t, -u * HALVES);
      LowPairs(-u);
      TwoAdds(u * DOUBLINGS, -u * DOUBLINGS);
      var two := Two(-u * DOUBLINGS);
      Products(Pow(LOW, -u * HALVES), two, Pow(y, SCALE), two);
      Cancel(Two(u * DOUBLINGS), Pow(y, SCALE), two);
    }
  }

  lemma PositiveAtLeastPower(t: int, e: int)
    requires 0 < t <= MAX_TICK && -0x40_0000 <= e <= 0x40_0000
    requires t * Q64 >= e * PER_STEP + MARGIN_HIGH
    ensures Pow(Relative(t), SCALE) >= Two((e + 2) * DOUBLINGS)
  {
    hide Pow, Two, SqrtPriceAtTick, RatioFrom, InverseRatio;
    var u := e + 2;
    if u <= 0 {
      PriceBelowZero(0);
      ZeroTick();
      PriceIncreases(0, t);
      PowMonotone(1.0, Relative(t), SCALE);
      PowOfOne(SCALE);
      TwoGrows(u * DOUBLINGS, 0);
      TwoZero();
    } else {
      var s := RatioReal(t);
      PriceAboveZero(t);
      InverseReal(RatioFrom(Q64, t, 0), Relative(t));
      RaisedHigh(s, t, u * (HALVES + 1) + SPARE);
      PowAdds(HIGH, u * (HALVES + 1), SPARE);
      KeptAll();
      RaisedWithin(KEPT, Relative(t), s, SCALE);
      PowPositive(Relative(t), SCALE);
      PowPositive(HIGH, u * (HALVES + 1));
      HighPairs(u);
      Settled(Pow(Relative(t), SCALE), Pow(s, SCALE), Pow(HIGH, u * (HALVES + 1)), Pow(HIGH, SPARE), Two(u * DOUBLINGS));
    }
  }

  lemma Settled(y: real, s: real, p: real, k: real, two: real)
    requires y > 0.0 && p > 0.0 && k > 0.0 && two > 0.0
    requires k <= y * s && 0.0 < s <= p * k && p * two <= 1.0
    ensures two <= y
  {
    Products(y, s, y, p * k);
    assert y * (p * k) == (y * p) * k;
    Cancel(1.0, y * p, k);
    Cancel(two, y, p);
  }
}
