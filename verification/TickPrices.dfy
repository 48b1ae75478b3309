/** Tick and price computed the way the program does (tick_math.rs): factor by factor, and by a binary
    logarithm that is refined bit by bit. Both are exactly right. */
module TickPrices {
  import opened Wrappers
  import opened FullMath
  import opened Powers
  import opened TickMath
  import opened RealPowers
  import opened TickLogarithm

  const BIT_PRECISION: nat := 16

  // ---------------------------------------------------------------------------------------------
  // The price of a tick

  /** One factor: the ratio stays reachable, and the factors still to come lead to the same price. */
  method MultiplyIn(ratio: nat, n: nat, i: nat, ghost invert: bool) returns (r: nat)
    requires i < 19 && ratio >= AllOnes(i)
    ensures r >= AllOnes(i + 1) && PriceFrom(ratio, n, i, invert) == PriceFrom(r, n, i + 1, invert)
  {
    hide Magic, AllOnes, Bit;
    StaysAbove(ratio, Bit(n, i), i);
    r := ratio;
    if Bit(n, i) {
      r := ratio * Magic(i) / Q64;
    }
  }

  method GetSqrtPriceAtTick(tick: int) returns (r: Option<nat>)
    ensures r == if MIN_TICK <= tick <= MAX_TICK then Some(SqrtPriceAtTick(tick)) else None
  {
    hide Magic, AllOnes, Bit, InverseRatio, PriceFrom;
    var absTick := Abs(tick);
    if absTick > MAX_TICK { return None; }
    ghost var up := tick > 0;
    assert Q64 >= AllOnes(0) by { OneIsHighest(); }
    var ratio := MultiplyIn(Q64, absTick, 0, up);
    ratio := MultiplyIn(ratio, absTick, 1, up);
    ratio := MultiplyIn(ratio, absTick, 2, up);
    ratio := MultiplyIn(ratio, absTick, 3, up);
    ratio := MultiplyIn(ratio, absTick, 4, up);
    ratio := MultiplyIn(ratio, absTick, 5, up);
    ratio := MultiplyIn(ratio, absTick, 6, up);
    ratio := MultiplyIn(ratio, absTick, 7, up);
    ratio := MultiplyIn(ratio, absTick, 8, up);
    ratio := MultiplyIn(ratio, absTick, 9, up);
    ratio := MultiplyIn(ratio, absTick, 10, up);
    ratio := MultiplyIn(ratio, absTick, 11, up);
    ratio := MultiplyIn(ratio, absTick, 12, up);
    ratio := MultiplyIn(ratio, absTick, 13, up);
    ratio := MultiplyIn(ratio, absTick, 14, up);
    ratio := MultiplyIn(ratio, absTick, 15, up);
    ratio := MultiplyIn(ratio, absTick, 16, up);
    ratio := MultiplyIn(ratio, absTick, 17, up);
    ratio := MultiplyIn(ratio, absTick, 18, up);
    AllOnesLast();
    PriceEnd(ratio, absTick, up);
    if tick > 0 {
      ratio := InverseRatio(ratio);
    }
    r := Some(ratio);
  }

  lemma PriceEnd(r: nat, n: nat, invert: bool)
    requires r >= AllOnes(19) && r > 0
    ensures PriceFrom(r, n, 19, invert) == if invert then InverseRatio(r) else r
  {
  }

  lemma OneIsHighest()
    ensures Q64 >= AllOnes(0)
  {
  }

  // ---------------------------------------------------------------------------------------------
  // The logarithm of a price

  const FIRST_BIT: nat := 0x8000_0000_0000_0000

  /** What a number of 64 bits keeps at least when its fraction is cut off. */
  const CUT: real := 1.0 - 1.0 / 9223372036854775808.0

  /** After k squarings: x to the power 2^k is r * 2^s, up to the fractions cut off so far. */
  ghost predicate Bounds(x: real, k: nat, r: nat, s: int) {
    && (r as real) * Two(s) <= Pow(x, Pow2(k))
    && Pow(x, Pow2(k)) * Pow(CUT, Pow2(k + 1) - 1) <= (r as real) * Two(s)
  }

  lemma BoundsStep(x: real, k: nat, r: nat, s: int, r': nat, shift: nat)
    requires x > 0.0 && Bounds(x, k, r, s)
    requires r' >= FIRST_BIT
    requires (r' as real) * Two(shift) <= (r as real) * (r as real) < (r' as real + 1.0) * Two(shift)
    ensures Bounds(x, k + 1, r', 2 * s + shift)
  {
    hide Pow2, Pow, Two;
    StepBelow(x, k, r as real, s, r' as real, shift);
    StepAbove(x, k, r as real, s, r' as real, shift);
  }

  lemma StepBelow(x: real, k: nat, r: real, s: int, r': real, shift: nat)
    requires x > 0.0 && r >= 0.0 && r * Two(s) <= Pow(x, Pow2(k)) && r' * Two(shift) <= r * r
    ensures r' * Two(2 * s + shift) <= Pow(x, Pow2(k + 1))
  {
    hide Pow2, Pow, Two;
    PowPositive(x, Pow2(k));
    Doublings(x, k);
    TwoAdds(s, s);
    TwoAdds(2 * s, shift);
    SquaresBound(Pow(x, Pow2(k)), r, Two(s), r', Two(shift), Pow(x, Pow2(k + 1)), Two(2 * s + shift));
  }

  lemma StepAbove(x: real, k: nat, r: real, s: int, r': real, shift: nat)
    requires x > 0.0 && r >= 0.0 && r' >= 9223372036854775808.0
    requires Pow(x, Pow2(k)) * Pow(CUT, Pow2(k + 1) - 1) <= r * Two(s) && r * r <= (r' + 1.0) * Two(shift)
    ensures Pow(x, Pow2(k + 1)) * Pow(CUT, Pow2(k + 2) - 1) <= r' * Two(2 * s + shift)
  {
    hide Pow2, Pow, Two;
    PowPositive(x, Pow2(k));
    PowPositive(CUT, Pow2(k + 1) - 1);
    Doublings(x, k);
    TwoAdds(s, s);
    TwoAdds(2 * s, shift);
    CutsBound(Pow(x, Pow2(k)), Pow(CUT, Pow2(k + 1) - 1), r, Two(s), r', Two(shift),
              Pow(x, Pow2(k + 1)), Pow(CUT, Pow2(k + 2) - 1), Two(2 * s + shift));
  }

  lemma InReals(r: nat, r': nat, q: nat)
    requires r' * q <= r * r < (r' + 1) * q
    ensures (r' as real) * (q as real) <= (r as real) * (r as real) < (r' as real + 1.0) * (q as real)
  {
    var a, b, c := r' * q, r * r, (r' + 1) * q;
    assert a as real == (r' as real) * (q as real);
    assert b as real == (r as real) * (r as real);
    assert c as real == (r' as real + 1.0) * (q as real);
  }

  lemma Doublings(x: real, k: nat)
    ensures Pow(x, Pow2(k + 1)) == Pow(x, Pow2(k)) * Pow(x, Pow2(k))
    ensures var c := Pow(CUT, Pow2(k + 1) - 1); Pow(CUT, Pow2(k + 2) - 1) == (c * c) * CUT
  {
    hide Pow;
    var n := Pow2(k + 1) - 1;
    PowAdds(x, Pow2(k), Pow2(k));
    PowAdds(CUT, n, n);
    PowAdds(CUT, n + n, 1);
    FirstPower(CUT);
    assert Pow2(k + 2) == 2 * Pow2(k + 1);
  }

  lemma SquaresBound(y: real, r: real, t: real, r': real, u: real, y': real, t': real)
    requires y > 0.0 && t > 0.0 && r >= 0.0 && u > 0.0
    requires r * t <= y && r' * u <= r * r
    requires y' == y * y && t' == (t * t) * u
    ensures r' * t' <= y'
  {
    PositiveTimes(r, t);
    Products(r * t, r * t, y, y);
    FourFactors(r, t, r, t);
    Cancelled(r' * u, r * r, t * t);
    Associate(r', u, t * t);
  }

  lemma PositiveTimes(a: real, b: real)
    requires a >= 0.0 && b >= 0.0
    ensures a * b >= 0.0
  {
  }

  lemma Cancelled(a: real, b: real, c: real)
    requires a <= b && c >= 0.0
    ensures a * c <= b * c
  {
  }

  lemma CutsBound(y: real, c: real, r: real, t: real, r': real, u: real, y': real, c': real, t': real)
    requires y > 0.0 && c > 0.0 && t > 0.0 && r >= 0.0 && u > 0.0
    requires y * c <= r * t && r * r <= (r' + 1.0) * u && r' >= 9223372036854775808.0
    requires y' == y * y && c' == (c * c) * CUT && t' == (t * t) * u
    ensures y' * c' <= r' * t'
  {
    var square := r * r;
    PositiveTimes(y, c);
    Products(y * c, y * c, r * t, r * t);
    FourFactors(y, c, y, c);
    FourFactors(r, t, r, t);
    Cancelled((r' + 1.0) * CUT, r', u);
    PositiveTimes(t, t);
    Cancelled(square * CUT, r' * u, t * t) by {
      Cancelled(square, (r' + 1.0) * u, CUT);
      assert ((r' + 1.0) * u) * CUT == ((r' + 1.0) * CUT) * u;
    }
    Cancelled((y * y) * (c * c), square * (t * t), CUT);
    Associate(y * y, c * c, CUT);
    assert (square * (t * t)) * CUT == (square * CUT) * (t * t);
    Associate(r', u, t * t);
  }

  lemma {:induction false} TwoIsPow2(n: nat)
    ensures Two(n) == Pow2(n) as real
  {
    hide Two;
    if n == 0 {
      TwoZero();
    } else {
      TwoIsPow2(n - 1);
      TwoNext(n - 1);
    }
  }

  /** The binary logarithm of a price in 32.32 fixed point, to 16 fraction bits: with e / 65536 its value,
      p / 2^64 to the power 65536 is at least 2^e and below 2^(e + 2). */
  method Log2OfPrice(p: nat) returns (log2: int)
    requires 0 < p <= U128_MAX
    ensures log2 % 0x1_0000 == 0 && -0x40_0000 <= log2 / 0x1_0000 <= 0x40_0000
    ensures Two(log2 / 0x1_0000) <= Pow(p as real / UNIT, 0x1_0000) < Two(log2 / 0x1_0000 + 2)
  {
    hide Pow2, Pow, Two, Shr, Low, Underway, BitLength;
    HighestBit(p);
    var top := BitLength(p) - 1;
    var integerX32 := (top - 64) * 0x1_0000_0000;
    var bit := FIRST_BIT;
    var precision := 0;
    var fractionX64 := 0;
    var r: nat := if top >= 64 then Shr(p, top - 63) else p * Pow2(63 - top);
    ghost var x, s, f: nat := p as real / UNIT, top - 127, 0;
    Start(p, top, r);
    while bit > 0 && precision < BIT_PRECISION
      invariant 0 <= precision <= BIT_PRECISION && bit > 0
      invariant Underway(x, top, precision, r, s, f, bit, fractionX64)
      decreases BIT_PRECISION - precision
    {
      var square := r * r;
      var more := Shr(square, 127);
      Round(x, top, precision, r, s, f, bit, fractionX64);
      r := Shr(square, 63 + more);
      fractionX64 := fractionX64 + bit * more;
      bit := bit / 2;
      s, f := 2 * s + 63 + more, 2 * f + more;
      precision := precision + 1;
    }
    var fractionX32 := fractionX64 / 0x1_0000_0000;
    log2 := integerX32 + fractionX32;
    Finish(p, top, r, s, f, bit, fractionX64);
  }

  /** After k rounds: what is left of the price, the place of its highest bit, and k bits f of the fraction. */
  ghost predicate Underway(x: real, top: int, k: nat, r: nat, s: int, f: nat, bit: nat, fraction: nat)
    requires k <= BIT_PRECISION
  {
    && FIRST_BIT <= r < 2 * FIRST_BIT && Bounds(x, k, r, s)
    && s + 63 == (top - 64) * Pow2(k) + f && f < Pow2(k)
    && bit == Pow2(63 - k) && fraction == f * Pow2(64 - k)
  }

  lemma Start(p: nat, top: nat, r: nat)
    requires p > 0 && top == BitLength(p) - 1
    requires r == if top >= 64 then Shr(p, top - 63) else p * Pow2(63 - top)
    ensures Underway(p as real / UNIT, top, 0, r, top - 127, 0, FIRST_BIT, 0)
  {
    hide Pow2, Bounds, Shr, BitLength;
    Normalised(p, top, r);
    SmallPowers();
  }

  /** One squaring adds one bit. */
  lemma Round(x: real, top: int, k: nat, r: nat, s: int, f: nat, bit: nat, fraction: nat)
    requires x > 0.0 && k < BIT_PRECISION && Underway(x, top, k, r, s, f, bit, fraction)
    ensures var more := Shr(r * r, 127);
            && more <= 1 && bit / 2 > 0
            && Underway(x, top, k + 1, Shr(r * r, 63 + more), 2 * s + 63 + more, 2 * f + more, bit / 2, fraction + bit * more)
  {
    hide Pow2, Pow, Two, Shr, Low, Bounds;
    var more := Shr(r * r, 127);
    SquareRange(r);
    HalfPowers(k);
    Squaring(x, k, r, s, more);
    BitArithmetic(f, more, Pow2(63 - k), top - 64, Pow2(k));
  }

  lemma Squaring(x: real, k: nat, r: nat, s: int, more: nat)
    requires x > 0.0 && Bounds(x, k, r, s) && Shr(r * r, 63 + more) >= FIRST_BIT
    ensures Bounds(x, k + 1, Shr(r * r, 63 + more), 2 * s + 63 + more)
  {
    hide Pow2, Pow, Two, Shr, Low, Bounds;
    Remainder(r * r, 63 + more);
    InReals(r, Shr(r * r, 63 + more), Pow2(63 + more));
    TwoIsPow2(63 + more);
    BoundsStep(x, k, r, s, Shr(r * r, 63 + more), 63 + more);
  }

  lemma Finish(p: nat, top: nat, r: nat, s: int, f: nat, bit: nat, fraction: nat)
    requires 0 < p <= U128_MAX && top == BitLength(p) - 1 && Underway(p as real / UNIT, top, BIT_PRECISION, r, s, f, bit, fraction)
    ensures var e := s + 63; var log2 := (top - 64) * 0x1_0000_0000 + fraction / 0x1_0000_0000;
            && log2 == e * 0x1_0000 && -0x40_0000 <= e <= 0x40_0000
            && Two(e) <= Pow(p as real / UNIT, 0x1_0000) < Two(e + 2)
  {
    hide Pow2, Pow, Two, Bounds, BitLength;
    SmallPowers();
    AtLast(p, r, s);
    LengthBound(p, 128);
    assert p < Pow2(128) by { Pow2Values(); Pow2Adds(64, 64); }
    assert fraction == (f * 0x1_0000) * 0x1_0000_0000;
  }

  lemma Remainder(n: nat, k: nat)
    ensures Shr(n, k) * Pow2(k) <= n < (Shr(n, k) + 1) * Pow2(k)
  {
    hide Pow2, Shr, Low;
    Split(n, k);
    assert (Shr(n, k) + 1) * Pow2(k) == Shr(n, k) * Pow2(k) + Pow2(k);
  }

  lemma SmallPowers()
    ensures Pow2(0) == 1 && Pow2(16) == 0x1_0000 && Pow2(48) == 0x1_0000_0000_0000
    ensures Pow2(63) == 0x8000_0000_0000_0000 && Pow2(64) == 0x1_0000_0000_0000_0000
  {
    Pow2Values();
    Pow2Adds(16, 16);
    Pow2Adds(32, 16);
    assert Pow2(64) == 2 * Pow2(63);
  }

  lemma HalfPowers(k: nat)
    requires k < 16
    ensures Pow2(64 - k) == 2 * Pow2(63 - k) && Pow2(63 - k) == 2 * Pow2(63 - (k + 1)) && Pow2(k + 1) == 2 * Pow2(k)
    ensures Pow2(63 - (k + 1)) > 0
  {
  }

  lemma BitArithmetic(f: nat, more: nat, b: nat, top: int, p: nat)
    ensures f * (2 * b) + b * more == (2 * f + more) * b
    ensures 2 * (top * p) == top * (2 * p)
  {
  }

  /** The square of a normalised number is normalised again by 63 or 64 places. */
  lemma SquareRange(r: nat)
    requires 0x8000_0000_0000_0000 <= r < 0x1_0000_0000_0000_0000
    ensures var square := r * r; var more := Shr(square, 127);
            more <= 1 && 0x8000_0000_0000_0000 <= Shr(square, 63 + more) < 0x1_0000_0000_0000_0000
  {
    hide Pow2, Shr, Low;
    var square := r * r;
    ProductBound(0x8000_0000_0000_0000, 0x8000_0000_0000_0000, r, r);
    ProductBound(r, r, 0xFFFF_FFFF_FFFF_FFFF, 0xFFFF_FFFF_FFFF_FFFF);
    SmallPowers();
    Pow2Adds(64, 63);
    Split(square, 127);
    Split(square, 63);
    Split(square, 64);
  }

  /** The price shifted to have its highest bit at place 63. */
  lemma Normalised(p: nat, top: nat, r: nat)
    requires p > 0 && top == BitLength(p) - 1
    requires r == if top >= 64 then Shr(p, top - 63) else p * Pow2(63 - top)
    ensures FIRST_BIT <= r < 2 * FIRST_BIT
    ensures Bounds(p as real / UNIT, 0, r, top - 127)
  {
    hide Pow2, Pow, Two, Shr, Low, BitLength;
    PowersOfStart(p as real / UNIT);
    LengthBound(p, top + 1);
    LengthBound(p, top);
    if top >= 64 {
      ShiftedRight(p, top);
      Remainder(p, top - 63);
      StartDown(p, r, top);
    } else {
      ShiftedLeft(p, top);
      StartUp(p, r, top);
    }
  }

  lemma ShiftedRight(p: nat, top: nat)
    requires top >= 64 && Pow2(top) <= p < Pow2(top + 1)
    ensures FIRST_BIT <= Shr(p, top - 63) < 2 * FIRST_BIT
  {
    hide Pow2, Shr, Low;
    SmallPowers();
    Split(p, top - 63);
    Pow2Adds(top - 63, 64);
    Pow2Adds(top - 63, 63);
    Quotients(p, Pow2(top - 63), Shr(p, top - 63), Low(p, top - 63));
  }

  lemma ShiftedLeft(p: nat, top: nat)
    requires top < 64 && Pow2(top) <= p < Pow2(top + 1)
    ensures FIRST_BIT <= p * Pow2(63 - top) < 2 * FIRST_BIT
  {
    hide Pow2;
    var q := Pow2(63 - top);
    SmallPowers();
    Pow2Adds(top, 63 - top);
    Pow2Adds(top + 1, 63 - top);
    ProductBound(Pow2(top), q, p, q);
    ProductBound(p + 1, q, Pow2(top + 1), q);
    assert (p + 1) * q == p * q + q;
  }

  lemma PowersOfStart(x: real)
    ensures Pow(x, Pow2(0)) == x && Pow(CUT, Pow2(1) - 1) == CUT
  {
    hide Pow;
    FirstPower(x);
    FirstPower(CUT);
  }

  lemma StartDown(p: nat, r: nat, top: nat)
    requires top >= 64 && r >= FIRST_BIT && r * Pow2(top - 63) <= p < (r + 1) * Pow2(top - 63)
    ensures (r as real) * Two(top - 127) <= p as real / UNIT && (p as real / UNIT) * CUT <= (r as real) * Two(top - 127)
  {
    hide Pow2, Two;
    var q, t, y, z := Pow2(top - 63), Two(top - 127), p as real, r as real;
    TwoIsPow2(top - 63);
    TwoIsPow2(64);
    SmallPowers();
    TwoAdds(top - 127, 64);
    var a, b := r * q, (r + 1) * q;
    assert a as real == z * (q as real);
    assert b as real == (z + 1.0) * (q as real);
    ShiftedDown(y, z, q as real, t);
  }

  lemma ShiftedDown(p: real, r: real, q: real, t: real)
    requires r * q <= p < (r + 1.0) * q && r >= 9223372036854775808.0 && q > 0.0 && t * UNIT == q
    ensures r * t <= p / UNIT && (p / UNIT) * CUT <= r * t
  {
    Associate(r, t, UNIT);
    assert (r * t) * UNIT == r * q;
    assert (p / UNIT) * UNIT == p;
    Cancelled((r + 1.0) * CUT, r, q);
    Cancelled(p, (r + 1.0) * q, CUT);
    assert ((r + 1.0) * q) * CUT == ((r + 1.0) * CUT) * q;
    assert ((p / UNIT) * CUT) * UNIT == p * CUT;
  }

  lemma StartUp(p: nat, r: nat, top: nat)
    requires p > 0 && top < 64 && r == p * Pow2(63 - top)
    ensures (r as real) * Two(top - 127) <= p as real / UNIT && (p as real / UNIT) * CUT <= (r as real) * Two(top - 127)
  {
    hide Pow2, Two;
    var q := Pow2(63 - top);
    TwoIsPow2(63 - top);
    TwoIsPow2(64);
    SmallPowers();
    TwoAdds(top - 127, 63 - top);
    TwoAdds(-64, 64);
    TwoZero();
    assert r as real == (p as real) * (q as real);
    ShiftedUp(p as real, r as real, q as real, Two(top - 127), Two(-64));
  }

  lemma ShiftedUp(p: real, r: real, q: real, t: real, h: real)
    requires r == p * q && p > 0.0 && h == t * q && h * UNIT == 1.0
    ensures r * t <= p / UNIT && (p / UNIT) * CUT <= r * t
  {
    assert r * t == p * h;
    Associate(p, h, UNIT);
    assert (p / UNIT) * UNIT == p;
    assert p / UNIT == p * h;
    Cancelled(CUT, 1.0, p / UNIT);
  }

  lemma Quotients(p: nat, q: nat, r: nat, low: nat)
    requires q > 0 && p == r * q + low && low < q
    requires q * 0x8000_0000_0000_0000 <= p < q * 0x1_0000_0000_0000_0000
    ensures 0x8000_0000_0000_0000 <= r < 0x1_0000_0000_0000_0000
  {
    assert (r + 1) * q == r * q + q;
    ScaledOrder(0x1_0000_0000_0000_0000, r, q);
    ScaledOrder(r + 1, 0x8000_0000_0000_0000, q);
  }

  lemma AtLast(p: nat, r: nat, s: int)
    requires p > 0 && Bounds(p as real / UNIT, BIT_PRECISION, r, s) && FIRST_BIT <= r < 2 * FIRST_BIT
    ensures Two(s + 63) <= Pow(p as real / UNIT, 0x1_0000) < Two(s + 65)
  {
    hide Pow2, Pow, Two;
    SmallPowers();
    assert Pow2(17) == 2 * Pow2(16) by { PowerDoubles(16); }
    TwoIsPow2(63);
    TwoAdds(s, 63);
    TwoNext(s + 63);
    TwoNext(s + 64);
    var y, c := Pow(p as real / UNIT, 0x1_0000), Pow(CUT, 0x1_FFFF);
    Bernoulli(1.0 / 9223372036854775808.0, 0x1_FFFF);
    PowPositive(p as real / UNIT, 0x1_0000);
    Cancelled(9223372036854775808.0, r as real, Two(s));
    assert (r as real) * Two(s) < 2.0 * Two(s + 63) by {
      Cancelled(r as real, 18446744073709551615.0, Two(s));
    }
    assert 0.5 <= c;
    Products(y, 0.5, y, c);
  }

  // ---------------------------------------------------------------------------------------------
  // The tick of a price

  /** The two candidates enclose the floor tick and are at most one tick apart. */
  lemma Candidates(p: nat, e: int, low: int, high: int)
    requires MIN_SQRT_PRICE <= p < MAX_SQRT_PRICE && -0x40_0000 <= e <= 0x40_0000
    requires Two(e) <= Pow(p as real / UNIT, 0x1_0000) < Two(e + 2)
    requires low == (e * PER_STEP - MARGIN_LOW) / Q64 && high == (e * PER_STEP + MARGIN_HIGH) / Q64
    ensures low <= TickAtSqrtPrice(p) <= high <= low + 1
  {
    hide Pow, Two, SqrtPriceAtTick;
    var t := TickAtSqrtPrice(p);
    PriceOfNext(p);
    Raised(p, e);
    if t < low {
      PriceAtMostPower(t + 1, e);
      Root(Relative(t + 1), p as real / UNIT, SCALE);
    }
    if high < t {
      PriceAtLeastPower(t, e);
      PowMonotone(Relative(t), p as real / UNIT, SCALE);
    }
  }

  /** The bounds of the logarithm at the scale the prices are compared at. */
  lemma Raised(p: nat, e: int)
    requires p > 0 && Two(e) <= Pow(p as real / UNIT, 0x1_0000) < Two(e + 2)
    ensures Two(e * DOUBLINGS) <= Pow(p as real / UNIT, SCALE) < Two((e + 2) * DOUBLINGS)
  {
    hide Pow, Two;
    var x := p as real / UNIT;
    var y := Pow(x, 0x1_0000);
    PowPositive(x, 0x1_0000);
    PowOfPow(x, 0x1_0000, DOUBLINGS);
    TwoOfProduct(e, DOUBLINGS);
    TwoOfProduct(e + 2, DOUBLINGS);
    PowMonotone(Two(e), y, DOUBLINGS);
    StrictlyMonotone(y, Two(e + 2), DOUBLINGS);
  }

  /** From the logarithm to the tick: two candidates, decided by the price of the higher one. */
  method GetTickAtSqrtPrice(p: nat) returns (r: Option<int>)
    ensures r == if MIN_SQRT_PRICE <= p < MAX_SQRT_PRICE then Some(TickAtSqrtPrice(p)) else None
  {
    hide SqrtPriceAtTick, Pow, Two;
    if p < MIN_SQRT_PRICE || p >= MAX_SQRT_PRICE { return None; }
    var log2 := Log2OfPrice(p);
    var logSqrt10001 := log2 * 59543866431248;
    var tickLow := (logSqrt10001 - 184467440737095516) / Q64;
    var tickHigh := (logSqrt10001 + 15793534762490258745) / Q64;
    Candidates(p, log2 / 0x1_0000, tickLow, tickHigh);
    PriceOfNext(p);
    if tickLow == tickHigh { return Some(tickLow); }
    var price := GetSqrtPriceAtTick(tickHigh);
    r := Some(if price.value <= p then tickHigh else tickLow);
  }

  lemma PriceOfNext(p: nat)
    requires MIN_SQRT_PRICE <= p < MAX_SQRT_PRICE
    ensures var t := TickAtSqrtPrice(p);
            MIN_TICK <= t < MAX_TICK && SqrtPriceAtTick(t) <= p < SqrtPriceAtTick(t + 1)
  {
  }
}
