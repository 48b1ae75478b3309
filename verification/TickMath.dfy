/** Square root prices of ticks (tick_math.rs): a table of 1.0001^(tick/2) in Q64.64, computed by
    19 truncating multiplications. It is strictly increasing over the whole tick range. */
module TickMath {
  import opened FullMath
  import opened Powers

  const MIN_TICK: int := -443636
  const MAX_TICK: int := 443636
  const MIN_SQRT_PRICE: nat := 4295048016
  const MAX_SQRT_PRICE: nat := 79226673521066979257578248091

  /** 2^64 / 1.0001^(2^(i-1)). */
  function Magic(i: nat): (r: nat)
    requires i < 19
  {
    if i == 0 then 0xfffcb933bd6fb800
    else if i == 1 then 0xfff97272373d4000
    else if i == 2 then 0xfff2e50f5f657000
    else if i == 3 then 0xffe5caca7e10f000
    else if i == 4 then 0xffcb9843d60f7000
    else if i == 5 then 0xff973b41fa98e800
    else if i == 6 then 0xff2ea16466c9b000
    else if i == 7 then 0xfe5dee046a9a3800
    else if i == 8 then 0xfcbe86c7900bb000
    else if i == 9 then 0xf987a7253ac65800
    else if i == 10 then 0xf3392b0822bb6000
    else if i == 11 then 0xe7159475a2caf000
    else if i == 12 then 0xd097f3bdfd2f2000
    else if i == 13 then 0xa9f746462d9f8000
    else if i == 14 then 0x70d869a156f31c00
    else if i == 15 then 0x31be135f97ed3200
    else if i == 16 then 0x9aa508b5b85a500
    else if i == 17 then 0x5d6af8dedc582c
    else 0x2216e584f5fa
  }

  /** The running ratio r after multiplying in the factors of the bits of n, the lowest being bit i. */
  function RatioFrom(r: nat, n: nat, i: nat): nat
    requires i <= 19
    decreases 19 - i
  {
    if i == 19 then r
    else RatioFrom(if n % 2 == 1 then r * Magic(i) / Q64 else r, n / 2, i + 1)
  }

  function Abs(x: int): nat { if x < 0 then -x else x }

  function InverseRatio(ratio: nat): nat
    requires ratio > 0
  {
    U128_MAX / ratio
  }

  /** The factors of the bits of n from bit i on, and at the end the inverse if wanted. */
  function PriceFrom(r: nat, n: nat, i: nat, invert: bool): nat
    requires i <= 19 && r >= AllOnes(i)
    decreases 19 - i
  {
    if i == 19 then
      if invert then InverseRatio(r) else r
    else
      StaysAbove(r, Bit(n, i), i);
      PriceFrom(if Bit(n, i) then r * Magic(i) / Q64 else r, n, i + 1, invert)
  }

  lemma StaysAbove(r: nat, bit: bool, i: nat)
    requires i < 19 && r >= AllOnes(i)
    ensures (if bit then r * Magic(i) / Q64 else r) >= AllOnes(i + 1)
  {
    hide Magic, AllOnes;
    AllOnesStep(i);
    assert r * Magic(i) >= AllOnes(i) * Magic(i);
  }

  /** 1.0001^(tick/2): the ratio itself for tick <= 0, its inverse for positive ticks. */
  function SqrtPriceAtTick(tick: int): (p: nat)
    requires MIN_TICK <= tick <= MAX_TICK
  {
    PriceFrom(Q64, Abs(tick), 0, tick > 0)
  }

  lemma {:induction false} PriceFromRatio(r: nat, n: nat, i: nat, invert: bool)
    requires i <= 19 && r >= AllOnes(i)
    ensures var ratio := RatioFrom(r, Shr(n, i), i);
            ratio > 0 && PriceFrom(r, n, i, invert) == if invert then InverseRatio(ratio) else ratio
    decreases 19 - i
  {
    hide Magic, AllOnes, Bit, Shr, InverseRatio;
    RatioBelow(r, Shr(n, i), i);
    if i < 19 {
      StaysAbove(r, Bit(n, i), i);
      ShrStep(n, i);
      PriceFromRatio(if Bit(n, i) then r * Magic(i) / Q64 else r, n, i + 1, invert);
    }
  }

  lemma PriceBelowZero(n: nat)
    requires n <= MAX_TICK
    ensures SqrtPriceAtTick(-(n as int)) == RatioFrom(Q64, n, 0)
  {
    hide RatioFrom, PriceFrom;
    PriceFromRatio(Q64, n, 0, false);
  }

  lemma PriceAboveZero(n: nat)
    requires 0 < n <= MAX_TICK
    ensures RatioFrom(Q64, n, 0) > 0 && SqrtPriceAtTick(n) == InverseRatio(RatioFrom(Q64, n, 0))
  {
    hide RatioFrom, PriceFrom;
    PriceFromRatio(Q64, n, 0, true);
  }

  // The ratio with every bit below i set: the smallest ratio reachable after i factors.
  function AllOnes(i: nat): (r: nat)
    requires i <= 19
  {
    if i == 0 then 18446744073709551616
    else if i == 1 then 18445821805675395072
    else if i == 2 then 18443977407934601305
    else if i == 3 then 18440289165698571674
    else if i == 4 then 18432914893692470403
    else if i == 5 then 18418175195415540256
    else if i == 6 then 18388731148799056322
    else if i == 7 then 18329984191681429728
    else if i == 8 then 18213052719148865012
    else if i == 9 then 17981422819357952666
    else if i == 10 then 17526963021261866635
    else if i == 11 then 16652210978343902665
    else if i == 12 then 15031501797420854576
    else if i == 13 then 12247947330324981103
    else if i == 14 then 8131771826986601598
    else if i == 15 then 3584502866427774895
    else if i == 16 then 696492473860388424
    else if i == 17 then 26296104664138151
    else if i == 18 then 37483609361155
    else 76162531
  }

  lemma AllOnesStep(i: nat)
    requires i < 19
    ensures AllOnes(i) * Magic(i) / Q64 == AllOnes(i + 1) <= AllOnes(i)
    ensures AllOnes(i + 1) <= Magic(i) < Q64
  {
  }

  /** No choice of further factors takes a ratio below the one with all bits set. */
  lemma {:induction false} RatioBelow(r: nat, n: nat, i: nat)
    requires i <= 19 && r >= AllOnes(i)
    ensures RatioFrom(r, n, i) >= AllOnes(19) == 76162531
    decreases 19 - i
  {
    hide Magic, AllOnes;
    if i < 19 {
      StaysAbove(r, n % 2 == 1, i);
      RatioBelow(if n % 2 == 1 then r * Magic(i) / Q64 else r, n / 2, i + 1);
    } else {
      AllOnesLast();
    }
  }

  lemma AllOnesLast()
    ensures AllOnes(19) == 76162531
  {
  }

  lemma {:induction false} RatioAbove(r: nat, n: nat, i: nat)
    requires i <= 19 && r <= Q64
    ensures RatioFrom(r, n, i) <= Q64
    decreases 19 - i
  {
    hide Magic, AllOnes;
    if i < 19 {
      AllOnesStep(i);
      var r' := if n % 2 == 1 then r * Magic(i) / Q64 else r;
      assert r * Magic(i) <= Q64 * Q64;
      RatioAbove(r', n / 2, i + 1);
    }
  }

  /** A relative gap of 4e-5 survives common factors, up to one unit lost to each truncation. */
  lemma {:induction false} GapSurvives(a: nat, b: nat, n: nat, i: nat, k: nat)
    requires i <= 19
    requires (a + k) * 100000 >= b * 100004
    ensures (RatioFrom(a, n, i) + k + (19 - i)) * 100000 >= RatioFrom(b, n, i) * 100004
    decreases 19 - i
  {
    hide Magic, AllOnes;
    if i < 19 {
      AllOnesStep(i);
      if n % 2 == 1 {
        TruncationGap(a, b, Magic(i), k);
        GapSurvives(a * Magic(i) / Q64, b * Magic(i) / Q64, n / 2, i + 1, k + 1);
      } else {
        GapSurvives(a, b, n / 2, i + 1, k + 1);
      }
    }
  }

  lemma TruncationGap(a: nat, b: nat, c: nat, k: nat)
    requires c <= Q64 && (a + k) * 100000 >= b * 100004
    ensures (a * c / Q64 + k + 1) * 100000 >= (b * c / Q64) * 100004
  {
    var a', b' := a * c / Q64, b * c / Q64;
    FloorOfDiv(a * c, Q64);
    FloorOfDiv(b * c, Q64);
    assert b * c * 100004 <= (a * c + k * c) * 100000 by {
      assert (b * 100004) * c <= ((a + k) * 100000) * c;
    }
    assert k * c <= k * Q64;
    assert b' * Q64 * 100004 <= (a' + 1 + k) * Q64 * 100000;
  }

  lemma OneFactorGap(i: nat)
    requires i < 19
    ensures AllOnes(i) * 100000 >= Magic(i) * 100004
    ensures Q64 * Magic(i) / Q64 == Magic(i)
  {
  }

  /** Adding one to n carries through its trailing ones; the ratio then drops by a relative 4e-5. */
  lemma {:induction false} SuccessorGap(n: nat, i: nat)
    requires i < 19 && n + 1 < Pow2(19 - i)
    ensures (RatioFrom(AllOnes(i), n, i) + 19) * 100000 >= RatioFrom(Q64, n + 1, i) * 100004
    decreases 19 - i
  {
    hide Magic, AllOnes;
    AllOnesStep(i);
    if n % 2 == 0 {
      OneFactorGap(i);
      assert (n + 1) / 2 == n / 2;
      GapSurvives(AllOnes(i), Magic(i), n / 2, i + 1, 0);
    } else {
      assert (n + 1) / 2 == n / 2 + 1;
      SuccessorGap(n / 2, i + 1);
    }
  }

  lemma RatioDrops(n: nat)
    requires n < MAX_TICK
    ensures var a, b := RatioFrom(Q64, n, 0), RatioFrom(Q64, n + 1, 0);
            76162531 <= b < a <= Q64 && a * 100000 >= b * 100003
  {
    Pow2Values();
    hide RatioFrom, Magic;
    assert AllOnes(0) == Q64;
    SuccessorGap(n, 0);
    RatioBelow(Q64, n + 1, 0);
    RatioAbove(Q64, n, 0);
  }

  lemma InverseRises(a: nat, b: nat)
    requires 0 < b < a <= Q64 && a * 100000 >= b * 100003
    ensures InverseRatio(a) < InverseRatio(b)
  {
    var q := U128_MAX / a;
    FloorOfDiv(U128_MAX, a);
    assert (q + 1) * a == q * a + a;
    assert (q + 1) * b * 100003 <= (q + 1) * a * 100000 by {
      assert (q + 1) * (b * 100003) <= (q + 1) * (a * 100000);
    }
    FloorOfDiv(U128_MAX, b);
    FloorIsGreatest(U128_MAX / b, U128_MAX, b, q + 1);
  }

  lemma PriceStep(t: int)
    requires MIN_TICK <= t < MAX_TICK
    ensures SqrtPriceAtTick(t) < SqrtPriceAtTick(t + 1)
  {
    hide RatioFrom, SqrtPriceAtTick, InverseRatio;
    if t < 0 {
      RatioDrops(-t - 1);
      PriceBelowZero(-t);
      PriceBelowZero(-t - 1);
    } else {
      RatioDrops(t);
      PriceAboveZero(t + 1);
      if t > 0 {
        PriceAboveZero(t);
        InverseRises(RatioFrom(Q64, t, 0), RatioFrom(Q64, t + 1, 0));
      } else {
        ZeroTick();
        PriceBelowZero(0);
        InverseAboveOne(RatioFrom(Q64, 1, 0));
      }
    }
  }

  lemma InverseAboveOne(b: nat)
    requires 0 < b && Q64 * 100000 >= b * 100003
    ensures InverseRatio(b) > Q64
  {
    FloorOfDiv(U128_MAX, b);
    FloorIsGreatest(U128_MAX / b, U128_MAX, b, Q64 + 1);
  }

  lemma ZeroTick()
    ensures RatioFrom(Q64, 0, 0) == Q64
  {
    NoFactors(Q64, 0);
  }

  lemma {:induction false} NoFactors(r: nat, i: nat)
    requires i <= 19
    ensures RatioFrom(r, 0, i) == r
    decreases 19 - i
  {
    if i < 19 {
      NoFactors(r, i + 1);
    }
  }

  /** The price of a tick grows strictly with the tick. */
  lemma {:induction false} PriceIncreases(s: int, t: int)
    requires MIN_TICK <= s < t <= MAX_TICK
    ensures SqrtPriceAtTick(s) < SqrtPriceAtTick(t)
    decreases t - s
  {
    hide SqrtPriceAtTick;
    PriceStep(t - 1);
    if s < t - 1 {
      PriceIncreases(s, t - 1);
    }
  }

  lemma PriceAtLeast(t: int)
    requires MIN_TICK <= t <= MAX_TICK
    ensures MIN_SQRT_PRICE <= SqrtPriceAtTick(t) <= MAX_SQRT_PRICE
  {
    hide SqrtPriceAtTick;
    EndPoints();
    if t > MIN_TICK {
      PriceIncreases(MIN_TICK, t);
    }
    if t < MAX_TICK {
      PriceIncreases(t, MAX_TICK);
    }
  }

  predicate TickCovers(t: int, p: nat) {
    MIN_TICK <= t < MAX_TICK && SqrtPriceAtTick(t) <= p < SqrtPriceAtTick(t + 1)
  }

  lemma OneTickCovers(p: nat)
    requires MIN_SQRT_PRICE <= p < MAX_SQRT_PRICE
    ensures exists t :: TickCovers(t, p)
    ensures forall t, u :: TickCovers(t, p) && TickCovers(u, p) ==> t == u
  {
    hide TickCovers;
    SomeTickCovers(p);
    forall t, u | TickCovers(t, p) && TickCovers(u, p) ensures t >= u {
      NoLaterTick(p, t, u);
    }
  }

  lemma NoLaterTick(p: nat, t: int, u: int)
    requires TickCovers(t, p) && TickCovers(u, p)
    ensures t >= u
  {
    hide SqrtPriceAtTick;
    if t + 1 < u {
      PriceIncreases(t + 1, u);
    }
  }

  lemma SomeTickCovers(p: nat)
    requires MIN_SQRT_PRICE <= p < MAX_SQRT_PRICE
    ensures exists t :: TickCovers(t, p)
  {
    hide SqrtPriceAtTick;
    EndPoints();
    var t := LastBelow((t: int) => if MIN_TICK <= t <= MAX_TICK then SqrtPriceAtTick(t) else 0, p, MIN_TICK, MAX_TICK);
    assert TickCovers(t, p);
  }

  /** The greatest tick whose price is at most p. */
  function TickAtSqrtPrice(p: nat): (t: int)
    requires MIN_SQRT_PRICE <= p < MAX_SQRT_PRICE
    ensures MIN_TICK <= t < MAX_TICK
    ensures SqrtPriceAtTick(t) <= p < SqrtPriceAtTick(t + 1)
  {
    OneTickCovers(p);
    var t :| MIN_TICK <= t < MAX_TICK && TickCovers(t, p);
    t
  }

  function LastBelow(f: int -> nat, p: nat, lo: int, hi: int): (t: int)
    requires lo < hi && f(lo) <= p < f(hi)
    ensures lo <= t < hi && f(t) <= p < f(t + 1)
    decreases hi - lo
  {
    if lo + 1 == hi then lo
    else
      var mid := (lo + hi) / 2;
      if f(mid) <= p then LastBelow(f, p, mid, hi) else LastBelow(f, p, lo, mid)
  }

  lemma FactorStep(r: nat, n: nat, i: nat, r': nat, n': nat)
    requires i < 19 && n' == n / 2
    requires r' == if n % 2 == 1 then r * Magic(i) / Q64 else r
    ensures RatioFrom(r, n, i) == RatioFrom(r', n', i + 1)
  {
  }

  lemma RatioEnd(r: nat)
    ensures RatioFrom(r, 0, 19) == r
  {
  }

  lemma EndPoints()
    ensures SqrtPriceAtTick(MIN_TICK) == MIN_SQRT_PRICE
    ensures SqrtPriceAtTick(MAX_TICK) == MAX_SQRT_PRICE
  {
    hide RatioFrom, PriceFrom, SqrtPriceAtTick;
    PriceBelowZero(443636);
    PriceAboveZero(443636);
    FactorStep(18446744073709551616, 443636, 0, 18446744073709551616, 221818);
    FactorStep(18446744073709551616, 221818, 1, 18446744073709551616, 110909);
    FactorStep(18446744073709551616, 110909, 2, 18443055278223355904, 55454);
    FactorStep(18443055278223355904, 55454, 3, 18443055278223355904, 27727);
    FactorStep(18443055278223355904, 27727, 4, 18428307471288122970, 13863);
    FactorStep(18428307471288122970, 13863, 5, 18398847226801874084, 6931);
    FactorStep(18398847226801874084, 6931, 6, 18340067951587048657, 3465);
    FactorStep(18340067951587048657, 3465, 7, 18223072152272633034, 1732);
    FactorStep(18223072152272633034, 1732, 8, 18223072152272633034, 866);
    FactorStep(18223072152272633034, 866, 9, 18223072152272633034, 433);
    FactorStep(18223072152272633034, 433, 10, 17313578044588124205, 216);
    FactorStep(17313578044588124205, 216, 11, 17313578044588124205, 108);
    FactorStep(17313578044588124205, 108, 12, 17313578044588124205, 54);
    FactorStep(17313578044588124205, 54, 13, 17313578044588124205, 27);
    FactorStep(17313578044588124205, 27, 14, 7631863196528592884, 13);
    FactorStep(7631863196528592884, 13, 15, 1482921196046239949, 6);
    FactorStep(1482921196046239949, 6, 16, 1482921196046239949, 3);
    FactorStep(1482921196046239949, 3, 17, 2113820261058665, 1);
    FactorStep(2113820261058665, 1, 18, 4295048016, 0);
    RatioEnd(4295048016);
  }
}
