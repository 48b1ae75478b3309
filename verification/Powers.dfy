/** Powers of two and binary digits. */
module Powers {

  function Pow2(k: nat): (r: nat)
    ensures r > 0
  {
    if k == 0 then 1 else 2 * Pow2(k - 1)
  }

  lemma {:induction false} Pow2Adds(a: nat, b: nat)
    ensures Pow2(a + b) == Pow2(a) * Pow2(b)
    decreases b
  {
    if b > 0 {
      Pow2Adds(a, b - 1);
      assert Pow2(a) * Pow2(b) == 2 * (Pow2(a) * Pow2(b - 1));
    }
  }

  lemma {:induction false} Pow2Grows(a: nat, b: nat)
    requires a <= b
    ensures Pow2(a) <= Pow2(b)
    ensures a < b ==> Pow2(a) < Pow2(b)
    decreases b - a
  {
    if a < b {
      Pow2Grows(a, b - 1);
    }
  }

  /** Bit i of n. */
  predicate Bit(n: nat, i: nat) {
    if i == 0 then n % 2 == 1 else Bit(n / 2, i - 1)
  }

  /** n shifted right: what is left when its lowest i bits are dropped. */
  function Shr(n: nat, i: nat): (r: nat) {
    if i == 0 then n else Shr(n / 2, i - 1)
  }

  /** The lowest i bits of n. */
  function Low(n: nat, i: nat): (r: nat) {
    if i == 0 then 0 else n % 2 + 2 * Low(n / 2, i - 1)
  }

  lemma {:induction false} Split(n: nat, i: nat)
    ensures n == Shr(n, i) * Pow2(i) + Low(n, i)
    ensures Low(n, i) < Pow2(i)
    decreases i
  {
    if i > 0 {
      Split(n / 2, i - 1);
      var q, p := Shr(n, i), Pow2(i - 1);
      assert 2 * (q * p) == q * (2 * p);
    }
  }

  /** The split into high and low digits is unique: they are quotient and remainder. */
  lemma Unsplit(n: nat, i: nat, q: nat, r: nat)
    requires n == q * Pow2(i) + r && r < Pow2(i)
    ensures Shr(n, i) == q && Low(n, i) == r
  {
    hide Pow2, Shr, Low;
    Split(n, i);
    assert (Shr(n, i) - q) * Pow2(i) == r - Low(n, i);
    SmallMultiple(Shr(n, i) - q, Pow2(i));
  }

  lemma SmallMultiple(x: int, d: int)
    requires 0 < d && -d < x * d < d
    ensures x == 0
  {
    assert x >= 1 ==> x * d >= d;
    assert x <= -1 ==> x * d <= -d;
  }

  lemma IsDivision(n: nat, i: nat)
    ensures Shr(n, i) == n / Pow2(i) && Low(n, i) == n % Pow2(i)
  {
    hide Pow2, Shr, Low;
    var d := Pow2(i);
    assert n == (n / d) * d + n % d;
    Split(n, i);
    assert (Shr(n, i) - n / d) * d == n % d - Low(n, i);
    SmallMultiple(Shr(n, i) - n / d, d);
  }

  lemma {:induction false} ShrStep(n: nat, i: nat)
    ensures Bit(n, i) <==> Shr(n, i) % 2 == 1
    ensures Shr(n, i + 1) == Shr(n, i) / 2
    decreases i
  {
    if i > 0 {
      ShrStep(n / 2, i - 1);
    }
  }

  // Binary digits of shifted, truncated and combined numbers

  lemma {:induction false} BitOfProduct(n: nat, k: nat, i: nat)
    ensures Bit(n * Pow2(k), i) <==> k <= i && Bit(n, i - k)
    decreases k
  {
    if k > 0 {
      var half := n * Pow2(k - 1);
      assert n * Pow2(k) == 2 * half;
      if i > 0 {
        BitOfProduct(n, k - 1, i - 1);
      }
    }
  }

  lemma {:induction false} BitOfShr(n: nat, k: nat, i: nat)
    ensures Bit(Shr(n, k), i) <==> Bit(n, i + k)
    decreases k
  {
    if k > 0 {
      BitOfShr(n / 2, k - 1, i);
    }
  }

  lemma {:induction false} BitOfLow(n: nat, width: nat, i: nat)
    ensures Bit(Low(n, width), i) <==> i < width && Bit(n, i)
    decreases width
  {
    if width == 0 {
      NoBitsInZero(i);
    } else if i > 0 {
      BitOfLow(n / 2, width - 1, i - 1);
    }
  }

  lemma {:induction false} NoBitsInZero(i: nat)
    ensures !Bit(0, i)
  {
    if i > 0 {
      NoBitsInZero(i - 1);
    }
  }

  lemma {:induction false} BitOfPower(k: nat, i: nat)
    ensures Bit(Pow2(k), i) <==> i == k
  {
    BitOfProduct(1, k, i);
    if i > k {
      NoBitsInZero(i - k - 1);
    }
  }

  /** A number is determined by its digits. */
  lemma {:induction false} SameBits(m: nat, n: nat)
    requires forall i: nat :: Bit(m, i) == Bit(n, i)
    ensures m == n
    decreases m + n
  {
    if m + n > 0 {
      assert Bit(m, 0) == Bit(n, 0);
      forall i: nat ensures Bit(m / 2, i) == Bit(n / 2, i) {
        assert Bit(m, i + 1) == Bit(n, i + 1);
      }
      SameBits(m / 2, n / 2);
    }
  }

  /** n shifted left within a number of `width` bits. */
  function Shl(n: nat, k: nat, width: nat): nat {
    Low(n * Pow2(k), width)
  }

  lemma BitOfShl(n: nat, k: nat, width: nat, i: nat)
    ensures Bit(Shl(n, k, width), i) <==> k <= i < width && Bit(n, i - k)
  {
    BitOfLow(n * Pow2(k), width, i);
    BitOfProduct(n, k, i);
  }

  /** Exclusive or. */
  function Xor(m: nat, n: nat): nat
    decreases m + n
  {
    if m + n == 0 then 0 else (if m % 2 == n % 2 then 0 else 1) + 2 * Xor(m / 2, n / 2)
  }

  lemma {:induction false} BitOfXor(m: nat, n: nat, i: nat)
    ensures Bit(Xor(m, n), i) <==> Bit(m, i) != Bit(n, i)
    decreases i
  {
    var x := Xor(m, n);
    if m + n == 0 {
      NoBitsInZero(i);
    } else {
      assert x / 2 == Xor(m / 2, n / 2);
      if i > 0 {
        BitOfXor(m / 2, n / 2, i - 1);
      }
    }
  }

  /** The number of digits of n. */
  function BitLength(n: nat): (r: nat) {
    if n == 0 then 0 else 1 + BitLength(n / 2)
  }

  lemma {:induction false} HighestBit(n: nat)
    ensures n > 0 ==> BitLength(n) > 0 && Bit(n, BitLength(n) - 1)
    ensures forall i :: i >= BitLength(n) ==> !Bit(n, i)
  {
    if n > 0 {
      HighestBit(n / 2);
      forall i | i >= BitLength(n) ensures !Bit(n, i) {
        assert i - 1 >= BitLength(n / 2);
      }
    } else {
      forall i: nat ensures !Bit(0, i) {
        NoBitsInZero(i);
      }
    }
  }

  lemma {:induction false} LengthBound(n: nat, k: nat)
    ensures n < Pow2(k) <==> BitLength(n) <= k
    decreases k
  {
    if k > 0 && n > 0 {
      LengthBound(n / 2, k - 1);
    }
  }

  lemma {:induction false} LengthAbove(n: nat, k: nat)
    requires Shr(n, k) > 0
    ensures BitLength(n) == k + BitLength(Shr(n, k))
    decreases k
  {
    if k > 0 {
      NothingLeft(k - 1);
      LengthAbove(n / 2, k - 1);
    }
  }

  lemma {:induction false} NothingLeft(k: nat)
    ensures Shr(0, k) == 0
  {
    if k > 0 {
      NothingLeft(k - 1);
    }
  }

  /** The number of zero digits below the lowest one. */
  function Trailing(n: nat): nat
    requires n > 0
  {
    if n % 2 == 1 then 0 else 1 + Trailing(n / 2)
  }

  lemma {:induction false} LowestBit(n: nat)
    requires n > 0
    ensures Bit(n, Trailing(n))
    ensures forall i: nat :: i < Trailing(n) ==> !Bit(n, i)
  {
    if n % 2 == 0 {
      LowestBit(n / 2);
      forall i: nat | i < Trailing(n) ensures !Bit(n, i) {
        assert i > 0 ==> !Bit(n / 2, i - 1);
      }
    }
  }

  lemma {:induction false} TrailingAbove(n: nat, k: nat)
    requires n > 0
    ensures n * Pow2(k) > 0 && Trailing(n * Pow2(k)) == k + Trailing(n)
    decreases k
  {
    if k > 0 {
      TrailingAbove(n, k - 1);
      assert n * Pow2(k) == 2 * (n * Pow2(k - 1));
    } else {
      assert Pow2(0) == 1;
    }
  }

  lemma {:induction false} TrailingOfLow(n: nat, k: nat)
    requires Low(n, k) > 0
    ensures n > 0 && Trailing(n) == Trailing(Low(n, k))
    decreases k
  {
    if n % 2 == 0 {
      TrailingOfLow(n / 2, k - 1);
      assert Low(n, k) / 2 == Low(n / 2, k - 1);
    }
  }

  lemma Pow2Values()
    ensures Pow2(16) == 0x1_0000 && Pow2(19) == 0x8_0000 && Pow2(64) == 0x1_0000_0000_0000_0000
  {
    assert Pow2(4) == 16 by {
      assert Pow2(2) == 4;
    }
    Pow2Adds(4, 4);
    Pow2Adds(8, 8);
    Pow2Adds(16, 3);
    assert Pow2(3) == 8;
    Pow2Adds(16, 16);
    Pow2Adds(32, 32);
  }
}
