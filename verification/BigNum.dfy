/** Little-endian integers of any number of 64-bit words (big_num.rs). The loops over words are proved
    to act on the represented number as a whole. */
module BigNum {
  import opened FullMath
  import opened LiquidityMath
  import opened Powers

  predicate Words(a: seq<nat>) {
    forall i :: 0 <= i < |a| ==> a[i] < Q64
  }

  /** The number the words stand for. */
  function Value(a: seq<nat>): nat {
    if a == [] then 0 else a[0] + Q64 * Value(a[1..])
  }

  /** The number of bits of a. */
  function Width(a: seq<nat>): nat { 64 * |a| }

  lemma {:induction false} ValueBound(a: seq<nat>)
    requires Words(a)
    ensures Value(a) < Pow2(Width(a))
  {
    if a != [] {
      ValueBound(a[1..]);
      WidthStep(a);
    }
  }

  lemma WidthStep(a: seq<nat>)
    requires a != []
    ensures Pow2(Width(a)) == Q64 * Pow2(Width(a[1..]))
  {
    Pow2Values();
    Pow2Adds(64, Width(a[1..]));
  }

  lemma {:induction false} ValueSplit(a: seq<nat>, n: nat)
    requires n <= |a|
    ensures Value(a) == Value(a[..n]) + Pow2(64 * n) * Value(a[n..])
  {
    hide Pow2;
    if n == 0 {
      assert a[0..] == a && Pow2(0) == 1 by {
        OneIsPower();
      }
    } else {
      ValueSplit(a[1..], n - 1);
      assert a[1..][..n - 1] == a[..n][1..] == a[1..n] && a[1..][n - 1..] == a[n..];
      Pow2Values();
      Pow2Adds(64, 64 * (n - 1));
      SplitArithmetic(Value(a[1..n]), Pow2(64 * (n - 1)), Value(a[n..]));
    }
  }

  lemma SplitArithmetic(x: nat, p: nat, y: nat)
    ensures Q64 * (x + p * y) == Q64 * x + (Q64 * p) * y
  {
  }

  lemma ValueAppend(a: seq<nat>, w: nat)
    ensures Value(a + [w]) == Value(a) + Pow2(64 * |a|) * w
  {
    hide Pow2;
    ValueSplit(a + [w], |a|);
    assert (a + [w])[..|a|] == a && (a + [w])[|a|..] == [w];
    assert Value([w]) == w;
  }

  lemma {:induction false} ZeroWords(a: seq<nat>)
    requires forall i :: 0 <= i < |a| ==> a[i] == 0
    ensures Value(a) == 0
  {
    if a != [] {
      ZeroWords(a[1..]);
    }
  }

  lemma {:induction false} SomeWord(a: seq<nat>)
    requires Value(a) == 0
    ensures forall i :: 0 <= i < |a| ==> a[i] == 0
  {
    if a != [] {
      SomeWord(a[1..]);
    }
  }

  /** Bit i of the number is bit i % 64 of word i / 64. */
  lemma {:induction false} BitOfWord(a: seq<nat>, i: nat)
    requires Words(a)
    ensures Bit(Value(a), i) <==> i < Width(a) && Bit(a[i / 64], i % 64)
  {
    if a == [] {
      NoBitsInZero(i);
    } else {
      var v := Value(a);
      Pow2Values();
      Unsplit(v, 64, Value(a[1..]), a[0]);
      if i < 64 {
        BitOfLow(v, 64, i);
      } else {
        BitOfWord(a[1..], i - 64);
        BitOfShr(v, 64, i - 64);
      }
    }
  }

  // ---------------------------------------------------------------------------------------------
  // Shifts

  // What a left shift by b <= 64 keeps of a word, and what it carries into the next one.
  function Kept(w: nat, b: nat): nat { Shl(w, b, 64) }
  function Carried(w: nat, b: nat): nat
    requires b <= 64
  {
    Shr(w, 64 - b)
  }

  lemma KeptAndCarried(w: nat, b: nat)
    requires w < Q64 && b <= 64
    ensures w * Pow2(b) == Kept(w, b) + Q64 * Carried(w, b)
    ensures Kept(w, b) + Pow2(b) <= Q64 && Carried(w, b) < Pow2(b)
    ensures Kept(w, b) == Low(w, 64 - b) * Pow2(b)
  {
    hide Pow2, Shr, Low;
    Pow2Values();
    Pow2Adds(b, 64 - b);
    Split(w, 64 - b);
    var d, e := Pow2(64 - b), Pow2(b);
    var q, r := Shr(w, 64 - b), Low(w, 64 - b);
    ShiftWord(w, q, r, d, e);
    Unsplit(w * e, 64, q, r * e);
  }

  lemma ShiftWord(w: nat, q: nat, r: nat, d: nat, e: nat)
    requires w < Q64 && w == q * d + r && r < d && d * e == Q64
    ensures w * e == q * Q64 + r * e && r * e + e <= Q64 && q < e
  {
    assert (q * d + r) * e == q * (d * e) + r * e;
    ScaledOrder(r + 1, d, e);
    assert (r + 1) * e == r * e + e;
    ScaledOrder(e, q, d);
  }

  /** Word i of a shifted left by `words` words and b bits. */
  function ShlWord(a: seq<nat>, words: nat, b: nat, i: nat): nat
    requires i < |a| && b < 64
  {
    if i < words then 0
    else Kept(a[i - words], b) + if i > words then Carried(a[i - 1 - words], b) else 0
  }

  lemma {:induction false} ShlPrefix(a: seq<nat>, r: seq<nat>, words: nat, b: nat, m: nat)
    requires Words(a) && |r| == |a| && b < 64 && words <= m <= |a|
    requires forall i :: 0 <= i < |a| ==> r[i] == ShlWord(a, words, b, i)
    ensures Value(r[..m]) + Pow2(64 * m) * (if m > words then Carried(a[m - 1 - words], b) else 0)
            == Value(a[..m - words]) * Pow2(64 * words + b)
  {
    hide Kept, Carried, Pow2;
    if m == words {
      ZeroWords(r[..m]);
    } else {
      var j := m - 1 - words;
      ShlPrefix(a, r, words, b, m - 1);
      var p, s, w := Pow2(64 * (m - 1)), Pow2(64 * words + b), a[j];
      var c := if m - 1 > words then Carried(a[j - 1], b) else 0;
      assert r[..m] == r[..m - 1] + [Kept(w, b) + c];
      ValueAppend(r[..m - 1], Kept(w, b) + c);
      assert a[..j + 1] == a[..j] + [w];
      ValueAppend(a[..j], w);
      KeptAndCarried(w, b);
      Pow2Values();
      Pow2Adds(64 * (m - 1), 64);
      Pow2Adds(64 * j, 64 * words + b);
      Pow2Adds(64 * (m - 1), b);
      ShlArithmetic(Value(r[..m - 1]), Value(a[..j]), p, s, Pow2(64 * j), Pow2(b), w, Kept(w, b), Carried(w, b), c);
    }
  }

  lemma ShlArithmetic(before: nat, v: nat, p: nat, s: nat, pj: nat, e: nat, w: nat, kept: nat, carried: nat, c: nat)
    requires before + p * c == v * s && w * e == kept + Q64 * carried && pj * s == p * e
    ensures before + p * (kept + c) + (p * Q64) * carried == (v + pj * w) * s
  {
    assert (v + pj * w) * s == v * s + (pj * s) * w;
    assert (p * e) * w == p * (w * e);
    assert p * (kept + Q64 * carried) == p * kept + (p * Q64) * carried;
    assert p * (kept + c) == p * kept + p * c;
  }

  lemma ShlWordsFit(a: seq<nat>, r: seq<nat>, words: nat, b: nat)
    requires Words(a) && |r| == |a| && b < 64
    requires forall i :: 0 <= i < |a| ==> r[i] == ShlWord(a, words, b, i)
    ensures Words(r)
  {
    hide Kept, Carried, Pow2;
    forall i | 0 <= i < |r| ensures r[i] < Q64 {
      if i >= words {
        KeptAndCarried(a[i - words], b);
        if i > words {
          KeptAndCarried(a[i - 1 - words], b);
        }
      }
    }
  }

  lemma ShlValue(a: seq<nat>, r: seq<nat>, words: nat, b: nat)
    requires Words(a) && |r| == |a| && b < 64
    requires forall i :: 0 <= i < |a| ==> r[i] == ShlWord(a, words, b, i)
    ensures Words(r) && Value(r) == Shl(Value(a), 64 * words + b, Width(a))
  {
    hide ShlWord, Carried, Low, Shr, Pow2, Value;
    ShlWordsFit(a, r, words, b);
    ValueBound(r);
    if words < |a| {
      ShlWithin(a, r, words, b);
    } else {
      ShlAllZero(a, r, words, b);
      ZeroWords(r);
      ShlBeyond(Value(a), 64 * words + b, Width(a));
    }
  }

  lemma ShlWithin(a: seq<nat>, r: seq<nat>, words: nat, b: nat)
    requires Words(a) && |r| == |a| && b < 64 && words < |a| && Value(r) < Pow2(Width(a))
    requires forall i :: 0 <= i < |a| ==> r[i] == ShlWord(a, words, b, i)
    ensures Value(r) == Shl(Value(a), 64 * words + b, Width(a))
  {
    hide ShlWord, Carried, Low, Shr, Pow2, Value;
    ShlPrefix(a, r, words, b, |a|);
    assert r[..|a|] == r;
    var k := |a| - words;
    ValueSplit(a, k);
    var low, high, c := Value(a[..k]), Value(a[k..]), Carried(a[|a| - 1 - words], b);
    var shift := 64 * words + b;
    Pow2Adds(64 * k, shift);
    Pow2Adds(64 * |a|, b);
    ShlTotal(low, high, Pow2(64 * k), Pow2(shift), Pow2(Width(a)), Pow2(b), c, Value(r));
    Unsplit(Value(a) * Pow2(shift), Width(a), c + Pow2(b) * high, Value(r));
  }

  lemma ShlBeyond(n: nat, shift: nat, width: nat)
    requires width <= shift
    ensures Shl(n, shift, width) == 0
  {
    hide Low, Shr, Pow2;
    Pow2Adds(width, shift - width);
    var m, e := Pow2(width), Pow2(shift - width);
    assert n * (m * e) == (n * e) * m;
    Unsplit(n * Pow2(shift), width, n * e, 0);
  }

  lemma ShlTotal(low: nat, high: nat, p: nat, s: nat, m: nat, e: nat, c: nat, r: nat)
    requires r + m * c == low * s && p * s == m * e
    ensures (low + p * high) * s == (c + e * high) * m + r
  {
    assert (low + p * high) * s == low * s + (p * s) * high;
    assert (m * e) * high == (e * high) * m;
  }

  lemma ShlAllZero(a: seq<nat>, r: seq<nat>, words: nat, b: nat)
    requires |r| == |a| <= words && b < 64
    requires forall i :: 0 <= i < |a| ==> r[i] == ShlWord(a, words, b, i)
    ensures forall i :: 0 <= i < |a| ==> r[i] == 0
  {
  }

  /** Shift left: multiplication by 2^shift within the width, for any shift. */
  method ShiftLeft(original: seq<nat>, shift: nat) returns (r: seq<nat>)
    requires Words(original)
    ensures |r| == |original| && Words(r)
    ensures Value(r) == Shl(Value(original), shift, Width(original))
  {
    hide Kept, Carried, Pow2;
    var n := |original|;
    var ret := new nat[n](_ => 0);
    var wordShift, bitShift := shift / 64, shift % 64;
    for i := Min(wordShift, n) to n
      invariant forall k :: 0 <= k < i ==> ret[k] == if k < wordShift then 0 else Kept(original[k - wordShift], bitShift)
      invariant forall k :: i <= k < n ==> ret[k] == 0
    {
      ret[i] := Kept(original[i - wordShift], bitShift);
    }
    if bitShift > 0 {
      for i := Min(wordShift + 1, n) to n
        invariant forall k :: 0 <= k < i ==> ret[k] == ShlWord(original, wordShift, bitShift, k)
        invariant forall k :: i <= k < n ==> ret[k] == if k < wordShift then 0 else Kept(original[k - wordShift], bitShift)
      {
        ret[i] := ret[i] + Carried(original[i - 1 - wordShift], bitShift);
      }
    }
    r := ret[..];
    forall k | 0 <= k < n ensures r[k] == ShlWord(original, wordShift, bitShift, k) {
      if bitShift == 0 && k > wordShift {
        NothingCarried(original[k - 1 - wordShift]);
      }
    }
    ShlValue(original, r, wordShift, bitShift);
  }

  lemma NothingCarried(w: nat)
    requires w < Q64
    ensures Carried(w, 0) == 0
  {
    KeptAndCarried(w, 0);
    assert Pow2(0) == 1;
  }

  /** Word i of a shifted right by `words` words and b bits. */
  function ShrWord(a: seq<nat>, words: nat, b: nat, i: nat): nat
    requires b < 64
  {
    (if i + words < |a| then Carried(a[i + words], 64 - b) else 0)
    + (if i + words + 1 < |a| then Kept(a[i + words + 1], 64 - b) else 0)
  }

  lemma {:induction false} ShrSuffix(a: seq<nat>, r: seq<nat>, words: nat, b: nat, i: nat)
    requires Words(a) && |r| == |a| && b < 64 && i + words < |a|
    requires forall k :: 0 <= k < |a| ==> r[k] == ShrWord(a, words, b, k)
    ensures Value(a[i + words..]) == Value(r[i..]) * Pow2(b) + Low(a[i + words], b)
    decreases |a| - i
  {
    hide Kept, Carried, Pow2, Low;
    var j := i + words;
    var e := Pow2(b);
    assert a[j..][1..] == a[j + 1..] && r[i..][1..] == r[i + 1..];
    WordSplit(a[j], b);
    var x, rest := Carried(a[j], 64 - b), Value(r[i + 1..]);
    if j + 1 < |a| {
      ShrSuffix(a, r, words, b, i + 1);
      WordSplit(a[j + 1], b);
      var y := Kept(a[j + 1], 64 - b);
      assert Value(r[i..]) == x + y + Q64 * rest;
      ShrArithmetic(x, y, rest, e, Low(a[j + 1], b));
    } else {
      assert forall k :: i + 1 <= k < |a| ==> r[k] == 0;
      ZeroWords(r[i + 1..]);
      assert a[j + 1..] == [];
      assert Value(r[i..]) == x;
    }
  }

  lemma ShrArithmetic(x: nat, y: nat, rest: nat, e: nat, low: nat)
    requires y * e == Q64 * low
    ensures (x + y + Q64 * rest) * e == x * e + Q64 * (rest * e + low)
  {
  }

  // A right shift by b seen from the word: what stays, and what goes into the word below.
  lemma WordSplit(w: nat, b: nat)
    requires w < Q64 && b < 64
    ensures w == Carried(w, 64 - b) * Pow2(b) + Low(w, b)
    ensures Kept(w, 64 - b) * Pow2(b) == Q64 * Low(w, b)
  {
    hide Pow2, Low, Shr, Kept;
    Pow2Values();
    Pow2Adds(b, 64 - b);
    Split(w, b);
    KeptAndCarried(w, 64 - b);
    var r, d, e := Low(w, b), Pow2(b), Pow2(64 - b);
    assert (r * e) * d == r * (e * d);
  }

  lemma ShrWordsFit(a: seq<nat>, r: seq<nat>, words: nat, b: nat)
    requires Words(a) && |r| == |a| && b < 64
    requires forall i :: 0 <= i < |a| ==> r[i] == ShrWord(a, words, b, i)
    ensures Words(r)
  {
    hide Kept, Carried, Pow2;
    forall i | 0 <= i < |r| ensures r[i] < Q64 {
      if i + words < |a| {
        KeptAndCarried(a[i + words], 64 - b);
      }
      if i + words + 1 < |a| {
        KeptAndCarried(a[i + words + 1], 64 - b);
      }
    }
  }

  lemma ShrValue(a: seq<nat>, r: seq<nat>, words: nat, b: nat)
    requires Words(a) && |r| == |a| && b < 64
    requires forall i :: 0 <= i < |a| ==> r[i] == ShrWord(a, words, b, i)
    ensures Words(r) && Value(r) == Shr(Value(a), 64 * words + b)
  {
    hide Pow2, ShrWord, Low, Shr, Value;
    ShrWordsFit(a, r, words, b);
    if words < |a| {
      ShrWithin(a, r, words, b);
    } else {
      ShrAllZero(a, r, words, b);
      ZeroWords(r);
      ValueBound(a);
      Pow2Grows(Width(a), 64 * words + b);
      Unsplit(Value(a), 64 * words + b, 0, Value(a));
    }
  }

  lemma ShrWithin(a: seq<nat>, r: seq<nat>, words: nat, b: nat)
    requires Words(a) && |r| == |a| && b < 64 && words < |a|
    requires forall i :: 0 <= i < |a| ==> r[i] == ShrWord(a, words, b, i)
    ensures Value(r) == Shr(Value(a), 64 * words + b)
  {
    hide Pow2, ShrWord, Low, Shr, Value;
    ShrSuffix(a, r, words, b, 0);
    assert r[0..] == r;
    ValueSplit(a, words);
    ValueBound(a[..words]);
    Split(a[words], b);
    Pow2Adds(64 * words, b);
    var v, p, l, low := Value(r), Pow2(64 * words), Low(a[words], b), Value(a[..words]);
    ShrTotal(v, p, Pow2(b), l, low);
    Unsplit(Value(a), 64 * words + b, v, p * l + low);
  }

  lemma ShrTotal(v: nat, p: nat, e: nat, l: nat, low: nat)
    requires l < e && low < p
    ensures low + p * (v * e + l) == v * (p * e) + (p * l + low)
    ensures p * l + low < p * e
  {
    assert p * l <= p * (e - 1) == p * e - p;
    assert p * (v * e) == v * (p * e);
  }

  lemma OneIsPower()
    ensures Pow2(0) == 1
  {
  }

  lemma ShrAllZero(a: seq<nat>, r: seq<nat>, words: nat, b: nat)
    requires |r| == |a| <= words && b < 64
    requires forall i :: 0 <= i < |a| ==> r[i] == ShrWord(a, words, b, i)
    ensures forall i :: 0 <= i < |a| ==> r[i] == 0
  {
  }

  /** Shift right: division by 2^shift, rounded down, for any shift. */
  method ShiftRight(original: seq<nat>, shift: nat) returns (r: seq<nat>)
    requires Words(original)
    ensures |r| == |original| && Words(r)
    ensures Value(r) == Shr(Value(original), shift)
  {
    hide Kept, Carried, Pow2, Shr;
    var n := |original|;
    var ret := new nat[n](_ => 0);
    var wordShift, bitShift := shift / 64, shift % 64;
    for i := Min(wordShift, n) to n
      invariant forall k :: 0 <= k < n ==> ret[k] == if k + wordShift < i then Carried(original[k + wordShift], 64 - bitShift) else 0
    {
      ret[i - wordShift] := Carried(original[i], 64 - bitShift);
    }
    if bitShift > 0 {
      for i := Min(wordShift + 1, n) to n
        invariant forall k :: 0 <= k < n ==>
          ret[k] == if k + wordShift + 1 < i then ShrWord(original, wordShift, bitShift, k)
                    else if k + wordShift < n then Carried(original[k + wordShift], 64 - bitShift) else 0
      {
        ret[i - wordShift - 1] := ret[i - wordShift - 1] + Kept(original[i], 64 - bitShift);
      }
    }
    r := ret[..];
    forall k | 0 <= k < n ensures r[k] == ShrWord(original, wordShift, bitShift, k) {
      if bitShift == 0 && k + wordShift + 1 < n {
        NothingKept(original[k + wordShift + 1]);
      }
    }
    ShrValue(original, r, wordShift, bitShift);
  }

  lemma NothingKept(w: nat)
    requires w < Q64
    ensures Kept(w, 64) == 0
  {
    Pow2Values();
    KeptAndCarried(w, 64);
  }

  // ---------------------------------------------------------------------------------------------
  // Zero counts

  function LeadingZeros(n: nat, width: nat): int { width - BitLength(n) }

  function TrailingZeros(n: nat, width: nat): nat { if n == 0 then width else Trailing(n) }

  /** The number of zeros above the highest set bit. */
  method CountLeadingZeros(a: seq<nat>) returns (r: nat)
    requires Words(a)
    ensures r == LeadingZeros(Value(a), Width(a))
  {
    hide Value, BitLength;
    r := 0;
    var n := |a|;
    for i := 0 to n
      invariant r == 64 * i
      invariant forall k :: n - i <= k < n ==> a[k] == 0
    {
      var w := a[n - i - 1];
      if w == 0 {
        r := r + 64;
      } else {
        TopWord(a, n - i - 1);
        r := r + (64 - BitLength(w));
        return;
      }
    }
    ZeroWords(a);
    assert BitLength(0) == 0 by {
      ZeroLength();
    }
  }

  lemma ZeroLength()
    ensures BitLength(0) == 0
  {
  }

  lemma TopWord(a: seq<nat>, j: nat)
    requires Words(a) && j < |a| && a[j] > 0 && forall k :: j < k < |a| ==> a[k] == 0
    ensures BitLength(Value(a)) == 64 * j + BitLength(a[j]) && BitLength(a[j]) <= 64
  {
    hide Pow2, Shr, Low, Value, BitLength;
    ValueSplit(a, j + 1);
    ZeroWords(a[j + 1..]);
    assert a[..j + 1] == a[..j] + [a[j]];
    ValueAppend(a[..j], a[j]);
    ValueBound(a[..j]);
    Unsplit(Value(a), 64 * j, a[j], Value(a[..j]));
    LengthAbove(Value(a), 64 * j);
    Pow2Values();
    LengthBound(a[j], 64);
  }

  /** The number of zeros below the lowest set bit. */
  method CountTrailingZeros(a: seq<nat>) returns (r: nat)
    requires Words(a)
    ensures r == TrailingZeros(Value(a), Width(a))
  {
    hide Value, Trailing;
    r := 0;
    var n := |a|;
    for i := 0 to n
      invariant r == 64 * i
      invariant forall k :: 0 <= k < i ==> a[k] == 0
    {
      var w := a[i];
      if w == 0 {
        r := r + 64;
      } else {
        BottomWord(a, i);
        r := r + Trailing(w);
        return;
      }
    }
    ZeroWords(a);
  }

  lemma BottomWord(a: seq<nat>, i: nat)
    requires Words(a) && i < |a| && a[i] > 0 && forall k :: 0 <= k < i ==> a[k] == 0
    ensures Value(a) > 0 && Trailing(Value(a)) == 64 * i + Trailing(a[i])
  {
    hide Pow2, Low, Trailing, Value;
    ValueSplit(a, i);
    ZeroWords(a[..i]);
    LowestWord(a[i..]);
    var m := Value(a[i..]);
    TrailingOfLow(m, 64);
    TrailingAbove(m, 64 * i);
    assert Value(a) == m * Pow2(64 * i);
  }

  lemma LowestWord(a: seq<nat>)
    requires Words(a) && a != []
    ensures Low(Value(a), 64) == a[0]
  {
    hide Pow2, Shr, Low;
    Pow2Values();
    Unsplit(Value(a), 64, Value(a[1..]), a[0]);
  }

  method IsZero(a: seq<nat>) returns (r: bool)
    ensures r <==> Value(a) == 0
  {
    var i := 0;
    while i < |a|
      invariant 0 <= i <= |a|
      invariant forall k :: 0 <= k < i ==> a[k] == 0
    {
      if a[i] != 0 {
        if Value(a) == 0 {
          SomeWord(a);
        }
        return false;
      }
      i := i + 1;
    }
    ZeroWords(a);
    return true;
  }

  // ---------------------------------------------------------------------------------------------
  // Single bits

  function One(n: nat): (r: seq<nat>)
    requires n > 0
    ensures Words(r) && |r| == n
  {
    seq(n, i => if i == 0 then 1 else 0)
  }

  lemma OneIsOne(n: nat)
    requires n > 0
    ensures Value(One(n)) == 1
  {
    ZeroWords(One(n)[1..]);
  }

  /** The words 1 << k hold exactly bit k. */
  lemma MaskIsPower(k: nat, width: nat)
    requires k < width
    ensures Shl(1, k, width) == Pow2(k)
  {
    hide Low, Shr, Pow2;
    Pow2Grows(k, width);
    Unsplit(1 * Pow2(k), width, 0, Pow2(k));
  }

  method BitXor(a: seq<nat>, b: seq<nat>) returns (r: seq<nat>)
    requires Words(a) && Words(b) && |a| == |b|
    ensures |r| == |a| && Words(r) && Value(r) == Xor(Value(a), Value(b))
  {
    hide Xor, Value;
    var ret := new nat[|a|](_ => 0);
    for i := 0 to |a|
      invariant forall k :: 0 <= k < i ==> ret[k] == Xor(a[k], b[k])
    {
      ret[i] := Xor(a[i], b[i]);
    }
    r := ret[..];
    XorWords(a, b, r);
  }

  lemma XorWords(a: seq<nat>, b: seq<nat>, r: seq<nat>)
    requires Words(a) && Words(b) && |a| == |b| == |r|
    requires forall k :: 0 <= k < |a| ==> r[k] == Xor(a[k], b[k])
    ensures Words(r) && Value(r) == Xor(Value(a), Value(b))
  {
    hide Xor, Value, Bit;
    forall k | 0 <= k < |r| ensures r[k] < Q64 {
      XorFits(a[k], b[k]);
    }
    forall i: nat ensures Bit(Value(r), i) == Bit(Xor(Value(a), Value(b)), i) {
      BitOfWord(a, i);
      BitOfWord(b, i);
      BitOfWord(r, i);
      BitOfXor(Value(a), Value(b), i);
      if i < Width(a) {
        BitOfXor(a[i / 64], b[i / 64], i % 64);
      }
    }
    SameBits(Value(r), Xor(Value(a), Value(b)));
  }

  lemma XorFits(m: nat, n: nat)
    requires m < Q64 && n < Q64
    ensures Xor(m, n) < Q64
  {
    hide Xor, BitLength, Bit;
    Pow2Values();
    LengthBound(m, 64);
    LengthBound(n, 64);
    LengthBound(Xor(m, n), 64);
    HighestBit(m);
    HighestBit(n);
    HighestBit(Xor(m, n));
    if BitLength(Xor(m, n)) > 64 {
      BitOfXor(m, n, BitLength(Xor(m, n)) - 1);
    }
  }

  /** The bit at an index within the width, read from its word. */
  method GetBit(a: seq<nat>, index: nat) returns (r: bool)
    requires Words(a) && index < Width(a)
    ensures r == Bit(Value(a), index)
  {
    BitOfWord(a, index);
    r := Bit(a[index / 64], index % 64);
  }

  /** Exclusive or with a mask flips exactly one bit. */
  method FlipBit(a: seq<nat>, index: nat) returns (r: seq<nat>)
    requires Words(a) && index < Width(a)
    ensures |r| == |a| && Words(r)
    ensures forall i: nat :: Bit(Value(r), i) <==> (if i == index then !Bit(Value(a), i) else Bit(Value(a), i))
  {
    hide Xor, Bit, Value;
    var mask := ShiftLeft(One(|a|), index);
    OneIsOne(|a|);
    MaskIsPower(index, Width(a));
    r := BitXor(a, mask);
    forall i: nat ensures Bit(Value(r), i) <==> (if i == index then !Bit(Value(a), i) else Bit(Value(a), i)) {
      BitOfXor(Value(a), Value(mask), i);
      BitOfPower(index, i);
    }
  }

  // ---------------------------------------------------------------------------------------------
  // The nearest set bit, by a shift and a zero count

  /** Going down from bit `from`: the distance to the highest set bit at or below it. */
  lemma NearestBelow(n: nat, from: nat, width: nat)
    requires from < width
    ensures var shifted := Shl(n, width - 1 - from, width);
            if shifted == 0 then forall i: nat :: i <= from ==> !Bit(n, i)
            else
              var d := LeadingZeros(shifted, width);
              0 <= d <= from && Bit(n, from - d) && forall i :: from - d < i <= from ==> !Bit(n, i)
  {
    hide Bit, Low, Shr, Pow2, BitLength;
    var k := width - 1 - from;
    var shifted := Shl(n, k, width);
    forall i: nat | i <= from ensures Bit(n, i) <==> Bit(shifted, i + k) {
      BitOfShl(n, k, width, i + k);
    }
    HighestBit(shifted);
    if shifted == 0 {
      forall i: nat | i <= from ensures !Bit(n, i) {
        NoBitsInZero(i + k);
      }
    } else {
      var top := BitLength(shifted) - 1;
      BitOfShl(n, k, width, top);
      forall i | top - k < i <= from ensures !Bit(n, i) {
        assert !Bit(shifted, i + k);
      }
    }
  }

  /** Going up from bit `from`: the distance to the lowest set bit at or above it. */
  lemma NearestAbove(n: nat, from: nat, width: nat)
    requires n < Pow2(width)
    ensures var shifted := Shr(n, from);
            if shifted == 0 then forall i: nat :: i >= from ==> !Bit(n, i)
            else
              var d := TrailingZeros(shifted, width);
              from + d < width && Bit(n, from + d) && forall i :: from <= i < from + d ==> !Bit(n, i)
  {
    hide Bit, Low, Shr, Pow2, Trailing, BitLength;
    var shifted := Shr(n, from);
    forall i: nat ensures Bit(n, from + i) <==> Bit(shifted, i) {
      BitOfShr(n, from, i);
    }
    if shifted == 0 {
      forall i: nat | i >= from ensures !Bit(n, i) {
        NoBitsInZero(i - from);
        assert !Bit(shifted, i - from);
      }
    } else {
      LowestBit(shifted);
      var d := Trailing(shifted);
      assert Bit(n, from + d);
      LengthBound(n, width);
      HighestBit(n);
      forall i | from <= i < from + d ensures !Bit(n, i) {
        assert !Bit(shifted, i - from);
        assert i == from + (i - from);
      }
    }
  }
}
