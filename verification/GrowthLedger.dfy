/** Lazy growth counters against what positions are owed. A position's claim on counter k is what it
    is owed plus its liquidity times the growth inside its range since its last visit, all in Q64. */
module GrowthLedger {
  import opened Wrappers
  import opened FullMath
  import opened Sums
  import opened Model
  import opened Ticks
  import opened Positions
  import opened Ledger

  /** One counter as the pool sees it: its index, its global growth, and where the price stands. */
  datatype View = View(k: nat, growth: nat, ticks: map<int, Tick>, tick: int)

  ghost predicate ValidView(v: View) {
    && v.k < COUNTERS && v.growth <= U128_MAX
    && forall i :: i in v.ticks ==> v.ticks[i].outside[v.k] <= v.growth
  }

  /** Growth inside a range, exact. */
  ghost function Inside(v: View, lower: int, upper: int): int
    requires v.k < COUNTERS
  {
    InsideExact(TickOf(v.ticks, lower).outside[v.k], TickOf(v.ticks, upper).outside[v.k], lower, upper, v.tick, v.growth)
  }

  /** Growth inside the position's range since `last` was recorded. */
  ghost function Since(v: View, p: Position, last: int): nat
    requires v.k < COUNTERS
  {
    (Inside(v, p.lower, p.upper) - last) % U128_MOD
  }

  ghost function Pending(v: View, p: Position): nat
    requires v.k < COUNTERS
  {
    Since(v, p, p.last[v.k])
  }

  ghost function ClaimOf(v: View): Position -> int
    requires v.k < COUNTERS
  {
    (p: Position) => p.owed[v.k] * Q64 + p.liquidity * Pending(v, p)
  }

  /** No counter has wrapped since a position's last visit, and its range was visited no earlier. */
  ghost predicate Recorded(v: View, p: Position, protocols: map<(int, int), Protocol>)
    requires v.k < COUNTERS
  {
    p.liquidity > 0 ==>
      && Pending(v, p) <= v.growth
      && (p.lower, p.upper) in protocols
      && Since(v, p, protocols[(p.lower, p.upper)].last[v.k]) <= Pending(v, p)
  }

  ghost predicate AllRecorded(v: View, ps: seq<Position>, protocols: map<(int, int), Protocol>)
    requires v.k < COUNTERS
  {
    forall p :: p in ps ==> Recorded(v, p, protocols)
  }

  /** All claims together are covered by what came in and was not paid out. */
  ghost predicate Covered(v: View, ps: seq<Position>, unclaimed: int)
    requires v.k < COUNTERS
  {
    Sum(ps, ClaimOf(v)) <= unclaimed * Q64
  }

  ghost predicate CounterInv(v: View, ps: seq<Position>, protocols: map<(int, int), Protocol>, unclaimed: int) {
    ValidView(v) && AllRecorded(v, ps, protocols) && Covered(v, ps, unclaimed)
  }

  // ---------------------------------------------------------------------------------------------
  // Growth while the tick stands still

  /** New growth reaches exactly the ranges that cover the current tick. */
  lemma InsideGrows(v: View, d: nat, lower: int, upper: int)
    requires v.k < COUNTERS && lower < upper
    ensures Inside(v.(growth := v.growth + d), lower, upper)
            == Inside(v, lower, upper) + (if lower <= v.tick < upper then d else 0)
  {
  }

  lemma ModAdd(x: int, d: nat)
    requires x % U128_MOD + d < U128_MOD
    ensures (x + d) % U128_MOD == x % U128_MOD + d
  {
    ModUnique(x + d, x / U128_MOD, x % U128_MOD + d);
  }

  lemma PendingGrows(v: View, d: nat, p: Position, last: int)
    requires v.k < COUNTERS && p.lower < p.upper
    requires Since(v, p, last) <= v.growth && v.growth + d <= U128_MAX
    ensures Since(v.(growth := v.growth + d), p, last) == Since(v, p, last) + (if Covers(p, v.tick) then d else 0)
  {
    InsideGrows(v, d, p.lower, p.upper);
    if Covers(p, v.tick) {
      ModAdd(Inside(v, p.lower, p.upper) - last, d);
    }
  }

  /** Growth d per unit of liquidity, paid for by a, keeps every claim covered. */
  lemma Accrue(v: View, ps: seq<Position>, protocols: map<(int, int), Protocol>, unclaimed: int, d: nat, a: nat)
    requires CounterInv(v, ps, protocols, unclaimed) && Ordered(ps)
    requires v.growth + d <= U128_MAX
    requires Active(ps, v.tick) * d <= a * Q64
    ensures CounterInv(v.(growth := v.growth + d), ps, protocols, unclaimed + a)
  {
    hide Inside;
    var v' := v.(growth := v.growth + d);
    forall p | p in ps ensures Recorded(v', p, protocols) && ClaimOf(v')(p) == ClaimOf(v)(p) + d * CoverAt(v.tick)(p) {
      assert Recorded(v, p, protocols);
      if p.liquidity > 0 {
        PendingGrows(v, d, p, p.last[v.k]);
        PendingGrows(v, d, p, protocols[(p.lower, p.upper)].last[v.k]);
        if Covers(p, v.tick) {
          assert p.liquidity * (Pending(v, p) + d) == p.liquidity * Pending(v, p) + d * p.liquidity;
        }
      }
    }
    SumLinear(ps, ClaimOf(v'), ClaimOf(v), CoverAt(v.tick), d);
    assert d * Active(ps, v.tick) == Active(ps, v.tick) * d;
  }

  // ---------------------------------------------------------------------------------------------
  // Moving the tick

  /** Views that agree on the growth inside every open range carry the same claims. */
  lemma SameInside(v: View, v': View, ps: seq<Position>, protocols: map<(int, int), Protocol>, unclaimed: int)
    requires CounterInv(v, ps, protocols, unclaimed) && ValidView(v')
    requires v'.k == v.k && v'.growth == v.growth
    requires forall p :: p in ps && p.liquidity > 0 ==> Inside(v', p.lower, p.upper) == Inside(v, p.lower, p.upper)
    ensures CounterInv(v', ps, protocols, unclaimed)
  {
    hide Inside;
    forall p | p in ps ensures Recorded(v', p, protocols) && ClaimOf(v')(p) == ClaimOf(v)(p) {
      assert Recorded(v, p, protocols);
    }
    SumSame(ps, ClaimOf(v'), ClaimOf(v));
  }

  /** Moving the tick without passing an initialised tick. */
  lemma MoveKeeps(v: View, tick': int, ps: seq<Position>, protocols: map<(int, int), Protocol>, unclaimed: int)
    requires CounterInv(v, ps, protocols, unclaimed) && TicksBalance(ps, v.ticks)
    requires NoneBetween(v.ticks, tick', v.tick) && NoneBetween(v.ticks, v.tick, tick')
    ensures CounterInv(v.(tick := tick'), ps, protocols, unclaimed)
  {
    var v' := v.(tick := tick');
    forall p | p in ps && p.liquidity > 0 ensures Inside(v', p.lower, p.upper) == Inside(v, p.lower, p.upper) {
      EndsInitialised(ps, v.ticks, p);
    }
    SameInside(v, v', ps, protocols, unclaimed);
  }

  /** The view after crossing tick n, whose outside growth is turned over. */
  ghost function Crossed(v: View, n: int, t': Tick, zeroForOne: bool): View {
    v.(ticks := v.ticks[n := t'], tick := if zeroForOne then n - 1 else n)
  }

  /** Crossing leaves the growth inside every range with initialised ends unchanged, exactly. */
  lemma CrossKeepsInside(v: View, n: int, t': Tick, zeroForOne: bool, lower: int, upper: int)
    requires v.k < COUNTERS && n in v.ticks && lower < upper && lower in v.ticks && upper in v.ticks
    requires v.ticks[n].outside[v.k] <= v.growth && t'.outside[v.k] == v.growth - v.ticks[n].outside[v.k]
    requires if zeroForOne then n <= v.tick && NoneBetween(v.ticks, n, v.tick)
             else v.tick < n && NoneBetween(v.ticks, v.tick, n - 1)
    ensures Inside(Crossed(v, n, t', zeroForOne), lower, upper) == Inside(v, lower, upper)
  {
  }

  lemma CrossKeeps(v: View, n: int, t': Tick, zeroForOne: bool, ps: seq<Position>, protocols: map<(int, int), Protocol>, unclaimed: int)
    requires CounterInv(v, ps, protocols, unclaimed) && TicksBalance(ps, v.ticks) && Ordered(ps)
    requires n in v.ticks && t'.outside[v.k] == v.growth - v.ticks[n].outside[v.k]
    requires if zeroForOne then n <= v.tick && NoneBetween(v.ticks, n, v.tick)
             else v.tick < n && NoneBetween(v.ticks, v.tick, n - 1)
    ensures CounterInv(Crossed(v, n, t', zeroForOne), ps, protocols, unclaimed)
  {
    hide Inside;
    var v' := Crossed(v, n, t', zeroForOne);
    forall p | p in ps && p.liquidity > 0 ensures Inside(v', p.lower, p.upper) == Inside(v, p.lower, p.upper) {
      EndsInitialised(ps, v.ticks, p);
      CrossKeepsInside(v, n, t', zeroForOne, p.lower, p.upper);
    }
    SameInside(v, v', ps, protocols, unclaimed);
  }

  // ---------------------------------------------------------------------------------------------
  // Visiting a position

  lemma SinceSplits(x: int, last: int, latest: int)
    requires (x - latest) % U128_MOD <= (x - last) % U128_MOD
    ensures (latest - last) % U128_MOD == (x - last) % U128_MOD - (x - latest) % U128_MOD
  {
    var a, b := (x - last) % U128_MOD, (x - latest) % U128_MOD;
    ModUnique(latest - last, (x - last) / U128_MOD - (x - latest) / U128_MOD, a - b);
  }

  /** Settling moves pending growth into the owed amount; rounding only ever loses. */
  lemma SettleKeepsClaim(owed: nat, owed': nat, inside: int, last: nat, latest: nat, liquidity: nat)
    requires LatestOwed(owed, last, latest, liquidity) == Some(owed')
    requires liquidity > 0 ==> (inside - latest) % U128_MOD <= (inside - last) % U128_MOD
    ensures owed' * Q64 + liquidity * ((inside - latest) % U128_MOD)
            <= owed * Q64 + liquidity * ((inside - last) % U128_MOD)
  {
    var delta := (latest - last) % U128_MOD;
    var x := MulDivFloor128(delta, liquidity, Q64).value;
    assert x * Q64 <= delta * liquidity;
    if liquidity > 0 {
      SinceSplits(inside, last, latest);
      assert liquidity * delta
             == liquidity * ((inside - last) % U128_MOD) - liquidity * ((inside - latest) % U128_MOD);
    }
  }

  /** A stored tick of the range: an initialised one keeps its outside growth, a fresh one gets at most
      the global growth. */
  ghost predicate KeepsOutside(v: View, i: int, t: Tick)
    requires v.k < COUNTERS
  {
    && t.outside[v.k] <= v.growth
    && (i in v.ticks ==> t.outside[v.k] == v.ticks[i].outside[v.k])
  }

  ghost function Stored(v: View, a: int, lo: Tick, b: int, up: Tick): View {
    v.(ticks := PutTick(PutTick(v.ticks, a, lo), b, up))
  }

  /** A position is settled against the fresh growth inside its range, and its liquidity changes. */
  lemma ChangeKeeps(v: View, ps: seq<Position>, protocols: map<(int, int), Protocol>, unclaimed: int,
                    id: nat, p': Position, q': Protocol, lo: Tick, up: Tick)
    requires CounterInv(v, ps, protocols, unclaimed) && TicksBalance(ps, v.ticks)
    requires id < |ps| && ps[id].lower == p'.lower < p'.upper == ps[id].upper
    requires KeepsOutside(v, p'.lower, lo) && KeepsOutside(v, p'.upper, up)
    requires TicksBalance(ps[id := p'], Stored(v, p'.lower, lo, p'.upper, up).ticks)
    requires var inside := InsideExact(lo.outside[v.k], up.outside[v.k], p'.lower, p'.upper, v.tick, v.growth);
             q'.last[v.k] == p'.last[v.k] == inside % U128_MOD
    requires LatestOwed(ps[id].owed[v.k], ps[id].last[v.k], p'.last[v.k], ps[id].liquidity) == Some(p'.owed[v.k])
    ensures CounterInv(Stored(v, p'.lower, lo, p'.upper, up), ps[id := p'], protocols[(p'.lower, p'.upper) := q'], unclaimed)
  {
    hide Inside, InsideExact, LatestOwed, TicksBalance;
    var v' := Stored(v, p'.lower, lo, p'.upper, up);
    var ps', protocols' := ps[id := p'], protocols[(p'.lower, p'.upper) := q'];
    assert ps[id] in ps && p' == ps'[id] && Recorded(v, ps[id], protocols);
    EndsIfOpen(ps, v.ticks, ps[id]);
    EndsIfOpen(ps', v'.ticks, p');
    VisitedKeeps(v, ps[id], p', protocols, q', lo, up);
    forall j | 0 <= j < |ps| && j != id ensures ClaimOf(v')(ps[j]) <= ClaimOf(v)(ps[j]) && Recorded(v', ps[j], protocols') {
      assert ps[j] in ps && ps[j] == ps'[j] && Recorded(v, ps[j], protocols);
      EndsIfOpen(ps, v.ticks, ps[j]);
      EndsIfOpen(ps', v'.ticks, ps[j]);
      OtherKeeps(v, ps[j], protocols, p'.lower, p'.upper, q', lo, up);
    }
    SumUpdateBound(ps, id, p', ClaimOf(v'), ClaimOf(v));
  }

  lemma EndsIfOpen(ps: seq<Position>, ticks: map<int, Tick>, p: Position)
    requires TicksBalance(ps, ticks) && p in ps
    ensures p.liquidity > 0 ==> p.lower in ticks && p.upper in ticks
  {
    if p.liquidity > 0 {
      EndsInitialised(ps, ticks, p);
    }
  }

  lemma VisitedKeeps(v: View, p: Position, p': Position, protocols: map<(int, int), Protocol>,
                     q': Protocol, lo: Tick, up: Tick)
    requires ValidView(v) && p.lower == p'.lower < p'.upper == p.upper
    requires KeepsOutside(v, p.lower, lo) && KeepsOutside(v, p.upper, up)
    requires var v' := Stored(v, p.lower, lo, p.upper, up);
             && (p.liquidity > 0 ==> p.lower in v.ticks && p.upper in v.ticks && Pending(v, p) <= v.growth)
             && (p'.liquidity > 0 ==> p.lower in v'.ticks && p.upper in v'.ticks)
    requires var inside := InsideExact(lo.outside[v.k], up.outside[v.k], p.lower, p.upper, v.tick, v.growth);
             q'.last[v.k] == p'.last[v.k] == inside % U128_MOD
    requires LatestOwed(p.owed[v.k], p.last[v.k], p'.last[v.k], p.liquidity) == Some(p'.owed[v.k])
    ensures ClaimOf(Stored(v, p.lower, lo, p.upper, up))(p') <= ClaimOf(v)(p)
    ensures Recorded(Stored(v, p.lower, lo, p.upper, up), p', protocols[(p.lower, p.upper) := q'])
  {
    hide InsideExact, LatestOwed;
    var v', k := Stored(v, p.lower, lo, p.upper, up), v.k;
    var inside := InsideExact(lo.outside[k], up.outside[k], p.lower, p.upper, v.tick, v.growth);
    SinceRecorded(inside);
    SettleKeepsClaim(p.owed[k], p'.owed[k], inside, p.last[k], p'.last[k], p.liquidity);
    assert p.liquidity > 0 ==> Inside(v, p.lower, p.upper) == inside;
    assert p'.liquidity > 0 ==> Inside(v', p.lower, p.upper) == inside;
  }

  lemma OtherKeeps(v: View, x: Position, protocols: map<(int, int), Protocol>,
                   a: int, b: int, q': Protocol, lo: Tick, up: Tick)
    requires ValidView(v) && a < b
    requires KeepsOutside(v, a, lo) && KeepsOutside(v, b, up)
    requires Recorded(v, x, protocols)
    requires x.liquidity > 0 ==> x.lower in v.ticks && x.upper in v.ticks
    requires var v' := Stored(v, a, lo, b, up);
             x.liquidity > 0 ==> x.lower in v'.ticks && x.upper in v'.ticks
    requires var inside := InsideExact(lo.outside[v.k], up.outside[v.k], a, b, v.tick, v.growth);
             q'.last[v.k] == inside % U128_MOD
    ensures var v' := Stored(v, a, lo, b, up);
            ClaimOf(v')(x) <= ClaimOf(v)(x) && Recorded(v', x, protocols[(a, b) := q'])
  {
    hide InsideExact;
    var v', k := Stored(v, a, lo, b, up), v.k;
    if x.liquidity > 0 {
      assert TickOf(v'.ticks, x.lower).outside[k] == TickOf(v.ticks, x.lower).outside[k];
      assert TickOf(v'.ticks, x.upper).outside[k] == TickOf(v.ticks, x.upper).outside[k];
      assert Inside(v', x.lower, x.upper) == Inside(v, x.lower, x.upper);
      if x.lower == a && x.upper == b {
        SinceRecorded(InsideExact(lo.outside[k], up.outside[k], a, b, v.tick, v.growth));
      }
    }
  }

  lemma SinceRecorded(inside: int)
    ensures (inside - inside % U128_MOD) % U128_MOD == 0
  {
    WrappingTwice(inside, inside % U128_MOD);
    ModUnique(inside - inside % U128_MOD, inside / U128_MOD, 0);
  }

  /** A position is settled against what its range recorded earlier; its liquidity stays. */
  lemma StaleSettleKeeps(v: View, ps: seq<Position>, protocols: map<(int, int), Protocol>, unclaimed: int, id: nat, p': Position)
    requires CounterInv(v, ps, protocols, unclaimed)
    requires id < |ps| && ps[id].lower == p'.lower && p'.upper == ps[id].upper && p'.liquidity == ps[id].liquidity
    requires (p'.lower, p'.upper) in protocols && p'.last[v.k] == protocols[(p'.lower, p'.upper)].last[v.k]
    requires LatestOwed(ps[id].owed[v.k], ps[id].last[v.k], p'.last[v.k], p'.liquidity) == Some(p'.owed[v.k])
    ensures CounterInv(v, ps[id := p'], protocols, unclaimed)
  {
    hide Inside, LatestOwed;
    var p := ps[id];
    assert p in ps && Recorded(v, p, protocols);
    SettleKeepsClaim(p.owed[v.k], p'.owed[v.k], Inside(v, p.lower, p.upper), p.last[v.k], p'.last[v.k], p.liquidity);
    SumUpdateBound(ps, id, p', ClaimOf(v), ClaimOf(v));
    forall x | x in ps[id := p'] ensures Recorded(v, x, protocols) {
      assert x == p' || x in ps;
    }
  }

  /** A new position without liquidity, or a new range without positions, claims nothing. */
  lemma OpenKeeps(v: View, ps: seq<Position>, protocols: map<(int, int), Protocol>, unclaimed: int, p: Position, q: Protocol)
    requires CounterInv(v, ps, protocols, unclaimed)
    requires p.liquidity == 0 && p.owed[v.k] == 0
    requires (p.lower, p.upper) in protocols ==> protocols[(p.lower, p.upper)] == q
    ensures CounterInv(v, ps + [p], protocols[(p.lower, p.upper) := q], unclaimed)
  {
    hide Inside;
    SumAppend(ps, p, ClaimOf(v));
    forall x | x in ps + [p] ensures Recorded(v, x, protocols[(p.lower, p.upper) := q]) {
      if x in ps {
        assert Recorded(v, x, protocols);
      }
    }
  }

  /** Paying a out of what position id is owed. */
  lemma PayKeeps(v: View, ps: seq<Position>, protocols: map<(int, int), Protocol>, unclaimed: int, id: nat, p': Position, a: nat)
    requires CounterInv(v, ps, protocols, unclaimed)
    requires id < |ps| && ps[id].lower == p'.lower && p'.upper == ps[id].upper && p'.liquidity == ps[id].liquidity
    requires p'.last[v.k] == ps[id].last[v.k] && p'.owed[v.k] + a == ps[id].owed[v.k]
    ensures CounterInv(v, ps[id := p'], protocols, unclaimed - a)
  {
    hide Inside;
    SumUpdate(ps, id, p', ClaimOf(v));
    assert ClaimOf(v)(p') == ClaimOf(v)(ps[id]) - a * Q64;
    forall x | x in ps[id := p'] ensures Recorded(v, x, protocols) {
      assert x == p' || x in ps;
      assert Recorded(v, ps[id], protocols);
    }
  }

  /** No claim exceeds what is there: the guard that compares an owed amount with it never rejects. */
  lemma OwedIsCovered(v: View, ps: seq<Position>, protocols: map<(int, int), Protocol>, unclaimed: int, id: nat)
    requires CounterInv(v, ps, protocols, unclaimed) && id < |ps|
    ensures ps[id].owed[v.k] <= unclaimed
  {
    hide Inside;
    SumCovers(ps, ClaimOf(v));
    assert ps[id] in ps;
    assert ps[id].owed[v.k] * Q64 <= ClaimOf(v)(ps[id]);
  }
}
