/** The liquidity ledger: ticks, ranges and the active liquidity are sums over the open positions. */
module Ledger {
  import opened FullMath
  import opened Sums
  import opened Model

  ghost function GrossAt(i: int): Position -> int {
    (p: Position) => (if p.lower == i then p.liquidity else 0) + (if p.upper == i then p.liquidity else 0)
  }

  ghost function NetAt(i: int): Position -> int {
    (p: Position) => (if p.lower == i then p.liquidity else 0) - (if p.upper == i then p.liquidity else 0)
  }

  predicate Covers(p: Position, tick: int) {
    p.lower <= tick < p.upper
  }

  ghost function CoverAt(tick: int): Position -> int {
    (p: Position) => if Covers(p, tick) then p.liquidity else 0
  }

  ghost function RangeAt(lower: int, upper: int): Position -> int {
    (p: Position) => if p.lower == lower && p.upper == upper then p.liquidity else 0
  }

  ghost function GrossSum(ps: seq<Position>, i: int): int { Sum(ps, GrossAt(i)) }
  ghost function NetSum(ps: seq<Position>, i: int): int { Sum(ps, NetAt(i)) }
  ghost function RangeSum(ps: seq<Position>, lower: int, upper: int): int { Sum(ps, RangeAt(lower, upper)) }

  /** The liquidity of the positions covering a tick. */
  ghost function Active(ps: seq<Position>, tick: int): int { Sum(ps, CoverAt(tick)) }

  ghost predicate Ordered(ps: seq<Position>) {
    forall p :: p in ps ==> p.lower < p.upper
  }

  /** Each tick holds the gross and net sums of the positions ending there, and is among the
      initialised ticks exactly when the gross sum is positive. */
  ghost predicate TicksBalance(ps: seq<Position>, ticks: map<int, Tick>) {
    && (forall i :: TickOf(ticks, i).gross == GrossSum(ps, i))
    && (forall i :: TickOf(ticks, i).net == NetSum(ps, i))
    && (forall i :: i in ticks ==> ticks[i].gross > 0)
  }

  /** Each range holds the sum of its positions, and every position has its range. */
  ghost predicate RangesBalance(ps: seq<Position>, protocols: map<(int, int), Protocol>) {
    && (forall r :: r in protocols ==> protocols[r].liquidity == RangeSum(ps, r.0, r.1))
    && (forall p :: p in ps ==> (p.lower, p.upper) in protocols)
  }

  lemma EndsInitialised(ps: seq<Position>, ticks: map<int, Tick>, p: Position)
    requires TicksBalance(ps, ticks) && p in ps && p.liquidity > 0
    ensures p.lower in ticks && p.upper in ticks
  {
    SumCovers(ps, GrossAt(p.lower));
    SumCovers(ps, GrossAt(p.upper));
    assert GrossAt(p.lower)(p) > 0 && GrossAt(p.upper)(p) > 0;
    assert TickOf(ticks, p.lower).gross == GrossSum(ps, p.lower);
    assert TickOf(ticks, p.upper).gross == GrossSum(ps, p.upper);
  }

  ghost predicate NoneBetween(ticks: map<int, Tick>, above: int, upTo: int) {
    forall i :: i in ticks ==> !(above < i <= upTo)
  }

  /** Moving between ticks without passing an initialised one keeps the covering positions. */
  lemma QuietMove(ps: seq<Position>, ticks: map<int, Tick>, a: int, b: int)
    requires TicksBalance(ps, ticks) && a <= b && NoneBetween(ticks, a, b)
    ensures Active(ps, a) == Active(ps, b)
  {
    forall p | p in ps ensures CoverAt(a)(p) == CoverAt(b)(p) {
      if p.liquidity > 0 {
        EndsInitialised(ps, ticks, p);
      }
    }
    SumSame(ps, CoverAt(a), CoverAt(b));
  }

  /** The active liquidity below and above tick n differ by its net liquidity. */
  lemma NetIsTheStep(ps: seq<Position>, ticks: map<int, Tick>, n: int)
    requires TicksBalance(ps, ticks) && Ordered(ps)
    ensures Active(ps, n) == Active(ps, n - 1) + TickOf(ticks, n).net
  {
    assert TickOf(ticks, n).net == NetSum(ps, n);
    SumLinear(ps, CoverAt(n), CoverAt(n - 1), NetAt(n), 1);
  }

  /** A tick without gross liquidity has no net liquidity either: clearing it loses nothing. */
  lemma NothingToClear(ps: seq<Position>, i: int)
    requires GrossSum(ps, i) == 0
    ensures NetSum(ps, i) == 0
  {
    SumCovers(ps, GrossAt(i));
    SumSame(ps, NetAt(i), GrossAt(i));
  }

  // ---------------------------------------------------------------------------------------------
  // Changing the liquidity of one position

  /** The sums after position id changed its liquidity within the same range. */
  lemma SumsAfterChange(ps: seq<Position>, id: nat, p': Position)
    requires id < |ps| && p'.lower == ps[id].lower < ps[id].upper == p'.upper
    ensures var p := ps[id]; var d := p'.liquidity - p.liquidity; var ps' := ps[id := p'];
            && (forall i :: GrossSum(ps', i) == GrossSum(ps, i) + (if i == p.lower || i == p.upper then d else 0))
            && (forall i :: NetSum(ps', i) == NetSum(ps, i) + (if i == p.lower then d else 0) - (if i == p.upper then d else 0))
            && (forall t :: Active(ps', t) == Active(ps, t) + (if Covers(p, t) then d else 0))
            && (forall a, b :: RangeSum(ps', a, b) == RangeSum(ps, a, b) + (if a == p.lower && b == p.upper then d else 0))
  {
    var ps' := ps[id := p'];
    forall i ensures GrossSum(ps', i) == GrossSum(ps, i) - GrossAt(i)(ps[id]) + GrossAt(i)(p')
             ensures NetSum(ps', i) == NetSum(ps, i) - NetAt(i)(ps[id]) + NetAt(i)(p')
             ensures Active(ps', i) == Active(ps, i) - CoverAt(i)(ps[id]) + CoverAt(i)(p') {
      SumUpdate(ps, id, p', GrossAt(i));
      SumUpdate(ps, id, p', NetAt(i));
      SumUpdate(ps, id, p', CoverAt(i));
    }
    forall a, b ensures RangeSum(ps', a, b) == RangeSum(ps, a, b) - RangeAt(a, b)(ps[id]) + RangeAt(a, b)(p') {
      SumUpdate(ps, id, p', RangeAt(a, b));
    }
  }

  /** Both end ticks changed by d, the lower one up, the upper one down in net liquidity. */
  lemma TicksBalanceAfterChange(ps: seq<Position>, ticks: map<int, Tick>, id: nat, p': Position, lo: Tick, up: Tick)
    requires TicksBalance(ps, ticks)
    requires id < |ps| && p'.lower == ps[id].lower < ps[id].upper == p'.upper
    requires var p := ps[id]; var d := p'.liquidity - p.liquidity;
             && lo.gross == TickOf(ticks, p.lower).gross + d && lo.net == TickOf(ticks, p.lower).net + d
             && up.gross == TickOf(ticks, p.upper).gross + d && up.net == TickOf(ticks, p.upper).net - d
    ensures TicksBalance(ps[id := p'], PutTick(PutTick(ticks, p'.lower, lo), p'.upper, up))
  {
    var ps' := ps[id := p'];
    var ticks' := PutTick(PutTick(ticks, p'.lower, lo), p'.upper, up);
    SumsAfterChange(ps, id, p');
    forall i ensures TickOf(ticks', i).gross == GrossSum(ps', i) && TickOf(ticks', i).net == NetSum(ps', i) {
      assert TickOf(ticks, i).gross == GrossSum(ps, i) && TickOf(ticks, i).net == NetSum(ps, i);
      if GrossSum(ps', i) == 0 {
        NothingToClear(ps', i);
      }
    }
  }

  // ---------------------------------------------------------------------------------------------
  // The active liquidity is also the running sum of net liquidity over the ticks passed

  ghost function NetOver(ticks: map<int, Tick>, ks: seq<int>): int {
    Sum(ks, (i: int) => TickOf(ticks, i).net)
  }

  ghost function NetAtAny(ks: seq<int>): Position -> int {
    (p: Position) => (if p.lower in ks then p.liquidity else 0) - (if p.upper in ks then p.liquidity else 0)
  }

  ghost predicate Distinct(ks: seq<int>) {
    forall a, b :: 0 <= a < b < |ks| ==> ks[a] != ks[b]
  }

  lemma {:induction false} NetOverIsSum(ps: seq<Position>, ticks: map<int, Tick>, ks: seq<int>)
    requires TicksBalance(ps, ticks) && Distinct(ks)
    ensures NetOver(ticks, ks) == Sum(ps, NetAtAny(ks))
  {
    if ks == [] {
      SumLinear(ps, NetAtAny(ks), NetAtAny(ks), NetAtAny(ks), -1);
      assert forall p :: p in ps ==> NetAtAny(ks)(p) == 0;
    } else {
      var ks', k := ks[..|ks| - 1], ks[|ks| - 1];
      NetOverIsSum(ps, ticks, ks');
      assert ks == ks' + [k];
      assert TickOf(ticks, k).net == NetSum(ps, k);
      SumLinear(ps, NetAtAny(ks), NetAtAny(ks'), NetAt(k), 1);
    }
  }

  /** For any listing of the initialised ticks at or below the current one. */
  lemma ActiveIsNetBelow(ps: seq<Position>, ticks: map<int, Tick>, tick: int, ks: seq<int>)
    requires TicksBalance(ps, ticks) && Ordered(ps)
    requires Distinct(ks) && forall i :: i in ks <==> i in ticks && i <= tick
    ensures Active(ps, tick) == NetOver(ticks, ks)
  {
    NetOverIsSum(ps, ticks, ks);
    forall p | p in ps ensures CoverAt(tick)(p) == NetAtAny(ks)(p) {
      if p.liquidity > 0 {
        EndsInitialised(ps, ticks, p);
      }
    }
    SumSame(ps, CoverAt(tick), NetAtAny(ks));
  }
}
