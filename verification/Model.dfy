/** The accounts of one pool as plain values: what the program stores between instructions. */
module Model {
  import opened FullMath

  // Growth counters come in vectors of five: the fees of token 0 and 1, then the three rewards.
  const TOKENS: nat := 2
  const REWARDS: nat := 3
  const COUNTERS: nat := 5

  type Counters = s: seq<nat> | |s| == 5 witness [0, 0, 0, 0, 0]
  type PerToken = s: seq<nat> | |s| == 2 witness [0, 0]
  type PerReward = s: seq<nat> | |s| == 3 witness [0, 0, 0]

  const NO_GROWTH: Counters := [0, 0, 0, 0, 0]

  /** A tick: net liquidity when crossed upwards, gross liquidity ending here, and for every counter
      the growth on the other side of the tick from the current one. */
  datatype Tick = Tick(net: int, gross: nat, outside: Counters)

  const EMPTY_TICK: Tick := Tick(0, 0, NO_GROWTH)

  /** A reward schedule with its accumulator. */
  datatype Reward = Reward(initialized: bool, openTime: nat, endTime: nat, lastUpdate: nat,
                           emissions: nat, emissioned: nat, claimed: nat, growth: nat)

  type Rewards = s: seq<Reward> | |s| == 3
    witness [Reward(false, 0, 0, 0, 0, 0, 0, 0), Reward(false, 0, 0, 0, 0, 0, 0, 0), Reward(false, 0, 0, 0, 0, 0, 0, 0)]

  /** Which instructions are enabled. */
  datatype Status = Status(open: bool, decrease: bool, collectFee: bool, collectReward: bool, swap: bool)

  datatype Pool = Pool(spacing: nat, openTime: nat, status: Status,
                       liquidity: nat, sqrtPrice: nat, tick: int,
                       feeGrowth: PerToken, totalFees: PerToken, claimedFees: PerToken,
                       protocolFees: PerToken, fundFees: PerToken, rewards: Rewards)

  /** All positions of one range together. */
  datatype Protocol = Protocol(liquidity: nat, last: Counters, feesOwed: PerToken)

  /** One owner's position. */
  datatype Position = Position(lower: int, upper: int, liquidity: nat, last: Counters, owed: Counters)

  datatype Config = Config(tradeFeeRate: nat, protocolFeeRate: nat, fundFeeRate: nat)

  /** Everything the pool's instructions read and write. `ticks` holds the initialised ticks only. */
  datatype State = State(pool: Pool, config: Config, ticks: map<int, Tick>,
                         protocols: map<(int, int), Protocol>, positions: seq<Position>,
                         vault: seq<int>, rewardVault: PerReward, clock: nat)

  function TickOf(ticks: map<int, Tick>, i: int): Tick {
    if i in ticks then ticks[i] else EMPTY_TICK
  }

  /** Storing a tick; one without liquidity is cleared, that is, no longer among the initialised. */
  function PutTick(ticks: map<int, Tick>, i: int, t: Tick): map<int, Tick> {
    if t.gross == 0 then ticks - {i} else ticks[i := t]
  }

  /** The global growth of counter k. */
  function Growth(pool: Pool, k: nat): nat
    requires k < COUNTERS
  {
    if k < TOKENS then pool.feeGrowth[k] else pool.rewards[k - TOKENS].growth
  }

  function Growths(pool: Pool): Counters {
    [pool.feeGrowth[0], pool.feeGrowth[1],
     pool.rewards[0].growth, pool.rewards[1].growth, pool.rewards[2].growth]
  }

  /** What has been collected or emitted for counter k and not been claimed yet. */
  function Unclaimed(pool: Pool, k: nat): int
    requires k < COUNTERS
  {
    if k < TOKENS then pool.totalFees[k] - pool.claimedFees[k]
    else pool.rewards[k - TOKENS].emissioned - pool.rewards[k - TOKENS].claimed
  }

  /** Rewards that were never set up keep their counters at zero and are skipped. */
  predicate Live(pool: Pool, k: nat)
    requires k < COUNTERS
  {
    k < TOKENS || pool.rewards[k - TOKENS].initialized
  }
}
