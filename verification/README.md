# A verified model of the concentrated-liquidity pool program

The program under `programs/clamm` keeps a pool of two tokens whose price is a Q64.64 square root. Owners
put liquidity into ranges of ticks; a swap walks the price from initialised tick to initialised tick, charges
a fee on the input, and shares it between owners, protocol and fund. Fees and up to three rewards are
accounted for lazily, in counters modulo 2^128 that only the ticks crossed and the positions visited ever
read. The initialised ticks are found through arrays of 60 slots and 30 bitmaps.

The project has two layers.

**The reference machine** (`Model`, `Ticks`, `RewardRules`, `Positions`, `Machine`, `Runs`) is the program on
values: a `State` holds pool, fee configuration, ticks, ranges, positions, vaults and clock; every instruction
is a function to `Option<State>`; `Run` carries out a list of transactions. `None` is an abort: a failed
requirement, an `unwrap`, a checked operation or an addition out of its width. An aborted transaction leaves
the state alone, and so does one whose clock runs backwards. The prices are the program's own: the nineteen
constants are multiplied in as the source does, and strict monotonicity of the result over all ticks is
proved, not assumed; the tick of a price is the floor the documentation states. `Reachable` is the least set
that holds every created pool and is closed under every transaction. The theorems about whole runs are in
`Theorems`, `SwapRuns`, `FeeSplit`, `EagerLedger`, `Visits` and `Affordability`. `Transfers` and `Refusals` say
of each instruction what it moves and when it is refused, by vaults, positions and exact values.

**The program itself** (`BigNum`, `TickPrices`, `BitmapSearch`, `BitmapExtension`, `PoolStates`, `TickArrays`,
`PositionStates`, `RewardInfos`, `LiquidityChanges`, `SwapSearch`, `SwapProgram`, `Withdrawals`, `Programs`,
`Quotes`) has the source's form: classes with its fields, methods with its loops, words of 64 bits. Each method
is proved to do what the reference machine does, on success and on failure: an instruction of class `Program`
carries out exactly the reference step, and it refuses in addition only when the accounts handed over are not
the right ones. The object invariant of `Program` says that its accounts stand for a reachable state and that
bitmaps, counts and slots agree with the set of initialised ticks, so every theorem about reachable states
holds of the program's accounts after any sequence of instructions.

Prices are integers throughout. `real` is used where the program rounds, for what it rounds: the exact token
value of a position at a price, and the exact powers that the logarithm and the price table approximate.

## Results

- **Solvency.** In every reachable state each vault holds the exact value of all open positions, the
  unclaimed liquidity fees, and the protocol and fund fees.
- **Claims.** For both fee counters and all three rewards, everything owed and pending is within what was
  collected or emitted and not yet claimed. The guards that protect a collection therefore never reject,
  and an owner who can burn can be paid.
- **Eager ledger.** Between any two points of a run, growth inside a range moves by exactly the growth added
  while the current tick lay in the range.
- **No profit.** No sequence of swaps takes one token out of the pool without leaving some of the other; in
  particular no round trip returns more than was paid, over any number of crossings.
- **Exact search.** The next tick of a swap step is the nearest initialised tick in its direction, through
  slots, counts, words, pool bitmap and extension.
- **One step, four modes.** Prices stay between start and target; the specified amount is never exceeded and
  is used up whenever the target is missed; input rounds up, output rounds down, the fee never underflows.
- **Price to tick.** The binary logarithm, the change of base and the choice between two candidates yield
  exactly the floor tick, for every admissible price.
- **Exact payments.** Every rounding is stated from both sides: a deposit, a refund, the two shares of a fee,
  the growth it adds, the emission of a reward, what a visit pays. At the next visit of an untouched position
  it is owed its liquidity times what the eager ledger paid, rounded down once.
- **Refusals.** For the instructions on positions, swaps and fees: the reasons for a refusal, and that in
  reachable states there are no others.
- **The quote.** The off-chain quote gets to the end of the swap if and only if the swap takes at most eleven
  rounds within two arrays and above the lowest tick; then its amounts are those of the swap.

Two points where the code is subtler than it looks. In the quote, the variable meant to remember the last
array is shadowed inside the loop (`client/src/instructions/utils.rs:427`), so the search beyond the array at
hand always starts again from the first array: an answer visits at most two arrays, and a quote that needs a
third ends without one. And the current tick is not always the floor of the current price: after a downward
crossing the price sits on the upper end of its tick. `TickIsFloor` says exactly when it is, and
`UpperEndOnlyByCrossing` how the exception comes about.

## Model

| member | source | states |
|---|---|---|
| Theorems.SolvencyTheorem | programs/clamm/src/instructions/swap.rs:216-563 | in every reachable state, for either token, the vault is at least the exact value of all positions at the current price plus unclaimed liquidity fees plus protocol and fund fees |
| Theorems.ClaimsTheorem | programs/clamm/src/instructions/decrease_liquidity.rs:457-506 | in every reachable state and for each of the five counters, the sum over all positions of owed plus pending (at 2^64 scale) is within collected or emitted minus claimed, and so is every single debt |
| Theorems.LiquidityTheorem | programs/clamm/src/instructions/open_position.rs:835-919 | in every reachable state the pool's liquidity is that of the positions covering the current tick and the net liquidity summed over any listing of the initialised ticks at or below it; every tick's gross and net and every range's liquidity are the sums over the positions |
| Theorems.CouplingTheorem | programs/clamm/src/instructions/swap.rs:157-166 | in every reachable state the tick lies in [MIN_TICK, MAX_TICK) and the price between the prices of its tick and the next, within the price bounds |
| Theorems.TickIsFloor | programs/clamm/src/instructions/swap.rs:430-441 | in every reachable state the tick is the floor of the price if and only if the price is not on the upper end of the tick; otherwise it is one less |
| Theorems.RewardScheduleTheorem | programs/clamm/src/states/pool.rs:336-410 | in every reachable state no schedule is updated beyond its end, nor beyond the clock once open |
| Theorems.ReachableIsRun | programs/clamm/src/instructions/create_pool.rs:103-153 | a state is reachable if and only if it is the outcome of some run of transactions on a newly created pool |
| Theorems.TransactionKeeps | programs/clamm/src/instructions/decrease_liquidity.rs:254-433 | every transaction, whatever its arguments and its clock, keeps solvency, coupling, liquidity, claims and schedules |
| Theorems.CreatedHolds | programs/clamm/src/states/pool.rs:180-233 | a new pool satisfies all of them |
| Theorems.WithdrawalIsPaid | programs/clamm/src/instructions/decrease_liquidity.rs:435-515 | in every reachable state, once the burn succeeds, the fee guard does not reject and the vaults hold amounts and fees |
| Refusals.WithdrawalRefused | programs/clamm/src/instructions/decrease_liquidity.rs:254-433 | in every reachable state a withdrawal within the position's liquidity is refused only for the burn, the minima, or a payment or claimed reward beyond 64 bits: never by a guard on claims or an empty vault |
| Refusals.SwapRefusedFor | programs/clamm/src/instructions/swap.rs:141-566 | a swap is refused for these reasons and no others; that the output is missing from the vault is not among them |
| Refusals.FeeCollectionRefused | programs/clamm/src/instructions/admin/collect_protocol_fee.rs:68-125 | collecting protocol or fund fees is refused only beyond 64 bits |
| Refusals.AdditionRefused | programs/clamm/src/instructions/open_position.rs:596-806 | an addition is refused for these reasons and no others |
| Refusals.OpeningRefused | programs/clamm/src/instructions/open_position.rs:416-593 | opening is refused only for status, range and the addition itself |
| Refusals.IncreaseRefused | programs/clamm/src/instructions/increase_liquidity.rs:245-339 | increasing is refused only for status, the addition, the settlement, and the width of the position's liquidity |
| Refusals.SettlingRefused | programs/clamm/src/instructions/increase_liquidity.rs:311-329 | settling is refused if and only if it is on one of the counters |
| Refusals.CreationMeans | programs/clamm/src/states/pool.rs:180-233 | a pool is created if and only if spacing, price and fee rates are valid; it is empty, at the floor tick of its price, with everything switched on |
| Theorems.NoSwapSequenceProfits | programs/clamm/src/instructions/swap.rs:216-507 | after any sequence of swaps of any kind, if the pool has not gained in one token it has not lost in the other |
| Theorems.NoProfitableRoundTrip | programs/clamm/src/instructions/swap.rs:570-755 | swapping exact-in and feeding the proceeds back exact-in never returns more than was paid, which is at most the amount specified |
| Theorems.SwapAccounts | programs/clamm/src/instructions/swap.rs:544-563 | a swap takes a positive input and pays a positive output, and the specified one of the two is never exceeded |
| EagerLedger.GrowthInsideIsEager | programs/clamm/src/states/tick_array.rs:298-435 | between any two points of a run in which both ends stay initialised, growth inside moves by exactly the growth added while lower <= current tick < upper, through any crossings and changes of other positions |
| EagerLedger.PendingIsEager | programs/clamm/src/instructions/increase_liquidity.rs:341-355 | what the wrapping counters show as pending for an untouched position is that eager sum modulo 2^128 |
| Visits.RunPaysWithin | programs/clamm/src/states/tick_array.rs:387-435 | what the eager ledger pays over a run is never negative and at most the rise of the global growth |
| Visits.BurnPaysEagerly | programs/clamm/src/instructions/decrease_liquidity.rs:435-515 | at the next visit of an untouched position, burning, what it is owed rises on every counter by exactly its liquidity times what the eager ledger paid since the last visit, over 2^64, rounded down once |
| Visits.IncreasePaysEagerly | programs/clamm/src/instructions/increase_liquidity.rs:245-339 | the same at a visit that adds liquidity |
| Visits.WithdrawalPaysEagerly | programs/clamm/src/instructions/decrease_liquidity.rs:254-433 | and a withdrawal pays just that out of the vaults |
| Visits.BurnLeavesNothingPending | programs/clamm/src/instructions/decrease_liquidity.rs:517-588 | after a burn nothing is pending for the liquidity that stays: the next visit starts from there |
| Visits.IncreaseLeavesNothingPending | programs/clamm/src/instructions/increase_liquidity.rs:245-339 | nor after an increase |
| Visits.OpenLeavesNothingPending | programs/clamm/src/instructions/open_position.rs:416-593 | nor for a position just opened |
| SwapRuns.LoopKeeps | programs/clamm/src/instructions/swap.rs:216-507 | a swap that succeeds keeps every invariant, moves the price one way only and never past the limit, ends at zero or at the limit, and leaves the pool no poorer against the curve |
| SwapRuns.LoopAccounts | programs/clamm/src/instructions/swap.rs:334-396 | the input taken is the sum of the steps' principals plus exactly the increments of liquidity, protocol and fund fees together |
| FeeSplit.CreditSplits | programs/clamm/src/instructions/swap.rs:356-396 | of a fee, protocol and fund get their rates' shares rounded down, the liquidity in range gets the exact remainder, and its growth rises by remainder over liquidity, rounded down; the other token is untouched |
| FeeSplit.CreditFails | programs/clamm/src/instructions/swap.rs:356-396 | the two shares never exceed the fee, and a credit aborts if and only if the growth leaves 128 bits |
| FeeSplit.SwapStepMeans | programs/clamm/src/instructions/swap.rs:281-507 | a step of a swap, by price, vaults and fees alone: target, price reached, cost, yield, amounts used and gained, size of the fee, and its split |
| FeeSplit.SwapIsChain | programs/clamm/src/instructions/swap.rs:216-507 | a swap is a chain of such steps, each towards the nearest initialised tick, from its first state to its last |
| FeeSplit.ChainSplits | programs/clamm/src/instructions/swap.rs:356-396 | over any chain of steps protocol and fund get their rates' shares of all fees, short by less than one unit a step, and the liquidity gets the rest to the last unit |
| FeeSplit.SwapSplits | programs/clamm/src/instructions/swap.rs:490-563 | the same for a whole swap, whose fees are what is paid in beyond the principal |
| SwapRuns.StepsBounded | programs/clamm/src/instructions/swap.rs:216-507 | the number of rounds is at most the number of initialised ticks ahead plus one |
| Machine.CrossingShrinksAhead | programs/clamm/src/instructions/swap.rs:398-441 | a round that reaches its tick removes exactly that tick from the ticks ahead and leaves the initialised ticks the same |
| SwapInvariant.UpperEndOnlyByCrossing | programs/clamm/src/instructions/swap.rs:430-441 | after a step the price is at the upper end of its tick only by a downward crossing in that step or because neither price nor tick moved |
| SwapInvariant.CrossNeverFails | programs/clamm/src/states/tick_array.rs:338-363 | outside growth never exceeds global growth, so the checked subtractions of a crossing never fail |
| LiquidityInvariant.GrowthsInsideNeverFails | programs/clamm/src/states/tick_array.rs:387-484 | nor do those of the growth inside, for any two ticks |
| LiquidityInvariant.AmountsAgainstValue | programs/clamm/src/libraries/liquidity_math.rs:273-307 | a deposit is the exact value of the liquidity at the current price rounded up, a refund that value rounded down: less than one unit off, in each token and wherever the tick stands |
| LiquidityMath.SignedAmountsRound | programs/clamm/src/libraries/liquidity_math.rs:228-271 | a payment is the curve's amount rounded up, a refund the same amount rounded down |
| LiquidityMath.DeltaAmount0Fails | programs/clamm/src/libraries/liquidity_math.rs:166-197 | an amount of token 0 is refused if and only if it, the first of its two quotients or the product is out of its width |
| LiquidityMath.DeltaAmount1Fails | programs/clamm/src/libraries/liquidity_math.rs:201-225 | an amount of token 1 is refused if and only if it does not fit 64 bits |
| LiquidityMath.LiquidityFromAmount0IsLargest | programs/clamm/src/libraries/liquidity_math.rs:32-55 | what token 0 buys costs at most the amount, and one unit of liquidity more costs more than it, up to the rounding of the price product |
| LiquidityMath.LiquidityFromAmount1IsLargest | programs/clamm/src/libraries/liquidity_math.rs:59-76 | what token 1 buys is exactly the largest liquidity whose cost is within the amount |
| Transfers.ModifyAmounts | programs/clamm/src/instructions/open_position.rs:808-844 | the amounts of a change are what its liquidity is worth, rounded up for an addition, down for a removal, and nothing for no change |
| Transfers.ModifyTicks | programs/clamm/src/states/tick_array.rs:298-334 | both ticks take the change with the sign of their end; a tick not in use before starts as if all growth had happened below it |
| Transfers.AdditionMeans | programs/clamm/src/instructions/open_position.rs:596-806 | an accepted addition grants the liquidity asked for, or the largest the base token's maximum buys, and takes exactly its worth, within both maxima |
| Transfers.OpenMeans | programs/clamm/src/instructions/open_position.rs:416-593 | opening appends one position with exactly the liquidity granted and nothing owed, and takes the deposit |
| Transfers.IncreaseMeans | programs/clamm/src/instructions/increase_liquidity.rs:245-339 | increasing takes the deposit, adds exactly the liquidity granted, settles the position to the floor on every counter, and leaves all others alone |
| Transfers.BurnMeans | programs/clamm/src/instructions/decrease_liquidity.rs:517-588 | burning refunds the worth of the liquidity rounded down, takes exactly that liquidity off, settles the position, and leaves all others alone |
| Transfers.CollectFeesMeans | programs/clamm/src/instructions/decrease_liquidity.rs:457-506 | both owed fees are handed out, struck off and claimed in full; refused if and only if one has not been collected |
| Transfers.CollectRewardsMeans | programs/clamm/src/instructions/decrease_liquidity.rs:590-676 | every reward pays the smaller of what is owed and what its vault holds; that much is struck off, claimed and taken from the vault |
| Transfers.CheckVaultsMeans | programs/clamm/src/instructions/decrease_liquidity.rs:697-722 | fee collection is switched off if and only if the unclaimed fees of a token reach its whole vault, and nothing else changes |
| Transfers.DecreaseMeans | programs/clamm/src/instructions/decrease_liquidity.rs:254-433 | a withdrawal moves refund, fees and rewards, each exactly, out of the vaults and off the position; the refund is not below the minima; what the status switches off is skipped |
| Transfers.SwapMeans | programs/clamm/src/instructions/swap.rs:570-755 | a swap keeps to the caller's own limit, stops only when the specified amount is used up or the limit is reached, pays both sides, accrues the rewards first, and freezes the pool exactly if it empties the vault |
| Transfers.CollectProtocolFeeMeans | programs/clamm/src/instructions/admin/collect_protocol_fee.rs:68-125 | of each token the smaller of what is asked for and what is owed leaves the vault and the fees owed |
| Transfers.CollectFundFeeMeans | programs/clamm/src/instructions/admin/collect_fund_fee.rs:65-115 | the same for the fund |
| LiquidityInvariant.ModifyKeeps | programs/clamm/src/instructions/open_position.rs:808-919 | a change of liquidity with its settlement keeps all ledgers, and its amounts cover, or do not exceed, what the change is worth |
| InstructionInvariant.FeeGuardNeverRejects | programs/clamm/src/instructions/decrease_liquidity.rs:457-506 | where the ledgers hold, collecting the fees of any position succeeds |
| InstructionInvariant.RewardGuardNeverRejects | programs/clamm/src/states/pool.rs:412-429 | where the ledgers hold, no owed reward exceeds what is emitted and unclaimed |
| InstructionInvariant.IncreaseKeeps | programs/clamm/src/instructions/increase_liquidity.rs:245-339 | increasing keeps all invariants, also with liquidity zero, when it settles against the older record of the range |
| InstructionInvariant.OpenKeepsAll | programs/clamm/src/instructions/open_position.rs:416-593 | opening keeps all invariants, with or without liquidity |
| InstructionInvariant.DecreaseKeeps | programs/clamm/src/instructions/decrease_liquidity.rs:254-433 | decreasing, collecting fees and collecting rewards keep all invariants under every status of the pool |
| InstructionInvariant.CollectRewardKeeps | programs/clamm/src/instructions/decrease_liquidity.rs:590-676 | paying a reward as far as its vault reaches keeps all invariants |
| InstructionInvariant.CollectProtocolFeeKeeps | programs/clamm/src/instructions/admin/collect_protocol_fee.rs:68-125 | collecting protocol fees keeps all invariants |
| InstructionInvariant.CollectFundFeeKeeps | programs/clamm/src/instructions/admin/collect_fund_fee.rs:65-115 | collecting fund fees keeps all invariants |
| InstructionInvariant.SwapKeeps | programs/clamm/src/instructions/swap.rs:141-566 | a swap with its fee totals and vault check keeps all invariants |
| RewardInvariant.RewardClockNeverRejects | programs/clamm/src/states/pool.rs:355-362 | an ordered schedule never meets an update from the future |
| RewardInvariant.AccrueRewardsKeeps | programs/clamm/src/states/pool.rs:336-410 | accruing all rewards keeps every claim within what is emitted and touches nothing but the rewards |
| RewardRules.AccrualIsExact | programs/clamm/src/states/pool.rs:349-401 | before the opening nothing changes; then the clock moves to now or the end; without liquidity nothing else does; otherwise growth rises by elapsed time times rate over liquidity rounded down, and the emission by time times rate rounded up |
| RewardRules.AccrualFails | programs/clamm/src/states/pool.rs:349-401 | an accrual aborts if and only if time ran backwards or a total leaves its width |
| RewardRules.RewardsAccrue | programs/clamm/src/states/pool.rs:336-410 | all three rewards accrue so, and nothing else of the pool changes |
| RewardRules.NormalUpdateRule | programs/clamm/src/instructions/set_reward_params.rs:124-194 | a finished schedule is replaced by one of 7 to 90 days, paid for as a whole, rounded up; a running one is extended by 7 to 90 days, its rate falls only in the last 72 hours, and raise and extension are paid for, each rounded down |
| RewardRules.AdminUpdateRule | programs/clamm/src/instructions/set_reward_params.rs:196-253 | the operator's rule: any period, replacement also before the opening, and an earlier end without a refund |
| RewardRules.NormalUpdateRefusals | programs/clamm/src/instructions/set_reward_params.rs:124-194 | the owner's update is refused for these reasons and no others |
| Transfers.UpdateRewardsMeans | programs/clamm/src/instructions/update_reward_info.rs:11-23 | updating rewards accrues all of them and does nothing else |
| Transfers.InitializeRewardMeans | programs/clamm/src/instructions/initialize_reward.rs:71-152 | a new reward takes the first free slot, for 7 to 90 days ahead, and its whole emission is paid in, rounded up |
| Transfers.SetRewardParamsMeans | programs/clamm/src/instructions/set_reward_params.rs:41-122 | all rewards accrue, the rule that applies reschedules one of them, and what it charges is paid into its vault |
| Transfers.CollectRemainingMeans | programs/clamm/src/instructions/collect_remaining_rewards.rs:43-104 | after the end everything beyond what can still be claimed is taken back, and no more |
| RewardInvariant.InitializeRewardKeeps | programs/clamm/src/instructions/initialize_reward.rs:71-152 | a new schedule keeps all invariants |
| RewardInvariant.SetRewardParamsKeeps | programs/clamm/src/instructions/set_reward_params.rs:41-253 | both kinds of schedule change keep all invariants |
| RewardInvariant.CollectRemainingKeeps | programs/clamm/src/instructions/collect_remaining_rewards.rs:43-104 | taking back what no position can claim keeps all invariants |
| GrowthLedger.CrossKeepsInside | programs/clamm/src/states/tick_array.rs:338-435 | turning a tick's counters over while the tick is passed leaves growth inside every range with initialised ends exactly the same |
| GrowthLedger.SettleKeepsClaim | programs/clamm/src/instructions/increase_liquidity.rs:341-355 | settling never makes owed plus pending larger |
| Positions.LatestOwed | programs/clamm/src/instructions/increase_liquidity.rs:341-355 | the owed amount rises by growth times liquidity over 2^64, rounded down; an amount that does not stay below the largest 64-bit number is not paid at all |
| Positions.LatestOwedFails | programs/clamm/src/instructions/increase_liquidity.rs:341-355 | settling aborts if and only if the addition leaves 128 bits or the owed amount 64 |
| Positions.SettlePaysFloors | programs/clamm/src/instructions/increase_liquidity.rs:311-329 | a settled position is owed that floor on all five counters and has recorded the range's growth |
| Positions.ProtocolUpdateRecords | programs/clamm/src/states/protocol_position.rs:53-108 | a range takes the change of liquidity, records the growth inside, and books the floor of its fees per token |
| GrowthLedger.StaleSettleKeeps | programs/clamm/src/instructions/increase_liquidity.rs:311-329 | settling a position against what its range recorded earlier leaves every claim covered |
| Ticks.InsideIsExactModulo | programs/clamm/src/states/tick_array.rs:387-435 | the wrapping growth inside is the exact, possibly negative one modulo 2^128 |
| Ticks.TickUpdateMeans | programs/clamm/src/states/tick_array.rs:298-334 | gross and net move by the change, with the sign of the end; a tick in use keeps its outside growth; aborts if and only if one leaves its width |
| Ticks.FreshTickCountsAsBelow | programs/clamm/src/states/tick_array.rs:298-334 | a tick that becomes initialised starts as if all growth so far had happened below it |
| Ledger.NothingToClear | programs/clamm/src/states/tick_array.rs:365-371 | a tick without gross liquidity has no net liquidity either, so clearing it loses nothing |
| Ledger.ActiveIsNetBelow | programs/clamm/src/instructions/swap.rs:411-424 | the liquidity of the positions covering a tick is the net liquidity summed over any listing of initialised ticks at or below it |
| Curve.MoveInGap | programs/clamm/src/instructions/swap.rs:281-332 | between neighbouring initialised ticks the exact value of all positions moves along the curve of the active liquidity |
| Curve.StepOnCurve | programs/clamm/src/libraries/swap_math.rs:84-132 | the input of a step is at least and its output at most the exact change of value |
| SwapStepProofs.StepContract | programs/clamm/src/libraries/swap_math.rs:17-157 | in all four modes: next price between current and target; the specified amount not exceeded, and used up exactly when the target is missed, which happens only if the amount does not reach it; the price one unit further would cost more than the amount less fee, one unit nearer would yield less than the amount asked for; both amounts the rounded curve amounts; the fee the rate's share rounded up, or that share of the whole amount plus a dust worth less than one unit of price |
| SwapStepProofs.NextPriceContract | programs/clamm/src/libraries/sqrt_price_math.rs:30-147 | the price a step reaches lies between current and target; it costs at most the amount less fee, or yields at least the output asked for; it misses the target only if that is out of reach, and then by less than one unit of price |
| SwapStepProofs.NextPriceFails | programs/clamm/src/libraries/sqrt_price_math.rs:30-147 | no price is found if and only if the amount up to the target does not fit its width, or the token-0 quotient has a product beyond 256 bits |
| SwapStepProofs.DustIsSmall | programs/clamm/src/libraries/swap_math.rs:138-156 | what an exact input leaves beyond the price move is the fee rate's share of the amount, rounded up, and less than one unit of price is worth |
| SwapStepProofs.FeeNeverUnderflows | programs/clamm/src/libraries/swap_math.rs:138-156 | an exact-input step aborts if and only if a price or curve amount is out of its width: never in the fee subtraction |
| SwapStepProofs.FeeFits | programs/clamm/src/libraries/swap_math.rs:28-48 | an input within the amount less fee leaves room for its own fee |
| SwapMath.ComputeSwapStep | programs/clamm/src/libraries/swap_math.rs:17-157 | the step computed statement by statement, with amounts reused when the target is reached, is the reference step in every case, aborts included |
| LiquidityMath.DeltaAmount0Rounds | programs/clamm/src/libraries/liquidity_math.rs:166-197 | two nested divisions amount to one exact rounding of liquidity * (1/a - 1/b), down or up as asked |
| LiquidityMath.DeltaAmount1Rounds | programs/clamm/src/libraries/liquidity_math.rs:201-225 | one exact rounding of liquidity * (b - a), down or up as asked |
| FullMath.MulDivFloor | programs/clamm/src/libraries/full_math.rs:109-187 | where defined, the result is the floor of the exact quotient and within its width |
| FullMath.MulDivCeil | programs/clamm/src/libraries/full_math.rs:109-195 | where defined, the result is the ceiling of the exact quotient and within its width |
| FullMath.ToUnderflow64 | programs/clamm/src/libraries/full_math.rs:157-163 | a value below the largest 64-bit number is kept, any other becomes a smaller one |
| FullMath.DivRoundingUp | programs/clamm/src/libraries/unsafe_math.rs:10-28 | quotient plus one for a remainder is the ceiling |
| TickMath.PriceIncreases | programs/clamm/src/libraries/tick_math.rs:31-121 | the price of a tick grows strictly over the whole tick range, both signs and every carry of the tick's bits |
| TickMath.EndPoints | programs/clamm/src/libraries/tick_math.rs:6-13 | the lowest and highest tick have exactly the documented prices |
| TickMath.TickAtSqrtPrice | programs/clamm/src/libraries/tick_math.rs:123-127 | the documented floor: the one tick whose price is at most p while the next one's is above |
| TickPrices.GetSqrtPriceAtTick | programs/clamm/src/libraries/tick_math.rs:31-121 | the bit-by-bit product is the price of the tick; ticks out of range abort |
| TickPrices.Log2OfPrice | programs/clamm/src/libraries/tick_math.rs:127-162 | with e / 2^16 the logarithm found, (p / 2^64)^65536 is at least 2^e and below 2^(e + 2), for every price: never an over-estimate, and off by less than two units of the last bit |
| TickPrices.Round | programs/clamm/src/libraries/tick_math.rs:153-160 | one round keeps r in [2^63, 2^64) and both bounds of the collected fraction |
| TickPrices.Candidates | programs/clamm/src/libraries/tick_math.rs:162-182 | from any logarithm within those bounds, the two candidates enclose the floor tick and are at most one apart |
| TickPrices.GetTickAtSqrtPrice | programs/clamm/src/libraries/tick_math.rs:123-183 | for every price within the bounds the result is exactly the documented floor; other prices abort, and the price of the higher candidate never does |
| TickLogarithm.RatioAtLeast | programs/clamm/src/libraries/tick_math.rs:35-113 | the product of factors with its truncations loses at most a 150th of a tick against the exact power of the first factor |
| TickLogarithm.RatioAtMost | programs/clamm/src/libraries/tick_math.rs:35-113 | nor does it gain anything beyond the rounding of the constants |
| TickLogarithm.PriceAtMostPower | programs/clamm/src/libraries/tick_math.rs:162-171 | a tick at least a hundredth below the converted logarithm has at most the price of the logarithm |
| TickLogarithm.PriceAtLeastPower | programs/clamm/src/libraries/tick_math.rs:162-182 | a tick beyond the upper margin has at least the price of the logarithm two units further |
| TickIndex.IndexAgreement | programs/clamm/src/instructions/open_position.rs:701-724 | an array's bit is set iff its count is positive iff some slot has liquidity; the count is the number of such slots and at most 60 |
| TickIndex.CrossingKeepsIndex | programs/clamm/src/instructions/swap.rs:398-441 | writing a crossed tick back to its slot keeps index and ticks in agreement |
| TickIndex.AddBlank | programs/clamm/src/states/tick_array.rs:42-95 | a newly created array changes nothing the index stands for |
| LiquidityChanges.CountTick | programs/clamm/src/instructions/open_position.rs:701-724 | counting one tick more or fewer flips the array's bit exactly when it has to, in the right bitmap, and fails only for want of the extension |
| LiquidityChanges.StoreTicks | programs/clamm/src/instructions/decrease_liquidity.rs:546-577 | storing both ticks, in one array or in two, keeps index and ticks in agreement |
| LiquidityChanges.AddLiquidity | programs/clamm/src/instructions/open_position.rs:596-806 | adding liquidity on arrays, bitmaps and range is the reference change and keeps the index; it fails in addition only on wrong arrays or for want of the extension |
| LiquidityChanges.BurnLiquidity | programs/clamm/src/instructions/decrease_liquidity.rs:517-588 | so does burning |
| ArrayIndex.ArrayStartIsFloor | programs/clamm/src/states/tick_array.rs:223-230 | the truncating division with its correction yields the start of the array around the tick, also for negative ticks |
| ArrayIndex.ValidStartIndices | programs/clamm/src/states/tick_array.rs:232-242 | the check accepts exactly the starts of arrays that meet the tick range |
| ArrayIndex.LocationInjective | programs/clamm/src/states/tickarray_bitmap_extension.rs:55-77 | no two arrays share a bit of pool or extension |
| ArrayIndex.LocationExists | programs/clamm/src/states/tickarray_bitmap_extension.rs:55-77 | every valid array has a bit within 1024 or 2 * 14 * 512, for every tick spacing |
| ArrayIndex.OverflowIsOutsidePool | programs/clamm/src/states/pool.rs:572-605 | the overflow test is true exactly of the arrays outside the pool's bitmap |
| ArrayIndex.PoolBitIs | programs/clamm/src/libraries/tick_array_bit_map.rs:48-73 | the bit of array a in the pool's bitmap is a + 512 |
| ArrayIndex.ExtensionFormulas | programs/clamm/src/libraries/tick_array_bit_map.rs:11-29 | group, bit and boundary computed from a start index are those of the array number, for both signs |
| ArrayIndex.ExtensionLocation | programs/clamm/src/states/tickarray_bitmap_extension.rs:55-89 | beyond the pool's bitmap the program finds exactly the array's extension bitmap and bit |
| BitmapSearch.NextInPoolSearches | programs/clamm/src/libraries/tick_array_bit_map.rs:75-135 | the pool search returns the nearest marked array beyond the given one among -512..511, or the boundary when there is none |
| BitmapSearch.NextFromOneBitmapSearches | programs/clamm/src/states/tickarray_bitmap_extension.rs:129-218 | the same for the 512 arrays of one extension bitmap; it fails exactly on arrays of the pool's bitmap and stops at the ends of the tick range |
| BitmapSearch.NextInPoolWords | programs/clamm/src/libraries/tick_array_bit_map.rs:75-135 | the search on sixteen words is the search on the number they stand for |
| BitmapSearch.NextInBitmapWords | programs/clamm/src/states/tickarray_bitmap_extension.rs:162-218 | the search on eight words is the search on the number they stand for |
| BitmapExtension.TickArrayBitmapExtension.FlipTickArrayBit | programs/clamm/src/states/tickarray_bitmap_extension.rs:109-125 | flips the bit of this array and of no other; succeeds exactly on valid starts outside the pool's bitmap |
| BitmapExtension.TickArrayBitmapExtension.CheckTickArrayIsInitialized | programs/clamm/src/states/tickarray_bitmap_extension.rs:92-106 | reports the array's mark, and fails on every other start index |
| BitmapExtension.TickArrayBitmapExtension.NextInitializedTickArrayFromOneBitmap | programs/clamm/src/states/tickarray_bitmap_extension.rs:129-160 | the search on the object's words is the reference search on the numbers they stand for |
| PoolStates.PoolState.NextInitializedTickArrayStartIndex | programs/clamm/src/states/pool.rs:506-550 | over pool and extension bitmaps: the nearest marked array strictly beyond the given one, or none exactly when there is none; fails only without the extension |
| PoolStates.PoolState.GetFirstInitializedTickArray | programs/clamm/src/states/pool.rs:471-504 | the current tick's own array if it is marked, otherwise the nearest marked one in the direction |
| PoolStates.PoolState.FlipTickArrayBit | programs/clamm/src/states/pool.rs:442-469 | flips the mark of this array and of no other, in pool or extension; fails only when the extension is needed and missing |
| PoolStates.PoolState.UpdateRewardInfos | programs/clamm/src/states/pool.rs:336-410 | the loop over the rewards is the reference accrual, and aborts when it does, leaving the pool as it was |
| PoolStates.PoolState.AccrueOne | programs/clamm/src/states/pool.rs:349-401 | one accumulator, statement by statement, is the reference accrual |
| TickArrays.TickState.Update | programs/clamm/src/states/tick_array.rs:298-334 | the tick takes the change and reports exactly whether it became initialised or ceased to be; aborts leave it as it was |
| TickArrays.TickState.Cross | programs/clamm/src/states/tick_array.rs:338-363 | every live outside counter is turned over, and the net liquidity reported |
| TickArrays.TickState.Clear | programs/clamm/src/states/tick_array.rs:365-371 | everything but the tick index is emptied |
| TickArrays.TickArrayState.FirstInitializedTick | programs/clamm/src/states/tick_array.rs:155-174 | the highest (lowest) initialised slot, or none exactly when no slot is initialised |
| TickArrays.TickArrayState.NextInitializedTick | programs/clamm/src/states/tick_array.rs:179-210 | the initialised slot nearest to the current tick, at or below it going down, above it going up; none when the tick lies in another array |
| TickArrays.TickArrayState.UpdateTickState | programs/clamm/src/states/tick_array.rs:130-152 | exactly the slot of this tick is replaced; succeeds exactly for ticks of this array |
| TickArrays.TickArrayState.UpdateInitializedTickCount | programs/clamm/src/states/tick_array.rs:112-119 | the count moves by one, and is left alone if it would leave a byte |
| BigNum.ShiftLeft | programs/clamm/src/libraries/big_num.rs:278-295 | multiplication by 2^shift modulo the width, for any number of words and any shift |
| BigNum.ShiftRight | programs/clamm/src/libraries/big_num.rs:308-327 | floor division by 2^shift, for any number of words and any shift |
| BigNum.CountLeadingZeros | programs/clamm/src/libraries/big_num.rs:160-172 | width minus the bit length of the number |
| BigNum.CountTrailingZeros | programs/clamm/src/libraries/big_num.rs:175-187 | the position of the lowest set bit, or the width for zero |
| BigNum.NearestBelow | programs/clamm/src/libraries/tick_array_bit_map.rs:31-37 | shift left and count leading zeros: the nearest set bit at or below a bit, and none exactly for zero |
| BigNum.NearestAbove | programs/clamm/src/libraries/tick_array_bit_map.rs:39-45 | shift right and count trailing zeros: the nearest set bit at or above a bit, and none exactly for zero |
| BigNum.FlipBit | programs/clamm/src/states/pool.rs:442-449 | exclusive or with a shifted one flips this bit and no other |
| BigNum.BitXor | programs/clamm/src/libraries/big_num.rs:250-258 | word by word is exclusive or of the numbers |
| BigNum.GetBit | programs/clamm/src/libraries/big_num.rs:154-157 | the bit read from its word is the bit of the number |
| BigNum.IsZero | programs/clamm/src/libraries/big_num.rs:133-138 | true exactly of the number zero |
| BigNum.BitOfWord | programs/clamm/src/libraries/big_num.rs:154-157 | bit i of the number is bit i % 64 of word i / 64 |
| PositionStates.ProtocolPositionState.Update | programs/clamm/src/states/protocol_position.rs:53-108 | the range takes the change of liquidity and records the growth inside, or aborts as a whole |
| PositionStates.PersonalPositionState.UpdateRewards | programs/clamm/src/states/personal_position.rs:48-81 | rewards are settled against what the range has recorded and fees are untouched; aborts exactly when one reward does |
| PositionStates.PersonalPositionState.SettleWith | programs/clamm/src/instructions/increase_liquidity.rs:311-329 | fees and rewards are settled as in the reference machine |
| PositionStates.GetGrowthsInside | programs/clamm/src/states/tick_array.rs:387-484 | growth inside for both fees and all rewards is that of the reference machine |
| PositionStates.UpdatePosition | programs/clamm/src/instructions/open_position.rs:847-921 | rewards, both ticks and range are updated in place as in the reference machine; a tick that loses its last liquidity is cleared |
| PositionStates.ModifyPosition | programs/clamm/src/instructions/open_position.rs:808-844 | the change with its token amounts and its effect on active liquidity is the reference change |
| RewardInfos.RewardInfo.NormalUpdate | programs/clamm/src/instructions/set_reward_params.rs:124-194 | the owner's change of a schedule and the amount to be paid for it are those of the reference rules |
| RewardInfos.RewardInfo.AdminUpdate | programs/clamm/src/instructions/set_reward_params.rs:196-253 | so are the operator's |
| SwapSearch.FindNextTick | programs/clamm/src/instructions/swap.rs:216-279 | the tick found is the nearest initialised one in the direction, with its contents; failure only for want of accounts or when no tick lies ahead |
| SwapProgram.TakeStep | programs/clamm/src/instructions/swap.rs:281-507 | one step in place, with fee shares, crossing and the tick written back, is the reference step and keeps the index |
| SwapProgram.Round | programs/clamm/src/instructions/swap.rs:216-507 | search and step together follow the reference swap and come strictly closer to the end |
| SwapProgram.RunLoop | programs/clamm/src/instructions/swap.rs:216-507 | the loop ends, at zero or at the limit, in the reference outcome, and fails only where that has none, its fee totals do not fit, or accounts are missing |
| SwapProgram.SwapInternal | programs/clamm/src/instructions/swap.rs:141-566 | a swap on the accounts succeeds with the reference outcome, and fails only where the reference does or for want of accounts |
| SwapProgram.SettlePool | programs/clamm/src/instructions/swap.rs:490-563 | the running state is written to the pool exactly when all fee totals fit |
| Withdrawals.CollectFeesOn | programs/clamm/src/instructions/decrease_liquidity.rs:457-506 | the owed fees are handed out and claimed, as in the reference machine |
| Withdrawals.CheckUnclaimedFeesAndVault | programs/clamm/src/instructions/decrease_liquidity.rs:697-722 | fee collection is switched off when unclaimed fees reach a whole vault |
| Withdrawals.CollectRewardsOn | programs/clamm/src/instructions/decrease_liquidity.rs:590-676 | the loop over the rewards pays each as far as its vault reaches, as in the reference machine |
| Withdrawals.PayOut | programs/clamm/src/instructions/decrease_liquidity.rs:320-433 | fees, slippage, both transfers, vault check and rewards in the program's order are the reference withdrawal |
| Programs.CreateProgram | programs/clamm/src/instructions/create_pool.rs:103-153 | a pool is created exactly for valid parameters, in a reachable state with an empty index |
| Programs.Program.OpenPosition | programs/clamm/src/instructions/open_position.rs:416-593 | a success is the reference transaction; a failure changes nothing and, with the right accounts, is a failure of the reference transaction |
| Programs.Program.IncreaseLiquidity | programs/clamm/src/instructions/increase_liquidity.rs:245-339 | the same for increasing |
| Programs.Program.DecreaseLiquidity | programs/clamm/src/instructions/decrease_liquidity.rs:254-433 | the same for decreasing and collecting |
| Programs.Program.SwapTokens | programs/clamm/src/instructions/swap.rs:570-755 | the same for a swap, whenever the arrays handed over are the marked ones ahead in order |
| Programs.Program.UpdateRewards | programs/clamm/src/instructions/update_reward_info.rs:11-23 | the reference transaction, unconditionally |
| Programs.Program.SetRewardParams | programs/clamm/src/instructions/set_reward_params.rs:41-122 | the reference transaction, unconditionally |
| Quotes.StepFollows | client/src/instructions/utils.rs:433-523 | where both succeed, the quote's step and the swap's step keep amounts, price, tick and liquidity equal |
| Quotes.QuoteLoop | client/src/instructions/utils.rs:398-523 | the loop stays tied to the swap round by round, and gets to its end if and only if the rounds, the arrays and the lowest tick allow it |
| Quotes.SwapCompute | client/src/instructions/utils.rs:398-523 | for a swap that has an outcome: the quote stops at zero or at the limit if and only if the swap takes at most eleven rounds, all its next ticks lie in the first array or the one nearest to it, and no round starts at the lowest tick; then its amounts are the swap's |
| Affordability.QuotedLiquidityIsAffordable | programs/clamm/src/libraries/liquidity_math.rs:32-158 | the liquidity bought with the maximum of one token costs at most that maximum at the same price and range |
| Affordability.PiecesCostTheirValue | programs/clamm/src/libraries/liquidity_math.rs:228-307 | over any additions and removals at one price the net payment is at least the exact value of the net liquidity |
| Affordability.PiecesNeverProfit | programs/clamm/src/libraries/liquidity_math.rs:228-307 | adding and removing in any number of pieces at one price never pays out more than was paid in |

## Left out

- SwapCompute: for a swap that has no outcome nothing is said about the quote.
- Programs.Program.Apply: the instructions that touch neither ticks nor index (initialising a reward, collecting remaining rewards, collecting protocol and fund fees, status, configuration) are carried out as the reference function states them, not statement by statement.
- Account plumbing: addresses, signers, owners and operators, mint whitelists, position tokens and their metadata, rent, closing of positions and resetting of pools.
- Token transfers beyond what they add to and take from a vault; mints are taken to charge no transfer fee.
- Events and logs, the observation account (written by a swap, read by none), the pool's counters of tokens swapped in and out, and the state byte of a reward.
- The router and the second swap instruction (`swap_v2`): chains and variants of the swap that differ in accounts and transfers.
- Fees recorded as owed to a range as a whole: the program never pays them out.
- Whether reward vaults hold enough for all emissions: top-ups round down and emissions round up, so the program intends no such bound, and a payment stops at what the vault holds.
- Sums written with a plain operator (`programs/clamm/src/instructions/swap.rs:337-350`, `programs/clamm/src/instructions/decrease_liquidity.rs:374-375`) are taken to abort on overflow, as `programs/clamm/Cargo.toml:45` asks; the manifest at the workspace root does not repeat that setting, and wrapping sums are not modelled.
- The older form of adding liquidity without a base flag is covered by passing no flag; its separate instruction wrapper is not.
- Changing the configuration: the program changes one rate at a time; the model accepts any valid configuration.
- Opening a position without liquidity writes the tick indices into their blank slots; the model leaves such slots blank, which the index cannot tell apart.
- Accounts are loaded into working objects and written back on success; borrowing conflicts between accounts are not modelled.
- The tick arrays handed to a swap are a queue of start indices; handing over one array twice is not an error of its own.
- Operations on a single 64-bit word (shift, exclusive or, counting zeros) are functions on numbers, and the pool's status byte is a record of booleans.
- The overflow branch of the token-0 price formula is modelled although no input of the program's widths reaches the overflow.
