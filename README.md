# Staking hooks of the Snowglobes front-end, in Dafny

This project models the logic of `src/state/stake/snowglobehooks.ts`, the
staking hooks of a decentralised-finance front-end on the Avalanche chain:

- the valuation of the LP tokens staked in a reward pool, in WAVAX: directly
  when the pool's first token is WAVAX, otherwise through the WAVAX/PNG
  reference pair, with exact truncating big-integer arithmetic
  (`valuation.dfy`, module `Valuation`);
- the hypothetical reward rate of a stake, `totalRewardRate * staked /
  totalStaked`, or zero when nothing is staked (`Valuation`);
- the `useStakingInfo` pipeline without React (`staking_info.dfy`, module
  `StakingInfo`): the per-chain pool table `STAKING_REWARDS_INFO`, the
  three-valued pair filter (left out = every pool, `null` = none, a pair = the
  pools whose two tokens it involves), and the pass over per-pool contract
  snapshots that skips a pool silently while an input is loading or missing,
  skips it with a diagnostic when an input failed or a pair is invalid or does
  not exist, and otherwise appends one record. The pass is the method
  `UseStakingInfo`, a loop appending to `memo`, proved equal to the function
  `Aggregate`: classify every pool (`Classify`: `Pending`, `Failure` or
  `Included(record)`), then collect the records of the included ones;
- `useTotalPngEarned`, the sum from zero of the earned amounts of the
  unfiltered pass, when the active chain has a PNG token
  (`StakingInfo.TotalPngEarned`);
- the stake and unstake form checks `useDerivedStakeInfo` and
  `useDerivedUnstakeInfo` (`derived_info.dfy`, module `DerivedInfo`).

`sdk.dfy` (module `Sdk`) holds what the hooks use of the token SDK: `Option`,
a token as a `(chainId, address)` record compared by equality, and a pair of
two tokens with their reserves, where `InvolvesToken` is membership of the two
tokens and `ReserveOf` is only defined on them. `subsequence.dfy` (module
`Subsequence`) describes order-preserving subsequences by increasing
positions; the filter and the pass are stated with it.

Inputs that the source fetches or takes from other code are parameters:
every multicall result is a `CallState` (`Loading`, `Failed`, or
`Loaded(result)` with a possibly missing value), wrapped in `Option` because
the source also accepts an absent entry; each pair lookup is a `PairSnapshot`
(state and optional pair); the SDK's `WAVAX[chainId]` table and the
Avalanche `PNG` token are a `Natives` value, the tokens the pool table names
are a `KnownTokens` value (`Consistent` says the two agree), and the SDK's
`PNG[chainId]` table is a map; the parsed user input is an `Option<nat>` and
the presence of a wallet is a boolean.

Where the source throws, the model has a precondition: JSBI throws on a zero
divisor (the reward contract's total supply, and for an indirect pool the
reference pair's PNG reserve), `JSBI.BigInt` throws on a missing total supply
or reward rate, and the SDK's `reserveOf` refuses a token outside its pair.
`WellDefined` gathers these for a pool that passes the readiness and error
checks, and `UseStakingInfo` requires it of every pool.

Where the intended design and the code differ, the model follows the code:
- a pool whose reward contract has a total supply of zero is not skipped; the
  division throws (hence the precondition above);
- a typed amount above the ceiling gets no error of its own: with a wallet
  connected the error is "Enter an amount", the same as for no input;
- the choice between the direct and the indirect valuation looks only at the
  first token, so a pool listing WAVAX second is valued through PNG.

With the real pair lookup a pair object exists only in the `EXISTS` state,
so the "invalid or nonexistent pair" branch cannot be reached once the
readiness check passed; the model keeps state and pair independent and
models the branch as written.

## Model

| member | source | states |
|---|---|---|
| `Valuation.TotalStakedInAvax` | src/state/stake/snowglobehooks.ts:90-101 | the direct value is the floor of `staked * reserveInWavax * 2 / totalSupply` (`v * S <= T*R*2 < (v+1) * S`), and 0 when nothing is staked; `totalSupply > 0` because the source divides unguarded |
| `Valuation.TotalStakedInAvaxMonotone` | src/state/stake/snowglobehooks.ts:90-101 | the direct value is non-decreasing in the amount staked |
| `Valuation.TotalStakedInAvaxBounds` | src/state/stake/snowglobehooks.ts:204-210 | a stake within the supply is worth at most twice the WAVAX reserve, and the whole supply (what the pass passes as the stake) exactly twice the reserve |
| `Valuation.AvaxPngRatio` | src/state/stake/snowglobehooks.ts:73-75 | the ratio is the floor of `10^18 * otherReserve / pngReserve` |
| `Valuation.ValueOfPngInAvax` | src/state/stake/snowglobehooks.ts:78 | the converted reserve is the floor of `reserveOfPng * ratio / 10^18` |
| `Valuation.TotalStakedInAvaxFromPng` | src/state/stake/snowglobehooks.ts:65-88 | the indirect value is the direct formula applied to the PNG reserve converted through the reference pair's ratio |
| `Valuation.BalancedRatioIsOne` | src/state/stake/snowglobehooks.ts:73-75 | a reference pair with equal positive reserves gives a ratio of exactly 10^18 |
| `Valuation.ValueAtRatioOne` | src/state/stake/snowglobehooks.ts:78 | at a ratio of 10^18 the conversion returns the PNG reserve unchanged |
| `Valuation.IndirectAgreesWithDirect` | src/state/stake/snowglobehooks.ts:65-101 | with equal positive reference reserves the indirect value equals the direct value of the pool's PNG reserve |
| `Valuation.ValueOfPngInAvaxUnderestimates` | src/state/stake/snowglobehooks.ts:73-78 | the twice-truncated conversion never exceeds the exact price `reserveOfPng * other / png` |
| `Valuation.TotalStakedInAvaxFromPngMonotone` | src/state/stake/snowglobehooks.ts:65-88 | the indirect value is non-decreasing in the amount staked |
| `Valuation.HypotheticalRewardRate` | src/state/stake/snowglobehooks.ts:218-229 | the rate is 0 when nothing is staked, else the floor of `totalRewardRate * staked / totalStaked` |
| `Valuation.RewardRateMonotone` | src/state/stake/snowglobehooks.ts:218-229 | a larger stake never earns a lower rate |
| `Valuation.RewardRateBounds` | src/state/stake/snowglobehooks.ts:218-229 | a stake within the total earns at most the total rate, and the whole non-empty stake earns exactly it |
| `Valuation.RewardRateDoubling` | src/state/stake/snowglobehooks.ts:218-229 | doubling the stake doubles the rate up to one raw unit of truncation |
| `StakingInfo.StakingRewardsInfo` | src/state/stake/snowglobehooks.ts:15-35 | only Avalanche has pools; it has three, each listing WAVAX first, with pairwise distinct reward-contract addresses |
| `StakingInfo.FilterPools` | src/state/stake/snowglobehooks.ts:110-119 | the filtered table is no longer than the table and holds only pools the filter accepts |
| `StakingInfo.ActivePools` | src/state/stake/snowglobehooks.ts:108-121 | no pools without a truthy chain id (absent or 0) or when the chain has no table entry; otherwise at most the chain's pools, each accepted by the filter (exactly which ones: `FilterSelects`) |
| `StakingInfo.FilterAnyPairKeepsAll` | src/state/stake/snowglobehooks.ts:112-113 | with no filter every configured pool is kept, in order |
| `StakingInfo.FilterNoPairKeepsNone` | src/state/stake/snowglobehooks.ts:114-115 | a `null` filter keeps no pool |
| `StakingInfo.FilterPoolsAt` | src/state/stake/snowglobehooks.ts:111-118 | the k-th kept pool is the pool at the k-th accepted position |
| `StakingInfo.FilterSelects` | src/state/stake/snowglobehooks.ts:110-119 | the filter's output is an order-preserving subsequence holding exactly the pools the filter accepts (for a pair: both tokens involved) |
| `StakingInfo.FilterByWavaxPngPair` | src/state/stake/snowglobehooks.ts:15-35 | on the Avalanche table, filtering by a WAVAX/PNG pair keeps exactly the second pool, with its reward-contract address |
| `StakingInfo.ConfiguredPoolsAreAvaxPools` | src/state/stake/snowglobehooks.ts:15-35 | when the table's WAVAX and PNG are the SDK's (`Consistent`), every pool the pass sees under any chain id and filter is valued directly (`IsAvaxPool`, line 208), and the second pool stakes the WAVAX/PNG reference pair of line 135 |
| `StakingInfo.CollectLength` | src/state/stake/snowglobehooks.ts:156-249 | the reduce emits at most one record per pool |
| `StakingInfo.CollectAt` | src/state/stake/snowglobehooks.ts:156-249 | the k-th record is that of the k-th included pool |
| `StakingInfo.CollectAppend` | src/state/stake/snowglobehooks.ts:156-249 | the reduce over a concatenation is the concatenation of the reduces |
| `StakingInfo.Ready` | src/state/stake/snowglobehooks.ts:167-182 | the readiness test; what it decides is stated by `Classify` and `AggregateSelects` |
| `StakingInfo.Broken` | src/state/stake/snowglobehooks.ts:183-193 | the error test; what it decides is stated by `Classify` and `AggregateSelects` |
| `StakingInfo.Classify` | src/state/stake/snowglobehooks.ts:167-245 | a pool is pending exactly when not ready, a failure exactly when ready and broken, included exactly when ready and not broken, and an included record carries the pool's own reward-contract address |
| `StakingInfo.IsAvaxPool` | src/state/stake/snowglobehooks.ts:208 | the direct-valuation test looks at the first token only; its consequence for the value is stated by `PositionValuation`, and for the configured table by `ConfiguredPoolsAreAvaxPools` |
| `StakingInfo.WavaxToken` | src/state/stake/snowglobehooks.ts:200 | one of the pool's two tokens: the first, which is then the chain's WAVAX, when the pool is a WAVAX pool, else the second |
| `StakingInfo.PeriodFinishMs` | src/state/stake/snowglobehooks.ts:233-238 | present exactly when the contract returned a positive number of seconds, and then a whole number of milliseconds that converts back to those seconds |
| `StakingInfo.Position` | src/state/stake/snowglobehooks.ts:198-246 | the record carries the pool's address and tokens and a positive total staked amount (the rest: `PositionFields`, `PositionValuation`) |
| `StakingInfo.VisitPool` | src/state/stake/snowglobehooks.ts:156-249 | the reduce callback returns the accumulator unchanged for a pool that is loading, missing an input or failed, and otherwise appends exactly that pool's record |
| `StakingInfo.UseStakingInfo` | src/state/stake/snowglobehooks.ts:105-251 | the loop's accumulated records equal `Aggregate` of the filtered table: nothing without a truthy chain id, else one record per ready, error-free pool in pool order |
| `StakingInfo.AggregateSelects` | src/state/stake/snowglobehooks.ts:167-196 | the output is an order-preserving subsequence, no longer than the pool list; a pool is in it exactly when no input is loading or missing and none failed or names an invalid or nonexistent pair |
| `StakingInfo.AggregateOnePoolChanged` | src/state/stake/snowglobehooks.ts:156-249 | changing one pool's snapshot (a loading balance that resolves) changes only that pool's contribution; the other records and their order stay |
| `StakingInfo.PositionFields` | src/state/stake/snowglobehooks.ts:204-246 | missing balance and earned default to 0, total staked is the total supply, the rate is the hypothetical rate (at most the total rate when the stake is within the total), the period finish is absent iff `seconds * 1000 <= 0` or missing, else those milliseconds |
| `StakingInfo.PositionValuation` | src/state/stake/snowglobehooks.ts:199-215 | a pool whose first token is WAVAX is worth exactly twice its pair's WAVAX reserve; any other pool is valued through the PNG reference pair |
| `StakingInfo.SumEarned` | src/state/stake/snowglobehooks.ts:261-264 | the sum is at least every record's earned amount |
| `StakingInfo.TotalPngEarned` | src/state/stake/snowglobehooks.ts:253-267 | absent exactly when the chain id is not truthy or the chain has no PNG token; else the sum of the earned amounts of the unfiltered pass (`useStakingInfo()` with no argument), at least each record's earned amount |
| `StakingInfo.SumEarnedAppend` | src/state/stake/snowglobehooks.ts:261-264 | the sum over a concatenation is the sum of the sums, each record counted once |
| `StakingInfo.SumEarnedEmitted` | src/state/stake/snowglobehooks.ts:261-264 | a pool adds its record's earned amount to the total when included, and nothing when skipped |
| `StakingInfo.TotalPngEarnedOnePoolChanged` | src/state/stake/snowglobehooks.ts:253-267 | when one pool's snapshot changes, the total changes only by the difference of that pool's contribution; whether there is a total does not change |
| `StakingInfo.TotalPngEarnedPoolArrives` | src/state/stake/snowglobehooks.ts:253-267 | when a pool that was still loading arrives without error, the total grows by exactly its earned amount (0 when the call returned nothing) |
| `DerivedInfo.AmountError` | src/state/stake/snowglobehooks.ts:287-293 | "Connect Wallet" without a wallet, even when there is no amount; "Enter an amount" with a wallet and no amount; no error iff wallet and amount (the same sequence is at lines 315-321) |
| `DerivedInfo.DerivedStakeInfo` | src/state/stake/snowglobehooks.ts:270-299 | the amount is kept iff it parsed, the unstaked balance is known and the amount is at most that balance (boundary included); the error follows the precedence above |
| `DerivedInfo.DerivedUnstakeInfo` | src/state/stake/snowglobehooks.ts:302-327 | the amount is kept iff it parsed and is at most the staked amount (boundary included); the error follows the precedence above |

## Left out

- React (`useMemo`, `useActiveWeb3React`) and fetching (`useMultipleContractSingleData`, `usePair`, `usePairs`): I/O and reactive plumbing; their results are the snapshot inputs.
- Token amounts are raw `nat`s: the token identity and decimals carried by the SDK's `TokenAmount`, the dummy pair and its liquidity token are not modelled (they do not influence any value computed).
- `tryParseAmount` (from the swap hooks) is not part of this model: the typed text and the token's decimals are replaced by its result, an `Option<nat>`.
- The diagnostic `console.error` is not emitted; a pool skipped for an error is the `Failure` outcome of `Classify`.
- `new Date(...)`: the period finish is kept as an optional number of milliseconds.
- `BigNumber.toNumber()` throws above 2^53 - 1; that overflow of the period finish is library behaviour and is not modelled.
- The `getHypotheticalRewardRate` closure stored in each record is the module function `Valuation.HypotheticalRewardRate`, not a record field.
- `TokenAmount.add` in `useTotalPngEarned` refuses amounts of different tokens; the model adds raw amounts.
- The throwing paths (zero divisor, missing total supply or reward rate, a reserve looked up outside its pair) are preconditions rather than modelled exceptions.
- The SDK's token constants (`WAVAX`, `PNG`, `ETH`, `SUSHI`) and chain-id enum values are not shown; tokens are parameters, and the chain id 43114 is used for Avalanche.
- `STAKING_GENESIS` and `REWARDS_DURATION_DAYS` are kept as constants; nothing reads them.
- The staking modal (approval, permit signing, transaction submission) and the Snowglobes, Icequeen and pool-card pages: wallet, network and presentation code.
