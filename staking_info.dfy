/** The staking-info pipeline of the reward pools, without its reactive
    plumbing: the configured pool table, the optional pair filter, the pass
    over per-pool contract snapshots that turns every ready and error-free
    pool into one record, and the sum of the rewards earned. Contract calls
    and pair lookups are inputs (snapshots); nothing here fetches. */
module StakingInfo {
  import opened Sdk
  import opened Valuation
  import opened Subsequence

  /** Chain id of the Avalanche C-chain in the SDK's `ChainId` enum. */
  const AVALANCHE: nat := 43114

  /** Exported timing constants of the staking programme (seconds since the
      epoch, and days); nothing in the hooks reads them. */
  const STAKING_GENESIS: nat := 1600387200
  const REWARDS_DURATION_DAYS: nat := 60

  /** One configured reward pool: the pair's two tokens and the address of
      its reward contract. */
  datatype StakingRewardInfo = StakingRewardInfo(tokens: (Token, Token), stakingRewardAddress: string)

  /** The SDK token constants that the configuration table names. */
  datatype KnownTokens = KnownTokens(wavax: Token, eth: Token, png: Token, sushi: Token)

  /** The pool table, per chain id; only Avalanche has pools: three of
      them, each pairing WAVAX with another token, each with its own reward
      contract. */
  function StakingRewardsInfo(k: KnownTokens): (r: map<nat, seq<StakingRewardInfo>>)
    ensures r.Keys == {AVALANCHE}
    ensures |r[AVALANCHE]| == 3
    ensures forall i :: 0 <= i < |r[AVALANCHE]| ==> r[AVALANCHE][i].tokens.0 == k.wavax
    ensures forall i, j :: 0 <= i < j < |r[AVALANCHE]| ==>
              r[AVALANCHE][i].stakingRewardAddress != r[AVALANCHE][j].stakingRewardAddress
  {
    var none: map<nat, seq<StakingRewardInfo>> := map[];
    none[AVALANCHE := [
      StakingRewardInfo((k.wavax, k.eth), "0xa16381eae6285123c323a665d4d99a6bcfaac307"),
      StakingRewardInfo((k.wavax, k.png), "0x8fd2755c6ae7252753361991bdcd6ff55bdc01ce"),
      StakingRewardInfo((k.wavax, k.sushi), "0x88f26b81c9cae4ea168e31bc6353f493fda29661")
    ]]
  }

  // ---------------------------------------------------------------------
  // Which pools to look at.

  /** The hook's optional pair argument: left out (every pool), `null` (no
      pool) or a pair (the pools whose two tokens the pair involves). */
  datatype PairFilter = AnyPair | NoPair | ByPair(pair: Pair)

  predicate Keeps(filter: PairFilter, info: StakingRewardInfo) {
    match filter
    case AnyPair => true
    case NoPair => false
    case ByPair(p) => p.InvolvesToken(info.tokens.0) && p.InvolvesToken(info.tokens.1)
  }

  function Keeper(filter: PairFilter): StakingRewardInfo -> bool {
    info => Keeps(filter, info)
  }

  /** The pools of `pools` that `filter` keeps, in their configured order. */
  function FilterPools(pools: seq<StakingRewardInfo>, filter: PairFilter): (r: seq<StakingRewardInfo>)
    ensures |r| <= |pools|
    ensures forall k :: 0 <= k < |r| ==> Keeps(filter, r[k])
  {
    if pools == [] then []
    else
      var last := pools[|pools| - 1];
      FilterPools(pools[..|pools| - 1], filter) + (if Keeps(filter, last) then [last] else [])
  }

  /** A chain id as JavaScript tests it: absent and 0 are both false. */
  predicate Truthy(chainId: Option<nat>) {
    chainId.Some? && chainId.value != 0
  }

  /** The configured pools of the active chain that pass the filter; none
      when there is no chain or the chain has no table entry. */
  function ActivePools(chainId: Option<nat>, table: map<nat, seq<StakingRewardInfo>>, filter: PairFilter): (r: seq<StakingRewardInfo>)
    ensures !Truthy(chainId) || chainId.value !in table ==> r == []
    ensures Truthy(chainId) && chainId.value in table ==> |r| <= |table[chainId.value]|
    ensures forall k :: 0 <= k < |r| ==> Keeps(filter, r[k])
  {
    if Truthy(chainId) && chainId.value in table then FilterPools(table[chainId.value], filter) else []
  }

  lemma {:induction false} FilterAnyPairKeepsAll(pools: seq<StakingRewardInfo>)
    ensures FilterPools(pools, AnyPair) == pools
  {
    if pools != [] {
      FilterAnyPairKeepsAll(pools[..|pools| - 1]);
      assert pools[..|pools| - 1] + [pools[|pools| - 1]] == pools;
    }
  }

  lemma {:induction false} FilterNoPairKeepsNone(pools: seq<StakingRewardInfo>)
    ensures FilterPools(pools, NoPair) == []
  {
    if pools != [] {
      FilterNoPairKeepsNone(pools[..|pools| - 1]);
    }
  }

  /** The filter keeps exactly the pools it accepts, in their order. */
  lemma {:induction false} FilterPoolsAt(pools: seq<StakingRewardInfo>, filter: PairFilter)
    ensures |FilterPools(pools, filter)| == |Positions(pools, Keeper(filter))|
    ensures forall k :: 0 <= k < |FilterPools(pools, filter)| ==>
              FilterPools(pools, filter)[k] == pools[Positions(pools, Keeper(filter))[k]]
  {
    if pools != [] {
      var n := |pools| - 1;
      var init := pools[..n];
      FilterPoolsAt(init, filter);
      var prev := Positions(init, Keeper(filter));
      var r := FilterPools(pools, filter);
      assert r == FilterPools(init, filter) + (if Keeps(filter, pools[n]) then [pools[n]] else []);
      assert Positions(pools, Keeper(filter)) == prev + (if Keeps(filter, pools[n]) then [n] else []);
      forall k | 0 <= k < |r| ensures r[k] == pools[Positions(pools, Keeper(filter))[k]] {
        if k < |prev| {
          assert r[k] == FilterPools(init, filter)[k] && init[prev[k]] == pools[prev[k]];
        }
      }
    }
  }

  lemma FilterSelects(pools: seq<StakingRewardInfo>, filter: PairFilter) returns (idx: seq<nat>)
    ensures Selects(idx, |pools|) && |idx| == |FilterPools(pools, filter)|
    ensures forall k :: 0 <= k < |idx| ==> FilterPools(pools, filter)[k] == pools[idx[k]]
    ensures forall i :: 0 <= i < |pools| ==> (i in idx <==> Keeps(filter, pools[i]))
  {
    idx := Positions(pools, Keeper(filter));
    FilterPoolsAt(pools, filter);
    PositionsMembership(pools, Keeper(filter));
  }

  // ---------------------------------------------------------------------
  // What the contracts and pairs reported in one poll.

  /** One multicall result: still loading, failed, or done with its first
      returned value, which may be missing (a call made without an account). */
  datatype CallState = Loading | Failed | Loaded(result: Option<nat>)

  /** A pair lookup: its state and the pair, if one was built. */
  datatype PairSnapshot = PairSnapshot(state: PairState, pair: Option<Pair>)

  /** Everything fetched for one pool; an absent entry is `None`. */
  datatype PoolSnapshot = PoolSnapshot(
    balance: Option<CallState>,
    earned: Option<CallState>,
    totalSupply: Option<CallState>,
    rewardRate: Option<CallState>,
    periodFinish: Option<CallState>,
    pairInfo: PairSnapshot)

  /** The SDK's WAVAX token for each chain id, and the PNG token. */
  datatype Natives = Natives(wavaxOf: nat -> Token, png: Token)

  /** One record of the output. */
  datatype StakingPosition = StakingPosition(
    stakingRewardAddress: string,
    tokens: (Token, Token),
    stakedAmount: nat,
    earnedAmount: nat,
    totalStakedAmount: nat,
    totalRewardRate: nat,
    rewardRate: nat,
    totalStakedInWavax: nat,
    periodFinish: Option<nat>)  // milliseconds since the epoch

  predicate NotLoading(s: Option<CallState>) { !(s.Some? && s.value.Loading?) }
  predicate Present(s: Option<CallState>) { s.Some? && !s.value.Loading? }
  predicate HasError(s: Option<CallState>) { s.Some? && s.value.Failed? }
  predicate BadPair(state: PairState) { state == Invalid || state == NotExists }

  /** The returned value, if the call is done and returned one. */
  function Result(s: Option<CallState>): Option<nat> {
    if s.Some? && s.value.Loaded? then s.value.result else None
  }

  /** Every input the pool needs is there and none is loading; the balance
      and the earned amount may be absent. */
  predicate Ready(snap: PoolSnapshot, reference: PairSnapshot) {
    NotLoading(snap.balance) && NotLoading(snap.earned) &&
    Present(snap.totalSupply) && Present(snap.rewardRate) && Present(snap.periodFinish) &&
    snap.pairInfo.pair.Some? && reference.pair.Some? &&
    snap.pairInfo.state != PairLoading && reference.state != PairLoading
  }

  /** Some input reports an error, or a pair is invalid or does not exist. */
  predicate Broken(snap: PoolSnapshot, reference: PairSnapshot) {
    HasError(snap.balance) || HasError(snap.earned) || HasError(snap.totalSupply) ||
    HasError(snap.rewardRate) || HasError(snap.periodFinish) ||
    BadPair(snap.pairInfo.state) || BadPair(reference.state)
  }

  /** Direct valuation is chosen by the FIRST token alone. */
  predicate IsAvaxPool(info: StakingRewardInfo, natives: Natives) {
    info.tokens.0 == natives.wavaxOf(info.tokens.0.chainId)
  }

  /** The pool's WAVAX token: the first token if it is WAVAX, else the second
      (whether or not the second is WAVAX). */
  function WavaxToken(info: StakingRewardInfo, natives: Natives): (t: Token)
    ensures t == info.tokens.0 || t == info.tokens.1
    ensures IsAvaxPool(info, natives) ==> t == info.tokens.0 && t == natives.wavaxOf(t.chainId)
    ensures !IsAvaxPool(info, natives) ==> t == info.tokens.1
  {
    if info.tokens.0 == natives.wavaxOf(info.tokens.0.chainId) then info.tokens.0 else info.tokens.1
  }

  /** What a ready, error-free pool needs so that building its record does
      not throw: a total supply (non-zero, it is a divisor) and a reward rate
      were returned, and every reserve looked up belongs to its pair (for an
      indirect pool the reference pair's PNG reserve is a divisor too). */
  predicate Computable(info: StakingRewardInfo, snap: PoolSnapshot, reference: PairSnapshot, natives: Natives)
    requires Ready(snap, reference)
  {
    var pair := snap.pairInfo.pair.value;
    var ref := reference.pair.value;
    Result(snap.totalSupply).Some? && Result(snap.totalSupply).value > 0 &&
    Result(snap.rewardRate).Some? &&
    if IsAvaxPool(info, natives) then
      pair.InvolvesToken(WavaxToken(info, natives))
    else
      pair.InvolvesToken(natives.png) &&
      ref.InvolvesToken(natives.png) && ref.ReserveOf(natives.png) > 0 &&
      ref.InvolvesToken(natives.wavaxOf(info.tokens.1.chainId))
  }

  /** The source does not throw on this pool. */
  predicate WellDefined(info: StakingRewardInfo, snap: PoolSnapshot, reference: PairSnapshot, natives: Natives) {
    Ready(snap, reference) && !Broken(snap, reference) ==> Computable(info, snap, reference, natives)
  }

  predicate AllWellDefined(pools: seq<StakingRewardInfo>, snaps: seq<PoolSnapshot>, reference: PairSnapshot, natives: Natives)
    requires |snaps| == |pools|
  {
    forall i :: 0 <= i < |pools| ==> WellDefined(pools[i], snaps[i], reference, natives)
  }

  /** Period finish in milliseconds, absent unless positive. */
  function PeriodFinishMs(seconds: Option<nat>): (ms: Option<nat>)
    ensures ms.Some? <==> seconds.Some? && seconds.value > 0
    ensures ms.Some? ==> ms.value % 1000 == 0 && ms.value / 1000 == seconds.value
  {
    if seconds.Some? && seconds.value * 1000 > 0 then Some(seconds.value * 1000) else None
  }

  /** The record of a ready, error-free pool. */
  function Position(info: StakingRewardInfo, snap: PoolSnapshot, reference: PairSnapshot, natives: Natives): (p: StakingPosition)
    requires Ready(snap, reference) && !Broken(snap, reference) && Computable(info, snap, reference, natives)
    ensures p.stakingRewardAddress == info.stakingRewardAddress && p.tokens == info.tokens
    ensures p.totalStakedAmount > 0
  {
    var pair := snap.pairInfo.pair.value;
    var ref := reference.pair.value;
    var totalSupply := Result(snap.totalSupply).value;
    var stakedAmount := Result(snap.balance).GetOr(0);
    var totalRewardRate := Result(snap.rewardRate).value;
    var totalStakedInWavax :=
      if IsAvaxPool(info, natives) then
        TotalStakedInAvax(totalSupply, pair.ReserveOf(WavaxToken(info, natives)), totalSupply)
      else
        TotalStakedInAvaxFromPng(
          totalSupply, ref.ReserveOf(natives.png), ref.ReserveOf(natives.wavaxOf(info.tokens.1.chainId)),
          pair.ReserveOf(natives.png), totalSupply);
    StakingPosition(
      info.stakingRewardAddress, info.tokens, stakedAmount, Result(snap.earned).GetOr(0), totalSupply,
      totalRewardRate, HypotheticalRewardRate(stakedAmount, totalSupply, totalRewardRate),
      totalStakedInWavax, PeriodFinishMs(Result(snap.periodFinish)))
  }

  /** What the pass does with one pool: skip it silently while an input is
      loading or missing, skip it with a diagnostic when an input failed,
      otherwise emit its record. */
  datatype Outcome = Pending | Failure | Included(position: StakingPosition)

  function Classify(info: StakingRewardInfo, snap: PoolSnapshot, reference: PairSnapshot, natives: Natives): (o: Outcome)
    requires WellDefined(info, snap, reference, natives)
    ensures o.Pending? <==> !Ready(snap, reference)
    ensures o.Failure? <==> Ready(snap, reference) && Broken(snap, reference)
    ensures o.Included? <==> Ready(snap, reference) && !Broken(snap, reference)
    ensures o.Included? ==> o.position.stakingRewardAddress == info.stakingRewardAddress
  {
    if !Ready(snap, reference) then Pending
    else if Broken(snap, reference) then Failure
    else Included(Position(info, snap, reference, natives))
  }

  function Emitted(o: Outcome): seq<StakingPosition> {
    if o.Included? then [o.position] else []
  }

  /** What the pass decides for each pool, position by position. */
  function Outcomes(pools: seq<StakingRewardInfo>, snaps: seq<PoolSnapshot>, reference: PairSnapshot, natives: Natives): (os: seq<Outcome>)
    requires |snaps| == |pools| && AllWellDefined(pools, snaps, reference, natives)
    ensures |os| == |pools|
  {
    seq(|pools|, i requires 0 <= i < |pools| => Classify(pools[i], snaps[i], reference, natives))
  }

  /** The records of the included outcomes, in order. */
  function Collect(os: seq<Outcome>): seq<StakingPosition> {
    if os == [] then [] else Collect(os[..|os| - 1]) + Emitted(os[|os| - 1])
  }

  /** At most one record per outcome. */
  lemma {:induction false} CollectLength(os: seq<Outcome>)
    ensures |Collect(os)| <= |os|
  {
    if os != [] {
      CollectLength(os[..|os| - 1]);
    }
  }

  /** The records of the pools, in pool order: the specification of the pass. */
  function Aggregate(pools: seq<StakingRewardInfo>, snaps: seq<PoolSnapshot>, reference: PairSnapshot, natives: Natives): seq<StakingPosition>
    requires |snaps| == |pools| && AllWellDefined(pools, snaps, reference, natives)
  {
    Collect(Outcomes(pools, snaps, reference, natives))
  }

  /** The reduce callback for one pool: return `memo` unchanged while an
      input is loading or missing or when an input failed (the source logs a
      diagnostic then), otherwise append the pool's record. */
  method VisitPool(
    memo: seq<StakingPosition>, info: StakingRewardInfo, snap: PoolSnapshot, reference: PairSnapshot, natives: Natives
  ) returns (next: seq<StakingPosition>)
    requires WellDefined(info, snap, reference, natives)
    ensures next == memo + Emitted(Classify(info, snap, reference, natives))
  {
    next := memo;
    if Ready(snap, reference) {
      if Broken(snap, reference) {
        return;
      }
      var tokens := info.tokens;
      var pair := snap.pairInfo.pair.value;
      var avaxPngPair := reference.pair.value;
      var wavax := if tokens.0 == natives.wavaxOf(tokens.0.chainId) then tokens.0 else tokens.1;
      var totalSupply := Result(snap.totalSupply).value;
      var stakedAmount := Result(snap.balance).GetOr(0);
      var totalRewardRate := Result(snap.rewardRate).value;
      var isAvaxPool := tokens.0 == natives.wavaxOf(tokens.0.chainId);
      var totalStakedInWavax;
      if isAvaxPool {
        totalStakedInWavax := TotalStakedInAvax(totalSupply, pair.ReserveOf(wavax), totalSupply);
      } else {
        totalStakedInWavax := TotalStakedInAvaxFromPng(
          totalSupply, avaxPngPair.ReserveOf(natives.png), avaxPngPair.ReserveOf(natives.wavaxOf(tokens.1.chainId)),
          pair.ReserveOf(natives.png), totalSupply);
      }
      var individualRewardRate := HypotheticalRewardRate(stakedAmount, totalSupply, totalRewardRate);
      var periodFinish: Option<nat> := None;
      var periodFinishSeconds := Result(snap.periodFinish);
      if periodFinishSeconds.Some? && periodFinishSeconds.value * 1000 > 0 {
        periodFinish := Some(periodFinishSeconds.value * 1000);
      }
      next := memo + [StakingPosition(
        info.stakingRewardAddress, tokens, stakedAmount, Result(snap.earned).GetOr(0),
        totalSupply, totalRewardRate, individualRewardRate, totalStakedInWavax, periodFinish)];
    }
  }

  /** The hook: filter the configured pools, then reduce over them in order
      from an empty list. `snaps[i]` is what the contracts and pairs of the
      `i`-th filtered pool returned. */
  method UseStakingInfo(
    chainId: Option<nat>, table: map<nat, seq<StakingRewardInfo>>, pairToFilterBy: PairFilter,
    snaps: seq<PoolSnapshot>, reference: PairSnapshot, natives: Natives
  ) returns (memo: seq<StakingPosition>)
    requires |snaps| == |ActivePools(chainId, table, pairToFilterBy)|
    requires AllWellDefined(ActivePools(chainId, table, pairToFilterBy), snaps, reference, natives)
    ensures memo == Aggregate(ActivePools(chainId, table, pairToFilterBy), snaps, reference, natives)
  {
    var info := if Truthy(chainId) && chainId.value in table then FilterPools(table[chainId.value], pairToFilterBy) else [];
    ghost var os := Outcomes(info, snaps, reference, natives);
    memo := [];
    if !Truthy(chainId) {
      return;
    }
    var index := 0;
    while index < |info|
      invariant 0 <= index <= |info|
      invariant memo == Collect(os[..index])
    {
      assert WellDefined(info[index], snaps[index], reference, natives);
      memo := VisitPool(memo, info[index], snaps[index], reference, natives);
      assert os[..index + 1][..index] == os[..index];
      index := index + 1;
    }
    assert os[..index] == os;
  }

  // ---------------------------------------------------------------------
  // Properties of the pass.

  function IsIncluded(o: Outcome): bool { o.Included? }

  /** The collected records are those of the included outcomes, in order. */
  lemma {:induction false} CollectAt(os: seq<Outcome>)
    ensures |Collect(os)| == |Positions(os, IsIncluded)|
    ensures forall k :: 0 <= k < |Collect(os)| ==> os[Positions(os, IsIncluded)[k]] == Included(Collect(os)[k])
  {
    if os != [] {
      var n := |os| - 1;
      var init := os[..n];
      CollectAt(init);
      var prev := Positions(init, IsIncluded);
      var r := Collect(os);
      assert r == Collect(init) + Emitted(os[n]);
      assert Positions(os, IsIncluded) == prev + (if os[n].Included? then [n] else []);
      forall k | 0 <= k < |r| ensures os[Positions(os, IsIncluded)[k]] == Included(r[k]) {
        if k < |prev| {
          assert r[k] == Collect(init)[k] && init[prev[k]] == os[prev[k]];
        }
      }
    }
  }

  /** The output is an order-preserving subsequence of the pools' records:
      pool `i` contributes its record exactly when it is ready and
      error-free, so a pool is omitted exactly when some input is loading or
      missing, or some input failed or names a bad pair. */
  lemma AggregateSelects(
    pools: seq<StakingRewardInfo>, snaps: seq<PoolSnapshot>, reference: PairSnapshot, natives: Natives
  ) returns (idx: seq<nat>)
    requires |snaps| == |pools| && AllWellDefined(pools, snaps, reference, natives)
    ensures Selects(idx, |pools|)
    ensures |idx| == |Aggregate(pools, snaps, reference, natives)| <= |pools|
    ensures forall k :: 0 <= k < |idx| ==>
              Classify(pools[idx[k]], snaps[idx[k]], reference, natives) == Included(Aggregate(pools, snaps, reference, natives)[k])
    ensures forall i :: 0 <= i < |pools| ==>
              (i in idx <==> Ready(snaps[i], reference) && !Broken(snaps[i], reference))
  {
    var os := Outcomes(pools, snaps, reference, natives);
    idx := Positions(os, IsIncluded);
    CollectAt(os);
    CollectLength(os);
    PositionsMembership(os, IsIncluded);
  }

  /** Collecting a concatenation is concatenating the collections. */
  lemma CollectSnoc(os: seq<Outcome>, o: Outcome)
    ensures Collect(os + [o]) == Collect(os) + Emitted(o)
  {
    assert (os + [o])[..|os|] == os;
  }

  lemma {:induction false} CollectAppend(a: seq<Outcome>, b: seq<Outcome>)
    ensures Collect(a + b) == Collect(a) + Collect(b)
  {
    if b == [] {
      assert a + b == a;
    } else {
      var n := |b| - 1;
      CollectAppend(a, b[..n]);
      assert a + b == (a + b[..n]) + [b[n]] && b == b[..n] + [b[n]];
      CollectSnoc(a + b[..n], b[n]);
      CollectSnoc(b[..n], b[n]);
      var ca, cb, e := Collect(a), Collect(b[..n]), Emitted(b[n]);
      assert ca + cb + e == ca + (cb + e);
    }
  }

  /** Changing what one pool reported changes only that pool's contribution:
      the records of every other pool keep their values and their order. */
  lemma AggregateOnePoolChanged(
    pools: seq<StakingRewardInfo>, snaps: seq<PoolSnapshot>, i: nat, snap: PoolSnapshot,
    reference: PairSnapshot, natives: Natives)
    requires |snaps| == |pools| && i < |pools|
    requires AllWellDefined(pools, snaps, reference, natives)
    requires WellDefined(pools[i], snap, reference, natives)
    ensures AllWellDefined(pools, snaps[i := snap], reference, natives)
    ensures AllWellDefined(pools[..i], snaps[..i], reference, natives)
    ensures AllWellDefined(pools[i + 1..], snaps[i + 1..], reference, natives)
    ensures Aggregate(pools, snaps[i := snap], reference, natives)
         == Aggregate(pools[..i], snaps[..i], reference, natives)
          + Emitted(Classify(pools[i], snap, reference, natives))
          + Aggregate(pools[i + 1..], snaps[i + 1..], reference, natives)
  {
    var os := Outcomes(pools, snaps[i := snap], reference, natives);
    var o := Classify(pools[i], snap, reference, natives);
    assert os == Outcomes(pools[..i], snaps[..i], reference, natives) + [o] + Outcomes(pools[i + 1..], snaps[i + 1..], reference, natives);
    CollectAppend(Outcomes(pools[..i], snaps[..i], reference, natives) + [o], Outcomes(pools[i + 1..], snaps[i + 1..], reference, natives));
    CollectAppend(Outcomes(pools[..i], snaps[..i], reference, natives), [o]);
    assert [o][..0] == [];
  }

  /** The fields of a record: a missing balance or earned amount counts as
      zero, the total staked is the contract's total supply, the account's
      rate is its hypothetical share of the total rate (never above the
      total while the account's stake is within it), and the period finish
      is absent unless the finish in milliseconds is positive. */
  lemma PositionFields(info: StakingRewardInfo, snap: PoolSnapshot, reference: PairSnapshot, natives: Natives)
    requires Ready(snap, reference) && !Broken(snap, reference) && Computable(info, snap, reference, natives)
    ensures var p := Position(info, snap, reference, natives);
      && p.stakingRewardAddress == info.stakingRewardAddress && p.tokens == info.tokens
      && p.stakedAmount == (if Result(snap.balance).Some? then Result(snap.balance).value else 0)
      && p.earnedAmount == (if Result(snap.earned).Some? then Result(snap.earned).value else 0)
      && Result(snap.totalSupply) == Some(p.totalStakedAmount) && p.totalStakedAmount > 0
      && Result(snap.rewardRate) == Some(p.totalRewardRate)
      && p.rewardRate == HypotheticalRewardRate(p.stakedAmount, p.totalStakedAmount, p.totalRewardRate)
      && (p.stakedAmount <= p.totalStakedAmount ==> p.rewardRate <= p.totalRewardRate)
      && (p.periodFinish.None? <==> Result(snap.periodFinish).None? || Result(snap.periodFinish).value * 1000 <= 0)
      && (p.periodFinish.Some? ==> p.periodFinish.value == Result(snap.periodFinish).value * 1000)
  {
    var p := Position(info, snap, reference, natives);
    if p.stakedAmount <= p.totalStakedAmount {
      RewardRateBounds(p.stakedAmount, p.totalStakedAmount, p.totalRewardRate);
    }
  }

  /** The valuation of a record is chosen by the first token alone. A direct
      pool stakes every LP token of the reward contract (the total supply is
      both the stake and the divisor), so its stake is worth exactly twice
      its pair's WAVAX reserve; any other pool, even one whose second token
      is WAVAX, is valued through the PNG reference pair. */
  lemma PositionValuation(info: StakingRewardInfo, snap: PoolSnapshot, reference: PairSnapshot, natives: Natives)
    requires Ready(snap, reference) && !Broken(snap, reference) && Computable(info, snap, reference, natives)
    ensures IsAvaxPool(info, natives) ==>
              Position(info, snap, reference, natives).totalStakedInWavax == 2 * snap.pairInfo.pair.value.ReserveOf(info.tokens.0)
    ensures !IsAvaxPool(info, natives) ==>
              Position(info, snap, reference, natives).totalStakedInWavax == TotalStakedInAvaxFromPng(
                Result(snap.totalSupply).value,
                reference.pair.value.ReserveOf(natives.png),
                reference.pair.value.ReserveOf(natives.wavaxOf(info.tokens.1.chainId)),
                snap.pairInfo.pair.value.ReserveOf(natives.png),
                Result(snap.totalSupply).value)
  {
    if IsAvaxPool(info, natives) {
      var supply := Result(snap.totalSupply).value;
      TotalStakedInAvaxBounds(supply, snap.pairInfo.pair.value.ReserveOf(info.tokens.0), supply);
    }
  }

  // ---------------------------------------------------------------------
  // Total rewards earned.

  /** The earned amounts of `positions`, added left to right from zero. */
  function SumEarned(positions: seq<StakingPosition>): (total: nat)
    ensures forall k :: 0 <= k < |positions| ==> positions[k].earnedAmount <= total
  {
    if positions == [] then 0
    else SumEarned(positions[..|positions| - 1]) + positions[|positions| - 1].earnedAmount
  }

  /** `useTotalPngEarned`: the PNG token of the active chain (none without a
      truthy chain id, or when the chain has no PNG) and, when there is one,
      the earned amounts of the unfiltered pass added from zero. `pngOf` is
      the SDK's PNG token per chain id. */
  function TotalPngEarned(
    chainId: Option<nat>, pngOf: map<nat, Token>, table: map<nat, seq<StakingRewardInfo>>,
    snaps: seq<PoolSnapshot>, reference: PairSnapshot, natives: Natives
  ): (r: Option<nat>)
    requires |snaps| == |ActivePools(chainId, table, AnyPair)|
    requires AllWellDefined(ActivePools(chainId, table, AnyPair), snaps, reference, natives)
    ensures r.Some? <==> Truthy(chainId) && chainId.value in pngOf
    ensures r.Some? ==>
              var stakingInfos := Aggregate(ActivePools(chainId, table, AnyPair), snaps, reference, natives);
              r.value == SumEarned(stakingInfos) &&
              forall k :: 0 <= k < |stakingInfos| ==> stakingInfos[k].earnedAmount <= r.value
  {
    var png := if Truthy(chainId) && chainId.value in pngOf then Some(pngOf[chainId.value]) else None;
    if png.None? then None
    else Some(SumEarned(Aggregate(ActivePools(chainId, table, AnyPair), snaps, reference, natives)))
  }

  /** The sum splits over a concatenation: each record adds its own earned
      amount once. */
  lemma {:induction false} SumEarnedAppend(a: seq<StakingPosition>, b: seq<StakingPosition>)
    ensures SumEarned(a + b) == SumEarned(a) + SumEarned(b)
  {
    if b != [] {
      var n := |b| - 1;
      SumEarnedAppend(a, b[..n]);
      assert (a + b)[..|a + b| - 1] == a + b[..n];
    } else {
      assert a + b == a;
    }
  }

  /** What one emitted record adds to the total: its earned amount, or
      nothing for a pool that was skipped. */
  lemma SumEarnedEmitted(o: Outcome)
    ensures SumEarned(Emitted(o)) == if o.Included? then o.position.earnedAmount else 0
  {
    if o.Included? {
      assert Emitted(o)[..0] == [];
    }
  }

  /** When one pool's snapshot changes, the total changes by that pool's
      contribution alone: the other pools' earned amounts count as before. */
  lemma TotalPngEarnedOnePoolChanged(
    chainId: Option<nat>, pngOf: map<nat, Token>, table: map<nat, seq<StakingRewardInfo>>,
    snaps: seq<PoolSnapshot>, i: nat, snap: PoolSnapshot, reference: PairSnapshot, natives: Natives
  )
    requires |snaps| == |ActivePools(chainId, table, AnyPair)|
    requires AllWellDefined(ActivePools(chainId, table, AnyPair), snaps, reference, natives)
    requires i < |snaps|
    requires WellDefined(ActivePools(chainId, table, AnyPair)[i], snap, reference, natives)
    ensures AllWellDefined(ActivePools(chainId, table, AnyPair), snaps[i := snap], reference, natives)
    ensures TotalPngEarned(chainId, pngOf, table, snaps[i := snap], reference, natives).Some? <==>
            TotalPngEarned(chainId, pngOf, table, snaps, reference, natives).Some?
    ensures TotalPngEarned(chainId, pngOf, table, snaps, reference, natives).Some? ==>
              TotalPngEarned(chainId, pngOf, table, snaps[i := snap], reference, natives).value
                + SumEarned(Emitted(Classify(ActivePools(chainId, table, AnyPair)[i], snaps[i], reference, natives)))
              == TotalPngEarned(chainId, pngOf, table, snaps, reference, natives).value
                + SumEarned(Emitted(Classify(ActivePools(chainId, table, AnyPair)[i], snap, reference, natives)))
  {
    var pools := ActivePools(chainId, table, AnyPair);
    AggregateOnePoolChanged(pools, snaps, i, snap, reference, natives);
    AggregateOnePoolChanged(pools, snaps, i, snaps[i], reference, natives);
    assert snaps[i := snaps[i]] == snaps;
    var before := Aggregate(pools[..i], snaps[..i], reference, natives);
    var after := Aggregate(pools[i + 1..], snaps[i + 1..], reference, natives);
    var oldOne := Emitted(Classify(pools[i], snaps[i], reference, natives));
    var newOne := Emitted(Classify(pools[i], snap, reference, natives));
    SumEarnedAppend(before + oldOne, after);
    SumEarnedAppend(before, oldOne);
    SumEarnedAppend(before + newOne, after);
    SumEarnedAppend(before, newOne);
  }

  /** A pool whose inputs were still loading adds nothing; once they arrive
      without error the total grows by exactly that pool's earned amount. */
  lemma TotalPngEarnedPoolArrives(
    chainId: Option<nat>, pngOf: map<nat, Token>, table: map<nat, seq<StakingRewardInfo>>,
    snaps: seq<PoolSnapshot>, i: nat, snap: PoolSnapshot, reference: PairSnapshot, natives: Natives
  )
    requires |snaps| == |ActivePools(chainId, table, AnyPair)|
    requires AllWellDefined(ActivePools(chainId, table, AnyPair), snaps, reference, natives)
    requires i < |snaps|
    requires WellDefined(ActivePools(chainId, table, AnyPair)[i], snap, reference, natives)
    requires !Ready(snaps[i], reference) && Ready(snap, reference) && !Broken(snap, reference)
    ensures AllWellDefined(ActivePools(chainId, table, AnyPair), snaps[i := snap], reference, natives)
    ensures TotalPngEarned(chainId, pngOf, table, snaps, reference, natives).Some? ==>
              TotalPngEarned(chainId, pngOf, table, snaps[i := snap], reference, natives).value
              == TotalPngEarned(chainId, pngOf, table, snaps, reference, natives).value
                 + Result(snap.earned).GetOr(0)
  {
    var pools := ActivePools(chainId, table, AnyPair);
    TotalPngEarnedOnePoolChanged(chainId, pngOf, table, snaps, i, snap, reference, natives);
    SumEarnedEmitted(Classify(pools[i], snaps[i], reference, natives));
    SumEarnedEmitted(Classify(pools[i], snap, reference, natives));
  }

  // ---------------------------------------------------------------------
  // The configured table.

  /** The configuration names the SDK's own tokens: its WAVAX is the WAVAX
      of the Avalanche chain, and its PNG the PNG the pass values through. */
  predicate Consistent(k: KnownTokens, natives: Natives) {
    k.wavax.chainId == AVALANCHE && k.wavax == natives.wavaxOf(AVALANCHE) && k.png == natives.png
  }

  /** Whatever the chain id and the filter, every pool the pass looks at in
      the configured table lists WAVAX first, so it is valued directly from
      its own pair's WAVAX reserve; and the second configured pool stakes
      the very WAVAX/PNG pair the pass uses as its price reference. */
  lemma ConfiguredPoolsAreAvaxPools(k: KnownTokens, natives: Natives, chainId: Option<nat>, filter: PairFilter)
    requires Consistent(k, natives)
    ensures forall i :: 0 <= i < |ActivePools(chainId, StakingRewardsInfo(k), filter)| ==>
              IsAvaxPool(ActivePools(chainId, StakingRewardsInfo(k), filter)[i], natives)
    ensures StakingRewardsInfo(k)[AVALANCHE][1].tokens == (natives.wavaxOf(AVALANCHE), natives.png)
  {
    var table := StakingRewardsInfo(k);
    if Truthy(chainId) && chainId.value in table {
      var pools := table[chainId.value];
      FilterPoolsAt(pools, filter);
      var idx := Positions(pools, Keeper(filter));
      assert Selects(idx, |pools|);
    }
  }

  /** Filtering the Avalanche table by a WAVAX/PNG pair keeps exactly the
      second configured pool. */
  lemma FilterByWavaxPngPair(k: KnownTokens, p: Pair)
    requires k.wavax != k.eth && k.wavax != k.png && k.wavax != k.sushi
    requires k.eth != k.png && k.png != k.sushi
    requires {p.token0, p.token1} == {k.wavax, k.png}
    ensures ActivePools(Some(AVALANCHE), StakingRewardsInfo(k), ByPair(p))
         == [StakingRewardInfo((k.wavax, k.png), "0x8fd2755c6ae7252753361991bdcd6ff55bdc01ce")]
  {
    var pools := StakingRewardsInfo(k)[AVALANCHE];
    var f := ByPair(p);
    assert Keeps(f, pools[1]) && !Keeps(f, pools[0]) && !Keeps(f, pools[2]);
    assert pools[..0] == [];
    assert FilterPools(pools[..1], f) == [] by {
      assert pools[..1][..0] == [];
    }
    assert FilterPools(pools[..2], f) == [pools[1]] by {
      assert pools[..2][..1] == pools[..1];
    }
    assert FilterPools(pools, f) == [pools[1]] by {
      assert pools[..3] == pools && pools[..2] == pools[..|pools| - 1];
    }
  }
}
