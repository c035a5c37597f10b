/** Exact big-integer arithmetic of the staking hooks: the value in WAVAX of
    the LP tokens staked in a reward pool (directly for a WAVAX pair, through
    the WAVAX/PNG reference pair otherwise) and the share of a pool's reward
    rate that a given stake earns. Every division truncates, as JSBI does on
    non-negative operands. */
module Valuation {

  /** One whole token in raw units (18 decimals). */
  const ONE_TOKEN: nat := 1_000_000_000_000_000_000

  // ---------------------------------------------------------------------
  // Floor division facts used by the proofs below.

  /** Multiplying by a non-negative factor keeps the order. */
  lemma MulMonotone(a: int, b: int, c: nat)
    ensures a <= b ==> a * c <= b * c
  {
  }

  lemma {:induction false} FloorUnique(x: nat, d: nat, q: nat)
    requires d > 0
    requires q * d <= x < (q + 1) * d
    ensures x / d == q
  {
    var p := x / d;
    assert p * d <= x < (p + 1) * d;
    MulMonotone(p + 1, q, d);
    MulMonotone(q + 1, p, d);
  }

  lemma {:induction false} MulLeqCancel(a: nat, b: nat, c: nat)
    requires c > 0 && a * c <= b * c
    ensures a <= b
  {
    MulMonotone(b + 1, a, c);
  }

  lemma {:induction false} DivMonotone(x: nat, y: nat, d: nat)
    requires d > 0 && x <= y
    ensures x / d <= y / d
  {
    var p, q := x / d, y / d;
    assert p * d <= x && y < (q + 1) * d;
    MulMonotone(q + 1, p, d);
  }

  lemma MulDivCancel(a: nat, d: nat)
    requires d > 0
    ensures a * d / d == a
  {
    FloorUnique(a * d, d, a);
  }

  // ---------------------------------------------------------------------
  // Direct pools: the pair holds WAVAX.

  /** Value in WAVAX of `totalStaked` LP tokens out of `totalSupply`, for a
      pair that holds `reserveInWavax`: the LP tokens' share of that reserve,
      doubled because an LP token also claims the other, equally valued,
      reserve. The source divides by `totalSupply` without a check, and JSBI
      throws on a zero divisor, hence the precondition. */
  function TotalStakedInAvax(totalSupply: nat, reserveInWavax: nat, totalStaked: nat): (v: nat)
    requires totalSupply > 0
    ensures v * totalSupply <= totalStaked * reserveInWavax * 2 < (v + 1) * totalSupply
    ensures totalStaked == 0 ==> v == 0
  {
    totalStaked * reserveInWavax * 2 / totalSupply
  }

  /** Staking more LP tokens never lowers their value. */
  lemma {:induction false} TotalStakedInAvaxMonotone(totalSupply: nat, reserveInWavax: nat, t1: nat, t2: nat)
    requires totalSupply > 0 && t1 <= t2
    ensures TotalStakedInAvax(totalSupply, reserveInWavax, t1) <= TotalStakedInAvax(totalSupply, reserveInWavax, t2)
  {
    MulMonotone(t1, t2, reserveInWavax);
    MulMonotone(t1 * reserveInWavax, t2 * reserveInWavax, 2);
    DivMonotone(t1 * reserveInWavax * 2, t2 * reserveInWavax * 2, totalSupply);
  }

  /** A stake within the supply is worth at most twice the WAVAX reserve, and
      the whole supply is worth exactly twice the reserve. */
  lemma {:induction false} TotalStakedInAvaxBounds(totalSupply: nat, reserveInWavax: nat, totalStaked: nat)
    requires 0 < totalSupply && totalStaked <= totalSupply
    ensures TotalStakedInAvax(totalSupply, reserveInWavax, totalStaked) <= 2 * reserveInWavax
    ensures totalStaked == totalSupply ==> TotalStakedInAvax(totalSupply, reserveInWavax, totalStaked) == 2 * reserveInWavax
  {
    TotalStakedInAvaxMonotone(totalSupply, reserveInWavax, totalStaked, totalSupply);
    assert totalSupply * reserveInWavax * 2 == (2 * reserveInWavax) * totalSupply;
    MulDivCancel(2 * reserveInWavax, totalSupply);
  }

  // ---------------------------------------------------------------------
  // Indirect pools: the pair holds PNG but no WAVAX.

  /** WAVAX per PNG, scaled by ONE_TOKEN, read from the reference WAVAX/PNG
      pair; truncated. The source does not guard the PNG reserve. */
  function AvaxPngRatio(reserveOfPng: nat, reserveOfOther: nat): (ratio: nat)
    requires reserveOfPng > 0
    ensures ratio * reserveOfPng <= ONE_TOKEN * reserveOfOther < (ratio + 1) * reserveOfPng
  {
    ONE_TOKEN * reserveOfOther / reserveOfPng
  }

  /** `reserveOfPng` PNG expressed in WAVAX at the scaled `ratio`; truncated. */
  function ValueOfPngInAvax(reserveOfPng: nat, ratio: nat): (v: nat)
    ensures v * ONE_TOKEN <= reserveOfPng * ratio < (v + 1) * ONE_TOKEN
  {
    reserveOfPng * ratio / ONE_TOKEN
  }

  /** Value in WAVAX of `totalStaked` LP tokens of a PNG pair: the pair's PNG
      reserve converted to WAVAX through the reference pair, then the same
      share-and-double formula as for a WAVAX pair. */
  function TotalStakedInAvaxFromPng(
    totalSupply: nat,
    avaxPngPairReserveOfPng: nat,
    avaxPngPairReserveOfOtherToken: nat,
    stakingTokenPairReserveOfPng: nat,
    totalStaked: nat
  ): (v: nat)
    requires totalSupply > 0 && avaxPngPairReserveOfPng > 0
    ensures v == TotalStakedInAvax(
                   totalSupply,
                   ValueOfPngInAvax(stakingTokenPairReserveOfPng, AvaxPngRatio(avaxPngPairReserveOfPng, avaxPngPairReserveOfOtherToken)),
                   totalStaked)
  {
    var avaxPngRatio := ONE_TOKEN * avaxPngPairReserveOfOtherToken / avaxPngPairReserveOfPng;
    var valueOfPngInAvax := stakingTokenPairReserveOfPng * avaxPngRatio / ONE_TOKEN;
    totalStaked * valueOfPngInAvax * 2 / totalSupply
  }

  /** A reference pair with equal reserves prices PNG at exactly one WAVAX. */
  lemma {:induction false} BalancedRatioIsOne(reserve: nat)
    requires reserve > 0
    ensures AvaxPngRatio(reserve, reserve) == ONE_TOKEN
  {
    MulDivCancel(ONE_TOKEN, reserve);
  }

  /** At a ratio of exactly one, converting PNG to WAVAX is the identity. */
  lemma {:induction false} ValueAtRatioOne(reserveOfPng: nat)
    ensures ValueOfPngInAvax(reserveOfPng, ONE_TOKEN) == reserveOfPng
  {
    MulDivCancel(reserveOfPng, ONE_TOKEN);
  }

  /** The two valuation paths agree at their boundary: when the reference
      pair prices PNG at one WAVAX, valuing a PNG pair indirectly gives the
      direct formula applied to its PNG reserve. */
  lemma {:induction false} IndirectAgreesWithDirect(
    totalSupply: nat, referenceReserve: nat, stakingTokenPairReserveOfPng: nat, totalStaked: nat)
    requires totalSupply > 0 && referenceReserve > 0
    ensures TotalStakedInAvaxFromPng(totalSupply, referenceReserve, referenceReserve, stakingTokenPairReserveOfPng, totalStaked)
         == TotalStakedInAvax(totalSupply, stakingTokenPairReserveOfPng, totalStaked)
  {
    BalancedRatioIsOne(referenceReserve);
    ValueAtRatioOne(stakingTokenPairReserveOfPng);
  }

  /** Truncating twice never overestimates: the PNG reserve converted through
      the scaled ratio is at most its exact price `reserveOfPng * other / png`. */
  lemma {:induction false} ValueOfPngInAvaxUnderestimates(reserveOfPng: nat, refPng: nat, refOther: nat)
    requires refPng > 0
    ensures ValueOfPngInAvax(reserveOfPng, AvaxPngRatio(refPng, refOther)) <= reserveOfPng * refOther / refPng
  {
    var ratio := AvaxPngRatio(refPng, refOther);
    var v := ValueOfPngInAvax(reserveOfPng, ratio);
    MulMonotone(v * ONE_TOKEN, reserveOfPng * ratio, refPng);
    MulMonotone(ratio * refPng, ONE_TOKEN * refOther, reserveOfPng);
    assert v * ONE_TOKEN * refPng == (v * refPng) * ONE_TOKEN;
    assert reserveOfPng * ratio * refPng == (ratio * refPng) * reserveOfPng;
    assert ONE_TOKEN * refOther * reserveOfPng == (reserveOfPng * refOther) * ONE_TOKEN;
    MulLeqCancel(v * refPng, reserveOfPng * refOther, ONE_TOKEN);
    MulDivCancel(v, refPng);
    DivMonotone(v * refPng, reserveOfPng * refOther, refPng);
  }

  /** The indirect valuation is, like the direct one, non-decreasing in the
      amount staked. */
  lemma {:induction false} TotalStakedInAvaxFromPngMonotone(
    totalSupply: nat, refPng: nat, refOther: nat, stakingPng: nat, t1: nat, t2: nat)
    requires totalSupply > 0 && refPng > 0 && t1 <= t2
    ensures TotalStakedInAvaxFromPng(totalSupply, refPng, refOther, stakingPng, t1)
         <= TotalStakedInAvaxFromPng(totalSupply, refPng, refOther, stakingPng, t2)
  {
    var value := ValueOfPngInAvax(stakingPng, AvaxPngRatio(refPng, refOther));
    TotalStakedInAvaxMonotone(totalSupply, value, t1, t2);
  }

  // ---------------------------------------------------------------------
  // Reward rate of one stake.

  /** The part of `totalRewardRate` earned by `stakedAmount` out of
      `totalStakedAmount`, truncated; zero when nothing is staked. */
  function HypotheticalRewardRate(stakedAmount: nat, totalStakedAmount: nat, totalRewardRate: nat): (r: nat)
    ensures totalStakedAmount == 0 ==> r == 0
    ensures totalStakedAmount > 0 ==>
              r * totalStakedAmount <= totalRewardRate * stakedAmount < (r + 1) * totalStakedAmount
  {
    if totalStakedAmount > 0 then totalRewardRate * stakedAmount / totalStakedAmount else 0
  }

  /** A larger stake earns at least as much. */
  lemma {:induction false} RewardRateMonotone(s1: nat, s2: nat, totalStakedAmount: nat, totalRewardRate: nat)
    requires s1 <= s2
    ensures HypotheticalRewardRate(s1, totalStakedAmount, totalRewardRate)
         <= HypotheticalRewardRate(s2, totalStakedAmount, totalRewardRate)
  {
    if totalStakedAmount > 0 {
      assert totalRewardRate * s1 <= totalRewardRate * s2 by {
        MulMonotone(s1, s2, totalRewardRate);
      }
      DivMonotone(totalRewardRate * s1, totalRewardRate * s2, totalStakedAmount);
    }
  }

  /** A stake within the pool never earns more than the whole pool, and the
      whole (non-empty) pool earns exactly the total rate. */
  lemma {:induction false} RewardRateBounds(stakedAmount: nat, totalStakedAmount: nat, totalRewardRate: nat)
    requires stakedAmount <= totalStakedAmount
    ensures HypotheticalRewardRate(stakedAmount, totalStakedAmount, totalRewardRate) <= totalRewardRate
    ensures 0 < stakedAmount == totalStakedAmount ==>
              HypotheticalRewardRate(stakedAmount, totalStakedAmount, totalRewardRate) == totalRewardRate
  {
    if totalStakedAmount > 0 {
      RewardRateMonotone(stakedAmount, totalStakedAmount, totalStakedAmount, totalRewardRate);
      MulDivCancel(totalRewardRate, totalStakedAmount);
    }
  }

  /** The rate is linear in the stake up to truncation: doubling the stake
      doubles the rate, give or take one raw unit. */
  lemma {:induction false} RewardRateDoubling(stakedAmount: nat, totalStakedAmount: nat, totalRewardRate: nat)
    ensures 2 * HypotheticalRewardRate(stakedAmount, totalStakedAmount, totalRewardRate)
         <= HypotheticalRewardRate(2 * stakedAmount, totalStakedAmount, totalRewardRate)
         <= 2 * HypotheticalRewardRate(stakedAmount, totalStakedAmount, totalRewardRate) + 1
  {
    if totalStakedAmount > 0 {
      var r1 := HypotheticalRewardRate(stakedAmount, totalStakedAmount, totalRewardRate);
      var r2 := HypotheticalRewardRate(2 * stakedAmount, totalStakedAmount, totalRewardRate);
      var x := totalRewardRate * stakedAmount;
      assert totalRewardRate * (2 * stakedAmount) == 2 * x;
      assert r1 * totalStakedAmount <= x < (r1 + 1) * totalStakedAmount;
      assert r2 * totalStakedAmount <= 2 * x < (r2 + 1) * totalStakedAmount;
      MulMonotone(r2 + 1, 2 * r1, totalStakedAmount);
      MulMonotone(2 * r1 + 2, r2, totalStakedAmount);
    }
  }
}
