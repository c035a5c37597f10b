/** The stake and unstake form checks: the amount the user typed, already
    parsed into raw units (or absent when it does not parse), is accepted
    only up to a ceiling, and the form shows at most one error, the missing
    wallet taking precedence over the missing amount. */
module DerivedInfo {
  import opened Sdk

  const CONNECT_WALLET: string := "Connect Wallet"
  const ENTER_AN_AMOUNT: string := "Enter an amount"

  /** The form's error: no wallet first, then no acceptable amount. */
  method AmountError(hasAccount: bool, parsedAmount: Option<nat>) returns (error: Option<string>)
    ensures !hasAccount ==> error == Some(CONNECT_WALLET)
    ensures hasAccount && parsedAmount.None? ==> error == Some(ENTER_AN_AMOUNT)
    ensures error.None? <==> hasAccount && parsedAmount.Some?
  {
    error := None;
    if !hasAccount {
      error := Some(CONNECT_WALLET);
    }
    if parsedAmount.None? {
      error := if error.Some? then error else Some(ENTER_AN_AMOUNT);
    }
  }

  /** Staking: the typed amount is accepted when the unstaked LP balance is
      known and the amount does not exceed it (equality accepted). */
  method DerivedStakeInfo(parsedInput: Option<nat>, userLiquidityUnstaked: Option<nat>, hasAccount: bool)
    returns (parsedAmount: Option<nat>, error: Option<string>)
    ensures parsedAmount.Some? <==>
              parsedInput.Some? && userLiquidityUnstaked.Some? && parsedInput.value <= userLiquidityUnstaked.value
    ensures parsedAmount.Some? ==> parsedAmount == parsedInput
    ensures !hasAccount ==> error == Some(CONNECT_WALLET)
    ensures hasAccount && parsedAmount.None? ==> error == Some(ENTER_AN_AMOUNT)
    ensures error.None? <==> hasAccount && parsedAmount.Some?
  {
    parsedAmount :=
      if parsedInput.Some? && userLiquidityUnstaked.Some? && parsedInput.value <= userLiquidityUnstaked.value
      then parsedInput
      else None;
    error := AmountError(hasAccount, parsedAmount);
  }

  /** Unstaking: the typed amount is accepted when it does not exceed the
      staked amount (equality accepted). */
  method DerivedUnstakeInfo(parsedInput: Option<nat>, stakingAmount: nat, hasAccount: bool)
    returns (parsedAmount: Option<nat>, error: Option<string>)
    ensures parsedAmount.Some? <==> parsedInput.Some? && parsedInput.value <= stakingAmount
    ensures parsedAmount.Some? ==> parsedAmount == parsedInput
    ensures !hasAccount ==> error == Some(CONNECT_WALLET)
    ensures hasAccount && parsedAmount.None? ==> error == Some(ENTER_AN_AMOUNT)
    ensures error.None? <==> hasAccount && parsedAmount.Some?
  {
    parsedAmount := if parsedInput.Some? && parsedInput.value <= stakingAmount then parsedInput else None;
    error := AmountError(hasAccount, parsedAmount);
  }
}
