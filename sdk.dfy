/** The few pieces of the token SDK that the staking hooks rely on: optional
    values, token identities and a two-token liquidity pair with its reserves.
    The SDK itself is not part of this model; only the behaviour the hooks
    observe is kept. */
module Sdk {

  datatype Option<+T> = None | Some(value: T) {
    /** The value, or `default` when absent (JavaScript's `x ?? default`). */
    function GetOr(default: T): T {
      match this
      case Some(v) => v
      case None => default
    }
  }

  /** A token is identified by its chain and its contract address; two tokens
      are equal exactly when both match. */
  datatype Token = Token(chainId: nat, address: string)

  /** A liquidity pair: two tokens with the raw reserve of each. */
  datatype Pair = Pair(token0: Token, reserve0: nat, token1: Token, reserve1: nat) {

    predicate InvolvesToken(t: Token) {
      t == token0 || t == token1
    }

    /** The reserve held of `t`; the SDK refuses a token that is not in the pair. */
    function ReserveOf(t: Token): nat
      requires InvolvesToken(t)
    {
      if t == token0 then reserve0 else reserve1
    }
  }

  /** The life cycle of a pair-reserve snapshot. */
  datatype PairState = PairLoading | NotExists | Exists | Invalid
}
