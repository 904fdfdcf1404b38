/**
 * The doubling pause both retrying workers use between attempts.
 */
module Retry {

  /** The pause before the `n`-th retry (1-based): `initial` ms, doubled for each retry after the first. */
  function DoublingPause(initial: nat, n: nat): (ms: nat)
    requires n >= 1
    ensures ms >= initial
  {
    if n == 1 then initial else 2 * DoublingPause(initial, n - 1)
  }
}
