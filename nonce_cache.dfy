/** The nonce cache shared across rounds and restarts: one stored value
    (the `eth_redis_nonce` key) and the rule that reconciles it with the
    ledger's transaction count. */
module NonceCoordination {
  import opened Outcomes

  class NonceCache {
    /** The stored value as parseInt reads it: None when nothing is stored
        or the stored text is not a number. */
    var cached: Option<nat>

    constructor (stored: Option<nat>)
      ensures cached == stored
    {
      cached := stored;
    }

    /** The nonce a submission uses: the ledger's count, unless the cached
        value is truthy and strictly larger. That is the larger of the two;
        the ledger count is a floor the cache never lowers. */
    function NextNonce(ledgerCount: nat): (n: nat)
      reads this
      ensures n >= ledgerCount
      ensures cached.Some? ==> n >= cached.value
      ensures n == ledgerCount || cached == Some(n)
    {
      if cached.Some? && cached.value != 0 && cached.value > ledgerCount then cached.value
      else ledgerCount
    }

    /** redisClient.set of the nonce key. */
    method Store(value: nat)
      modifies this
      ensures cached == Some(value)
    {
      cached := Some(value);
    }
  }
}
