/** mineLpt: runs a fixed number of rounds, each one discovery, filtering
    and one submission, and collects the transaction hashes in round order.
    A round whose discovery or submission fails ends the whole run. */
module MiningLoop {
  import opened Outcomes
  import opened AccountSource
  import opened AllocationFilter
  import opened ProofCodec
  import opened NonceCoordination
  import opened BatchSubmitter

  /** What the outside world answers during one round. The verifier's
      answers may change from round to round as allocations get generated;
      the Merkle tree does not. */
  datatype Round = Round(
    fetch: nat -> Outcome<seq<Candidate>>,
    isGenerated: string -> Outcome<bool>,
    chain: Chain
  )

  /** A proof as getHexProof returns it: "0x" and whole bytes of hex. */
  predicate IsHexProof(p: string) {
    |p| >= 2 && p[..2] == "0x" && |p| % 2 == 0
  }

  predicate StrictlyIncreasing(s: seq<nat>) {
    forall k :: 0 <= k < |s| - 1 ==> s[k] < s[k + 1]
  }

  /** The ledger acknowledged `hash` for some signed transaction of the round. */
  ghost predicate Acknowledged(chain: Chain, hash: string) {
    exists signed :: chain.broadcast(signed) == Success(hash)
  }

  /** Every hash of the run so far was acknowledged in its own round. */
  ghost predicate AllAcknowledged(world: nat -> Round, hashes: seq<string>) {
    forall k :: 0 <= k < |hashes| ==> Acknowledged(world(k).chain, hashes[k])
  }

  lemma AcknowledgedAppend(world: nat -> Round, hashes: seq<string>, hash: string)
    requires AllAcknowledged(world, hashes)
    requires Acknowledged(world(|hashes|).chain, hash)
    ensures AllAcknowledged(world, hashes + [hash])
  {
  }

  /** Proofs looked up in a well-formed tree lose their "0x" and keep an even
      number of hex characters, as the encoder needs. */
  lemma BatchProofsEven(accounts: seq<Candidate>, cap: nat,
                        isGenerated: string -> Outcome<bool>,
                        hexProof: string -> Outcome<string>)
    requires forall a :: hexProof(a).Success? ==> IsHexProof(hexProof(a).value)
    ensures AllEven(Proofs(ClaimBatch(accounts, cap, isGenerated, hexProof)))
  {
    var batch := ClaimBatch(accounts, cap, isGenerated, hexProof);
    forall k | 0 <= k < |batch|
      ensures |Proofs(batch)[k]| % 2 == 0
    {
      BatchEntriesQualify(accounts, cap, isGenerated, hexProof, k);
    }
  }

  /** Whether the round `w` would succeed from the current cache: the fetch
      succeeds, and the transaction planned for the round's claim batch is
      encoded, read from the ledger, signed and acknowledged. */
  ghost predicate RoundSucceeds(w: Round, cap: nat, gasPrice: nat,
                                hexProof: string -> Outcome<string>, cache: NonceCache)
    requires forall a :: hexProof(a).Success? ==> IsHexProof(hexProof(a).value)
    reads cache
  {
    var accounts := FirstSuccess(w.fetch, 0);
    accounts.Success? &&
    var batch := ClaimBatch(accounts.value, cap, w.isGenerated, hexProof);
    BatchProofsEven(accounts.value, cap, w.isGenerated, hexProof);
    var plan := PlanTx(w.chain, cache, Addresses(batch), ExtendedBufArrToHex(Proofs(batch)), gasPrice);
    plan.Success? && w.chain.sign(plan.value).Success?
    && w.chain.broadcast(w.chain.sign(plan.value).value).Success?
  }

  /** One iteration of the round loop: fetch candidates, build the batch,
      encode its proofs and submit. `batch` is the round's claim batch, built
      from the list the first successful fetch attempt returned; the
      transaction submitted claims its addresses with the payload of its
      proofs, and `used` is that transaction's nonce. */
  method MineRound(w: Round, cap: nat, gasPrice: nat,
                   hexProof: string -> Outcome<string>, cache: NonceCache)
    returns (hash: Outcome<string>, ghost batch: seq<ClaimEntry>, ghost used: nat)
    requires forall a :: hexProof(a).Success? ==> IsHexProof(hexProof(a).value)
    modifies cache
    ensures AllEven(Proofs(batch))
    ensures FirstSuccess(w.fetch, 0).Success? ==>
      batch == ClaimBatch(FirstSuccess(w.fetch, 0).value, cap, w.isGenerated, hexProof)
    ensures var plan := old(PlanTx(w.chain, cache, Addresses(batch),
                                   ExtendedBufArrToHex(Proofs(batch)), gasPrice));
      hash.Success? <==> FirstSuccess(w.fetch, 0).Success? && plan.Success?
                         && w.chain.sign(plan.value).Success?
                         && w.chain.broadcast(w.chain.sign(plan.value).value).Success?
    ensures var plan := old(PlanTx(w.chain, cache, Addresses(batch),
                                   ExtendedBufArrToHex(Proofs(batch)), gasPrice));
      hash.Success? ==> hash == w.chain.broadcast(w.chain.sign(plan.value).value)
                        && used == plan.value.nonce
    ensures hash.Success? <==> old(RoundSucceeds(w, cap, gasPrice, hexProof, cache))
    ensures hash.Success? ==> w.chain.transactionCount.Success?
                              && used == old(cache.NextNonce(w.chain.transactionCount.value))
    ensures hash.Success? ==> Acknowledged(w.chain, hash.value)
    ensures hash.Success? ==> cache.cached == Some(used + 1)
    ensures hash.Success? && old(cache.cached).Some? ==> used >= old(cache.cached).value
    ensures hash.Failure? ==> cache.cached == old(cache.cached)
  {
    var accounts, _ := FetchAccounts(w.fetch);
    if accounts.Failure? {
      return Failure, [], 0;
    }
    var toclaim, hexproofs := GetAddressesAndProofs(accounts.value, cap, w.isGenerated, hexProof);
    batch := ClaimBatch(accounts.value, cap, w.isGenerated, hexProof);
    BatchProofsEven(accounts.value, cap, w.isGenerated, hexProof);
    var payload := ExtendedBufArrToHex(hexproofs);
    ghost var plan := PlanTx(w.chain, cache, toclaim, payload, gasPrice);
    hash := SubmitProof(w.chain, cache, toclaim, payload, gasPrice);
    used := if plan.Success? then plan.value.nonce else 0;
  }

  /** The nonces used so far strictly increase, the first is no lower than
      the cache the run started from, and the cache is one above the last
      (or untouched before any submission). */
  predicate CacheFollows(nonces: seq<nat>, start: Option<nat>, now: Option<nat>) {
    && StrictlyIncreasing(nonces)
    && (nonces != [] && start.Some? ==> nonces[0] >= start.value)
    && (nonces == [] ==> now == start)
    && (nonces != [] ==> now == Some(nonces[|nonces| - 1] + 1))
  }

  /** A round that used a nonce no lower than the cache, and left the cache
      one above it, extends the chain of nonces. */
  lemma CacheFollowsStep(nonces: seq<nat>, start: Option<nat>, before: Option<nat>,
                         used: nat, after: Option<nat>)
    requires CacheFollows(nonces, start, before)
    requires before.Some? ==> used >= before.value
    requires after == Some(used + 1)
    ensures CacheFollows(nonces + [used], start, after)
  {
    assert (nonces + [used])[0] == if nonces == [] then used else nonces[0];
  }

  method MineLpt(rounds: nat, cap: nat, gasPrice: nat,
                 hexProof: string -> Outcome<string>, world: nat -> Round,
                 cache: NonceCache)
    returns (r: Outcome<seq<string>>, ghost nonces: seq<nat>)
    requires forall a :: hexProof(a).Success? ==> IsHexProof(hexProof(a).value)
    modifies cache
    ensures |nonces| <= rounds
    ensures r.Success? ==> |r.value| == |nonces| == rounds
    ensures r.Success? ==> AllAcknowledged(world, r.value)
    ensures r.Failure? ==> |nonces| < rounds
                           && !RoundSucceeds(world(|nonces|), cap, gasPrice, hexProof, cache)
    ensures StrictlyIncreasing(nonces)
    ensures nonces != [] && old(cache.cached).Some? ==> nonces[0] >= old(cache.cached).value
    ensures nonces == [] ==> cache.cached == old(cache.cached)
    ensures nonces != [] ==> cache.cached == Some(nonces[|nonces| - 1] + 1)
  {
    var i := 0;
    var txnHashes: seq<string> := [];
    nonces := [];
    while i < rounds
      invariant i <= rounds
      invariant |txnHashes| == |nonces| == i
      invariant AllAcknowledged(world, txnHashes)
      invariant CacheFollows(nonces, old(cache.cached), cache.cached)
    {
      var hash;
      ghost var before, batch, used := cache.cached, [], 0;
      hash, batch, used := MineRound(world(i), cap, gasPrice, hexProof, cache);
      if hash.Failure? {
        assert !RoundSucceeds(world(i), cap, gasPrice, hexProof, cache);
        return Failure, nonces;
      }
      CacheFollowsStep(nonces, old(cache.cached), before, used, cache.cached);
      AcknowledgedAppend(world, txnHashes, hash.value);
      txnHashes := txnHashes + [hash.value];
      nonces := nonces + [used];
      i := i + 1;
    }
    r := Success(txnHashes);
  }
}
