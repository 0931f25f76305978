/** submitProof: builds one multiGenerate transaction for the batch, signs
    and broadcasts it, and advances the nonce cache once the broadcast
    acknowledges a transaction hash. The ledger client, the contract ABI
    encoder and the signer are replies given as parameters. */
module BatchSubmitter {
  import opened Outcomes
  import opened NonceCoordination

  /** Gas granted per claimed address. */
  const GasPerAddress: nat := 170000

  /** The bulk claim contract the transaction is sent to. */
  const BulkMinerAddress: string := "0x182EBF4C80B28efc45AD992ecBb9f730e31e8c7F"

  /** The Merkle mine contract passed as first argument of multiGenerate. */
  const MerkleMineId: string := "8e306b005773bee6ba6a6e8972bc79d766cc15c8"

  datatype TxRecord = TxRecord(nonce: nat, gasPrice: nat, gasLimit: nat, to: string,
                               value: nat, data: string, chainId: nat)

  /** What the collaborators answer during one submission; each call either
      returns or throws. */
  datatype Chain = Chain(
    encodeCall: (string, seq<string>, string) -> Outcome<string>, // multiGenerate(...).encodeABI()
    transactionCount: Outcome<nat>,                                // eth.getTransactionCount(caller)
    networkId: Outcome<nat>,                                       // eth.net.getId()
    sign: TxRecord -> Outcome<string>,                             // txKeyManager.signTransaction
    broadcast: string -> Outcome<string>                           // the transactionHash acknowledgement
  )

  /** The transaction record submitProof signs, or Failure when the ABI
      encoding or one of the two ledger reads throws. */
  function PlanTx(chain: Chain, cache: NonceCache, addressList: seq<string>,
                  merkleProofs: string, gasPrice: nat): (r: Outcome<TxRecord>)
    reads cache
    ensures r.Success? <==> chain.encodeCall(MerkleMineId, addressList, merkleProofs).Success?
                            && chain.transactionCount.Success? && chain.networkId.Success?
    ensures r.Success? ==>
      && r.value.nonce == cache.NextNonce(chain.transactionCount.value)
      && r.value.nonce >= chain.transactionCount.value
      && (cache.cached.Some? ==> r.value.nonce >= cache.cached.value)
      && r.value.gasLimit == GasPerAddress * |addressList|
      && r.value.value == 0
      && r.value.to == BulkMinerAddress
      && r.value.data == chain.encodeCall(MerkleMineId, addressList, merkleProofs).value
      && r.value.chainId == chain.networkId.value
      && r.value.gasPrice == gasPrice
  {
    var data := chain.encodeCall(MerkleMineId, addressList, merkleProofs);
    if data.Failure? || chain.transactionCount.Failure? || chain.networkId.Failure? then Failure
    else
      Success(TxRecord(cache.NextNonce(chain.transactionCount.value), gasPrice,
                       GasPerAddress * |addressList|, BulkMinerAddress, 0, data.value,
                       chain.networkId.value))
  }

  /** One submission. It succeeds with the acknowledged hash exactly when
      every collaborator call succeeds; only then is the cache set to the
      used nonce plus one. Any earlier failure leaves the cache untouched, so
      the next submission reconciles to the same nonce again. */
  method SubmitProof(chain: Chain, cache: NonceCache, addressList: seq<string>,
                     merkleProofs: string, gasPrice: nat)
    returns (r: Outcome<string>)
    modifies cache
    ensures var plan := old(PlanTx(chain, cache, addressList, merkleProofs, gasPrice));
      r.Success? <==> plan.Success? && chain.sign(plan.value).Success?
                      && chain.broadcast(chain.sign(plan.value).value).Success?
    ensures var plan := old(PlanTx(chain, cache, addressList, merkleProofs, gasPrice));
      r.Success? ==> r == chain.broadcast(chain.sign(plan.value).value)
                     && cache.cached == Some(plan.value.nonce + 1)
    ensures r.Failure? ==> cache.cached == old(cache.cached)
  {
    var data := chain.encodeCall(MerkleMineId, addressList, merkleProofs);
    if data.Failure? {
      return Failure;
    }
    var count := chain.transactionCount;
    if count.Failure? {
      return Failure;
    }
    // The reconciliation is written out as the source writes it; it computes
    // cache.NextNonce(count.value).
    var nonce := count.value;
    var nonceR := cache.cached;
    if nonceR.Some? && nonceR.value != 0 && nonceR.value > nonce {
      nonce := nonceR.value;
    }
    assert nonce == cache.NextNonce(count.value);
    var networkId := chain.networkId;
    if networkId.Failure? {
      return Failure;
    }
    var tx := TxRecord(nonce, gasPrice, GasPerAddress * |addressList|, BulkMinerAddress, 0,
                       data.value, networkId.value);
    assert PlanTx(chain, cache, addressList, merkleProofs, gasPrice) == Success(tx);
    var signedTx := chain.sign(tx);
    if signedTx.Failure? {
      return Failure;
    }
    var txHash := chain.broadcast(signedTx.value);
    if txHash.Failure? {
      return Failure;
    }
    nonce := nonce + 1;
    cache.Store(nonce);
    r := txHash;
  }
}
