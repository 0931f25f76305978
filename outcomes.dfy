/** Result-or-failure values for the calls the batching core makes to code
    it does not own (the discovery endpoint, the allocation verifier, the
    Merkle tree, the ledger client and the signer), and an optional value
    for the cached nonce. */
module Outcomes {

  /** A call that either returns a value or throws. */
  datatype Outcome<+T> = Success(value: T) | Failure

  datatype Option<+T> = None | Some(value: T)
}
