# lpt-miner batching core in Dafny

This project models the batching core of `src/mine-lpt.js`, a script that claims
LPT token allocations from the Merkle Mine distribution contract. Each round it
fetches candidate addresses, keeps those whose allocation has not been
generated yet together with their Merkle proofs, packs the proofs into one hex
payload and submits a single `multiGenerate` transaction. The nonce of that
transaction is reconciled with a cached value. Everything the script does
through Web3, Redis, HTTP and the key manager is a parameter: a reply that is
either a value or a thrown exception (`Outcomes.Outcome`).

Modules, one per part of the core:

- `ProofCodec` (`proof_codec.dfy`): `encodeProofSize` and `extendedBufArrToHex`.
  It also has a decoder, used only to prove that the payload format loses
  nothing. The decoder and encoder are inverse bijections between lists of
  even-length proofs whose byte count fits in 64 hex digits and the strings
  the decoder accepts.
- `AccountSource` (`account_source.dfy`): the retry counter of `fetchAccounts`.
- `AllocationFilter` (`allocation_filter.dfy`): the loop of
  `getAddressesAndProofs`. It is proved against a reference definition,
  `ClaimBatch`: the first `cap` entries admitted at the positions the scan
  visits. The lemmas about `ClaimBatch` state what the batch contains.
- `NonceCoordination` (`nonce_cache.dfy`): the cached nonce, as a class with one
  `Option<nat>` field, and the max rule that reconciles it with the ledger.
- `BatchSubmitter` (`batch_submitter.dfy`): `submitProof`, covering the
  transaction record, the cache update on acknowledgement, and the cache left
  untouched on every failure.
- `MiningLoop` (`mining_loop.dfy`): `mineLpt`. It proves that a successful run
  returns one hash per round, that a run fails only at a round that could not
  succeed from the cache it found, and that the nonces used strictly increase
  from round to round.

Behaviour of the code that the model keeps as written:

- The filter loop increments its index inside the body (line 94) as well as in
  the loop header. After a string candidate the next one is never examined, so
  with string candidates only the positions 0, 2, 4, ... are looked at.
  `StringsVisitEveryOtherPosition` and `SecondCandidateSkipped` state this.
- `fetchAccounts` makes up to six attempts: the first one and five retries. The
  log message on giving up speaks of five. After the last failure it calls the
  misspelled `proess.exit`, which throws a ReferenceError, so the fetch fails.
- The length prefix is the proof's byte count (hex length / 2), not the number
  of hashes.
- No check stops an empty batch from being submitted. Such a transaction has a
  gas limit of 0.

## Model

| member | source | states |
|---|---|---|
| `ProofCodec.ToHex` | src/mine-lpt.js:170 | `toString(16)` yields a lower-case hex numeral of at least one digit with no leading zero, whose value parses back to the number |
| `ProofCodec.LengthPrefix` | src/mine-lpt.js:167-179 | the prefix is a hex numeral whose value is the byte count and which is at least 64 characters long; it is exactly 64 characters when the count fits, and a longer numeral is `toString(16)` itself, unpadded |
| `ProofCodec.EncodeProofSize` | src/mine-lpt.js:167-179 | the padding loop produces exactly `LengthPrefix(\|proof\| / 2)` |
| `ProofCodec.ToHexFits` | src/mine-lpt.js:170-176 | the numeral of n has at most k digits exactly when n < 16^k, so the prefix is 64 digits for every count below 2^256 |
| `ProofCodec.PaddedNumeralIsCanonical` | src/mine-lpt.js:170-176 | every zero-padded numeral of a given width is the padded `toString(16)` of its value: each value has one spelling |
| `ProofCodec.ExtendedBufArrToHex` | src/mine-lpt.js:181-190 | the payload begins with "0x", and an empty proof list gives exactly "0x" |
| `ProofCodec.PayloadLength` | src/mine-lpt.js:181-190 | the payload is 2 + the sum of (64 + \|p\|) characters over the proofs |
| `ProofCodec.EntriesAppend` | src/mine-lpt.js:184-188 | the joined entries of a + b are those of a followed by those of b, so input order is kept |
| `ProofCodec.DecodeEncode` | src/mine-lpt.js:181-190 | reading 64 hex digits as L and then 2L characters, repeatedly, recovers the original proof list from the payload |
| `ProofCodec.EncodingInjective` | src/mine-lpt.js:181-190 | two encodable proof lists with the same payload are equal |
| `ProofCodec.EncodeDecode` | src/mine-lpt.js:181-190 | every string the decoder accepts is the payload of the list it returns, and that list is encodable |
| `AccountSource.FetchAccounts` | src/mine-lpt.js:52-82 | returns the first successful attempt's list after 1 to 6 attempts, all earlier ones failed (the result is `FirstSuccess` of the attempts); fails exactly when all 6 attempts fail, and then after 6 attempts |
| `AllocationFilter.Visits` | src/mine-lpt.js:90-94 | the positions the scan examines are in range and strictly increasing |
| `AllocationFilter.GetAddressesAndProofs` | src/mine-lpt.js:84-117 | `toclaim` and `hexproofs` have equal length, at most the cap, and are exactly the addresses and the proofs of the reference batch `ClaimBatch`, index by index |
| `AllocationFilter.BatchEntriesQualify` | src/mine-lpt.js:92-106 | each batched address is the lower-cased form of a string candidate at an examined position; the verifier said "not generated" for it; its proof entry is its proof without the first two characters |
| `AllocationFilter.FailedAddressExcluded` | src/mine-lpt.js:98-111 | an address whose verifier call threw, whose allocation was already generated, or whose proof lookup threw is not in the batch |
| `AllocationFilter.UnfilledBatchIsComplete` | src/mine-lpt.js:90-112 | when the batch is below the cap, every entry admitted at an examined position is in it, whatever failed at other positions |
| `AllocationFilter.StringsVisitEveryOtherPosition` | src/mine-lpt.js:90-94 | with only string candidates the scan examines exactly positions i, i+2, i+4, ... |
| `AllocationFilter.ThreeCandidateRound` | src/mine-lpt.js:90-107 | for candidates a1 (already generated), a2 (verifier throws) and a3 (eligible) with cap 10, the batch is a3 with its proof |
| `AllocationFilter.SecondCandidateSkipped` | src/mine-lpt.js:90-94 | two eligible candidates and cap 10 give a batch holding only the first |
| `NonceCoordination.NonceCache.constructor` | src/mine-lpt.js:131 | the cache starts from the stored value, `None` when that value is absent or not a number |
| `NonceCoordination.NonceCache.NextNonce` | src/mine-lpt.js:130-134 | the nonce used is at least the ledger count and at least the cached value, and it is one of the two: their maximum |
| `NonceCoordination.NonceCache.Store` | src/mine-lpt.js:152 | writing the key replaces the cached value |
| `BatchSubmitter.PlanTx` | src/mine-lpt.js:127-147 | the record exists exactly when the ABI encoding and both ledger reads succeed; its nonce is `NextNonce` of the ledger count, the maximum of that count and the cached value; gasLimit is 170000 per address and value is 0 |
| `BatchSubmitter.SubmitProof` | src/mine-lpt.js:119-161 | succeeds with the acknowledged hash exactly when every call succeeds, and then the cache holds the used nonce + 1; on any failure the cache is unchanged |
| `MiningLoop.BatchProofsEven` | src/mine-lpt.js:104-106 | proofs from a tree that returns "0x"-prefixed whole-byte hex keep an even length after `substr(2)` |
| `MiningLoop.MineRound` | src/mine-lpt.js:42-45 | the round's batch is `ClaimBatch` of the first successful fetch; it succeeds exactly when the fetch and every submission call succeed (`RoundSucceeds` from the cache the round started with), and then the hash is the broadcast acknowledgement of the signed `PlanTx` record for the batch's addresses and encoded proofs, whose nonce is the maximum of the ledger count and the previous cache; the cache then holds that nonce + 1; a failed round leaves the cache unchanged |
| `MiningLoop.MineLpt` | src/mine-lpt.js:39-49 | a successful run returns exactly one acknowledged hash per round, in round order; a failed run stopped before the last round, at the first round that could not succeed from the cache it found, which is still the cache at the end; the nonces used strictly increase, start at or above the initial cache, and the cache ends one above the last |

## Left out

- Web3 provider and contract objects, `encodeABI`, `getTransactionCount`, `net.getId`, `sendSignedTransaction`: replies in `BatchSubmitter.Chain`, because they are foreign network calls.
- The Redis connection: the cache is one `Option<nat>` field. A failing Redis `get` or `set` is not modelled.
- `TxKeyManager` signing, `MerkleMineGenerator` and `getHexProof` internals: external modules, represented only by their replies (`sign` in `BatchSubmitter.Chain`, the verifier and proof-lookup functions). A proof lookup is assumed to return "0x" and whole bytes of hex.
- `buildMerkleTree` (line 30) and `txKeyManager.unlock` (line 37): not modelled. `MiningLoop.MineLpt` starts at the first round, so a failure of either, which rejects `mineLpt` before any round, is not captured.
- The HTTP request and JSON parsing of the discovery endpoint: one reply per attempt. A response that parses to something other than an array is not modelled.
- Environment configuration and the string-to-number coercion of `NUMBER_OF_LOOPS` and `NUMBER_ADDRESS_PER_TXN`: both are `nat` parameters. The `merkleTree` and `gasPrice` defaults of `mineLpt` are not modelled either.
- Promise asynchrony: every call is a sequential step. When the broadcast never acknowledges a hash, the source's promise never settles. The model treats that as a failed submission that ends the run.
- Logging with `console.log`.
- `ProofCodec.EncodeProofSize`: requires an even-length proof, because JavaScript's floating-point `length / 2` on odd lengths gives a fractional numeral that is not modelled.
- `ProofCodec.ExtendedBufArrToHex`: requires even-length proofs for the same reason.
- `AllocationFilter.GetAddressesAndProofs`: `toLowerCase` is modelled on ASCII letters only. The verifier and proof replies are functions of the address, so a verifier that answers differently for a repeated address within one round is not modelled. A throwing `MerkleMineGenerator` is folded into a throwing verifier. The model takes the already fetched list, and `MiningLoop.MineRound` makes the fetch of line 85 before calling it. Lines 105-106 push the address before `proof.substr(2)` runs; the two arrays stay aligned only because `getHexProof` either returns a string or throws, which the proof-lookup type `string -> Outcome<string>` builds in.
- `MiningLoop.MineLpt`: each hash is tied to its round's ledger acknowledgement of some signed transaction, not to the particular record that round signed. That link is stated per round by `MiningLoop.MineRound`.
