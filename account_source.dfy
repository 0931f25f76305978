/** fetchAccounts: asks the discovery endpoint for a list of candidate
    addresses, retrying on any failure. The request and the JSON parsing
    are one oracle per attempt. */
module AccountSource {
  import opened Outcomes

  /** One element of the parsed discovery response. The endpoint is meant to
      return address strings, but nothing checks that: an element that is not
      a string makes toLowerCase throw later on. */
  datatype Candidate = Text(s: string) | NotText

  /** Retries after the first attempt (the `attempts < 5` guard). */
  const MaxRetries: nat := 5

  /** Fetch attempts in all: the first one plus every retry. */
  const MaxAttempts: nat := MaxRetries + 1

  /** The first successful outcome among attempts k .. MaxAttempts - 1. */
  function FirstSuccess<T>(tryFetch: nat -> Outcome<T>, k: nat): Outcome<T>
    decreases MaxAttempts - k
  {
    if k >= MaxAttempts then Failure
    else if tryFetch(k).Success? then tryFetch(k)
    else FirstSuccess(tryFetch, k + 1)
  }

  /** tryFetch(k) is the outcome of the k-th request (counting from 0): the
      parsed account list, or a network or parse failure. The result is the
      first successful list; when the last allowed attempt also fails, the
      misspelled exit call throws and the whole fetch fails. */
  method FetchAccounts(tryFetch: nat -> Outcome<seq<Candidate>>)
    returns (r: Outcome<seq<Candidate>>, attemptsMade: nat)
    ensures 1 <= attemptsMade <= MaxAttempts
    ensures forall k :: 0 <= k < attemptsMade - 1 ==> tryFetch(k).Failure?
    ensures r.Success? ==> r == tryFetch(attemptsMade - 1)
    ensures r.Failure? ==> attemptsMade == MaxAttempts
    ensures r.Failure? <==> forall k :: 0 <= k < MaxAttempts ==> tryFetch(k).Failure?
    ensures r == FirstSuccess(tryFetch, 0)
  {
    var attempts := 0;
    var outcome := tryFetch(attempts);
    while outcome.Failure? && attempts < MaxRetries
      invariant attempts <= MaxRetries
      invariant outcome == tryFetch(attempts)
      invariant forall k :: 0 <= k < attempts ==> tryFetch(k).Failure?
      invariant FirstSuccess(tryFetch, 0) == FirstSuccess(tryFetch, attempts)
    {
      attempts := attempts + 1;
      outcome := tryFetch(attempts);
    }
    r := outcome;
    attemptsMade := attempts + 1;
  }
}
