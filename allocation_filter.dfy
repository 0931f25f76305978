/** getAddressesAndProofs: scans the candidate list, asks the verifier whether
    each examined address's allocation was already generated, and collects
    the not-yet-generated ones with their Merkle proofs, up to a batch cap.
    The loop index is advanced both inside the body and by the loop header,
    so after a string candidate the next one is skipped. */
module AllocationFilter {
  import opened Outcomes
  import opened AccountSource

  // ---------------------------------------------------------------------
  // Helpers that mirror the string operations of the loop body
  // ---------------------------------------------------------------------

  function ToLowerChar(c: char): char {
    if 'A' <= c <= 'Z' then (c as int + 32) as char else c
  }

  /** String.prototype.toLowerCase, on ASCII letters. */
  function ToLower(s: string): string {
    seq(|s|, i requires 0 <= i < |s| => ToLowerChar(s[i]))
  }

  /** String.prototype.substr(2): the proof without its "0x". */
  function StripPrefix(p: string): string {
    if |p| >= 2 then p[2..] else []
  }

  // ---------------------------------------------------------------------
  // Reference definition of the batch
  // ---------------------------------------------------------------------

  /** How far the index moves after examining a candidate below the cap:
      two for a string (the `i++` inside the body plus the loop's own),
      one when toLowerCase throws before the inner increment. */
  function Stride(c: Candidate): nat {
    if c.Text? then 2 else 1
  }

  /** The positions examined from index i on while the batch is not full. */
  function Visits(accounts: seq<Candidate>, i: nat): (v: seq<nat>)
    ensures forall k :: 0 <= k < |v| ==> i <= v[k] < |accounts|
    ensures forall k :: 0 <= k < |v| - 1 ==> v[k] < v[k + 1]
    decreases |accounts| - i
  {
    if i >= |accounts| then [] else [i] + Visits(accounts, i + Stride(accounts[i]))
  }

  datatype ClaimEntry = ClaimEntry(address: string, proof: string)

  /** What examining one candidate adds to the batch: nothing when
      toLowerCase, the verifier or the proof lookup throws, or when the
      allocation was already generated. */
  function Admit(c: Candidate, isGenerated: string -> Outcome<bool>,
                 hexProof: string -> Outcome<string>): Option<ClaimEntry>
  {
    match c
    case NotText => None
    case Text(s) =>
      var a := ToLower(s);
      if isGenerated(a) != Success(false) then None
      else if hexProof(a).Failure? then None
      else Some(ClaimEntry(a, StripPrefix(hexProof(a).value)))
  }

  /** The entries contributed by the given positions, in order. */
  function Eligible(accounts: seq<Candidate>, positions: seq<nat>,
                    isGenerated: string -> Outcome<bool>,
                    hexProof: string -> Outcome<string>): seq<ClaimEntry>
    requires forall k :: 0 <= k < |positions| ==> positions[k] < |accounts|
  {
    if positions == [] then []
    else
      var rest := Eligible(accounts, positions[1..], isGenerated, hexProof);
      match Admit(accounts[positions[0]], isGenerated, hexProof)
      case None => rest
      case Some(e) => [e] + rest
  }

  function Take<T>(s: seq<T>, n: nat): seq<T> {
    if |s| <= n then s else s[..n]
  }

  /** The batch one round builds: the first `cap` entries that the visited
      positions contribute. */
  function ClaimBatch(accounts: seq<Candidate>, cap: nat,
                      isGenerated: string -> Outcome<bool>,
                      hexProof: string -> Outcome<string>): seq<ClaimEntry>
  {
    Take(Eligible(accounts, Visits(accounts, 0), isGenerated, hexProof), cap)
  }

  // ---------------------------------------------------------------------
  // The loop
  // ---------------------------------------------------------------------

  /** The address column of a batch. */
  function Addresses(batch: seq<ClaimEntry>): seq<string> {
    seq(|batch|, k requires 0 <= k < |batch| => batch[k].address)
  }

  /** The proof column of a batch. */
  function Proofs(batch: seq<ClaimEntry>): seq<string> {
    seq(|batch|, k requires 0 <= k < |batch| => batch[k].proof)
  }

  /** The filtering loop of getAddressesAndProofs over an already fetched
      account list; exceptions of one candidate are caught and the scan goes on. */
  method GetAddressesAndProofs(accounts: seq<Candidate>, cap: nat,
                               isGenerated: string -> Outcome<bool>,
                               hexProof: string -> Outcome<string>)
    returns (toclaim: seq<string>, hexproofs: seq<string>)
    ensures |toclaim| == |hexproofs| <= cap
    ensures toclaim == Addresses(ClaimBatch(accounts, cap, isGenerated, hexProof))
    ensures hexproofs == Proofs(ClaimBatch(accounts, cap, isGenerated, hexProof))
  {
    ghost var taken: seq<ClaimEntry> := [];
    toclaim, hexproofs := [], [];
    var i := 0;
    while i < |accounts|
      invariant i <= |accounts| + 1
      invariant toclaim == Addresses(taken) && hexproofs == Proofs(taken)
      invariant ScanAgrees(accounts, cap, i, taken, isGenerated, hexProof)
      decreases |accounts| + 1 - i
    {
      ghost var i0, before := i, taken;
      ghost var admitted := Admit(accounts[i], isGenerated, hexProof);
      if |toclaim| < cap {
        match accounts[i] {
        case NotText =>
          // toLowerCase throws: the exception is caught and logged
          assert admitted == None;
        case Text(s) =>
          var hexAddr := ToLower(s);
          i := i + 1;
          var generated := isGenerated(hexAddr);
          if generated.Failure? {
            // the verifier threw: caught and logged
            assert admitted == None;
          } else if generated.value {
            // already generated
            assert admitted == None;
          } else {
            var proof := hexProof(hexAddr);
            if proof.Success? {
              ghost var e := ClaimEntry(hexAddr, StripPrefix(proof.value));
              assert admitted == Some(e);
              toclaim := toclaim + [hexAddr];
              hexproofs := hexproofs + [StripPrefix(proof.value)];
              taken := taken + [e];
              assert toclaim == Addresses(taken) && hexproofs == Proofs(taken);
            } else {
              assert admitted == None;
            }
          }
        }
        assert taken == before + AsSeq(admitted);
        assert i + 1 == i0 + Stride(accounts[i0]);
      }
      ScanAdvances(accounts, cap, i0, before, taken, isGenerated, hexProof);
      i := i + 1;
    }
    ScanEnds(accounts, cap, i, taken, isGenerated, hexProof);
  }

  /** The loop invariant: the entries taken so far, followed by what the
      positions still to be visited contribute, cut at the cap, are the batch. */
  ghost predicate ScanAgrees(accounts: seq<Candidate>, cap: nat, i: nat, taken: seq<ClaimEntry>,
                             isGenerated: string -> Outcome<bool>,
                             hexProof: string -> Outcome<string>)
  {
    |taken| <= cap &&
    Take(taken + Eligible(accounts, Visits(accounts, i), isGenerated, hexProof), cap)
      == ClaimBatch(accounts, cap, isGenerated, hexProof)
  }

  /** One iteration keeps the invariant: below the cap the candidate's entry
      (if any) is taken and the index moves by its stride; at the cap nothing
      is taken and the index moves by one. */
  lemma ScanAdvances(accounts: seq<Candidate>, cap: nat, i: nat, before: seq<ClaimEntry>, after: seq<ClaimEntry>,
                     isGenerated: string -> Outcome<bool>,
                     hexProof: string -> Outcome<string>)
    requires i < |accounts| && ScanAgrees(accounts, cap, i, before, isGenerated, hexProof)
    requires |before| < cap ==> after == before + AsSeq(Admit(accounts[i], isGenerated, hexProof))
    requires |before| >= cap ==> after == before
    ensures ScanAgrees(accounts, cap, if |before| < cap then i + Stride(accounts[i]) else i + 1,
                       after, isGenerated, hexProof)
  {
    if |before| < cap {
      ScanStep(accounts, i, before, after, isGenerated, hexProof);
    } else {
      TakeFull(before, Eligible(accounts, Visits(accounts, i), isGenerated, hexProof),
               Eligible(accounts, Visits(accounts, i + 1), isGenerated, hexProof), cap);
    }
  }

  /** When the index has run past the list, the taken entries are the batch. */
  lemma ScanEnds(accounts: seq<Candidate>, cap: nat, i: nat, taken: seq<ClaimEntry>,
                 isGenerated: string -> Outcome<bool>,
                 hexProof: string -> Outcome<string>)
    requires i >= |accounts| && ScanAgrees(accounts, cap, i, taken, isGenerated, hexProof)
    ensures taken == ClaimBatch(accounts, cap, isGenerated, hexProof)
  {
    assert taken + Eligible(accounts, Visits(accounts, i), isGenerated, hexProof) == taken;
  }

  function AsSeq<T>(o: Option<T>): seq<T> {
    if o.Some? then [o.value] else []
  }

  lemma ScanStep(accounts: seq<Candidate>, i: nat, before: seq<ClaimEntry>, after: seq<ClaimEntry>,
                 isGenerated: string -> Outcome<bool>,
                 hexProof: string -> Outcome<string>)
    requires i < |accounts|
    requires after == before + AsSeq(Admit(accounts[i], isGenerated, hexProof))
    ensures after + Eligible(accounts, Visits(accounts, i + Stride(accounts[i])), isGenerated, hexProof)
         == before + Eligible(accounts, Visits(accounts, i), isGenerated, hexProof)
  {
    EligibleStep(accounts, i, isGenerated, hexProof);
    AppendShift(before, AsSeq(Admit(accounts[i], isGenerated, hexProof)),
                Eligible(accounts, Visits(accounts, i + Stride(accounts[i])), isGenerated, hexProof),
                after, Eligible(accounts, Visits(accounts, i), isGenerated, hexProof));
  }

  lemma AppendShift<T>(before: seq<T>, x: seq<T>, y: seq<T>, after: seq<T>, whole: seq<T>)
    requires after == before + x && whole == x + y
    ensures after + y == before + whole
  {
  }

  /** Examining position i contributes its admitted entry, then the scan
      resumes Stride positions further on. */
  lemma EligibleStep(accounts: seq<Candidate>, i: nat,
                     isGenerated: string -> Outcome<bool>,
                     hexProof: string -> Outcome<string>)
    requires i < |accounts|
    ensures Eligible(accounts, Visits(accounts, i), isGenerated, hexProof)
         == AsSeq(Admit(accounts[i], isGenerated, hexProof))
            + Eligible(accounts, Visits(accounts, i + Stride(accounts[i])), isGenerated, hexProof)
  {
    var v := Visits(accounts, i);
    assert v[1..] == Visits(accounts, i + Stride(accounts[i]));
  }

  /** Once `cap` entries are taken, whatever follows is cut off. */
  lemma TakeFull<T>(taken: seq<T>, a: seq<T>, b: seq<T>, cap: nat)
    requires |taken| == cap
    ensures Take(taken + a, cap) == Take(taken + b, cap) == taken
  {
    assert (taken + a)[..cap] == taken;
    assert (taken + b)[..cap] == taken;
  }

  // ---------------------------------------------------------------------
  // Properties of the batch
  // ---------------------------------------------------------------------

  lemma {:induction false} EligibleSound(accounts: seq<Candidate>, positions: seq<nat>,
                                         isGenerated: string -> Outcome<bool>,
                                         hexProof: string -> Outcome<string>, e: ClaimEntry)
    requires forall k :: 0 <= k < |positions| ==> positions[k] < |accounts|
    requires e in Eligible(accounts, positions, isGenerated, hexProof)
    ensures exists k :: 0 <= k < |positions| && Admit(accounts[positions[k]], isGenerated, hexProof) == Some(e)
  {
    var head := Admit(accounts[positions[0]], isGenerated, hexProof);
    if head != Some(e) {
      EligibleSound(accounts, positions[1..], isGenerated, hexProof, e);
      var k :| 0 <= k < |positions| - 1 && Admit(accounts[positions[1..][k]], isGenerated, hexProof) == Some(e);
      assert positions[1..][k] == positions[k + 1];
    }
  }

  lemma {:induction false} EligibleComplete(accounts: seq<Candidate>, positions: seq<nat>,
                                            isGenerated: string -> Outcome<bool>,
                                            hexProof: string -> Outcome<string>, k: nat)
    requires forall j :: 0 <= j < |positions| ==> positions[j] < |accounts|
    requires k < |positions| && Admit(accounts[positions[k]], isGenerated, hexProof).Some?
    ensures Admit(accounts[positions[k]], isGenerated, hexProof).value
            in Eligible(accounts, positions, isGenerated, hexProof)
  {
    if k > 0 {
      assert positions[1..][k - 1] == positions[k];
      EligibleComplete(accounts, positions[1..], isGenerated, hexProof, k - 1);
    }
  }

  /** Every batch entry is a lower-cased candidate from an examined position
      whose verifier answer was "not generated", paired with that address's
      proof without its first two characters. In particular an address whose
      verifier or proof lookup threw is never in the batch. */
  lemma BatchEntriesQualify(accounts: seq<Candidate>, cap: nat,
                            isGenerated: string -> Outcome<bool>,
                            hexProof: string -> Outcome<string>, k: nat)
    requires k < |ClaimBatch(accounts, cap, isGenerated, hexProof)|
    ensures var e := ClaimBatch(accounts, cap, isGenerated, hexProof)[k];
      && isGenerated(e.address) == Success(false)
      && hexProof(e.address).Success?
      && e.proof == StripPrefix(hexProof(e.address).value)
      && exists j :: j in Visits(accounts, 0) && accounts[j].Text?
                     && e.address == ToLower(accounts[j].s)
  {
    var all := Eligible(accounts, Visits(accounts, 0), isGenerated, hexProof);
    var e := ClaimBatch(accounts, cap, isGenerated, hexProof)[k];
    assert e == all[k];
    EligibleSound(accounts, Visits(accounts, 0), isGenerated, hexProof, e);
    var m :| 0 <= m < |Visits(accounts, 0)|
             && Admit(accounts[Visits(accounts, 0)[m]], isGenerated, hexProof) == Some(e);
    var j := Visits(accounts, 0)[m];
    assert j in Visits(accounts, 0);
  }

  /** An address whose verifier call threw, or whose allocation was already
      generated, or whose proof lookup threw, is not in the batch. */
  lemma FailedAddressExcluded(accounts: seq<Candidate>, cap: nat,
                              isGenerated: string -> Outcome<bool>,
                              hexProof: string -> Outcome<string>, a: string)
    requires isGenerated(a) != Success(false) || hexProof(a).Failure?
    ensures forall e :: e in ClaimBatch(accounts, cap, isGenerated, hexProof) ==> e.address != a
  {
    var batch := ClaimBatch(accounts, cap, isGenerated, hexProof);
    forall e | e in batch
      ensures e.address != a
    {
      var k :| 0 <= k < |batch| && batch[k] == e;
      BatchEntriesQualify(accounts, cap, isGenerated, hexProof, k);
    }
  }

  /** A batch that is not full holds every entry admitted at an examined
      position: one bad candidate never keeps a later good one out. */
  lemma UnfilledBatchIsComplete(accounts: seq<Candidate>, cap: nat,
                                isGenerated: string -> Outcome<bool>,
                                hexProof: string -> Outcome<string>, j: nat)
    requires |ClaimBatch(accounts, cap, isGenerated, hexProof)| < cap
    requires j in Visits(accounts, 0) && Admit(accounts[j], isGenerated, hexProof).Some?
    ensures Admit(accounts[j], isGenerated, hexProof).value
            in ClaimBatch(accounts, cap, isGenerated, hexProof)
  {
    var v := Visits(accounts, 0);
    var all := Eligible(accounts, v, isGenerated, hexProof);
    assert ClaimBatch(accounts, cap, isGenerated, hexProof) == all;
    var k :| 0 <= k < |v| && v[k] == j;
    EligibleComplete(accounts, v, isGenerated, hexProof, k);
  }

  /** With only string candidates, the scan examines positions 0, 2, 4, ...
      and nothing else. */
  lemma {:induction false} StringsVisitEveryOtherPosition(accounts: seq<Candidate>, i: nat)
    requires i <= |accounts|
    requires forall j :: 0 <= j < |accounts| ==> accounts[j].Text?
    ensures |Visits(accounts, i)| == (|accounts| - i + 1) / 2
    ensures forall k :: 0 <= k < |Visits(accounts, i)| ==> Visits(accounts, i)[k] == i + 2 * k
    decreases |accounts| - i
  {
    if i < |accounts| {
      if i + 2 <= |accounts| {
        StringsVisitEveryOtherPosition(accounts, i + 2);
      } else {
        assert Visits(accounts, i + 2) == [];
      }
    }
  }

  /** Candidates a1, a2, a3 with a1 already generated and the verifier
      throwing for a2: the batch is a3 alone with its proof. The scan never
      looks at a2, because after a1 the index moves on by two. */
  lemma ThreeCandidateRound()
    ensures ClaimBatch([Text("A1"), Text("A2"), Text("A3")], 10,
                       a => if a == "a1" then Success(true)
                            else if a == "a2" then Failure
                            else Success(false),
                       a => Success("0x" + a + "ff"))
         == [ClaimEntry("a3", "a3ff")]
  {
    var accounts := [Text("A1"), Text("A2"), Text("A3")];
    assert Visits(accounts, 0) == [0, 2] by {
      assert Visits(accounts, 4) == [];
      assert Visits(accounts, 2) == [2];
    }
    var isGenerated := a => if a == "a1" then Success(true)
                            else if a == "a2" then Failure
                            else Success(false);
    var hexProof := a => Success("0x" + a + "ff");
    assert ToLower("A1") == "a1";
    assert ToLower("A3") == "a3";
    assert "0x" + "a3" + "ff" == "0xa3ff";
    assert "a3" != "a1" && "a3" != "a2";
    assert StripPrefix("0xa3ff") == "a3ff";
    assert Admit(accounts[0], isGenerated, hexProof) == None;
    assert Admit(accounts[2], isGenerated, hexProof) == Some(ClaimEntry("a3", "a3ff"));
    assert Eligible(accounts, [0, 2], isGenerated, hexProof) == [ClaimEntry("a3", "a3ff")] by {
      assert [0, 2][1..] == [2];
      assert Eligible(accounts, [2], isGenerated, hexProof) == [ClaimEntry("a3", "a3ff")] by {
        assert [2][1..] == [];
      }
    }
  }

  /** Two eligible candidates and room for ten: only the first is batched,
      because the second position is stepped over. */
  lemma SecondCandidateSkipped()
    ensures ClaimBatch([Text("b1"), Text("b2")], 10,
                       a => Success(false), a => Success("0x" + a))
         == [ClaimEntry("b1", "b1")]
  {
    var accounts := [Text("b1"), Text("b2")];
    assert Visits(accounts, 0) == [0] by {
      assert Visits(accounts, 2) == [];
    }
    assert ToLower("b1") == "b1";
  }
}
