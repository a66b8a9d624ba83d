/** The quorum check: the loop of `verify` and of `check_one`, as a function of the
    weights the registry returns, with the declarative meaning of every verdict. */
module Verification {
  import opened Ints
  import opened Sums
  import opened Keys
  import opened Registry
  import T = Threshold

  type Bytes = seq<byte>
  type Signature = seq<byte>

  /** What checking one signature can do. Cryptography is not modelled: a scheme is any
      function to these three outcomes. A bad secp256k1 signature is normally `Bad`; a
      bad non-zero ed25519 signature, or a failed key recovery, stops the call (`Trap`). */
  datatype SigCheck = Good | Bad | Trap

  type Scheme = (Bytes, Signature, Key) -> SigCheck

  datatype VerifyError =
    | InvalidSignature
    | SignerNotRegistered
    | InsufficientWeight
    | EmptySignatures
    | LengthMismatch
    | SignersNotOrdered
    | ZeroRequiredWeight

  datatype Verdict = Accepted | Rejected(error: VerifyError) | Trapped

  datatype Submission = Submission(
    envelope: Bytes,
    signatures: seq<Signature>,
    signers: seq<Key>,
    referenceBlock: u32)

  // ---------------------------------------------------------------- the loop

  /** What the loop decides from index `i` on, `sum` being the weight counted so far. */
  function Scan(scheme: Scheme, s: Submission, weights: seq<u64>, required: nat, i: nat, sum: nat): Verdict
    requires |s.signatures| == |s.signers| == |weights|
    requires i <= |weights|
    decreases |weights| - i
  {
    if i == |weights| then
      if sum < required then Rejected(InsufficientWeight) else Accepted
    else if i > 0 && !Less(s.signers[i - 1], s.signers[i]) then Rejected(SignersNotOrdered)
    else
      match scheme(s.envelope, s.signatures[i], s.signers[i])
      case Bad => Rejected(InvalidSignature)
      case Trap => Trapped
      case Good =>
        if weights[i] == 0 then Rejected(SignerNotRegistered)
        else if U64_MAX < sum + weights[i] then Trapped
        else Scan(scheme, s, weights, required, i + 1, sum + weights[i])
  }

  function Judge(scheme: Scheme, s: Submission, weights: seq<u64>, required: nat): Verdict
    requires |weights| == |s.signers|
  {
    if s.signatures == [] then Rejected(EmptySignatures)
    else if |s.signatures| != |s.signers| then Rejected(LengthMismatch)
    else if required == 0 then Rejected(ZeroRequiredWeight)
    else Scan(scheme, s, weights, required, 0, 0)
  }

  // ---------------------------------------------------------------- its meaning

  /** Entry `i` passes: in order after its predecessor, validly signed, registered. */
  ghost predicate Clean(scheme: Scheme, s: Submission, weights: seq<u64>, i: nat)
    requires i < |weights| == |s.signers| == |s.signatures|
  {
    && (i > 0 ==> Less(s.signers[i - 1], s.signers[i]))
    && scheme(s.envelope, s.signatures[i], s.signers[i]) == Good
    && weights[i] != 0
  }

  /** A quorum, with no mention of a loop. */
  ghost predicate Quorum(scheme: Scheme, s: Submission, weights: seq<u64>, required: nat)
    requires |weights| == |s.signers|
  {
    && |s.signers| == |s.signatures| > 0
    && required > 0
    && Sorted(s.signers)
    && (forall i :: 0 <= i < |weights| ==>
         scheme(s.envelope, s.signatures[i], s.signers[i]) == Good && weights[i] > 0)
    && required <= SeqSum(weights)
  }

  lemma {:induction false} ScanCleanPrefix(scheme: Scheme, s: Submission, weights: seq<u64>, required: nat, i: nat)
    requires |s.signatures| == |s.signers| == |weights| && i <= |weights|
    requires forall j :: 0 <= j < i ==> Clean(scheme, s, weights, j)
    requires SeqSum(weights[..i]) <= U64_MAX
    ensures Scan(scheme, s, weights, required, 0, 0)
         == Scan(scheme, s, weights, required, i, SeqSum(weights[..i]))
  {
    if i > 0 {
      assert weights[..i][..i - 1] == weights[..i - 1];
      ScanCleanPrefix(scheme, s, weights, required, i - 1);
      assert Clean(scheme, s, weights, i - 1);
    }
  }

  /** The first entry that is not clean decides the error, and which one it is. */
  lemma FirstFaultDecides(scheme: Scheme, s: Submission, weights: seq<u64>, required: nat, i: nat)
    requires required > 0
    requires i < |s.signatures| == |s.signers| == |weights|
    requires SeqSum(weights[..i]) <= U64_MAX
    requires forall j :: 0 <= j < i ==> Clean(scheme, s, weights, j)
    requires !Clean(scheme, s, weights, i)
    ensures Judge(scheme, s, weights, required) ==
      if i > 0 && !Less(s.signers[i - 1], s.signers[i]) then Rejected(SignersNotOrdered)
      else match scheme(s.envelope, s.signatures[i], s.signers[i])
           case Bad => Rejected(InvalidSignature)
           case Trap => Trapped
           case Good => Rejected(SignerNotRegistered)
  {
    ScanCleanPrefix(scheme, s, weights, required, i);
  }

  /** The loop never blames the requirement for being 0. */
  lemma {:induction false} ScanIsNotZeroRequired(scheme: Scheme, s: Submission, weights: seq<u64>, required: nat,
                                                 i: nat, sum: nat)
    requires |s.signatures| == |s.signers| == |weights| && i <= |weights|
    ensures Scan(scheme, s, weights, required, i, sum) != Rejected(ZeroRequiredWeight)
    decreases |weights| - i
  {
    if i < |weights| {
      ScanIsNotZeroRequired(scheme, s, weights, required, i + 1, sum + weights[i]);
    }
  }

  lemma {:induction false} ScanAccepts(scheme: Scheme, s: Submission, weights: seq<u64>, required: nat, i: nat)
    requires |s.signatures| == |s.signers| == |weights| && i <= |weights|
    requires SeqSum(weights[..i]) <= U64_MAX
    ensures Scan(scheme, s, weights, required, i, SeqSum(weights[..i])) == Accepted
       <==> (forall j :: i <= j < |weights| ==> Clean(scheme, s, weights, j))
            && required <= SeqSum(weights) <= U64_MAX
    decreases |weights| - i
  {
    if i == |weights| {
      assert weights[..i] == weights;
    } else {
      assert weights[..i + 1][..i] == weights[..i];
      assert SeqSum(weights[..i + 1]) == SeqSum(weights[..i]) + weights[i];
      SeqSumPrefix(weights, i + 1);
      if Clean(scheme, s, weights, i) && SeqSum(weights[..i + 1]) <= U64_MAX {
        ScanAccepts(scheme, s, weights, required, i + 1);
      }
    }
  }

  /** The verifier accepts exactly the quorums whose weight fits 64 bits. */
  lemma AcceptedIffQuorum(scheme: Scheme, s: Submission, weights: seq<u64>, required: nat)
    requires |weights| == |s.signers|
    ensures Judge(scheme, s, weights, required) == Accepted
       <==> Quorum(scheme, s, weights, required) && SeqSum(weights) <= U64_MAX
  {
    if |s.signatures| == |s.signers| {
      assert SeqSum(weights[..0]) == 0;
      ScanAccepts(scheme, s, weights, required, 0);
      if forall j :: 0 <= j < |weights| ==> Clean(scheme, s, weights, j) {
        forall i | 0 < i < |s.signers| ensures Less(s.signers[i - 1], s.signers[i]) {
          assert Clean(scheme, s, weights, i);
        }
        NeighboursSort(s.signers);
        forall i | 0 <= i < |weights|
          ensures scheme(s.envelope, s.signatures[i], s.signers[i]) == Good && weights[i] > 0 {
          assert Clean(scheme, s, weights, i);
        }
      }
    }
  }

  /** If some entry is not clean, one is the first. */
  lemma {:induction false} FirstUnclean(scheme: Scheme, s: Submission, weights: seq<u64>, j: nat) returns (i: nat)
    requires j < |weights| == |s.signers| == |s.signatures|
    requires !Clean(scheme, s, weights, j)
    ensures i <= j && !Clean(scheme, s, weights, i)
    ensures forall k :: 0 <= k < i ==> Clean(scheme, s, weights, k)
    decreases j
  {
    if k :| 0 <= k < j && !Clean(scheme, s, weights, k) {
      i := FirstUnclean(scheme, s, weights, k);
    } else {
      i := j;
    }
  }

  /** When each of the other rejections is given, for weights that fit 64 bits in all. */
  lemma OtherRejections(scheme: Scheme, s: Submission, weights: seq<u64>, required: nat)
    requires |weights| == |s.signers|
    requires SeqSum(weights) <= U64_MAX
    ensures var v := Judge(scheme, s, weights, required);
      var paired := |s.signatures| == |s.signers| > 0;
      && (v == Rejected(EmptySignatures) <==> s.signatures == [])
      && (v == Rejected(LengthMismatch) <==> 0 < |s.signatures| != |s.signers|)
      && (v == Rejected(ZeroRequiredWeight) <==> paired && required == 0)
      && (v == Rejected(InsufficientWeight)
          <==> paired && SeqSum(weights) < required && forall i :: 0 <= i < |weights| ==> Clean(scheme, s, weights, i))
  {
    if |s.signatures| == |s.signers| > 0 && required > 0 {
      if j :| 0 <= j < |weights| && !Clean(scheme, s, weights, j) {
        var i := FirstUnclean(scheme, s, weights, j);
        SeqSumPrefix(weights, i);
        FirstFaultDecides(scheme, s, weights, required, i);
      } else {
        assert weights[..|weights|] == weights;
        ScanCleanPrefix(scheme, s, weights, required, |weights|);
      }
    }
  }

  /** Entry `i` is reached with everything before it clean, is in order, and its
      signature check stops the call. */
  ghost predicate TrapsAt(scheme: Scheme, s: Submission, weights: seq<u64>, i: nat)
    requires i < |weights| == |s.signers| == |s.signatures|
  {
    && (forall j :: 0 <= j < i ==> Clean(scheme, s, weights, j))
    && (i > 0 ==> Less(s.signers[i - 1], s.signers[i]))
    && scheme(s.envelope, s.signatures[i], s.signers[i]) == Trap
  }

  /** No sorted initial part of the list outweighs 64 bits. */
  ghost predicate PrefixesFit(s: Submission, weights: seq<u64>)
    requires |weights| == |s.signers|
  {
    forall j :: 0 <= j <= |weights| && Sorted(s.signers[..j]) ==> SeqSum(weights[..j]) <= U64_MAX
  }

  lemma CleanIsSorted(scheme: Scheme, s: Submission, weights: seq<u64>, i: nat)
    requires |s.signatures| == |s.signers| == |weights| && i <= |weights|
    requires forall j :: 0 <= j < i ==> Clean(scheme, s, weights, j)
    ensures Sorted(s.signers[..i])
  {
    forall j | 0 < j < i ensures Less(s.signers[..i][j - 1], s.signers[..i][j]) {
      assert Clean(scheme, s, weights, j);
    }
    NeighboursSort(s.signers[..i]);
  }

  /** Every addition the loop makes fits 64 bits: entries reach the addition only clean. */
  ghost predicate AdditionsFit(scheme: Scheme, s: Submission, weights: seq<u64>)
    requires |weights| == |s.signers| == |s.signatures|
  {
    forall i | 0 <= i < |weights| :: Clean(scheme, s, weights, i) ==>
      (forall j | 0 <= j < i :: Clean(scheme, s, weights, j)) ==> SeqSum(weights[..i]) + weights[i] <= U64_MAX
  }

  lemma PrefixesFitAdditions(scheme: Scheme, s: Submission, weights: seq<u64>)
    requires |weights| == |s.signers| == |s.signatures|
    requires PrefixesFit(s, weights)
    ensures AdditionsFit(scheme, s, weights)
  {
    forall i | 0 <= i < |weights| && Clean(scheme, s, weights, i)
        && forall j | 0 <= j < i :: Clean(scheme, s, weights, j)
      ensures SeqSum(weights[..i]) + weights[i] <= U64_MAX
    {
      CleanIsSorted(scheme, s, weights, i + 1);
      assert weights[..i + 1][..i] == weights[..i];
    }
  }

  lemma {:induction false} ScanTraps(scheme: Scheme, s: Submission, weights: seq<u64>, required: nat, i: nat)
    requires |s.signatures| == |s.signers| == |weights| && i <= |weights|
    requires forall j :: 0 <= j < i ==> Clean(scheme, s, weights, j)
    requires PrefixesFit(s, weights)
    requires Scan(scheme, s, weights, required, i, SeqSum(weights[..i])) == Trapped
    ensures exists j :: 0 <= j < |weights| && TrapsAt(scheme, s, weights, j)
    decreases |weights| - i
  {
    if i < |weights| {
      assert weights[..i + 1][..i] == weights[..i];
      if scheme(s.envelope, s.signatures[i], s.signers[i]) == Trap {
        assert TrapsAt(scheme, s, weights, i);
      } else {
        assert Clean(scheme, s, weights, i);
        CleanIsSorted(scheme, s, weights, i + 1);
        ScanTraps(scheme, s, weights, required, i + 1);
      }
    }
  }

  /** If the weights fit, the overflow panic is dead code: the call stops exactly when
      the first entry that is not clean has a trapping signature. */
  lemma OnlySignaturesTrap(scheme: Scheme, s: Submission, weights: seq<u64>, required: nat)
    requires |weights| == |s.signers|
    requires PrefixesFit(s, weights)
    ensures Judge(scheme, s, weights, required) == Trapped <==>
      && |s.signatures| == |s.signers|
      && required > 0
      && exists j :: 0 <= j < |weights| && TrapsAt(scheme, s, weights, j)
  {
    if |s.signatures| == |s.signers| && required > 0 {
      if Judge(scheme, s, weights, required) == Trapped {
        assert SeqSum(weights[..0]) == 0;
        ScanTraps(scheme, s, weights, required, 0);
      }
      if j :| 0 <= j < |weights| && TrapsAt(scheme, s, weights, j) {
        CleanIsSorted(scheme, s, weights, j);
        FirstFaultDecides(scheme, s, weights, required, j);
      }
    }
  }

  // ---------------------------------------------------------------- against a registry

  /** The registry's 64-bit answer to `required_weight_at`. */
  function RequiredAt(reg: Registry, t: nat): u64 {
    T.RequiredWeight(TotalWeightAt(reg, t), reg.threshold)
  }

  function Verify(scheme: Scheme, reg: Registry, s: Submission): Verdict {
    Judge(scheme, s, SignerWeightsAt(reg, s.signers, s.referenceBlock), RequiredAt(reg, s.referenceBlock))
  }

  datatype CheckResult = Weight(weight: u64) | CheckFailed(error: VerifyError) | CheckTrapped

  /** `check_one`: one signature against the current weight or a historical one. */
  function CheckOne(scheme: Scheme, reg: Registry, envelope: Bytes, signature: Signature, signer: Key,
                    referenceBlock: Option<u32>): CheckResult
  {
    match scheme(envelope, signature, signer)
    case Bad => CheckFailed(InvalidSignature)
    case Trap => CheckTrapped
    case Good =>
      var w := match referenceBlock
        case Some(t) => SignerWeightAt(reg, signer, t)
        case None => SignerWeight(reg, signer);
      if w == 0 then CheckFailed(SignerNotRegistered) else Weight(w)
  }

  /** `verify` is `check_one` on every pair at the same block, plus order and quorum. */
  lemma VerifyIsCheckOnePerPair(scheme: Scheme, reg: Registry, s: Submission)
    ensures var ws := SignerWeightsAt(reg, s.signers, s.referenceBlock);
      Verify(scheme, reg, s) == Accepted <==>
        && |s.signers| == |s.signatures| > 0
        && Sorted(s.signers)
        && (forall i :: 0 <= i < |ws| ==>
             CheckOne(scheme, reg, s.envelope, s.signatures[i], s.signers[i], Some(s.referenceBlock))
             == Weight(ws[i]))
        && 0 < RequiredAt(reg, s.referenceBlock) <= SeqSum(ws) <= U64_MAX
  {
    AcceptedIffQuorum(scheme, s, SignerWeightsAt(reg, s.signers, s.referenceBlock),
                      RequiredAt(reg, s.referenceBlock));
  }

  /** A set of signers is accepted in one order only. */
  lemma OneAcceptedOrder(scheme: Scheme, reg: Registry, a: Submission, b: Submission)
    requires Verify(scheme, reg, a) == Accepted && Verify(scheme, reg, b) == Accepted
    requires Elements(a.signers) == Elements(b.signers)
    ensures a.signers == b.signers
  {
    VerifyIsCheckOnePerPair(scheme, reg, a);
    VerifyIsCheckOnePerPair(scheme, reg, b);
    SortedIsUnique(a.signers, b.signers);
  }
}
