/** The verifier's code (contracts/secp256k1-verification and its ed25519 twin). */
module VerificationContract {
  import opened Ints
  import opened History
  import opened Sums
  import opened Keys
  import opened SignerLog
  import opened Registry
  import opened Quorum
  import opened SecurityContract
  import V = Verification

  class Verifier {
    const security: Security

    constructor (security: Security)
      ensures this.security == security
    {
      this.security := security;
    }

    /** The weight `check_one` goes by: the true current one without a block; with one, the
        true weight at the block as far back as the signer's timeline reaches. */
    ghost function WeightFor(signer: Key, referenceBlock: Option<u32>): u64
      reads security
    {
      match referenceBlock
      case None => WeightNow(security.log, signer)
      case Some(block) =>
        if Covers(Hist(security.State(), signer), block) then WeightAt(security.log, signer, block) else 0
    }

    /** A bad or trapping signature decides, with or without a block; a good one gives the
        signer's weight, or is refused when that is 0. */
    method CheckOne(ghost now: nat, scheme: V.Scheme, envelope: V.Bytes, signature: V.Signature, signer: Key,
                    referenceBlock: Option<u32>) returns (r: V.CheckResult)
      requires security.Valid(now)
      ensures r == V.CheckOne(scheme, security.State(), envelope, signature, signer, referenceBlock)
      ensures r == V.CheckFailed(V.InvalidSignature) <==> scheme(envelope, signature, signer) == V.Bad
      ensures r == V.CheckTrapped <==> scheme(envelope, signature, signer) == V.Trap
      ensures r == V.CheckFailed(V.SignerNotRegistered)
         <==> scheme(envelope, signature, signer) == V.Good && WeightFor(signer, referenceBlock) == 0
      ensures forall w ::
        (r == V.Weight(w)
         <==> scheme(envelope, signature, signer) == V.Good && w == WeightFor(signer, referenceBlock) > 0)
      ensures referenceBlock.Some? &&
              (now <= referenceBlock.value + 201 || Covers(security.totalHist, referenceBlock.value)) ==>
        WeightFor(signer, referenceBlock) == WeightAt(security.log, signer, referenceBlock.value)
    {
      WeightForIsLookedUp(now, signer, referenceBlock);
      match scheme(envelope, signature, signer) {
        case Bad => return V.CheckFailed(V.InvalidSignature);
        case Trap => return V.CheckTrapped;
        case Good =>
      }
      var weight: u64;
      match referenceBlock {
        case Some(block) => weight := security.GetSignerWeightAt(now, signer, block);
        case None =>
          var w := security.GetSignerWeight(signer);
          weight := if w.Some? then w.value else 0;
      }
      if weight == 0 {
        return V.CheckFailed(V.SignerNotRegistered);
      }
      return V.Weight(weight);
    }

    lemma WeightForIsLookedUp(now: nat, signer: Key, referenceBlock: Option<u32>)
      requires security.Valid(now)
      ensures referenceBlock.None? ==>
        WeightFor(signer, referenceBlock) == SignerWeight(security.State(), signer)
      ensures referenceBlock.Some? ==>
        && WeightFor(signer, referenceBlock) == SignerWeightAt(security.State(), signer, referenceBlock.value)
        && (now <= referenceBlock.value + 201 || Covers(security.totalHist, referenceBlock.value) ==>
             WeightFor(signer, referenceBlock) == WeightAt(security.log, signer, referenceBlock.value))
    {
      var reg := security.State();
      CurrentIsTrue(reg, security.log, now, signer);
      if block :| referenceBlock == Some(block) {
        LookupIsTrueOrZero(reg, security.log, now, signer, block);
        if now <= block + 201 {
          WindowIsTrue(reg, security.log, now, signer, block);
        } else if Covers(security.totalHist, block) {
          CoveredIsTrue(reg, security.log, now, signer, block);
        }
      }
    }

    /** The loop over the pairs, once the lists and the requirement have been checked. */
    method Tally(scheme: V.Scheme, s: V.Submission, weights: seq<u64>, required: u64) returns (v: V.Verdict)
      requires |s.signatures| == |s.signers| == |weights| > 0 && required > 0
      ensures v == V.Judge(scheme, s, weights, required)
      ensures v == V.Accepted <==> V.Quorum(scheme, s, weights, required) && SeqSum(weights) <= U64_MAX
    {
      V.AcceptedIffQuorum(scheme, s, weights, required);
      var totalWeight: u64 := 0;
      var prevPubkey: Option<Key> := None;
      var i := 0;
      while i < |s.signatures|
        invariant i <= |s.signatures|
        invariant prevPubkey == if i == 0 then None else Some(s.signers[i - 1])
        invariant V.Scan(scheme, s, weights, required, i, totalWeight) == V.Judge(scheme, s, weights, required)
      {
        var sig, pubkey := s.signatures[i], s.signers[i];
        if prevPubkey.Some? && !Less(prevPubkey.value, pubkey) {
          return V.Rejected(V.SignersNotOrdered);
        }
        prevPubkey := Some(pubkey);
        match scheme(s.envelope, sig, pubkey) {
          case Bad => return V.Rejected(V.InvalidSignature);
          case Trap => return V.Trapped;
          case Good =>
        }
        var weight := weights[i];
        if weight == 0 {
          return V.Rejected(V.SignerNotRegistered);
        }
        if U64_MAX < totalWeight + weight {
          return V.Trapped;
        }
        totalWeight := totalWeight + weight;
        i := i + 1;
      }
      if totalWeight < required {
        return V.Rejected(V.InsufficientWeight);
      }
      return V.Accepted;
    }

    /** Its verdict, and what the verdict means against the true history. */
    method Verify(ghost now: nat, scheme: V.Scheme, s: V.Submission) returns (v: V.Verdict)
      requires security.Valid(now)
      ensures v == V.Verify(scheme, security.State(), s)
      ensures v == V.Accepted <==>
        Covers(security.totalHist, s.referenceBlock) && Backed(scheme, security.log, security.threshold, s)
      ensures now <= s.referenceBlock + 201 ==> v == TrueVerdict(scheme, security.log, security.threshold, s)
    {
      VerdictMeaning(now, scheme, s);
      if |s.signatures| == 0 {
        return V.Rejected(V.EmptySignatures);
      }
      if |s.signatures| != |s.signers| {
        return V.Rejected(V.LengthMismatch);
      }
      var weights := security.GetSignerWeightsAt(now, s.signers, s.referenceBlock);
      var required := security.RequiredWeightAt(now, s.referenceBlock);
      if required == 0 {
        return V.Rejected(V.ZeroRequiredWeight);
      }
      v := Tally(scheme, s, weights, required);
    }

    lemma VerdictMeaning(now: nat, scheme: V.Scheme, s: V.Submission)
      requires security.Valid(now)
      ensures var v, log, th := V.Verify(scheme, security.State(), s), security.log, security.threshold;
        && (v == V.Accepted <==> Covers(security.totalHist, s.referenceBlock) && Backed(scheme, log, th, s))
        && (now <= s.referenceBlock + 201 ==> v == TrueVerdict(scheme, log, th, s))
    {
      var reg := security.State();
      if now <= s.referenceBlock + 201 {
        WindowVerdictIsTrue(scheme, reg, security.log, now, s);
      }
      AcceptedExactly(scheme, reg, security.log, now, s);
    }
  }
}
