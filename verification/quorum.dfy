/** What an accepted submission proves about the true signer history: verification over
    pruned storage against verification over the full event log. */
module Quorum {
  import opened Ints
  import opened History
  import opened Sums
  import opened Keys
  import opened SignerLog
  import opened Registry
  import opened Verification
  import T = Threshold

  function TrueWeightsAt(log: Log, keys: seq<Key>, t: nat): (ws: seq<u64>)
    ensures |ws| == |keys|
    ensures forall i :: 0 <= i < |keys| ==> ws[i] == WeightAt(log, keys[i], t)
  {
    seq(|keys|, i requires 0 <= i < |keys| => WeightAt(log, keys[i], t))
  }

  ghost function TrueRequired(log: Log, th: T.Threshold, t: nat): nat
  {
    T.Floor(TotalAt(log, t), th)
  }

  /** The verdict an observer with the whole event log would reach. */
  ghost function TrueVerdict(scheme: Scheme, log: Log, th: T.Threshold, s: Submission): Verdict
  {
    Judge(scheme, s, TrueWeightsAt(log, s.signers, s.referenceBlock),
          TrueRequired(log, th, s.referenceBlock))
  }

  /** Distinct keys in ascending order, each validly signing and each truly holding
      weight at the reference block, together outweighing the true requirement. */
  ghost predicate Backed(scheme: Scheme, log: Log, th: T.Threshold, s: Submission) {
    var t := s.referenceBlock;
    && |s.signers| == |s.signatures| > 0
    && Sorted(s.signers) && Distinct(s.signers)
    && (forall i :: 0 <= i < |s.signers| ==>
         scheme(s.envelope, s.signatures[i], s.signers[i]) == Good && WeightAt(log, s.signers[i], t) > 0)
    && 1 <= TrueRequired(log, th, t) <= Sum(Elements(s.signers), WeightsAt(log, t))
  }

  // ---------------------------------------------------------------- soundness

  /** The true verdict accepts exactly the backed submissions. */
  lemma TrueVerdictIffBacked(scheme: Scheme, log: Log, th: T.Threshold, s: Submission)
    requires TotalAt(log, s.referenceBlock) <= U64_MAX
    ensures TrueVerdict(scheme, log, th, s) == Accepted <==> Backed(scheme, log, th, s)
  {
    var t := s.referenceBlock;
    var ws := TrueWeightsAt(log, s.signers, t);
    AcceptedIffQuorum(scheme, s, ws, TrueRequired(log, th, t));
    if Sorted(s.signers) {
      SortedIsDistinct(s.signers);
      SeqSumIsSum(s.signers, ws, WeightsAt(log, t));
      PartOfTotal(log, Elements(s.signers), t);
    }
  }

  lemma NonZeroIsTrue(reg: Registry, log: Log, now: nat, k: Key, t: nat)
    requires Mirrors(reg, log, now)
    ensures SignerWeightAt(reg, k, t) > 0 ==> SignerWeightAt(reg, k, t) == WeightAt(log, k, t)
    ensures TotalWeightAt(reg, t) > 0 ==> TotalWeightAt(reg, t) == TotalAt(log, t)
    ensures TotalAt(log, t) <= U64_MAX
  {
    LookupIsTrueOrZero(reg, log, now, k, t);
  }

  /** At any reference block, even one far older than the window, acceptance means the
      weights and the requirement used were the true ones. */
  lemma AcceptedUsedTheTruth(scheme: Scheme, reg: Registry, log: Log, now: nat, s: Submission)
    requires Mirrors(reg, log, now)
    requires Verify(scheme, reg, s) == Accepted
    ensures var t := s.referenceBlock;
      && SignerWeightsAt(reg, s.signers, t) == TrueWeightsAt(log, s.signers, t)
      && RequiredAt(reg, t) == TrueRequired(log, reg.threshold, t)
      && TotalAt(log, t) <= U64_MAX
  {
    var t := s.referenceBlock;
    var ws := SignerWeightsAt(reg, s.signers, t);
    assert RequiredAt(reg, t) > 0 && (forall i :: 0 <= i < |ws| ==> ws[i] > 0) by {
      AcceptedIffQuorum(scheme, s, ws, RequiredAt(reg, t));
    }
    forall i | 0 <= i < |s.signers| ensures ws[i] == WeightAt(log, s.signers[i], t) {
      NonZeroIsTrue(reg, log, now, s.signers[i], t);
    }
    T.RequiredWeightIsFloor(TotalWeightAt(reg, t), reg.threshold);
    NonZeroIsTrue(reg, log, now, [], t);
  }

  /** So acceptance at any reference block is backed by the true history. */
  lemma AcceptedIsBacked(scheme: Scheme, reg: Registry, log: Log, now: nat, s: Submission)
    requires Mirrors(reg, log, now)
    requires Verify(scheme, reg, s) == Accepted
    ensures Backed(scheme, log, reg.threshold, s)
  {
    AcceptedUsedTheTruth(scheme, reg, log, now, s);
    TrueVerdictIffBacked(scheme, log, reg.threshold, s);
  }

  /** Inside the window the verdict, errors and traps included, is the true one. */
  lemma WindowVerdictIsTrue(scheme: Scheme, reg: Registry, log: Log, now: nat, s: Submission)
    requires Mirrors(reg, log, now)
    requires now <= s.referenceBlock + HISTORY_CUTOFF + 1
    ensures Verify(scheme, reg, s) == TrueVerdict(scheme, log, reg.threshold, s)
  {
    var t := s.referenceBlock;
    forall i | 0 <= i < |s.signers|
      ensures SignerWeightAt(reg, s.signers[i], t) == WeightAt(log, s.signers[i], t)
    {
      WindowIsTrue(reg, log, now, s.signers[i], t);
    }
    assert SignerWeightsAt(reg, s.signers, t) == TrueWeightsAt(log, s.signers, t);
    WindowIsTrue(reg, log, now, [], t);
    T.RequiredWeightIsFloor(TotalWeightAt(reg, t), reg.threshold);
  }

  /** So inside the window the verifier accepts exactly the backed submissions. */
  lemma WindowAcceptsIffBacked(scheme: Scheme, reg: Registry, log: Log, now: nat, s: Submission)
    requires Mirrors(reg, log, now)
    requires now <= s.referenceBlock + HISTORY_CUTOFF + 1
    ensures Verify(scheme, reg, s) == Accepted <==> Backed(scheme, log, reg.threshold, s)
  {
    WindowVerdictIsTrue(scheme, reg, log, now, s);
    LookupIsTrueOrZero(reg, log, now, [], s.referenceBlock);
    TrueVerdictIffBacked(scheme, log, reg.threshold, s);
  }

  /** The weights the registry returns for sorted keys never sum past 64 bits, so every
      addition the verifier reaches fits and its overflow panic cannot fire, whatever the
      signers and the block: only a trapping signature stops the call. */
  lemma VerifyNeverOverflows(scheme: Scheme, reg: Registry, log: Log, now: nat, s: Submission)
    requires Mirrors(reg, log, now)
    ensures var ws := SignerWeightsAt(reg, s.signers, s.referenceBlock);
      Verify(scheme, reg, s) == Trapped <==>
        && |s.signatures| == |s.signers|
        && RequiredAt(reg, s.referenceBlock) > 0
        && exists j :: 0 <= j < |ws| && TrapsAt(scheme, s, ws, j)
    ensures PrefixesFit(s, SignerWeightsAt(reg, s.signers, s.referenceBlock))
    ensures |s.signatures| == |s.signers| ==>
      AdditionsFit(scheme, s, SignerWeightsAt(reg, s.signers, s.referenceBlock))
  {
    var t := s.referenceBlock;
    var ws := SignerWeightsAt(reg, s.signers, t);
    forall j | 0 <= j <= |ws| && Sorted(s.signers[..j]) ensures SeqSum(ws[..j]) <= U64_MAX {
      PrefixFits(reg, log, now, s.signers[..j], t);
      assert ws[..j] == SignerWeightsAt(reg, s.signers[..j], t);
    }
    OnlySignaturesTrap(scheme, s, ws, RequiredAt(reg, t));
    if |s.signatures| == |s.signers| {
      PrefixesFitAdditions(scheme, s, ws);
    }
  }

  lemma PrefixFits(reg: Registry, log: Log, now: nat, keys: seq<Key>, t: nat)
    requires Mirrors(reg, log, now) && Sorted(keys)
    ensures SeqSum(SignerWeightsAt(reg, keys, t)) <= U64_MAX
  {
    SortedIsDistinct(keys);
    SeqSumIsSum(keys, SignerWeightsAt(reg, keys, t), LookupsAt(reg, t));
    forall k ensures LookupsAt(reg, t)(k) <= WeightsAt(log, t)(k) {
      LookupIsTrueOrZero(reg, log, now, k, t);
    }
    SumAtMost(Elements(keys), LookupsAt(reg, t), WeightsAt(log, t));
    PartOfTotal(log, Elements(keys), t);
    LookupIsTrueOrZero(reg, log, now, [], t);
  }

  /** `check_one` returns the true weight: the current one without a block, the one held
      at the block inside the window; a signer without weight is refused. */
  lemma CheckOneIsTrue(scheme: Scheme, reg: Registry, log: Log, now: nat, envelope: Bytes, signature: Signature,
                       signer: Key, t: u32)
    requires Mirrors(reg, log, now)
    requires scheme(envelope, signature, signer) == Good
    ensures CheckOne(scheme, reg, envelope, signature, signer, None)
         == var w := WeightNow(log, signer); if w == 0 then CheckFailed(SignerNotRegistered) else Weight(w)
    ensures now <= t + HISTORY_CUTOFF + 1 ==>
      CheckOne(scheme, reg, envelope, signature, signer, Some(t))
      == var w := WeightAt(log, signer, t); if w == 0 then CheckFailed(SignerNotRegistered) else Weight(w)
  {
    CurrentIsTrue(reg, log, now, signer);
    if now <= t + HISTORY_CUTOFF + 1 {
      WindowIsTrue(reg, log, now, signer, t);
    }
  }

  // ---------------------------------------------------------------- stability

  /** With the threshold unchanged, a submission gets the same verdict at every ledger
      of the window, whatever signers are added, reweighted or removed meanwhile. */
  lemma VerdictIsStable(scheme: Scheme, early: Registry, late: Registry, log: Log, more: Log,
                        c1: nat, c2: nat, s: Submission)
    requires Mirrors(early, log, c1) && Mirrors(late, log + more, c2)
    requires early.threshold == late.threshold
    requires s.referenceBlock < c1 <= c2 <= s.referenceBlock + HISTORY_CUTOFF + 1
    requires forall e :: e in more ==> c1 <= e.ledger
    ensures Verify(scheme, early, s) == Verify(scheme, late, s)
  {
    var t := s.referenceBlock;
    WindowVerdictIsTrue(scheme, early, log, c1, s);
    WindowVerdictIsTrue(scheme, late, log + more, c2, s);
    forall i | 0 <= i < |s.signers|
      ensures WeightAt(log + more, s.signers[i], t) == WeightAt(log, s.signers[i], t)
    {
      LaterEventsDoNotMatter(log, more, s.signers[i], t);
    }
    assert TrueWeightsAt(log + more, s.signers, t) == TrueWeightsAt(log, s.signers, t);
    LaterEventsDoNotMatter(log, more, [], t);
  }

  /** Being backed is a fact about the past: later events leave it standing. */
  lemma BackedStays(scheme: Scheme, log: Log, more: Log, th: T.Threshold, s: Submission)
    requires Backed(scheme, log, th, s)
    requires forall e :: e in more ==> s.referenceBlock < e.ledger
    ensures Backed(scheme, log + more, th, s)
  {
    var t := s.referenceBlock;
    forall k ensures WeightAt(log + more, k, t) == WeightAt(log, k, t) {
      LaterEventsDoNotMatter(log, more, k, t);
    }
    LaterEventsDoNotMatter(log, more, [], t);
    SumCongruent(Elements(s.signers), WeightsAt(log + more, t), WeightsAt(log, t));
  }

  // ---------------------------------------------------------------- intersection

  /** Two backed submissions at one reference block share signers of weight at least the
      two requirements less the total, hence share a signer whenever the requirements
      together exceed the total. The threshold may have changed between them. */
  lemma QuorumsIntersect(scheme: Scheme, log: Log, th1: T.Threshold, th2: T.Threshold, a: Submission, b: Submission)
    requires Backed(scheme, log, th1, a) && Backed(scheme, log, th2, b)
    requires a.referenceBlock == b.referenceBlock
    ensures var t := a.referenceBlock;
      var common := Elements(a.signers) * Elements(b.signers);
      var needed := TrueRequired(log, th1, t) + TrueRequired(log, th2, t);
      && needed <= Sum(common, WeightsAt(log, t)) + TotalAt(log, t)
      && (needed > TotalAt(log, t) ==> common != {})
  {
    var t := a.referenceBlock;
    var x, y := Elements(a.signers), Elements(b.signers);
    SumOverlap(x, y, WeightsAt(log, t));
    PartOfTotal(log, x + y, t);
    if TrueRequired(log, th1, t) + TrueRequired(log, th2, t) > TotalAt(log, t) {
      SumPositive(x * y, WeightsAt(log, t));
    }
  }

  // ---------------------------------------------------------------- completeness

  /** If no signer has changed since the reference block, then submitting exactly the
      listed signers, in listed order, with good signatures, is accepted whenever the
      requirement is not zero, that is, whenever total * numerator >= denominator. */
  lemma ListedSignersAreAccepted(scheme: Scheme, reg: Registry, log: Log, now: nat, s: Submission)
    requires Mirrors(reg, log, now)
    requires LogUpTo(log, s.referenceBlock)
    requires now <= s.referenceBlock + HISTORY_CUTOFF + 1
    requires s.signers == InfoKeys(Listed(reg, reg.allSigners)) && |s.signatures| == |s.signers|
    requires forall i :: 0 <= i < |s.signers| ==> scheme(s.envelope, s.signatures[i], s.signers[i]) == Good
    ensures Verify(scheme, reg, s) == Accepted
       <==> TotalNow(log) * reg.threshold.numerator >= reg.threshold.denominator
  {
    var t := s.referenceBlock;
    ListingIsComplete(reg, log, now);
    assert s.signers == reg.allSigners;
    WindowVerdictIsTrue(scheme, reg, log, now, s);
    TotalSettles(log, t);
    TrueVerdictIffBacked(scheme, log, reg.threshold, s);
    T.RequiredWeightIsFloor(TotalNow(log), reg.threshold);
    AllSignersWeighTotal(reg, log, now, t);
    SortedIsDistinct(s.signers);
  }

  lemma AllSignersWeighTotal(reg: Registry, log: Log, now: nat, t: nat)
    requires Mirrors(reg, log, now) && LogUpTo(log, t)
    ensures forall k :: k in reg.allSigners ==> WeightAt(log, k, t) > 0
    ensures Sum(Elements(reg.allSigners), WeightsAt(log, t)) == TotalNow(log)
    ensures TotalNow(log) > 0 ==> reg.allSigners != []
  {
    forall k ensures WeightAt(log, k, t) == WeightNow(log, k) {
      WeightSettles(log, k, t);
    }
    ListedWeighTotal(reg, log, now);
    SumCongruent(Elements(reg.allSigners), WeightsAt(log, t), WeightsNow(log));
    assert reg.allSigners == [] ==> Elements(reg.allSigners) == {};
  }

  // ---------------------------------------------------------------- at any age

  lemma RequiredIsTrueOrZero(reg: Registry, log: Log, now: nat, t: nat)
    requires Mirrors(reg, log, now)
    ensures RequiredAt(reg, t) == if Covers(reg.totalHist, t) then TrueRequired(log, reg.threshold, t) else 0
  {
    var total := TotalWeightAt(reg, t);
    assert total == if Covers(reg.totalHist, t) then TotalAt(log, t) else 0 by {
      LookupIsTrueOrZero(reg, log, now, [], t);
    }
    T.RequiredWeightIsFloor(total, reg.threshold);
    T.NothingRequiresNothing(reg.threshold);
  }

  /** Wherever the total timeline still answers, the verdict is the true one. */
  lemma CoveredVerdictIsTrue(scheme: Scheme, reg: Registry, log: Log, now: nat, s: Submission)
    requires Mirrors(reg, log, now) && Covers(reg.totalHist, s.referenceBlock)
    ensures Verify(scheme, reg, s) == TrueVerdict(scheme, log, reg.threshold, s)
  {
    var t := s.referenceBlock;
    forall i | 0 <= i < |s.signers|
      ensures SignerWeightAt(reg, s.signers[i], t) == WeightAt(log, s.signers[i], t)
    {
      CoveredIsTrue(reg, log, now, s.signers[i], t);
    }
    assert SignerWeightsAt(reg, s.signers, t) == TrueWeightsAt(log, s.signers, t);
    RequiredIsTrueOrZero(reg, log, now, t);
  }

  /** Where it no longer answers, every well-formed submission is refused for a
      requirement of 0, whoever signed. */
  lemma UncoveredIsZeroRequired(scheme: Scheme, reg: Registry, log: Log, now: nat, s: Submission)
    requires Mirrors(reg, log, now) && !Covers(reg.totalHist, s.referenceBlock)
    requires |s.signatures| == |s.signers| > 0
    ensures Verify(scheme, reg, s) == Rejected(ZeroRequiredWeight)
  {
    RequiredIsTrueOrZero(reg, log, now, s.referenceBlock);
  }

  /** The verdict at any age, exactly: it is the true one if and only if the total
      timeline reaches back to the reference block, or the submission is refused before
      any weight matters: malformed lists, or nothing required. */
  lemma VerdictExactly(scheme: Scheme, reg: Registry, log: Log, now: nat, s: Submission)
    requires Mirrors(reg, log, now)
    ensures Verify(scheme, reg, s) == TrueVerdict(scheme, log, reg.threshold, s) <==>
      || Covers(reg.totalHist, s.referenceBlock)
      || s.signatures == []
      || |s.signatures| != |s.signers|
      || TrueRequired(log, reg.threshold, s.referenceBlock) == 0
  {
    var t := s.referenceBlock;
    if Covers(reg.totalHist, t) {
      CoveredVerdictIsTrue(scheme, reg, log, now, s);
    } else if |s.signatures| == |s.signers| > 0 {
      UncoveredIsZeroRequired(scheme, reg, log, now, s);
      ScanIsNotZeroRequired(scheme, s, TrueWeightsAt(log, s.signers, t),
                            TrueRequired(log, reg.threshold, t), 0, 0);
    }
  }

  /** Acceptance at any age, exactly: backed by the true history, at a block the total
      timeline still reaches. */
  lemma AcceptedExactly(scheme: Scheme, reg: Registry, log: Log, now: nat, s: Submission)
    requires Mirrors(reg, log, now)
    ensures Verify(scheme, reg, s) == Accepted
       <==> Covers(reg.totalHist, s.referenceBlock) && Backed(scheme, log, reg.threshold, s)
  {
    if Covers(reg.totalHist, s.referenceBlock) {
      CoveredVerdictIsTrue(scheme, reg, log, now, s);
      LookupIsTrueOrZero(reg, log, now, [], s.referenceBlock);
      TrueVerdictIffBacked(scheme, log, reg.threshold, s);
    } else if |s.signatures| == |s.signers| > 0 {
      UncoveredIsZeroRequired(scheme, reg, log, now, s);
    }
  }

  // ---------------------------------------------------------------- beyond the window

  /** A witness that the 201 ledgers are all that age alone can promise: 202 back there is
      a registry that rejects a submission the true history accepts. */
  lemma VerdictWindowIsTight(scheme: Scheme, envelope: Bytes, signature: Signature, signer: Key, other: Key)
    returns (reg: Registry, log: Log, now: nat, s: Submission)
    requires scheme(envelope, signature, signer) == Good && signer != other
    ensures Mirrors(reg, log, now) && now == s.referenceBlock + HISTORY_CUTOFF + 2
    ensures Verify(scheme, reg, s) == Rejected(ZeroRequiredWeight)
    ensures TrueVerdict(scheme, log, reg.threshold, s) == Accepted
  {
    reg, log := BeyondTheWindow(T.Fraction(1, 1), signer, other);
    now, s := 203, Submission(envelope, [signature], [signer], 1);
    T.RequiredWeightIsFloor(TotalWeightAt(reg, 1), reg.threshold);
    T.RequiredWeightIsFloor(5, reg.threshold);
    assert Elements(s.signers) == {signer};
    SumSplit({signer}, WeightsAt(log, 1), signer);
    TrueVerdictIffBacked(scheme, log, reg.threshold, s);
  }
}
