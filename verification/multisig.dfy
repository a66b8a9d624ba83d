/** The n-of-m ed25519 account (contracts/multisig-account). `valid` says whether a
    signature verifies; one that does not stops the call. */
module Multisig {
  import opened Ints
  import opened Sums
  import opened Keys

  type Payload = seq<byte>
  type Signature = seq<byte>
  type Validity = (Key, Payload, Signature) -> bool

  datatype SignedBy = SignedBy(publicKey: Key, signature: Signature)

  datatype MultisigError =
    | NotInitialized
    | UnknownSigner
    | DuplicateSigner
    | InsufficientSignatures
    | ThresholdZero
    | ThresholdExceedsSigners
    | DuplicateSignerInSet

  datatype AuthResult = Authorized | Denied(error: MultisigError) | Trapped

  function KeysOf(sigs: seq<SignedBy>): (ks: seq<Key>)
    ensures |ks| == |sigs|
    ensures forall i :: 0 <= i < |ks| ==> ks[i] == sigs[i].publicKey
  {
    seq(|sigs|, i requires 0 <= i < |sigs| => sigs[i].publicKey)
  }

  function ConfigError(signers: seq<Key>, threshold: u32): Option<MultisigError> {
    if threshold == 0 then Some(ThresholdZero)
    else if threshold > |signers| then Some(ThresholdExceedsSigners)
    else if !Distinct(signers) then Some(DuplicateSignerInSet)
    else None
  }

  /** At least `threshold` distinct registered signers, each with a valid signature. */
  ghost predicate Approved(valid: Validity, signers: seq<Key>, threshold: nat, payload: Payload, sigs: seq<SignedBy>) {
    && Distinct(KeysOf(sigs))
    && (forall i :: 0 <= i < |sigs| ==>
         sigs[i].publicKey in signers && valid(sigs[i].publicKey, payload, sigs[i].signature))
    && threshold <= |sigs|
  }

  /** Entry `i` passes all the loop's checks. */
  ghost predicate Passes(valid: Validity, signers: seq<Key>, payload: Payload, sigs: seq<SignedBy>, i: nat)
    requires i < |sigs|
  {
    && sigs[i].publicKey in signers
    && sigs[i].publicKey !in KeysOf(sigs)[..i]
    && valid(sigs[i].publicKey, payload, sigs[i].signature)
  }

  ghost predicate AllPass(valid: Validity, signers: seq<Key>, payload: Payload, sigs: seq<SignedBy>, n: nat)
    requires n <= |sigs|
  {
    forall i :: 0 <= i < n ==> Passes(valid, signers, payload, sigs, i)
  }

  /** Entry `i` is the first that fails. */
  ghost predicate FirstFault(valid: Validity, signers: seq<Key>, payload: Payload, sigs: seq<SignedBy>, i: nat)
    requires i < |sigs|
  {
    AllPass(valid, signers, payload, sigs, i) && !Passes(valid, signers, payload, sigs, i)
  }

  lemma PassingIsApproved(valid: Validity, signers: seq<Key>, threshold: nat, payload: Payload, sigs: seq<SignedBy>)
    ensures AllPass(valid, signers, payload, sigs, |sigs|) && threshold <= |sigs|
       <==> Approved(valid, signers, threshold, payload, sigs)
  {
    var ks := KeysOf(sigs);
    if AllPass(valid, signers, payload, sigs, |sigs|) {
      forall i, j | 0 <= i < j < |ks| ensures ks[i] != ks[j] {
        assert Passes(valid, signers, payload, sigs, j) && ks[..j][i] == ks[i];
      }
      forall i | 0 <= i < |sigs|
        ensures sigs[i].publicKey in signers && valid(sigs[i].publicKey, payload, sigs[i].signature)
      {
        assert Passes(valid, signers, payload, sigs, i);
      }
    }
    if Approved(valid, signers, threshold, payload, sigs) {
      forall i | 0 <= i < |sigs| ensures Passes(valid, signers, payload, sigs, i) {
        assert forall j :: 0 <= j < i ==> ks[..i][j] == ks[j] != ks[i];
      }
    }
  }

  // ---------------------------------------------------------------- quorums

  lemma {:induction false} DistinctSize(s: seq<Key>)
    requires Distinct(s)
    ensures |Elements(s)| == |s|
  {
    if s != [] {
      var n := |s| - 1;
      DistinctSize(s[..n]);
      assert Elements(s) == Elements(s[..n]) + {s[n]};
      assert s[n] !in Elements(s[..n]);
    }
  }

  lemma SubsetSize(a: set<Key>, b: set<Key>)
    requires a <= b
    ensures |a| <= |b|
  {
    assert b == a + (b - a);
  }

  /** Two approvals under one configuration share at least 2 * threshold - m signers,
      so under a majority threshold they share one, whatever they approve. */
  lemma ApprovalsIntersect(valid: Validity, signers: seq<Key>, threshold: u32,
                           p: Payload, a: seq<SignedBy>, q: Payload, b: seq<SignedBy>)
    requires ConfigError(signers, threshold).None?
    requires Approved(valid, signers, threshold, p, a) && Approved(valid, signers, threshold, q, b)
    ensures var common := Elements(KeysOf(a)) * Elements(KeysOf(b));
      && 2 * threshold <= |common| + |signers|
      && (2 * threshold > |signers| ==> common != {})
  {
    var x, y := Elements(KeysOf(a)), Elements(KeysOf(b));
    DistinctSize(KeysOf(a));
    DistinctSize(KeysOf(b));
    DistinctSize(signers);
    SubsetSize(x + y, Elements(signers));
    assert |x| + |y| == |x + y| + |x * y|;
  }

  // ---------------------------------------------------------------- the code

  class MultisigAccount {
    var signers: Option<seq<Key>>
    var threshold: Option<u32>

    /** Nothing is stored until `Construct` succeeds. */
    constructor ()
      ensures signers.None? && threshold.None?
    {
      signers, threshold := None, None;
    }

    /** Both entries are stored, with a quorum that is neither empty nor out of reach. */
    ghost predicate Configured()
      reads this
    {
      && signers.Some? && threshold.Some?
      && 1 <= threshold.value <= |signers.value| && Distinct(signers.value)
    }

    method Construct(keys: seq<Key>, required: u32) returns (error: Option<MultisigError>)
      modifies this
      ensures error == ConfigError(keys, required)
      ensures error.None? <==> 1 <= required <= |keys| && Distinct(keys)
      ensures error == Some(ThresholdZero) <==> required == 0
      ensures error == Some(ThresholdExceedsSigners) <==> |keys| < required
      ensures error == Some(DuplicateSignerInSet) <==> 1 <= required <= |keys| && !Distinct(keys)
      ensures error.None? ==> Configured()
      ensures error.None? ==> signers == Some(keys) && threshold == Some(required)
      ensures error.Some? ==> signers == old(signers) && threshold == old(threshold)
    {
      if required == 0 {
        return Some(ThresholdZero);
      }
      if required > |keys| {
        return Some(ThresholdExceedsSigners);
      }
      var seen: seq<Key> := [];
      var i := 0;
      while i < |keys|
        invariant i <= |keys| && seen == keys[..i]
        invariant Distinct(seen)
        invariant signers == old(signers) && threshold == old(threshold)
      {
        if keys[i] in seen {
          return Some(DuplicateSignerInSet);
        }
        seen := seen + [keys[i]];
        i := i + 1;
      }
      assert seen == keys;
      signers, threshold := Some(keys), Some(required);
      return None;
    }

    /** Authorizes exactly the approved lists; otherwise the first failing entry decides. A
        configured account never authorizes an empty list. */
    method CheckAuth(valid: Validity, payload: Payload, signatures: seq<SignedBy>) returns (r: AuthResult)
      ensures signers.None? || threshold.None? ==> r == Denied(NotInitialized)
      ensures signers.Some? && threshold.Some? ==>
        && (r == Authorized <==> Approved(valid, signers.value, threshold.value, payload, signatures))
        && (AllPass(valid, signers.value, payload, signatures, |signatures|) && |signatures| < threshold.value
            ==> r == Denied(InsufficientSignatures))
        && (forall i | 0 <= i < |signatures| && FirstFault(valid, signers.value, payload, signatures, i) ::
              var k, earlier := signatures[i].publicKey, KeysOf(signatures)[..i];
              && (r == Denied(UnknownSigner) <==> k !in signers.value)
              && (r == Denied(DuplicateSigner) <==> k in signers.value && k in earlier)
              && (r == Trapped <==> k in signers.value && k !in earlier))
      ensures Configured() && r == Authorized ==> signatures != []
    {
      if signers.None? || threshold.None? {
        return Denied(NotInitialized);
      }
      PassingIsApproved(valid, signers.value, threshold.value, payload, signatures);
      var seen: seq<Key> := [];
      var i := 0;
      while i < |signatures|
        invariant i <= |signatures| && seen == KeysOf(signatures)[..i]
        invariant AllPass(valid, signers.value, payload, signatures, i)
      {
        var sig := signatures[i];
        ghost var faulty := FirstFault(valid, signers.value, payload, signatures, i);
        if sig.publicKey !in signers.value {
          assert faulty;
          return Denied(UnknownSigner);
        }
        if sig.publicKey in seen {
          assert faulty;
          return Denied(DuplicateSigner);
        }
        if !valid(sig.publicKey, payload, sig.signature) {
          assert faulty;
          return Trapped;
        }
        seen := seen + [sig.publicKey];
        i := i + 1;
      }
      if |seen| < threshold.value {
        return Denied(InsufficientSignatures);
      }
      return Authorized;
    }
  }
}
