/** The signer registry's code (contracts/secp256k1-security and its ed25519 twin), its
    storage entries as fields. `now` is the ledger's sequence number; where a method only
    needs it to speak about the past, it is ghost. */
module SecurityContract {
  import opened Ints
  import opened History
  import opened Keys
  import opened SignerLog
  import opened Registry
  import opened Admin
  import T = Threshold
  import VecHistory

  /** `Panicked` is a host panic: nothing the call did remains. */
  datatype Reply = Done | Failed(error: T.SecurityError) | Panicked

  class Security {
    const gov: AdminStore
    var threshold: T.Threshold
    var allSigners: seq<Key>
    var signerHist: map<Key, seq<Entry>>
    var totalHist: seq<Entry>

    /** The published signer events. */
    ghost var log: Log

    ghost function State(): Registry
      reads this
    {
      Registry(threshold, allSigners, signerHist, totalHist)
    }

    ghost predicate Valid(now: nat)
      reads this
    {
      Mirrors(State(), log, now)
    }

    constructor Init(admin: Address, th: T.Threshold)
      ensures fresh(gov) && gov.State() == AdminState(admin, None)
      ensures State() == Empty(th) && log == []
      ensures forall now: nat :: Valid(now)
    {
      gov := new AdminStore(admin);
      threshold, allSigners, signerHist, totalHist, log := th, [], map[], [], [];
    }

    /** The contract's constructor: it deploys nothing when a check fails. */
    static method Deploy(admin: Address, numerator: u64, denominator: u64)
      returns (error: Option<T.SecurityError>, deployed: Option<Security>)
      ensures error == T.Check(numerator, denominator)
      ensures error.None? <==> 0 < numerator <= denominator
      ensures error == Some(T.ZeroDenominator) <==> denominator == 0
      ensures error == Some(T.ZeroNumerator) <==> denominator > 0 == numerator
      ensures error == Some(T.NumeratorExceedsDenominator) <==> 0 < denominator < numerator
      ensures deployed.Some? <==> error.None?
      ensures deployed.Some? ==>
        && fresh(deployed.value)
        && deployed.value.State() == Empty(T.Fraction(numerator, denominator))
        && deployed.value.threshold.numerator == numerator && deployed.value.threshold.denominator == denominator
        && fresh(deployed.value.gov) && deployed.value.gov.State() == AdminState(admin, None)
        && deployed.value.log == [] && forall now: nat :: deployed.value.Valid(now)
    {
      deployed := None;
      if denominator == 0 {
        return Some(T.ZeroDenominator), None;
      }
      if numerator == 0 {
        return Some(T.ZeroNumerator), None;
      }
      if numerator > denominator {
        return Some(T.NumeratorExceedsDenominator), None;
      }
      var s := new Security.Init(admin, T.Fraction(numerator, denominator));
      return None, Some(s);
    }

    // -------------------------------------------------------------- storage

    method LoadSignerHistory(key: Key) returns (h: seq<Entry>)
      ensures h == Hist(State(), key)
    {
      if key in signerHist {
        return signerHist[key];
      }
      return [];
    }

    method LatestOf(h: seq<Entry>) returns (w: u64)
      ensures w == Latest(h)
    {
      if |h| == 0 {
        return 0;
      }
      return h[|h| - 1].value;
    }

    method GetSignerWeight(key: Key) returns (w: Option<u64>)
      ensures w == if SignerWeight(State(), key) == 0 then None else Some(SignerWeight(State(), key))
    {
      var h := LoadSignerHistory(key);
      var weight := LatestOf(h);
      return if weight == 0 then None else Some(weight);
    }

    method InsertAllSigners(key: Key)
      modifies this`allSigners
      ensures allSigners == Insert(old(allSigners), key)
    {
      var signers := allSigners;
      var idx := |signers|;
      var i := 0;
      while i < |signers|
        invariant i <= |signers| && idx == |signers|
        invariant InsertsBeyond(signers, key, i)
        invariant allSigners == signers
      {
        InsertScan(signers, key, i);
        if Less(key, signers[i]) {
          idx := i;
          break;
        } else if key == signers[i] {
          return;
        }
        i := i + 1;
      }
      InsertScan(signers, key, i);
      allSigners := signers[..idx] + [key] + signers[idx..];
    }

    method RemoveAllSigners(key: Key)
      modifies this`allSigners
      ensures allSigners == Remove(old(allSigners), key)
    {
      var signers := allSigners;
      var i := 0;
      while i < |signers|
        invariant i <= |signers|
        invariant RemovesBeyond(signers, key, i)
        invariant allSigners == signers
      {
        RemoveScan(signers, key, i);
        if signers[i] == key {
          allSigners := signers[..i] + signers[i + 1..];
          return;
        }
        if Less(key, signers[i]) {
          break;
        }
        i := i + 1;
      }
      RemoveScan(signers, key, i);
    }

    method PushSigner(now: u32, key: Key, weight: u64)
      modifies this`signerHist
      ensures signerHist == old(signerHist)[key := Pushed(old(Hist(State(), key)), now, weight, HISTORY_CUTOFF)]
    {
      var loaded := LoadSignerHistory(key);
      var saved := VecHistory.Push(loaded, now, weight, HISTORY_CUTOFF);
      signerHist := signerHist[key := saved];
    }

    method PushTotal(now: u32, total: u64)
      modifies this`totalHist
      ensures totalHist == Pushed(old(totalHist), now, total, HISTORY_CUTOFF)
    {
      totalHist := VecHistory.Push(totalHist, now, total, HISTORY_CUTOFF);
    }

    /** `storage::add_signer`; not `ok` means a panic, after which the host restores the
        key list this call may already have written. */
    method StoreSigner(now: u32, key: Key, weight: u64) returns (ok: bool)
      modifies this`allSigners, this`signerHist, this`totalHist
      ensures WithSigner(old(State()), now, key, weight) == if ok then Some(State()) else None
      ensures !ok ==> State() == old(State())
    {
      ghost var before := State();
      var restored := allSigners;
      var total := LatestOf(totalHist);
      var oldWeight := GetSignerWeight(key);
      if oldWeight.Some? {
        if total < oldWeight.value {
          return false;
        }
        total := total - oldWeight.value;
      } else {
        InsertAllSigners(key);
      }
      assert total == TotalWeight(before) - SignerWeight(before, key);
      assert State() == before.(allSigners := AddListed(before, key));
      if U64_MAX < total + weight {
        allSigners := restored;
        return false;
      }
      total := total + weight;
      assert Hist(State(), key) == Hist(before, key);
      PushSigner(now, key, weight);
      PushTotal(now, total);
      return true;
    }

    method DropSigner(now: u32, key: Key) returns (ok: bool)
      modifies this`allSigners, this`signerHist, this`totalHist
      ensures WithoutSigner(old(State()), now, key) == if ok then Some(State()) else None
      ensures !ok ==> State() == old(State())
    {
      ghost var hist := Hist(State(), key);
      var oldWeight := GetSignerWeight(key);
      if oldWeight.Some? {
        var total := LatestOf(totalHist);
        if total < oldWeight.value {
          return false;
        }
        var newTotal := total - oldWeight.value;
        RemoveAllSigners(key);
        assert Hist(State(), key) == hist;
        PushSigner(now, key, 0);
        PushTotal(now, newTotal);
      }
      return true;
    }

    // -------------------------------------------------------------- admin calls

    /** The admin adds a signer or changes its weight. Against the true history: it
        panics without the admin's authority, or if the true total would pass 64 bits. */
    method AddSigner(auth: Auth, now: u32, key: Key, weight: u64) returns (reply: Reply)
      requires Valid(now)
      modifies this
      ensures reply ==
        if gov.admin !in auth then Panicked
        else if weight == 0 then Failed(T.ZeroWeight)
        else if U64_MAX < TotalNow(old(log)) - WeightNow(old(log), key) + weight then Panicked
        else Done
      ensures log == old(log) + if reply.Done? then [SignerAdded(now, key, weight)] else []
      ensures reply.Done? <==> gov.admin in auth && weight > 0 && WithSigner(old(State()), now, key, weight).Some?
      ensures reply.Done? ==> Some(State()) == WithSigner(old(State()), now, key, weight)
      ensures !reply.Done? ==> State() == old(State())
      ensures threshold == old(threshold)
      ensures Valid(now)
    {
      if gov.admin !in auth {
        return Panicked;
      }
      if weight == 0 {
        return Failed(T.ZeroWeight);
      }
      ghost var next := WithSigner(State(), now, key, weight);
      ghost var grown := log + [SignerAdded(now, key, weight)];
      assert next.None? <==> U64_MAX < TotalNow(log) - WeightNow(log, key) + weight by {
        AddPanicsOnOverflow(State(), log, now, key, weight);
      }
      assert next.Some? ==> Mirrors(next.value, grown, now) by {
        if next.Some? {
          AddMirrors(State(), log, now, key, weight);
        }
      }
      var ok := StoreSigner(now, key, weight);
      if !ok {
        return Panicked;
      }
      log := grown;
      return Done;
    }

    /** Removal never panics once authorized; it publishes its event even for a key that
        had no weight, in which case nothing is stored. */
    method RemoveSigner(auth: Auth, now: u32, key: Key) returns (reply: Reply)
      requires Valid(now)
      modifies this
      ensures reply == if gov.admin in auth then Done else Panicked
      ensures log == old(log) + if reply.Done? then [SignerRemoved(now, key)] else []
      ensures reply.Done? ==> Some(State()) == WithoutSigner(old(State()), now, key)
      ensures reply.Done? && WeightNow(old(log), key) == 0 ==> State() == old(State())
      ensures !reply.Done? ==> State() == old(State())
      ensures threshold == old(threshold)
      ensures Valid(now)
    {
      if gov.admin !in auth {
        return Panicked;
      }
      ghost var next := WithoutSigner(State(), now, key);
      ghost var grown := log + [SignerRemoved(now, key)];
      assert WeightNow(log, key) == 0 ==> next == Some(State()) by { CurrentIsTrue(State(), log, now, key); }
      assert next.Some? && Mirrors(next.value, grown, now) by { RemoveMirrors(State(), log, now, key); }
      var _ := DropSigner(now, key);
      log := grown;
      return Done;
    }

    method SetThreshold(auth: Auth, ghost now: nat, numerator: u64, denominator: u64) returns (reply: Reply)
      requires Valid(now)
      modifies this`threshold
      ensures reply ==
        if gov.admin !in auth then Panicked
        else match T.Check(numerator, denominator)
             case Some(e) => Failed(e)
             case None => Done
      ensures reply == Panicked <==> gov.admin !in auth
      ensures reply == Done <==> gov.admin in auth && 0 < numerator <= denominator
      ensures reply == Failed(T.ZeroDenominator) <==> gov.admin in auth && denominator == 0
      ensures reply == Failed(T.ZeroNumerator) <==> gov.admin in auth && denominator > 0 == numerator
      ensures reply == Failed(T.NumeratorExceedsDenominator)
         <==> gov.admin in auth && 0 < denominator < numerator
      ensures threshold == if reply.Done? then T.Fraction(numerator, denominator) else old(threshold)
      ensures Valid(now)
    {
      if gov.admin !in auth {
        return Panicked;
      }
      if denominator == 0 {
        return Failed(T.ZeroDenominator);
      }
      if numerator == 0 {
        return Failed(T.ZeroNumerator);
      }
      if numerator > denominator {
        return Failed(T.NumeratorExceedsDenominator);
      }
      ThresholdIsApart(State(), T.Fraction(numerator, denominator), log, now);
      threshold := T.Fraction(numerator, denominator);
      return Done;
    }

    // -------------------------------------------------------------- queries

    method LookupSigner(key: Key, referenceBlock: u32) returns (w: u64)
      requires Searchable(State())
      ensures w == SignerWeightAt(State(), key, referenceBlock)
    {
      var h := LoadSignerHistory(key);
      w := VecHistory.LookupAt(h, referenceBlock);
    }

    method LookupSigners(keys: seq<Key>, referenceBlock: u32) returns (ws: seq<u64>)
      requires Searchable(State())
      ensures ws == SignerWeightsAt(State(), keys, referenceBlock)
    {
      ws := [];
      var i := 0;
      while i < |keys|
        invariant i == |ws| <= |keys|
        invariant forall j :: 0 <= j < i ==> ws[j] == SignerWeightAt(State(), keys[j], referenceBlock)
      {
        var w := LookupSigner(keys[i], referenceBlock);
        ws := ws + [w];
        i := i + 1;
      }
    }

    /** True inside the window and wherever the total still answers, true or zero anywhere. */
    method GetSignerWeightAt(ghost now: nat, key: Key, referenceBlock: u32) returns (w: u64)
      requires Valid(now)
      ensures w == SignerWeightAt(State(), key, referenceBlock)
      ensures w == 0 || w == WeightAt(log, key, referenceBlock)
      ensures now <= referenceBlock + 201 || Covers(totalHist, referenceBlock) ==>
        w == WeightAt(log, key, referenceBlock)
    {
      BatchIsTrue(State(), log, now, [key], referenceBlock);
      MirrorsIsSearchable(State(), log, now);
      w := LookupSigner(key, referenceBlock);
      assert SignerWeightsAt(State(), [key], referenceBlock)[0] == w;
    }

    /** The same, key by key. */
    method GetSignerWeightsAt(ghost now: nat, keys: seq<Key>, referenceBlock: u32) returns (ws: seq<u64>)
      requires Valid(now)
      ensures ws == SignerWeightsAt(State(), keys, referenceBlock)
      ensures forall i :: 0 <= i < |ws| ==> ws[i] == 0 || ws[i] == WeightAt(log, keys[i], referenceBlock)
      ensures now <= referenceBlock + 201 || Covers(totalHist, referenceBlock) ==>
        forall i :: 0 <= i < |ws| ==> ws[i] == WeightAt(log, keys[i], referenceBlock)
    {
      BatchIsTrue(State(), log, now, keys, referenceBlock);
      MirrorsIsSearchable(State(), log, now);
      ws := LookupSigners(keys, referenceBlock);
    }

    method GetTotalWeightAt(ghost now: nat, referenceBlock: u32) returns (w: u64)
      requires Valid(now)
      ensures w == TotalWeightAt(State(), referenceBlock)
      ensures w == if Covers(totalHist, referenceBlock) then TotalAt(log, referenceBlock) else 0
      ensures now <= referenceBlock + 201 ==> w == TotalAt(log, referenceBlock)
    {
      LookupIsTrueOrZero(State(), log, now, [], referenceBlock);
      if now <= referenceBlock + 201 {
        WindowIsTrue(State(), log, now, [], referenceBlock);
      }
      w := VecHistory.LookupAt(totalHist, referenceBlock);
    }

    method RequiredWeightAt(ghost now: nat, referenceBlock: u32) returns (w: u64)
      requires Valid(now)
      ensures w == T.RequiredWeight(TotalWeightAt(State(), referenceBlock), threshold)
      ensures w == if Covers(totalHist, referenceBlock) then T.Floor(TotalAt(log, referenceBlock), threshold) else 0
      ensures now <= referenceBlock + 201 ==> w == T.Floor(TotalAt(log, referenceBlock), threshold)
    {
      var total := GetTotalWeightAt(now, referenceBlock);
      T.DivUnique(0, threshold.denominator, 0);
      T.RequiredWeightIsFloor(total, threshold);
      w := T.RequiredWeight(total, threshold);
    }

    method ListSigners() returns (infos: seq<SignerInfo>)
      ensures infos == Listed(State(), allSigners)
    {
      infos := [];
      var i := 0;
      while i < |allSigners|
        invariant i <= |allSigners|
        invariant infos == Listed(State(), allSigners[..i])
      {
        var w := GetSignerWeight(allSigners[i]);
        assert Front(allSigners[..i + 1]) == allSigners[..i];
        if w.Some? {
          infos := infos + [SignerInfo(allSigners[i], w.value)];
        }
        i := i + 1;
      }
      assert allSigners[..i] == allSigners;
    }
  }
}
