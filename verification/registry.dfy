/** The signer registry as a value: what its operations do to the stored timelines and
    key list, and the invariant tying that storage to the published event log. */
module Registry {
  import opened Ints
  import opened History
  import opened Sums
  import opened Keys
  import opened SignerLog
  import T = Threshold

  const HISTORY_CUTOFF: u32 := 200

  datatype Registry = Registry(
    threshold: T.Threshold,
    allSigners: seq<Key>,
    signerHist: map<Key, seq<Entry>>,
    totalHist: seq<Entry>)

  datatype SignerInfo = SignerInfo(key: Key, weight: u64)

  /** A registry just constructed. */
  function Empty(th: T.Threshold): Registry {
    Registry(th, [], map[], [])
  }

  // ---------------------------------------------------------------- queries

  /** An unset storage key reads as an empty timeline. */
  function Hist(reg: Registry, k: Key): seq<Entry> {
    if k in reg.signerHist then reg.signerHist[k] else []
  }

  function SignerWeight(reg: Registry, k: Key): u64 {
    Latest(Hist(reg, k))
  }

  function TotalWeight(reg: Registry): u64 {
    Latest(reg.totalHist)
  }

  function SignerWeightAt(reg: Registry, k: Key, t: nat): u64 {
    At(Hist(reg, k), t)
  }

  function TotalWeightAt(reg: Registry, t: nat): u64 {
    At(reg.totalHist, t)
  }

  function SignerWeightsAt(reg: Registry, keys: seq<Key>, t: nat): (ws: seq<u64>)
    ensures |ws| == |keys|
    ensures forall i :: 0 <= i < |keys| ==> ws[i] == SignerWeightAt(reg, keys[i], t)
  {
    seq(|keys|, i requires 0 <= i < |keys| => SignerWeightAt(reg, keys[i], t))
  }

  /** The listed keys in stored order, skipping any without weight. */
  function Listed(reg: Registry, keys: seq<Key>): seq<SignerInfo> {
    if keys == [] then []
    else
      var k := Last(keys);
      Listed(reg, Front(keys))
      + if SignerWeight(reg, k) != 0 then [SignerInfo(k, SignerWeight(reg, k))] else []
  }

  // ---------------------------------------------------------------- updates

  /** The key list once `k` has weight. */
  function AddListed(reg: Registry, k: Key): seq<Key> {
    if SignerWeight(reg, k) != 0 then reg.allSigners else Insert(reg.allSigners, k)
  }

  /** `None` is a panic, which the host rolls back. */
  function WithSigner(reg: Registry, now: nat, k: Key, weight: u64): Option<Registry> {
    var total, oldWeight := TotalWeight(reg), SignerWeight(reg, k);
    if total < oldWeight then None
    else
      var others := total - oldWeight;
      if U64_MAX < others + weight then None
      else Some(reg.(
        allSigners := AddListed(reg, k),
        signerHist := reg.signerHist[k := Pushed(Hist(reg, k), now, weight, HISTORY_CUTOFF)],
        totalHist := Pushed(reg.totalHist, now, others + weight, HISTORY_CUTOFF)))
  }

  function WithoutSigner(reg: Registry, now: nat, k: Key): Option<Registry> {
    var total, oldWeight := TotalWeight(reg), SignerWeight(reg, k);
    if oldWeight == 0 then Some(reg)
    else if total < oldWeight then None
    else Some(reg.(
      allSigners := Remove(reg.allSigners, k),
      signerHist := reg.signerHist[k := Pushed(Hist(reg, k), now, 0, HISTORY_CUTOFF)],
      totalHist := Pushed(reg.totalHist, now, total - oldWeight, HISTORY_CUTOFF)))
  }

  // ---------------------------------------------------------------- the invariant

  /** The stored state is what the published log says it should be: every signer's
      timeline is the pruned run of that signer's writes, the total timeline is the
      pruned run of the true running total, and the key list is the sorted listing of
      the keys that now have weight. */
  ghost predicate Mirrors(reg: Registry, log: Log, now: nat) {
    && LogUpTo(log, now)
    && Bounded(log)
    && (forall k :: Hist(reg, k) == PrunedRun(KeyWrites(log, k), HISTORY_CUTOFF))
    && reg.totalHist == PrunedRun(TotalWrites(log), HISTORY_CUTOFF)
    && Sorted(reg.allSigners)
    && (forall k :: k in reg.allSigners <==> WeightNow(log, k) != 0)
  }

  lemma EmptyMirrors(th: T.Threshold, now: nat)
    ensures Mirrors(Empty(th), [], now)
  {
  }

  lemma TimePasses(reg: Registry, log: Log, now: nat, later: nat)
    requires Mirrors(reg, log, now) && now <= later
    ensures Mirrors(reg, log, later)
  {
  }

  lemma ThresholdIsApart(reg: Registry, th: T.Threshold, log: Log, now: nat)
    requires Mirrors(reg, log, now)
    ensures Mirrors(reg.(threshold := th), log, now)
  {
  }

  /** The current queries return the true current weights and the true current total. */
  lemma CurrentIsTrue(reg: Registry, log: Log, now: nat, k: Key)
    requires Mirrors(reg, log, now)
    ensures SignerWeight(reg, k) == WeightNow(log, k)
    ensures TotalWeight(reg) == TotalNow(log) <= U64_MAX
    ensures WeightNow(log, k) <= TotalNow(log)
  {
    WritesAreOrdered(log, k, now);
    LatestIsLastWrite(KeyWrites(log, k), now);
    LatestIsLastWrite(TotalWrites(log), now);
    KeyWritesReplay(log, k, now);
    TotalWritesReplay(log, now);
    WeightSettles(log, k, now);
    TotalSettles(log, now);
    PartOfTotal(log, {k}, now);
    SumSplit({k}, WeightsAt(log, now), k);
  }

  lemma LatestIsLastWrite(ws: seq<Write>, now: nat)
    requires OrderedUpTo(ws, now)
    ensures Latest(PrunedRun(ws, HISTORY_CUTOFF)) == LastWrite(ws, now)
  {
    PrunedRunEndsAtLastWrite(ws, HISTORY_CUTOFF);
  }

  // ---------------------------------------------------------------- preservation

  /** An effective event appends one write to its key's timeline and one to the total. */
  lemma EventWrites(log: Log, e: SignerEvent, k: Key)
    requires Bounded(log) && Bounded(log + [e])
    ensures KeyWrites(log + [e], k)
         == if e.key == k && Effective(log, e) then KeyWrites(log, k) + [Write(e.ledger, e.NewWeight())]
            else KeyWrites(log, k)
    ensures TotalWrites(log + [e])
         == if Effective(log, e) then TotalWrites(log) + [Write(e.ledger, TotalNow(log + [e]))]
            else TotalWrites(log)
  {
    assert Front(log + [e]) == log;
  }

  /** Storage after an effective event: the two timelines pushed, nothing else. */
  lemma StorageFollows(reg: Registry, log: Log, now: nat, e: SignerEvent, next: Registry)
    requires Mirrors(reg, log, now) && e.ledger == now
    requires Effective(log, e)
    requires Bounded(log + [e])
    requires next.signerHist == reg.signerHist[e.key := Pushed(Hist(reg, e.key), now, e.NewWeight(), HISTORY_CUTOFF)]
    requires next.totalHist == Pushed(reg.totalHist, now, TotalNow(log + [e]), HISTORY_CUTOFF)
    ensures forall k :: Hist(next, k) == PrunedRun(KeyWrites(log + [e], k), HISTORY_CUTOFF)
    ensures next.totalHist == PrunedRun(TotalWrites(log + [e]), HISTORY_CUTOFF)
  {
    forall k ensures Hist(next, k) == PrunedRun(KeyWrites(log + [e], k), HISTORY_CUTOFF) {
      EventWrites(log, e, k);
      Snoc(KeyWrites(log, k), Write(now, e.NewWeight()), HISTORY_CUTOFF, 0);
    }
    EventWrites(log, e, e.key);
    Snoc(TotalWrites(log), Write(now, TotalNow(log + [e])), HISTORY_CUTOFF, 0);
  }

  /** Listing follows: insert on a new weight, remove on a weight gone. */
  lemma ListFollows(reg: Registry, log: Log, now: nat, e: SignerEvent, listed: seq<Key>)
    requires Mirrors(reg, log, now)
    requires Sorted(listed)
    requires Elements(listed) == if e.NewWeight() != 0 then Elements(reg.allSigners) + {e.key}
                                 else Elements(reg.allSigners) - {e.key}
    ensures forall k :: k in listed <==> WeightNow(log + [e], k) != 0
  {
    forall k ensures k in listed <==> WeightNow(log + [e], k) != 0 {
      WeightSnoc(log, e, k, 0);
      assert k in listed <==> k in Elements(listed);
      assert k in reg.allSigners <==> k in Elements(reg.allSigners);
    }
  }

  lemma LogGrows(log: Log, e: SignerEvent, now: nat)
    requires LogUpTo(log, now) && e.ledger == now
    requires Bounded(log) && TotalNow(log + [e]) <= U64_MAX
    ensures LogUpTo(log + [e], now) && Bounded(log + [e])
  {
    assert Front(log + [e]) == log;
  }

  /** Adding panics exactly when the new total would not fit 64 bits; the subtraction
      of the old weight never underflows. */
  lemma AddPanicsOnOverflow(reg: Registry, log: Log, now: nat, k: Key, weight: u64)
    requires Mirrors(reg, log, now)
    ensures SignerWeight(reg, k) <= TotalWeight(reg)
    ensures WithSigner(reg, now, k, weight).None?
       <==> TotalNow(log) - WeightNow(log, k) + weight > U64_MAX
  {
    CurrentIsTrue(reg, log, now, k);
  }

  lemma AddListing(reg: Registry, log: Log, now: nat, k: Key)
    requires Mirrors(reg, log, now)
    ensures var listed := AddListed(reg, k);
      Sorted(listed) && Elements(listed) == Elements(reg.allSigners) + {k}
  {
    CurrentIsTrue(reg, log, now, k);
    InsertIsSorted(reg.allSigners, k);
    assert k in reg.allSigners ==> Elements(reg.allSigners) + {k} == Elements(reg.allSigners);
  }

  lemma AddTotal(reg: Registry, log: Log, now: nat, k: Key, weight: u64)
    requires Mirrors(reg, log, now)
    ensures TotalWeight(reg) - SignerWeight(reg, k) + weight
         == TotalNow(log + [SignerAdded(now, k, weight)])
  {
    CurrentIsTrue(reg, log, now, k);
    TotalSnoc(log, SignerAdded(now, k, weight), now);
  }

  /** When adding does not panic, the storage follows the log. */
  lemma AddMirrors(reg: Registry, log: Log, now: nat, k: Key, weight: u64)
    requires Mirrors(reg, log, now) && weight > 0
    requires WithSigner(reg, now, k, weight).Some?
    ensures Mirrors(WithSigner(reg, now, k, weight).value, log + [SignerAdded(now, k, weight)], now)
  {
    var e := SignerAdded(now, k, weight);
    var next := WithSigner(reg, now, k, weight).value;
    AddTotal(reg, log, now, k, weight);
    AddListing(reg, log, now, k);
    LogGrows(log, e, now);
    StorageFollows(reg, log, now, e, next);
    ListFollows(reg, log, now, e, next.allSigners);
  }

  /** Removing never panics, and the storage follows the log. */
  lemma RemoveMirrors(reg: Registry, log: Log, now: nat, k: Key)
    requires Mirrors(reg, log, now)
    ensures var r := WithoutSigner(reg, now, k);
      r.Some? && Mirrors(r.value, log + [SignerRemoved(now, k)], now)
  {
    CurrentIsTrue(reg, log, now, k);
    var e := SignerRemoved(now, k);
    var r := WithoutSigner(reg, now, k);
    TotalSnoc(log, e, now);
    LogGrows(log, e, now);
    RemoveIsSorted(reg.allSigners, k);
    if Effective(log, e) {
      StorageFollows(reg, log, now, e, r.value);
      ListFollows(reg, log, now, e, r.value.allSigners);
    } else {
      assert k !in Elements(reg.allSigners);
      ListFollows(reg, log, now, e, reg.allSigners);
      forall x ensures KeyWrites(log + [e], x) == KeyWrites(log, x) {
        EventWrites(log, e, x);
      }
      EventWrites(log, e, k);
    }
  }

  // ---------------------------------------------------------------- what queries mean

  /** Exact or zero: at any ledger whatever, a historical answer is the truth or 0. */
  lemma LookupIsTrueOrZero(reg: Registry, log: Log, now: nat, k: Key, t: nat)
    requires Mirrors(reg, log, now)
    ensures SignerWeightAt(reg, k, t) == (if Covers(Hist(reg, k), t) then WeightAt(log, k, t) else 0)
    ensures TotalWeightAt(reg, t) == (if Covers(reg.totalHist, t) then TotalAt(log, t) else 0)
    ensures SignerWeightAt(reg, k, t) <= WeightAt(log, k, t)
    ensures TotalWeightAt(reg, t) <= TotalAt(log, t) <= U64_MAX
    ensures Ascending(Hist(reg, k)) && Ascending(reg.totalHist)
  {
    WritesAreOrdered(log, k, now);
    PrunedLookup(KeyWrites(log, k), HISTORY_CUTOFF, t);
    PrunedLookup(TotalWrites(log), HISTORY_CUTOFF, t);
    PrunedRunEndsAtLastWrite(KeyWrites(log, k), HISTORY_CUTOFF);
    PrunedRunEndsAtLastWrite(TotalWrites(log), HISTORY_CUTOFF);
    KeyWritesReplay(log, k, t);
    TotalWritesReplay(log, t);
  }

  /** Every timeline is in ledger order, as the binary search needs. */
  ghost predicate Searchable(reg: Registry) {
    Ascending(reg.totalHist) && forall k :: Ascending(Hist(reg, k))
  }

  lemma MirrorsIsSearchable(reg: Registry, log: Log, now: nat)
    requires Mirrors(reg, log, now)
    ensures Searchable(reg)
  {
    LookupIsTrueOrZero(reg, log, now, [], 0);
    forall k ensures Ascending(Hist(reg, k)) {
      LookupIsTrueOrZero(reg, log, now, k, 0);
    }
  }

  /** Inside the window, which reaches back 201 ledgers, every answer is the truth. */
  lemma WindowIsTrue(reg: Registry, log: Log, now: nat, k: Key, t: nat)
    requires Mirrors(reg, log, now)
    requires now <= t + HISTORY_CUTOFF + 1
    ensures SignerWeightAt(reg, k, t) == WeightAt(log, k, t)
    ensures TotalWeightAt(reg, t) == TotalAt(log, t)
  {
    WritesAreOrdered(log, k, now);
    PrunedRefinesUnpruned(KeyWrites(log, k), HISTORY_CUTOFF, now, t);
    PrunedRefinesUnpruned(TotalWrites(log), HISTORY_CUTOFF, now, t);
    KeyWritesReplay(log, k, t);
    TotalWritesReplay(log, t);
  }

  ghost function LookupsAt(reg: Registry, t: nat): Key -> nat {
    k => SignerWeightAt(reg, k, t)
  }

  /** Conservation across timelines that prune independently: inside the window the
      stored total is the sum of the stored weights of every key ever registered. */
  lemma Conservation(reg: Registry, log: Log, now: nat, t: nat)
    requires Mirrors(reg, log, now)
    requires now <= t + HISTORY_CUTOFF + 1
    ensures TotalWeightAt(reg, t) == Sum(KeysOf(log), LookupsAt(reg, t))
  {
    WindowIsTrue(reg, log, now, [], t);
    forall k | k in KeysOf(log) ensures LookupsAt(reg, t)(k) == WeightsAt(log, t)(k) {
      WindowIsTrue(reg, log, now, k, t);
    }
    SumCongruent(KeysOf(log), LookupsAt(reg, t), WeightsAt(log, t));
  }

  /** The stored fields after an add that fits. */
  lemma AddedFields(reg: Registry, now: nat, k: Key, weight: u64, total: u64)
    requires SignerWeight(reg, k) <= TotalWeight(reg)
    requires total == TotalWeight(reg) - SignerWeight(reg, k) + weight
    ensures var r := WithSigner(reg, now, k, weight);
      && r.Some? && r.value.threshold == reg.threshold
      && r.value.signerHist == reg.signerHist[k := Pushed(Hist(reg, k), now, weight, HISTORY_CUTOFF)]
      && r.value.totalHist == Pushed(reg.totalHist, now, total, HISTORY_CUTOFF)
  {
  }

  /** Three adds in a row keep the storage in step with the log. */
  lemma ThreeAddsMirror(th: T.Threshold, a: Key, b: Key, r1: Registry, r2: Registry, r3: Registry)
    requires WithSigner(Empty(th), 1, a, 5) == Some(r1)
    requires WithSigner(r1, 2, b, 7) == Some(r2)
    requires WithSigner(r2, 203, b, 9) == Some(r3)
    ensures Mirrors(r3, [] + [SignerAdded(1, a, 5)] + [SignerAdded(2, b, 7)] + [SignerAdded(203, b, 9)], 203)
  {
    var l1 := [] + [SignerAdded(1, a, 5)];
    var l2 := l1 + [SignerAdded(2, b, 7)];
    assert Mirrors(r1, l1, 2) by {
      EmptyMirrors(th, 1);
      AddMirrors(Empty(th), [], 1, a, 5);
      TimePasses(r1, l1, 1, 2);
    }
    assert Mirrors(r2, l2, 203) by {
      AddMirrors(r1, l1, 2, b, 7);
      TimePasses(r2, l2, 2, 203);
    }
    AddMirrors(r2, l2, 203, b, 9);
  }

  /** Signer `a` added at ledger 1, `b` at ledger 2 and again at ledger 203: the total
      timeline has dropped its first entry, the untouched signer's timeline has not. */
  lemma ThreeAdds(th: T.Threshold, a: Key, b: Key) returns (r1: Registry, r2: Registry, r3: Registry)
    requires a != b
    ensures WithSigner(Empty(th), 1, a, 5) == Some(r1)
    ensures WithSigner(r1, 2, b, 7) == Some(r2)
    ensures WithSigner(r2, 203, b, 9) == Some(r3)
    ensures Hist(r3, a) == [Entry(1, 5)] && r3.totalHist == [Entry(2, 12), Entry(203, 14)]
    ensures r3.threshold == th
  {
    TwoOldEntries(Entry(1, 5), Entry(2, 12), Entry(203, 14), HISTORY_CUTOFF);
    PushedFirst(1, 5);
    PushedFirst(2, 7);
    AddedFields(Empty(th), 1, a, 5, 5);
    r1 := WithSigner(Empty(th), 1, a, 5).value;
    AddedFields(r1, 2, b, 7, 12);
    r2 := WithSigner(r1, 2, b, 7).value;
    AddedFields(r2, 203, b, 9, 14);
    r3 := WithSigner(r2, 203, b, 9).value;
  }

  /** With ledger 1 lying 202 behind, the stored total at ledger 1 is no longer the sum
      of the stored weights. */
  lemma BeyondTheWindow(th: T.Threshold, a: Key, b: Key) returns (reg: Registry, log: Log)
    requires a != b
    ensures Mirrors(reg, log, 203) && reg.threshold == th && a in KeysOf(log)
    ensures SignerWeightAt(reg, a, 1) == WeightAt(log, a, 1) == TotalAt(log, 1) == 5
    ensures TotalWeightAt(reg, 1) == 0
  {
    var e1, e2, e3 := SignerAdded(1, a, 5), SignerAdded(2, b, 7), SignerAdded(203, b, 9);
    var r1, r2, r3 := ThreeAdds(th, a, b);
    reg, log := r3, [] + [e1] + [e2] + [e3];
    assert TotalWeightAt(reg, 1) == 0 by { AtBeforeFirst(reg.totalHist, 1); }
    assert SignerWeightAt(reg, a, 1) == 5 by { AtFinds(Hist(reg, a), 1, 0); }
    assert a in KeysOf(log) && TotalAt(log, 1) == WeightAt(log, a, 1) == 5 by { FirstOfThree(e1, e2, e3); }
    assert Mirrors(reg, log, 203) by { ThreeAddsMirror(th, a, b, r1, r2, r3); }
  }

  lemma FirstOfThree(e1: SignerEvent, e2: SignerEvent, e3: SignerEvent)
    requires e1.ledger < e2.ledger && e1.ledger < e3.ledger
    ensures var log := [] + [e1] + [e2] + [e3];
      && e1.key in KeysOf(log)
      && TotalAt(log, e1.ledger) == e1.NewWeight() == WeightAt(log, e1.key, e1.ledger)
  {
    assert [] + [e1] + [e2] + [e3] == [e1] + [e2, e3];
    assert ([e1] + [e2, e3])[0] == e1;
    TotalOfFirst(e1, [e2, e3]);
  }

  lemma PushedFirst(ledger: nat, value: u64)
    ensures Pushed([], ledger, value, HISTORY_CUTOFF) == [Entry(ledger, value)]
  {
    PrunedByCount([Entry(ledger, value)], ledger, HISTORY_CUTOFF);
    assert Record([], ledger, value) == [Entry(ledger, value)];
  }

  lemma TotalOfFirst(e: SignerEvent, more: Log)
    requires forall x :: x in more ==> e.ledger < x.ledger
    ensures TotalAt([e] + more, e.ledger) == e.NewWeight() == WeightAt([e] + more, e.key, e.ledger)
  {
    LaterEventsDoNotMatter([e], more, e.key, e.ledger);
    assert KeysOf([e]) == {e.key};
    SumSplit({e.key}, WeightsAt([e], e.ledger), e.key);
  }

  /** A witness that the 201 ledgers are all that age alone can promise. */
  lemma ConservationIsTight(th: T.Threshold) returns (reg: Registry, log: Log, now: nat, t: nat)
    ensures Mirrors(reg, log, now) && now == t + HISTORY_CUTOFF + 2
    ensures TotalWeightAt(reg, t) != Sum(KeysOf(log), LookupsAt(reg, t))
  {
    var a: Key := [];
    reg, log := BeyondTheWindow(th, a, [0]);
    now, t := 203, 1;
    SumSplit(KeysOf(log), LookupsAt(reg, t), a);
  }

  /** Every stored timeline stays within 202 entries. */
  lemma TimelinesAreBounded(reg: Registry, log: Log, now: nat, k: Key)
    requires Mirrors(reg, log, now)
    ensures |Hist(reg, k)| <= 202 && |reg.totalHist| <= 202
  {
    WritesAreOrdered(log, k, now);
    StorageIsBounded(KeyWrites(log, k), HISTORY_CUTOFF);
    StorageIsBounded(TotalWrites(log), HISTORY_CUTOFF);
  }

  // ---------------------------------------------------------------- at any age

  /** The total is the first to forget: a signer's timeline that has dropped entries
      still reaches back at least as far as the total's. */
  lemma TotalForgetsFirst(reg: Registry, log: Log, now: nat, k: Key)
    requires Mirrors(reg, log, now)
    requires Hist(reg, k) != FullRun(KeyWrites(log, k))
    ensures Hist(reg, k) != [] && reg.totalHist != []
    ensures Hist(reg, k)[0].ledger <= reg.totalHist[0].ledger
  {
    WritesAreOrdered(log, k, now);
    KeyWritesAreTotalWrites(log, k);
    BusierForgetsFirst(KeyWrites(log, k), TotalWrites(log), HISTORY_CUTOFF);
  }

  /** Wherever the total timeline still answers, however old the ledger, every answer of
      the registry is the truth. */
  lemma CoveredIsTrue(reg: Registry, log: Log, now: nat, k: Key, t: nat)
    requires Mirrors(reg, log, now)
    requires Covers(reg.totalHist, t)
    ensures SignerWeightAt(reg, k, t) == WeightAt(log, k, t)
    ensures TotalWeightAt(reg, t) == TotalAt(log, t)
  {
    WritesAreOrdered(log, k, now);
    KeyWritesAreTotalWrites(log, k);
    BusierCoversQuieter(KeyWrites(log, k), TotalWrites(log), HISTORY_CUTOFF, t);
    KeyWritesReplay(log, k, t);
    LookupIsTrueOrZero(reg, log, now, k, t);
  }

  /** A batch query is true or zero key by key, and true where the total still answers or
      inside the window. */
  lemma BatchIsTrue(reg: Registry, log: Log, now: nat, keys: seq<Key>, t: nat)
    requires Mirrors(reg, log, now)
    ensures var ws := SignerWeightsAt(reg, keys, t);
      && (forall i :: 0 <= i < |ws| ==> ws[i] == 0 || ws[i] == WeightAt(log, keys[i], t))
      && (now <= t + HISTORY_CUTOFF + 1 || Covers(reg.totalHist, t) ==>
           forall i :: 0 <= i < |ws| ==> ws[i] == WeightAt(log, keys[i], t))
  {
    var ws := SignerWeightsAt(reg, keys, t);
    forall i | 0 <= i < |ws|
      ensures ws[i] == 0 || ws[i] == WeightAt(log, keys[i], t)
      ensures now <= t + HISTORY_CUTOFF + 1 || Covers(reg.totalHist, t) ==> ws[i] == WeightAt(log, keys[i], t)
    {
      LookupIsTrueOrZero(reg, log, now, keys[i], t);
      if now <= t + HISTORY_CUTOFF + 1 {
        WindowIsTrue(reg, log, now, keys[i], t);
      } else if Covers(reg.totalHist, t) {
        CoveredIsTrue(reg, log, now, keys[i], t);
      }
    }
  }

  /** Conservation at any age, exactly: the stored total is the sum of the stored weights
      if and only if the total timeline reaches back to the ledger, or no signer's does
      with any weight. */
  lemma ConservationExactly(reg: Registry, log: Log, now: nat, t: nat)
    requires Mirrors(reg, log, now)
    ensures TotalWeightAt(reg, t) == Sum(KeysOf(log), LookupsAt(reg, t))
       <==> Covers(reg.totalHist, t) || forall k :: k in KeysOf(log) ==> SignerWeightAt(reg, k, t) == 0
  {
    if Covers(reg.totalHist, t) {
      forall k | k in KeysOf(log) ensures LookupsAt(reg, t)(k) == WeightsAt(log, t)(k) {
        CoveredIsTrue(reg, log, now, k, t);
      }
      SumCongruent(KeysOf(log), LookupsAt(reg, t), WeightsAt(log, t));
      CoveredIsTrue(reg, log, now, [], t);
    } else {
      LookupIsTrueOrZero(reg, log, now, [], t);
      SumZero(KeysOf(log), LookupsAt(reg, t));
      assert forall k :: LookupsAt(reg, t)(k) == SignerWeightAt(reg, k, t);
    }
  }

  // ---------------------------------------------------------------- enumeration

  function Info(reg: Registry, k: Key): SignerInfo {
    SignerInfo(k, SignerWeight(reg, k))
  }

  lemma {:induction false} ListedKeepsAll(reg: Registry, keys: seq<Key>)
    requires forall k :: k in keys ==> SignerWeight(reg, k) != 0
    ensures |Listed(reg, keys)| == |keys|
    ensures forall i :: 0 <= i < |keys| ==> Listed(reg, keys)[i] == Info(reg, keys[i])
  {
    if keys != [] {
      ListedKeepsAll(reg, Front(keys));
      assert Listed(reg, keys) == Listed(reg, Front(keys)) + [Info(reg, Last(keys))];
    }
  }

  function InfoKeys(infos: seq<SignerInfo>): (ks: seq<Key>)
    ensures |ks| == |infos|
    ensures forall i :: 0 <= i < |ks| ==> ks[i] == infos[i].key
  {
    seq(|infos|, i requires 0 <= i < |infos| => infos[i].key)
  }

  function InfoWeights(infos: seq<SignerInfo>): (ws: seq<u64>)
    ensures |ws| == |infos|
    ensures forall i :: 0 <= i < |ws| ==> ws[i] == infos[i].weight
  {
    seq(|infos|, i requires 0 <= i < |infos| => infos[i].weight)
  }

  /** `list_signers` lists exactly the keys with weight, in ascending order, with their
      true current weights. */
  lemma ListingIsComplete(reg: Registry, log: Log, now: nat)
    requires Mirrors(reg, log, now)
    ensures var infos := Listed(reg, reg.allSigners);
      && InfoKeys(infos) == reg.allSigners && Sorted(InfoKeys(infos))
      && (forall k :: k in InfoKeys(infos) <==> WeightNow(log, k) != 0)
      && (forall i :: 0 <= i < |infos| ==> infos[i].weight == WeightNow(log, infos[i].key))
  {
    var keys := reg.allSigners;
    forall k | k in keys ensures SignerWeight(reg, k) == WeightNow(log, k) != 0 {
      CurrentIsTrue(reg, log, now, k);
    }
    ListedKeepsAll(reg, keys);
  }

  /** And the listed weights sum to the stored total. */
  lemma ListingSumsToTotal(reg: Registry, log: Log, now: nat)
    requires Mirrors(reg, log, now)
    ensures SeqSum(InfoWeights(Listed(reg, reg.allSigners))) == TotalWeight(reg) == TotalNow(log)
  {
    var infos := Listed(reg, reg.allSigners);
    ListingIsComplete(reg, log, now);
    assert TotalWeight(reg) == TotalNow(log) by { CurrentIsTrue(reg, log, now, []); }
    SortedIsDistinct(reg.allSigners);
    SeqSumIsSum(InfoKeys(infos), InfoWeights(infos), WeightsNow(log));
    ListedWeighTotal(reg, log, now);
  }

  lemma ListedWeighTotal(reg: Registry, log: Log, now: nat)
    requires Mirrors(reg, log, now)
    ensures Sum(Elements(reg.allSigners), WeightsNow(log)) == TotalNow(log)
  {
    forall k | k in reg.allSigners ensures k in KeysOf(log) {
      if k !in KeysOf(log) {
        UnnamedIsWeightless(log, k, 0);
      }
    }
    SumSupport(Elements(reg.allSigners), KeysOf(log), WeightsNow(log));
  }
}
