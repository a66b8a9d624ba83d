/** The true history of a registry: the signer events it has published, and the
    weights an observer replaying them would compute. Nothing here is pruned, cached
    or looked up; every claim about the stored timelines is made against it. */
module SignerLog {
  import opened Ints
  import opened History
  import opened Sums
  import opened Keys

  datatype SignerEvent =
    | SignerAdded(ledger: nat, key: Key, weight: u64)
    | SignerRemoved(ledger: nat, key: Key)
  {
    /** The key's weight once the event has happened. */
    function NewWeight(): u64 {
      if SignerAdded? then weight else 0
    }
  }

  type Log = seq<SignerEvent>

  ghost predicate LogOrdered(log: Log) {
    forall i, j :: 0 <= i <= j < |log| ==> log[i].ledger <= log[j].ledger
  }

  ghost predicate LogUpTo(log: Log, now: nat) {
    LogOrdered(log) && (log != [] ==> Last(log).ledger <= now)
  }

  // ---------------------------------------------------------------- replay

  /** The weight `k` had at the end of ledger `t`. */
  function WeightAt(log: Log, k: Key, t: nat): u64 {
    if log == [] then 0
    else if Last(log).key == k && Last(log).ledger <= t then Last(log).NewWeight()
    else WeightAt(Front(log), k, t)
  }

  function WeightNow(log: Log, k: Key): u64 {
    if log == [] then 0
    else if Last(log).key == k then Last(log).NewWeight()
    else WeightNow(Front(log), k)
  }

  ghost function KeysOf(log: Log): set<Key> {
    set e | e in log :: e.key
  }

  ghost function WeightsAt(log: Log, t: nat): Key -> nat {
    k => WeightAt(log, k, t)
  }

  ghost function WeightsNow(log: Log): Key -> nat {
    k => WeightNow(log, k)
  }

  /** The summed weight, at the end of ledger `t`, of every key ever named. */
  ghost function TotalAt(log: Log, t: nat): nat {
    Sum(KeysOf(log), WeightsAt(log, t))
  }

  ghost function TotalNow(log: Log): nat {
    Sum(KeysOf(log), WeightsNow(log))
  }

  /** The running total has never passed 64 bits. */
  ghost predicate Bounded(log: Log) {
    log == [] || (Bounded(Front(log)) && TotalNow(log) <= U64_MAX)
  }

  // ---------------------------------------------------------------- replay lemmas

  lemma KeysOfSnoc(log: Log, e: SignerEvent)
    ensures KeysOf(log + [e]) == KeysOf(log) + {e.key}
  {
    assert forall x :: x in log + [e] <==> x in log || x == e;
  }

  lemma WeightSnoc(log: Log, e: SignerEvent, k: Key, t: nat)
    ensures WeightAt(log + [e], k, t)
         == if e.key == k && e.ledger <= t then e.NewWeight() else WeightAt(log, k, t)
    ensures WeightNow(log + [e], k) == if e.key == k then e.NewWeight() else WeightNow(log, k)
  {
    assert Front(log + [e]) == log;
  }

  lemma {:induction false} UnnamedIsWeightless(log: Log, k: Key, t: nat)
    requires k !in KeysOf(log)
    ensures WeightAt(log, k, t) == 0 && WeightNow(log, k) == 0
  {
    if log != [] {
      assert log == Front(log) + [Last(log)];
      KeysOfSnoc(Front(log), Last(log));
      UnnamedIsWeightless(Front(log), k, t);
    }
  }

  /** From the newest event's ledger on, the weight is the current one. */
  lemma {:induction false} WeightSettles(log: Log, k: Key, t: nat)
    requires LogUpTo(log, t)
    ensures WeightAt(log, k, t) == WeightNow(log, k)
  {
    if log != [] {
      WeightSettles(Front(log), k, t);
    }
  }

  lemma TotalSettles(log: Log, t: nat)
    requires LogUpTo(log, t)
    ensures TotalAt(log, t) == TotalNow(log)
  {
    forall k | k in KeysOf(log) ensures WeightsAt(log, t)(k) == WeightsNow(log)(k) {
      WeightSettles(log, k, t);
    }
    SumCongruent(KeysOf(log), WeightsAt(log, t), WeightsNow(log));
  }

  /** Any set of keys weighs at most the total. */
  lemma PartOfTotal(log: Log, ks: set<Key>, t: nat)
    ensures Sum(ks, WeightsAt(log, t)) <= TotalAt(log, t)
  {
    var all := KeysOf(log) + ks;
    forall k | k in all - KeysOf(log) ensures WeightsAt(log, t)(k) == 0 {
      UnnamedIsWeightless(log, k, t);
    }
    SumSupport(KeysOf(log), all, WeightsAt(log, t));
    SumSubset(ks, all, WeightsAt(log, t));
  }

  /** The total in terms of any key set that includes the named ones. */
  lemma TotalOver(log: Log, ks: set<Key>, t: nat)
    requires KeysOf(log) <= ks
    ensures Sum(ks, WeightsAt(log, t)) == TotalAt(log, t)
    ensures Sum(ks, WeightsNow(log)) == TotalNow(log)
  {
    forall k | k in ks - KeysOf(log) ensures WeightAt(log, k, t) == 0 && WeightNow(log, k) == 0 {
      UnnamedIsWeightless(log, k, t);
    }
    SumSupport(KeysOf(log), ks, WeightsAt(log, t));
    SumSupport(KeysOf(log), ks, WeightsNow(log));
  }

  /** What one event does to the totals. */
  lemma TotalSnoc(log: Log, e: SignerEvent, t: nat)
    ensures TotalNow(log + [e]) + WeightNow(log, e.key) == TotalNow(log) + e.NewWeight()
    ensures t < e.ledger ==> TotalAt(log + [e], t) == TotalAt(log, t)
  {
    var next := log + [e];
    var ks := KeysOf(next);
    KeysOfSnoc(log, e);
    TotalOver(log, ks, t);
    forall k ensures WeightNow(next, k) == if k == e.key then e.NewWeight() else WeightNow(log, k) {
      WeightSnoc(log, e, k, t);
    }
    SumUpdate(ks, WeightsNow(log), WeightsNow(next), e.key);
    if t < e.ledger {
      forall k | k in ks ensures WeightsAt(next, t)(k) == WeightsAt(log, t)(k) {
        WeightSnoc(log, e, k, t);
      }
      SumCongruent(ks, WeightsAt(next, t), WeightsAt(log, t));
    }
  }

  // ---------------------------------------------------------------- later events

  /** Events after ledger `t` do not touch what was true at `t`. */
  lemma {:induction false} LaterEventsDoNotMatter(log: Log, more: Log, k: Key, t: nat)
    requires forall e :: e in more ==> t < e.ledger
    ensures WeightAt(log + more, k, t) == WeightAt(log, k, t)
    ensures TotalAt(log + more, t) == TotalAt(log, t)
    decreases |more|
  {
    if more == [] {
      assert log + more == log;
    } else {
      var less, e := Front(more), Last(more);
      assert more == less + [e] && e in more;
      assert forall x :: x in less ==> x in more;
      LaterEventsDoNotMatter(log, less, k, t);
      assert log + more == (log + less) + [e];
      WeightSnoc(log + less, e, k, t);
      TotalSnoc(log + less, e, t);
    }
  }

  // ---------------------------------------------------------------- timeline writes

  /** Removing a signer that has no weight publishes an event but writes nothing. */
  predicate Effective(log: Log, e: SignerEvent) {
    e.SignerAdded? || WeightNow(log, e.key) != 0
  }

  /** The writes that replay makes to one signer's timeline. */
  function KeyWrites(log: Log, k: Key): seq<Write> {
    if log == [] then []
    else
      var prior, e := Front(log), Last(log);
      if e.key == k && Effective(prior, e)
      then KeyWrites(prior, k) + [Write(e.ledger, e.NewWeight())]
      else KeyWrites(prior, k)
  }

  /** The writes that replay makes to the running-total timeline. */
  ghost function TotalWrites(log: Log): seq<Write>
    requires Bounded(log)
  {
    if log == [] then []
    else
      var prior, e := Front(log), Last(log);
      if Effective(prior, e)
      then TotalWrites(prior) + [Write(e.ledger, TotalNow(log))]
      else TotalWrites(prior)
  }

  lemma OrderedSnoc(ws: seq<Write>, w: Write)
    requires OrderedUpTo(ws, w.ledger)
    ensures OrderedUpTo(ws + [w], w.ledger)
  {
  }

  lemma {:induction false} WritesAreOrdered(log: Log, k: Key, now: nat)
    requires LogUpTo(log, now) && Bounded(log)
    ensures OrderedUpTo(KeyWrites(log, k), now)
    ensures OrderedUpTo(TotalWrites(log), now)
  {
    if log != [] {
      var e := Last(log);
      WritesAreOrdered(Front(log), k, e.ledger);
      OrderedSnoc(KeyWrites(Front(log), k), Write(e.ledger, e.NewWeight()));
      OrderedSnoc(TotalWrites(Front(log)), Write(e.ledger, TotalNow(log)));
    }
  }

  lemma LastWriteSnoc(ws: seq<Write>, w: Write, t: nat)
    ensures LastWrite(ws + [w], t) == if w.ledger <= t then w.value else LastWrite(ws, t)
  {
    Snoc(ws, w, 0, t);
  }

  /** The per-signer writes tell the signer's true weight at every ledger. */
  lemma {:induction false} KeyWritesReplay(log: Log, k: Key, t: nat)
    requires LogOrdered(log)
    ensures LastWrite(KeyWrites(log, k), t) == WeightAt(log, k, t)
  {
    if log != [] {
      var prior, e := Front(log), Last(log);
      KeyWritesReplay(prior, k, t);
      LastWriteSnoc(KeyWrites(prior, k), Write(e.ledger, e.NewWeight()), t);
      if e.key == k && !Effective(prior, e) && e.ledger <= t {
        WeightSettles(prior, k, t);
      }
    }
  }

  lemma TotalAtSnoc(log: Log, e: SignerEvent, t: nat)
    requires LogOrdered(log + [e])
    ensures TotalAt(log + [e], t)
         == if Effective(log, e) && e.ledger <= t then TotalNow(log + [e]) else TotalAt(log, t)
  {
    TotalSnoc(log, e, t);
    if e.ledger <= t {
      TotalSettles(log + [e], t);
      assert forall i :: 0 <= i < |log| ==> (log + [e])[i] == log[i];
      TotalSettles(log, t);
    }
  }

  /** The running-total writes tell the sum of all true weights at every ledger. */
  lemma {:induction false} TotalWritesReplay(log: Log, t: nat)
    requires LogOrdered(log) && Bounded(log)
    ensures LastWrite(TotalWrites(log), t) == TotalAt(log, t)
  {
    if log == [] {
      assert KeysOf(log) == {};
    } else {
      var prior, e := Front(log), Last(log);
      assert log == prior + [e];
      TotalWritesReplay(prior, t);
      LastWriteSnoc(TotalWrites(prior), Write(e.ledger, TotalNow(log)), t);
      TotalAtSnoc(prior, e, t);
    }
  }

  /** Every write to a signer's timeline is accompanied by one to the total's. */
  lemma {:induction false} KeyWritesAreTotalWrites(log: Log, k: Key)
    requires Bounded(log)
    ensures WriteLedgers(KeyWrites(log, k)) <= WriteLedgers(TotalWrites(log))
  {
    if log != [] {
      var prior, e := Front(log), Last(log);
      KeyWritesAreTotalWrites(prior, k);
      WriteLedgersSnoc(KeyWrites(prior, k), Write(e.ledger, e.NewWeight()));
      WriteLedgersSnoc(TotalWrites(prior), Write(e.ledger, TotalNow(log)));
    }
  }
}
