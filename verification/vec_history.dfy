/** The pruned timeline's code (packages/shared/src/vec_history.rs). A store's entries
    are loaded, edited as one vector and saved back, so each method takes the loaded
    vector and returns the one to save. */
module VecHistory {
  import opened Ints
  import opened History

  method Push(loaded: seq<Entry>, ledger: u32, value: u64, cutoff: u32) returns (saved: seq<Entry>)
    ensures saved == Pushed(loaded, ledger, value, cutoff)
  {
    var entries := loaded;
    if |entries| > 0 && entries[|entries| - 1].ledger == ledger {
      entries := entries[|entries| - 1 := Entry(ledger, value)];
      assert entries == Front(loaded) + [Entry(ledger, value)];
      saved := Prune(entries, ledger, cutoff);
      return;
    }
    entries := entries + [Entry(ledger, value)];
    saved := Prune(entries, ledger, cutoff);
  }

  method Prune(entries: seq<Entry>, ledger: u32, cutoff: u32) returns (kept: seq<Entry>)
    ensures kept == Pruned(entries, ledger, cutoff)
  {
    PrunedByCount(entries, ledger, cutoff);
    if |entries| <= 1 {
      return entries;
    }
    var cutoffLedger := SaturatingSub(ledger, cutoff);
    var oldCount: nat := 0;
    while oldCount < |entries| && entries[oldCount].ledger < cutoffLedger
      invariant oldCount <= |entries|
      invariant forall i :: 0 <= i < oldCount ==> entries[i].ledger < cutoffLedger
    {
      oldCount := oldCount + 1;
    }
    OldCountIsFirstYoung(entries, cutoffLedger, oldCount);
    kept := entries;
    if oldCount >= 2 {
      kept := entries[oldCount - 1..];
    }
  }

  /** Binary search with a ceiling midpoint. Termination and `mid - 1` staying a `nat`
      are part of what is verified here. */
  method LookupAt(entries: seq<Entry>, target: u32) returns (value: u64)
    requires Ascending(entries)
    ensures value == At(entries, target)
  {
    if |entries| == 0 {
      return 0;
    }
    if entries[|entries| - 1].ledger <= target {
      return entries[|entries| - 1].value;
    }
    if target < entries[0].ledger {
      AtBeforeFirst(entries, target);
      return 0;
    }
    var lo: nat, hi: nat := 0, |entries| - 1;
    while lo < hi
      invariant lo <= hi < |entries|
      invariant entries[lo].ledger <= target
      invariant forall i :: hi < i < |entries| ==> target < entries[i].ledger
      decreases hi - lo
    {
      var mid: nat := lo + (hi - lo + 1) / 2;
      if entries[mid].ledger <= target {
        lo := mid;
      } else {
        hi := mid - 1;
      }
    }
    AtFinds(entries, target, lo);
    value := entries[lo].value;
  }
}
