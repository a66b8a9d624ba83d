/** Weight timelines as values: what one push does, which entries pruning keeps,
    and what a lookup at a past ledger returns.

    `FullRun` is the timeline nobody prunes (packages/shared/src/checkpoint.rs);
    `PrunedRun` is the one the registry stores (packages/shared/src/vec_history.rs).
    `LastWrite` knows neither: it reads the answer off the sequence of writes. */
module History {
  import opened Ints

  datatype Entry = Entry(ledger: nat, value: u64)

  ghost predicate Ascending(h: seq<Entry>) {
    forall i, j :: 0 <= i < j < |h| ==> h[i].ledger < h[j].ledger
  }

  function Last<T>(s: seq<T>): T
    requires s != []
  {
    s[|s| - 1]
  }

  function Front<T>(s: seq<T>): seq<T>
    requires s != []
  {
    s[..|s| - 1]
  }

  /** The newest value, or 0 on an empty timeline. */
  function Latest(h: seq<Entry>): u64 {
    if h == [] then 0 else Last(h).value
  }

  /** The value at or before ledger `t`, found by scanning back from the newest entry. */
  function At(h: seq<Entry>, t: nat): u64 {
    if h == [] then 0
    else if Last(h).ledger <= t then Last(h).value
    else At(Front(h), t)
  }

  /** One unpruned push: coalesce with an entry of the same ledger, else append. */
  function Record(h: seq<Entry>, ledger: nat, value: u64): seq<Entry> {
    if h != [] && Last(h).ledger == ledger
    then Front(h) + [Entry(ledger, value)]
    else h + [Entry(ledger, value)]
  }

  /** How many leading entries lie strictly before `cutoffLedger`. */
  function OldCount(h: seq<Entry>, cutoffLedger: nat): (n: nat)
    ensures n <= |h|
  {
    if h == [] || cutoffLedger <= h[0].ledger then 0
    else 1 + OldCount(h[1..], cutoffLedger)
  }

  /** How many entries a prune at `ledger` drains: all the old ones but the newest. */
  function Drained(h: seq<Entry>, ledger: nat, cutoff: nat): (n: nat)
    ensures n <= |h|
  {
    var oldCount := OldCount(h, SaturatingSub(ledger, cutoff));
    if |h| > 1 && oldCount >= 2 then oldCount - 1 else 0
  }

  function Pruned(h: seq<Entry>, ledger: nat, cutoff: nat): seq<Entry> {
    h[Drained(h, ledger, cutoff)..]
  }

  function Pushed(h: seq<Entry>, ledger: nat, value: u64, cutoff: nat): seq<Entry> {
    Pruned(Record(h, ledger, value), ledger, cutoff)
  }

  // ---------------------------------------------------------------- pruning

  lemma PrunedByCount(h: seq<Entry>, ledger: nat, cutoff: nat)
    ensures var n := OldCount(h, SaturatingSub(ledger, cutoff));
      Pruned(h, ledger, cutoff) == if |h| > 1 && n >= 2 then h[n - 1..] else h
  {
  }

  lemma {:induction false} OldCountIsFirstYoung(h: seq<Entry>, cutoffLedger: nat, n: nat)
    requires n <= |h|
    requires forall i :: 0 <= i < n ==> h[i].ledger < cutoffLedger
    requires n < |h| ==> cutoffLedger <= h[n].ledger
    ensures OldCount(h, cutoffLedger) == n
  {
    if n > 0 {
      OldCountIsFirstYoung(h[1..], cutoffLedger, n - 1);
    }
  }

  lemma {:induction false} OldCountSplits(h: seq<Entry>, cutoffLedger: nat, i: nat)
    requires Ascending(h) && i < |h|
    ensures h[i].ledger < cutoffLedger <==> i < OldCount(h, cutoffLedger)
  {
    if i > 0 {
      assert h[0].ledger < h[i].ledger;
      OldCountSplits(h[1..], cutoffLedger, i - 1);
    }
  }

  /** Exactly when it drains something, the oldest entry kept is older than the cutoff;
      every other entry kept is younger. */
  lemma DrainSplits(h: seq<Entry>, ledger: nat, cutoff: nat)
    requires Ascending(h) && h != [] && Last(h).ledger == ledger
    ensures var d := Drained(h, ledger, cutoff);
      && d < |h|
      && (d > 0 ==> h[d].ledger + cutoff < ledger)
      && (d + 1 < |h| ==> ledger <= h[d + 1].ledger + cutoff)
  {
    var c, d := SaturatingSub(ledger, cutoff), Drained(h, ledger, cutoff);
    OldCountSplits(h, c, |h| - 1);
    OldCountSplits(h, c, d);
    if d + 1 < |h| {
      OldCountSplits(h, c, d + 1);
    }
  }

  // ---------------------------------------------------------------- writes

  datatype Write = Write(ledger: nat, value: u64)

  /** Ledgers never decrease along a run. */
  ghost predicate Ordered(ws: seq<Write>) {
    forall i, j :: 0 <= i <= j < |ws| ==> ws[i].ledger <= ws[j].ledger
  }

  ghost predicate OrderedUpTo(ws: seq<Write>, now: nat) {
    Ordered(ws) && (ws != [] ==> Last(ws).ledger <= now)
  }

  /** The value of the last write made at or before ledger `t`. */
  function LastWrite(ws: seq<Write>, t: nat): u64 {
    if ws == [] then 0
    else if Last(ws).ledger <= t then Last(ws).value
    else LastWrite(Front(ws), t)
  }

  function FullRun(ws: seq<Write>): seq<Entry> {
    if ws == [] then [] else Record(FullRun(Front(ws)), Last(ws).ledger, Last(ws).value)
  }

  function PrunedRun(ws: seq<Write>, cutoff: nat): seq<Entry> {
    if ws == [] then []
    else Pushed(PrunedRun(Front(ws), cutoff), Last(ws).ledger, Last(ws).value, cutoff)
  }

  // ---------------------------------------------------------------- lookups

  /** What the scan finds, said by index: the last entry at or before `t`. */
  lemma {:induction false} AtFinds(h: seq<Entry>, t: nat, i: nat)
    requires Ascending(h) && i < |h|
    requires h[i].ledger <= t
    requires i + 1 < |h| ==> t < h[i + 1].ledger
    ensures At(h, t) == h[i].value
  {
    if i + 1 < |h| {
      assert h[i + 1].ledger <= Last(h).ledger;
      AtFinds(Front(h), t, i);
    }
  }

  lemma {:induction false} AtBeforeFirst(h: seq<Entry>, t: nat)
    requires Ascending(h)
    requires h != [] ==> t < h[0].ledger
    ensures At(h, t) == 0
  {
    if h != [] {
      assert h[0].ledger <= Last(h).ledger;
      AtBeforeFirst(Front(h), t);
    }
  }

  /** Dropping the oldest `d` entries leaves every lookup from the first survivor on,
      and turns every earlier one into 0. */
  lemma {:induction false} AtSuffix(h: seq<Entry>, d: nat, t: nat)
    requires Ascending(h) && d <= |h|
    ensures At(h[d..], t) == if d < |h| && h[d].ledger <= t then At(h, t) else 0
  {
    if d < |h| {
      assert Last(h[d..]) == Last(h) && h[d].ledger <= Last(h).ledger;
      assert Front(h[d..]) == Front(h)[d..];
      AtSuffix(Front(h), d, t);
    }
  }

  lemma AtRecord(h: seq<Entry>, ledger: nat, value: u64, t: nat)
    requires Ascending(h)
    requires h != [] ==> Last(h).ledger <= ledger
    ensures var h' := Record(h, ledger, value);
      && Ascending(h') && h' != [] && Last(h') == Entry(ledger, value)
      && At(h', t) == if ledger <= t then value else At(h, t)
  {
    var h' := Record(h, ledger, value);
    assert Front(h') == if h != [] && Last(h).ledger == ledger then Front(h) else h;
  }

  // ---------------------------------------------------------------- the two runs

  /** The unpruned timeline answers every lookup with the last write before it. */
  lemma {:induction false} FullRunIsLastWrite(ws: seq<Write>, t: nat)
    requires Ordered(ws)
    ensures var f := FullRun(ws);
      && Ascending(f) && (f == [] <==> ws == [])
      && (f != [] ==> Last(f) == Entry(Last(ws).ledger, Last(ws).value))
      && At(f, t) == LastWrite(ws, t)
  {
    if ws != [] {
      FullRunIsLastWrite(Front(ws), t);
      AtRecord(FullRun(Front(ws)), Last(ws).ledger, Last(ws).value, t);
    }
  }

  /** `p` is `f` without its `d` oldest entries, and if any were dropped then the
      oldest one kept is itself more than `cutoff` ledgers behind the newest. */
  ghost predicate KeepsTail(p: seq<Entry>, f: seq<Entry>, d: nat, cutoff: nat) {
    && d <= |f|
    && p == f[d..]
    && (f != [] ==> p != [])
    && (d > 0 ==> p[0].ledger + cutoff < Last(f).ledger)
  }

  lemma DropDrop<T>(s: seq<T>, d: nat, n: nat)
    requires d + n <= |s|
    ensures s[d..][n..] == s[d + n..]
  {
  }

  /** The same just after a write at `ledger`, before the prune that follows it. */
  ghost predicate ReadyToPrune(p: seq<Entry>, f: seq<Entry>, d: nat, ledger: nat, cutoff: nat) {
    && d < |f|
    && p == f[d..]
    && Last(f).ledger == ledger
    && Ascending(p)
    && (d > 0 ==> p[0].ledger + cutoff < ledger)
  }

  lemma RecordSuffix(p: seq<Entry>, f: seq<Entry>, d: nat, ledger: nat, value: u64)
    requires d <= |f| && p == f[d..] && (f != [] ==> p != [])
    ensures var p1, f1 := Record(p, ledger, value), Record(f, ledger, value);
      && d < |f1| && p1 == f1[d..]
      && (p != [] ==> p1[0].ledger == p[0].ledger)
  {
    if f != [] {
      assert Last(p) == Last(f);
      assert Front(p) == Front(f)[d..];
    }
  }

  lemma SuffixAscends(f: seq<Entry>, d: nat)
    requires Ascending(f) && d <= |f|
    ensures Ascending(f[d..])
    ensures d < |f| ==> Last(f[d..]) == Last(f)
  {
  }

  lemma RecordKeepsTail(p: seq<Entry>, f: seq<Entry>, d: nat, ledger: nat, value: u64, cutoff: nat)
    requires KeepsTail(p, f, d, cutoff) && Ascending(f)
    requires f != [] ==> Last(f).ledger <= ledger
    ensures ReadyToPrune(Record(p, ledger, value), Record(f, ledger, value), d, ledger, cutoff)
  {
    var p1, f1 := Record(p, ledger, value), Record(f, ledger, value);
    assert d < |f1| && p1 == f1[d..] && (p != [] ==> p1[0].ledger == p[0].ledger) by {
      RecordSuffix(p, f, d, ledger, value);
    }
    assert Ascending(p1) && Last(f1).ledger == ledger by {
      SuffixAscends(f, d);
      AtRecord(p, ledger, value, 0);
      AtRecord(f, ledger, value, 0);
    }
  }

  lemma PruneKeepsTail(p: seq<Entry>, f: seq<Entry>, d: nat, ledger: nat, cutoff: nat) returns (e: nat)
    requires ReadyToPrune(p, f, d, ledger, cutoff)
    ensures KeepsTail(Pruned(p, ledger, cutoff), f, e, cutoff)
  {
    var n := Drained(p, ledger, cutoff);
    DrainSplits(p, ledger, cutoff);
    DropDrop(f, d, n);
    e := d + n;
  }

  lemma PushKeepsTail(p: seq<Entry>, f: seq<Entry>, d: nat, w: Write, cutoff: nat) returns (e: nat)
    requires KeepsTail(p, f, d, cutoff) && Ascending(f)
    requires f != [] ==> Last(f).ledger <= w.ledger
    ensures KeepsTail(Pushed(p, w.ledger, w.value, cutoff), Record(f, w.ledger, w.value), e, cutoff)
  {
    var p1, f1 := Record(p, w.ledger, w.value), Record(f, w.ledger, w.value);
    assert ReadyToPrune(p1, f1, d, w.ledger, cutoff) by {
      RecordKeepsTail(p, f, d, w.ledger, w.value, cutoff);
    }
    e := PruneKeepsTail(p1, f1, d, w.ledger, cutoff);
  }

  /** Whatever the writes, the stored timeline is a tail of the unpruned one. */
  lemma {:induction false} PrunedRunKeepsTail(ws: seq<Write>, cutoff: nat) returns (d: nat)
    requires Ordered(ws)
    ensures KeepsTail(PrunedRun(ws, cutoff), FullRun(ws), d, cutoff)
  {
    if ws == [] {
      d := 0;
    } else {
      var prior := Front(ws);
      d := PrunedRunKeepsTail(prior, cutoff);
      FullRunIsLastWrite(prior, 0);
      d := PushKeepsTail(PrunedRun(prior, cutoff), FullRun(prior), d, Last(ws), cutoff);
    }
  }

  lemma PrunedRunEndsAtLastWrite(ws: seq<Write>, cutoff: nat)
    requires Ordered(ws)
    ensures var p := PrunedRun(ws, cutoff);
      && Ascending(p) && (p == [] <==> ws == [])
      && (ws != [] ==> Last(p) == Entry(Last(ws).ledger, Last(ws).value))
  {
    var _ := PrunedRunKeepsTail(ws, cutoff);
    FullRunIsLastWrite(ws, 0);
  }

  /** Ledger `t` is not older than everything the timeline still holds. */
  predicate Covers(h: seq<Entry>, t: nat) {
    h != [] && h[0].ledger <= t
  }

  /** Exact or zero, at every ledger however old: a pruned lookup is the true value
      when the oldest survivor reaches back that far, and 0 otherwise. So it is wrong
      exactly when the timeline does not reach back and the true value is not 0. */
  lemma PrunedLookup(ws: seq<Write>, cutoff: nat, t: nat)
    requires Ordered(ws)
    ensures var p := PrunedRun(ws, cutoff);
      && At(p, t) == (if Covers(p, t) then LastWrite(ws, t) else 0)
      && (At(p, t) == LastWrite(ws, t) <==> Covers(p, t) || LastWrite(ws, t) == 0)
  {
    var d := PrunedRunKeepsTail(ws, cutoff);
    FullRunIsLastWrite(ws, t);
    AtSuffix(FullRun(ws), d, t);
  }

  /** Pruned refines unpruned: from `now - cutoff - 1` on, every lookup agrees with
      the unpruned timeline, and so does the latest value. */
  lemma PrunedRefinesUnpruned(ws: seq<Write>, cutoff: nat, now: nat, t: nat)
    requires OrderedUpTo(ws, now)
    requires now <= t + cutoff + 1
    ensures At(PrunedRun(ws, cutoff), t) == At(FullRun(ws), t) == LastWrite(ws, t)
    ensures Latest(PrunedRun(ws, cutoff)) == Latest(FullRun(ws))
  {
    var d := PrunedRunKeepsTail(ws, cutoff);
    FullRunIsLastWrite(ws, t);
    PrunedLookup(ws, cutoff, t);
    var p, f := PrunedRun(ws, cutoff), FullRun(ws);
    if f != [] && !Covers(p, t) {
      assert d == 0;
      AtBeforeFirst(f, t);
    }
  }

  /** One ledger further back the agreement is lost, for every cutoff. */
  lemma WindowIsTight(cutoff: nat) returns (ws: seq<Write>, now: nat, t: nat)
    ensures OrderedUpTo(ws, now) && now == t + cutoff + 2
    ensures At(PrunedRun(ws, cutoff), t) != At(FullRun(ws), t)
  {
    now, t := cutoff + 3, 1;
    var w1, w2, w3 := Write(1, 5), Write(2, 7), Write(now, 9);
    ws := [] + [w1] + [w2] + [w3];
    assert Ordered(ws);
    assert At(FullRun(ws), t) == 5 by {
      Snoc([], w1, cutoff, t);
      Snoc([] + [w1], w2, cutoff, t);
      Snoc([] + [w1] + [w2], w3, cutoff, t);
      FullRunIsLastWrite(ws, t);
    }
    PrunedOfThree(w1, w2, w3, cutoff);
    AtBeforeFirst([Entry(2, 7), Entry(now, 9)], t);
  }

  lemma PrunedOfThree(w1: Write, w2: Write, w3: Write, cutoff: nat)
    requires w1.ledger == 1 && w2.ledger == 2 && w3.ledger == cutoff + 3
    ensures PrunedRun([] + [w1] + [w2] + [w3], cutoff)
         == [Entry(w2.ledger, w2.value), Entry(w3.ledger, w3.value)]
  {
    TwoOldEntries(Entry(1, w1.value), Entry(2, w2.value), Entry(w3.ledger, w3.value), cutoff);
    assert PrunedRun([] + [w1], cutoff) == [Entry(1, w1.value)] by { Snoc([], w1, cutoff, 0); }
    assert PrunedRun([] + [w1] + [w2], cutoff) == [Entry(1, w1.value), Entry(2, w2.value)] by {
      Snoc([] + [w1], w2, cutoff, 0);
    }
    Snoc([] + [w1] + [w2], w3, cutoff, 0);
  }

  /** One more write, for the reference and for the stored timeline. */
  lemma Snoc(ws: seq<Write>, w: Write, cutoff: nat, t: nat)
    ensures LastWrite(ws + [w], t) == if w.ledger <= t then w.value else LastWrite(ws, t)
    ensures PrunedRun(ws + [w], cutoff) == Pushed(PrunedRun(ws, cutoff), w.ledger, w.value, cutoff)
  {
    assert Front(ws + [w]) == ws;
  }

  lemma TwoOldEntries(a: Entry, b: Entry, c: Entry, cutoff: nat)
    requires a.ledger == 1 && b.ledger == 2 && c.ledger == cutoff + 3
    ensures Pushed([], 1, a.value, cutoff) == [a]
    ensures Pushed([a], 2, b.value, cutoff) == [a, b]
    ensures Pushed([a, b], c.ledger, c.value, cutoff) == [b, c]
  {
    assert Record([], 1, a.value) == [a];
    assert Record([a], 2, b.value) == [a, b];
    assert Record([a, b], c.ledger, c.value) == [a, b, c];
    assert OldCount([a, b], SaturatingSub(2, cutoff)) != 2;
    assert [a, b, c][1..] == [b, c] && [b, c][1..] == [c];
    assert OldCount([b, c], 3) == 1;
    assert OldCount([a, b, c], 3) == 2;
    assert Drained([a, b, c], c.ledger, cutoff) == 1;
  }

  // ---------------------------------------------------------------- storage bound

  lemma {:induction false} AscendingSpan(h: seq<Entry>, i: nat, j: nat)
    requires Ascending(h) && i <= j < |h|
    ensures h[i].ledger + (j - i) <= h[j].ledger
  {
    if i < j {
      AscendingSpan(h, i, j - 1);
    }
  }

  lemma DrainIsBounded(h: seq<Entry>, ledger: nat, cutoff: nat)
    requires Ascending(h) && h != [] && Last(h).ledger == ledger
    ensures |h| - Drained(h, ledger, cutoff) <= cutoff + 2
  {
    var d := Drained(h, ledger, cutoff);
    DrainSplits(h, ledger, cutoff);
    if d + 1 < |h| {
      AscendingSpan(h, d + 1, |h| - 1);
    }
  }

  /** A push leaves at most one entry older than the cutoff, hence at most
      `cutoff + 2` entries, whatever it found. */
  lemma PushedIsBounded(h: seq<Entry>, ledger: nat, value: u64, cutoff: nat)
    requires Ascending(h)
    requires h != [] ==> Last(h).ledger <= ledger
    ensures var p := Pushed(h, ledger, value, cutoff);
      && |p| <= cutoff + 2
      && forall i :: 1 <= i < |p| ==> ledger <= p[i].ledger + cutoff
  {
    var h1 := Record(h, ledger, value);
    AtRecord(h, ledger, value, 0);
    DrainIsBounded(h1, ledger, cutoff);
    DrainSplits(h1, ledger, cutoff);
    var p, d := Pushed(h, ledger, value, cutoff), Drained(h1, ledger, cutoff);
    forall i | 1 <= i < |p| ensures ledger <= p[i].ledger + cutoff {
      assert p[i] == h1[d + i];
      assert h1[d + 1].ledger <= h1[d + i].ledger;
    }
  }

  lemma StorageIsBounded(ws: seq<Write>, cutoff: nat)
    requires Ordered(ws)
    ensures |PrunedRun(ws, cutoff)| <= cutoff + 2
  {
    if ws != [] {
      var prior, w := Front(ws), Last(ws);
      var p := PrunedRun(prior, cutoff);
      assert Ascending(p) && (p != [] ==> Last(p).ledger <= w.ledger) by {
        PrunedRunEndsAtLastWrite(prior, cutoff);
      }
      PushedIsBounded(p, w.ledger, w.value, cutoff);
    }
  }

  // ---------------------------------------------------------------- who forgets first

  ghost function Ledgers(h: seq<Entry>): set<nat> {
    set e | e in h :: e.ledger
  }

  ghost function WriteLedgers(ws: seq<Write>): set<nat> {
    set w | w in ws :: w.ledger
  }

  lemma WriteLedgersSnoc(ws: seq<Write>, w: Write)
    ensures WriteLedgers(ws + [w]) == WriteLedgers(ws) + {w.ledger}
  {
    assert forall x :: x in ws + [w] <==> x in ws || x == w;
  }

  lemma RecordLedgers(h: seq<Entry>, ledger: nat, value: u64)
    ensures Ledgers(Record(h, ledger, value)) == Ledgers(h) + {ledger}
  {
    var e, h' := Entry(ledger, value), Record(h, ledger, value);
    if h != [] && Last(h).ledger == ledger {
      assert h == Front(h) + [Last(h)];
      assert forall x :: x in h <==> x in Front(h) || x == Last(h);
      assert forall x :: x in h' <==> x in Front(h) || x == e;
    } else {
      assert forall x :: x in h' <==> x in h || x == e;
    }
  }

  lemma {:induction false} FullRunLedgers(ws: seq<Write>)
    ensures Ledgers(FullRun(ws)) == WriteLedgers(ws)
  {
    if ws != [] {
      FullRunLedgers(Front(ws));
      RecordLedgers(FullRun(Front(ws)), Last(ws).ledger, Last(ws).value);
      assert ws == Front(ws) + [Last(ws)];
      WriteLedgersSnoc(Front(ws), Last(ws));
    }
  }

  /** All survivors but the oldest are younger than the cutoff. */
  lemma SurvivorsAreYoung(ws: seq<Write>, cutoff: nat, i: nat)
    requires Ordered(ws) && 1 <= i < |PrunedRun(ws, cutoff)|
    ensures Last(ws).ledger <= PrunedRun(ws, cutoff)[i].ledger + cutoff
  {
    var prior, w := Front(ws), Last(ws);
    var p := PrunedRun(prior, cutoff);
    assert Ascending(p) && (p != [] ==> Last(p).ledger <= w.ledger) by {
      PrunedRunEndsAtLastWrite(prior, cutoff);
    }
    PushedIsBounded(p, w.ledger, w.value, cutoff);
  }

  /** The oldest survivor is no older than any write older than the cutoff. */
  lemma OldestIsNewestOld(ws: seq<Write>, cutoff: nat, ledger: nat)
    requires Ordered(ws) && ledger in WriteLedgers(ws)
    requires ledger + cutoff < Last(ws).ledger
    ensures PrunedRun(ws, cutoff) != [] && ledger <= PrunedRun(ws, cutoff)[0].ledger
  {
    var d := PrunedRunKeepsTail(ws, cutoff);
    var p, f := PrunedRun(ws, cutoff), FullRun(ws);
    FullRunIsLastWrite(ws, 0);
    FullRunLedgers(ws);
    assert ledger in Ledgers(f);
    var i :| 0 <= i < |f| && f[i].ledger == ledger;
    assert i <= d by {
      if i > d {
        SurvivorsAreYoung(ws, cutoff, i - d);
      }
    }
  }

  /** A timeline that is written whenever another is forgets no later: if the quieter one
      has dropped anything, what it still holds reaches at least as far back. */
  lemma BusierForgetsFirst(quiet: seq<Write>, busy: seq<Write>, cutoff: nat)
    requires Ordered(quiet) && Ordered(busy)
    requires WriteLedgers(quiet) <= WriteLedgers(busy)
    requires PrunedRun(quiet, cutoff) != FullRun(quiet)
    ensures PrunedRun(quiet, cutoff) != [] && PrunedRun(busy, cutoff) != []
    ensures PrunedRun(quiet, cutoff)[0].ledger <= PrunedRun(busy, cutoff)[0].ledger
  {
    var d := PrunedRunKeepsTail(quiet, cutoff);
    var p, f := PrunedRun(quiet, cutoff), FullRun(quiet);
    FullRunIsLastWrite(quiet, 0);
    FullRunLedgers(quiet);
    assert p[0] == f[d] && f[d].ledger in Ledgers(f);
    assert Last(quiet).ledger in WriteLedgers(busy);
    OldestIsNewestOld(busy, cutoff, p[0].ledger);
  }

  /** So wherever the busier timeline still answers, the quieter one answers truly. */
  lemma BusierCoversQuieter(quiet: seq<Write>, busy: seq<Write>, cutoff: nat, t: nat)
    requires Ordered(quiet) && Ordered(busy)
    requires WriteLedgers(quiet) <= WriteLedgers(busy)
    requires Covers(PrunedRun(busy, cutoff), t)
    ensures At(PrunedRun(quiet, cutoff), t) == LastWrite(quiet, t)
  {
    if PrunedRun(quiet, cutoff) == FullRun(quiet) {
      FullRunIsLastWrite(quiet, t);
    } else {
      BusierForgetsFirst(quiet, busy, cutoff);
      PrunedLookup(quiet, cutoff, t);
    }
  }
}
