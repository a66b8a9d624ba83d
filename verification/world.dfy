/** Whole runs: ledgers advance, signers and the threshold change, the admin role moves,
    and anyone submits envelopes, in any order. A call that fails or panics leaves the
    world as it was. */
module World {
  import opened Ints
  import opened History
  import opened Sums
  import opened Keys
  import opened SignerLog
  import opened Registry
  import opened Quorum
  import opened Admin
  import T = Threshold
  import V = Verification
  import H = Handler

  datatype World = World(
    now: u32,
    gov: AdminState,
    reg: Registry,
    handler: H.HandlerState,
    log: Log)

  datatype Step =
    | AdvanceLedger(ledgers: nat)
    | AddSignerCall(auth: Auth, key: Key, weight: u64)
    | RemoveSignerCall(auth: Auth, key: Key)
    | SetThresholdCall(auth: Auth, numerator: u64, denominator: u64)
    | AdminCall(step: AdminStep)
    | Submit(submission: V.Submission)

  predicate Initial(w: World) {
    && w.gov.pending.None?
    && w.reg == Empty(w.reg.threshold)
    && w.handler == H.HandlerState({}, map[], [])
    && w.log == []
  }

  /** The submission passes every check of the handler. */
  predicate Accepts(host: H.Host, w: World, step: Step) {
    step.Submit? && H.Screen(host, w.reg, w.handler, w.now, step.submission).None?
  }

  function ApplyAdd(w: World, auth: Auth, key: Key, weight: u64): World {
    if w.gov.admin !in auth || weight == 0 then w
    else
      match WithSigner(w.reg, w.now, key, weight)
      case None => w
      case Some(reg) => w.(reg := reg, log := w.log + [SignerAdded(w.now, key, weight)])
  }

  function ApplyRemove(w: World, auth: Auth, key: Key): World {
    if w.gov.admin !in auth then w
    else
      match WithoutSigner(w.reg, w.now, key)
      case None => w
      case Some(reg) => w.(reg := reg, log := w.log + [SignerRemoved(w.now, key)])
  }

  function Apply(host: H.Host, w: World, step: Step): World {
    match step
    case AdvanceLedger(n) => if w.now + n <= U32_MAX then w.(now := w.now + n) else w
    case AddSignerCall(auth, key, weight) => ApplyAdd(w, auth, key, weight)
    case RemoveSignerCall(auth, key) => ApplyRemove(w, auth, key)
    case SetThresholdCall(auth, numerator, denominator) =>
      if w.gov.admin !in auth || T.Check(numerator, denominator).Some? then w
      else w.(reg := w.reg.(threshold := T.Fraction(numerator, denominator)))
    case AdminCall(a) => w.(gov := ApplyAdmin(w.gov, a))
    case Submit(s) => w.(handler := H.Handle(host, w.reg, w.handler, w.now, s))
  }

  function Run(host: H.Host, w: World, steps: seq<Step>): World {
    if steps == [] then w
    else Apply(host, Run(host, w, Front(steps)), Last(steps))
  }

  lemma {:induction false} RunSplit(host: H.Host, w: World, a: seq<Step>, b: seq<Step>)
    ensures Run(host, w, a + b) == Run(host, Run(host, w, a), b)
    decreases |b|
  {
    if b == [] {
      assert a + b == a;
    } else {
      assert Front(a + b) == a + Front(b) && Last(a + b) == Last(b);
      RunSplit(host, w, a, Front(b));
    }
  }

  // ---------------------------------------------------------------- every step

  ghost predicate Inv(w: World) {
    Mirrors(w.reg, w.log, w.now)
  }

  lemma InitialInv(w: World)
    requires Initial(w)
    ensures Inv(w)
  {
    EmptyMirrors(w.reg.threshold, w.now);
  }

  /** Time moves forward, and the log only grows, with events of the present ledger. */
  ghost predicate Follows(w: World, w': World) {
    && w.now <= w'.now
    && w.log <= w'.log
    && forall i :: |w.log| <= i < |w'.log| ==> w.now <= w'.log[i].ledger
  }

  lemma AddKeepsInv(w: World, auth: Auth, key: Key, weight: u64)
    requires Inv(w)
    ensures var w' := ApplyAdd(w, auth, key, weight); Inv(w') && Follows(w, w')
  {
    if weight > 0 && WithSigner(w.reg, w.now, key, weight).Some? {
      AddMirrors(w.reg, w.log, w.now, key, weight);
    }
  }

  lemma RemoveKeepsInv(w: World, auth: Auth, key: Key)
    requires Inv(w)
    ensures var w' := ApplyRemove(w, auth, key); Inv(w') && Follows(w, w')
  {
    RemoveMirrors(w.reg, w.log, w.now, key);
  }

  lemma StepKeepsInv(host: H.Host, w: World, step: Step)
    requires Inv(w)
    ensures var w' := Apply(host, w, step); Inv(w') && Follows(w, w')
  {
    match step
    case AdvanceLedger(n) => TimePasses(w.reg, w.log, w.now, w.now + n);
    case AddSignerCall(auth, key, weight) => AddKeepsInv(w, auth, key, weight);
    case RemoveSignerCall(auth, key) => RemoveKeepsInv(w, auth, key);
    case SetThresholdCall(auth, numerator, denominator) =>
      ThresholdIsApart(w.reg, Apply(host, w, step).reg.threshold, w.log, w.now);
    case AdminCall(a) =>
    case Submit(s) =>
  }

  lemma {:induction false} RunKeepsInv(host: H.Host, w: World, steps: seq<Step>)
    requires Inv(w)
    ensures var w' := Run(host, w, steps); Inv(w') && Follows(w, w')
  {
    if steps != [] {
      RunKeepsInv(host, w, Front(steps));
      StepKeepsInv(host, Run(host, w, Front(steps)), Last(steps));
    }
  }

  lemma NewEvents(w: World, w': World) returns (more: Log)
    requires Follows(w, w')
    ensures w'.log == w.log + more
    ensures forall e :: e in more ==> w.now <= e.ledger
  {
    more := w'.log[|w.log|..];
    forall e | e in more ensures w.now <= e.ledger {
      var j :| 0 <= j < |more| && more[j] == e;
      assert e == w'.log[|w.log| + j];
    }
  }

  /** A run seen from its `i`-th step. */
  lemma RunFrom(host: H.Host, w0: World, steps: seq<Step>, i: nat)
    requires Initial(w0) && i <= |steps|
    ensures var w, final := Run(host, w0, steps[..i]), Run(host, w0, steps);
      Inv(w) && Inv(final) && Follows(w, final)
  {
    var w := Run(host, w0, steps[..i]);
    assert Inv(w) by {
      InitialInv(w0);
      RunKeepsInv(host, w0, steps[..i]);
    }
    assert Run(host, w0, steps) == Run(host, w, steps[i..]) by {
      assert steps == steps[..i] + steps[i..];
      RunSplit(host, w0, steps[..i], steps[i..]);
    }
    RunKeepsInv(host, w, steps[i..]);
  }

  // ---------------------------------------------------------------- registry, every run

  /** In every reachable world and for every ledger of the window, the stored total is
      the sum of the stored weights of all keys ever registered, and it is the true one;
      no timeline holds more than 202 entries. */
  lemma ReachableConservation(host: H.Host, w0: World, steps: seq<Step>, k: Key, t: nat)
    requires Initial(w0)
    ensures var w := Run(host, w0, steps);
      && (w.now <= t + 201 ==>
           && TotalWeightAt(w.reg, t) == Sum(KeysOf(w.log), LookupsAt(w.reg, t)) == TotalAt(w.log, t)
           && SignerWeightAt(w.reg, k, t) == WeightAt(w.log, k, t))
      && |Hist(w.reg, k)| <= 202 && |w.reg.totalHist| <= 202
  {
    InitialInv(w0);
    RunKeepsInv(host, w0, steps);
    var w := Run(host, w0, steps);
    TimelinesAreBounded(w.reg, w.log, w.now, k);
    if w.now <= t + 201 {
      Conservation(w.reg, w.log, w.now, t);
      WindowIsTrue(w.reg, w.log, w.now, k, t);
    }
  }

  /** In every reachable world: the key list is sorted, holds exactly the keys with
      weight, and its weights sum to the stored total; adding a signer panics exactly
      when the new total would not fit 64 bits, and removing one never does. */
  lemma ReachableListing(host: H.Host, w0: World, steps: seq<Step>, k: Key, weight: u64)
    requires Initial(w0)
    ensures var w := Run(host, w0, steps);
      var infos := Listed(w.reg, w.reg.allSigners);
      && Sorted(InfoKeys(infos))
      && (forall key :: key in InfoKeys(infos) <==> WeightNow(w.log, key) != 0)
      && SeqSum(InfoWeights(infos)) == TotalWeight(w.reg) == TotalNow(w.log)
      && (WithSigner(w.reg, w.now, k, weight).None?
          <==> TotalNow(w.log) - WeightNow(w.log, k) + weight > U64_MAX)
      && WithoutSigner(w.reg, w.now, k).Some?
  {
    InitialInv(w0);
    RunKeepsInv(host, w0, steps);
    var w := Run(host, w0, steps);
    ListingIsComplete(w.reg, w.log, w.now);
    ListingSumsToTotal(w.reg, w.log, w.now);
    AddPanicsOnOverflow(w.reg, w.log, w.now, k, weight);
    RemoveMirrors(w.reg, w.log, w.now, k);
  }

  /** In every reachable world, the handler lets a fresh, decodable submission through
      exactly when it is backed by the true history. */
  lemma ReachableScreen(host: H.Host, w0: World, steps: seq<Step>, s: V.Submission)
    requires Initial(w0)
    ensures var w := Run(host, w0, steps);
      Accepts(host, w, Submit(s)) <==>
        && s.referenceBlock < w.now <= s.referenceBlock + 200
        && host.decode(s.envelope).Some?
        && (forall d :: d in AcceptedEvents(host, w0, steps) ==> d.eventId != host.decode(s.envelope).value.eventId)
        && Backed(host.scheme, w.log, w.reg.threshold, s)
  {
    InitialInv(w0);
    RunKeepsInv(host, w0, steps);
    AtMostOnce(host, w0, steps);
    var w := Run(host, w0, steps);
    H.ScreenPassesIff(host, w.reg, w.handler, w.now, s);
    if w.now <= s.referenceBlock + 200 {
      WindowAcceptsIffBacked(host.scheme, w.reg, w.log, w.now, s);
    }
    if host.decode(s.envelope).Some? {
      var id := host.decode(s.envelope).value.eventId;
      assert id in w.handler.seen <==> exists d :: d in AcceptedEvents(host, w0, steps) && d.eventId == id;
    }
  }

  /** And it lets through the listed signers: in every reachable world, if no signer has
      changed since a timely reference block, a fresh envelope validly signed by exactly
      the listed signers in listed order is accepted, unless the requirement is 0. */
  lemma ListedSignersGetThrough(host: H.Host, w0: World, steps: seq<Step>, s: V.Submission)
    requires Initial(w0)
    requires var w := Run(host, w0, steps);
      && s.referenceBlock < w.now <= s.referenceBlock + 200
      && LogUpTo(w.log, s.referenceBlock)
      && host.decode(s.envelope).Some?
      && host.decode(s.envelope).value.eventId !in w.handler.seen
      && s.signers == InfoKeys(Listed(w.reg, w.reg.allSigners))
      && |s.signatures| == |s.signers|
      && forall i :: 0 <= i < |s.signers| ==> host.scheme(s.envelope, s.signatures[i], s.signers[i]) == V.Good
    ensures var w := Run(host, w0, steps);
      Accepts(host, w, Submit(s))
      <==> TotalNow(w.log) * w.reg.threshold.numerator >= w.reg.threshold.denominator
  {
    InitialInv(w0);
    RunKeepsInv(host, w0, steps);
    var w := Run(host, w0, steps);
    H.ScreenPassesIff(host, w.reg, w.handler, w.now, s);
    ListedSignersAreAccepted(host.scheme, w.reg, w.log, w.now, s);
  }

  /** In every reachable world and at any age: conservation, the verdict and acceptance
      are right exactly as far back as the total timeline reaches, and beyond that a
      verdict is still right exactly when no weight could have mattered to it. */
  lemma ReachableExactly(host: H.Host, w0: World, steps: seq<Step>, s: V.Submission, t: nat)
    requires Initial(w0)
    ensures var w := Run(host, w0, steps);
      && (TotalWeightAt(w.reg, t) == Sum(KeysOf(w.log), LookupsAt(w.reg, t))
          <==> Covers(w.reg.totalHist, t) || forall k :: k in KeysOf(w.log) ==> SignerWeightAt(w.reg, k, t) == 0)
      && (V.Verify(host.scheme, w.reg, s) == TrueVerdict(host.scheme, w.log, w.reg.threshold, s)
          <==> Covers(w.reg.totalHist, s.referenceBlock)
               || s.signatures == []
               || |s.signatures| != |s.signers|
               || TrueRequired(w.log, w.reg.threshold, s.referenceBlock) == 0)
      && (V.Verify(host.scheme, w.reg, s) == V.Accepted
          <==> Covers(w.reg.totalHist, s.referenceBlock) && Backed(host.scheme, w.log, w.reg.threshold, s))
  {
    InitialInv(w0);
    RunKeepsInv(host, w0, steps);
    var w := Run(host, w0, steps);
    ConservationExactly(w.reg, w.log, w.now, t);
    VerdictExactly(host.scheme, w.reg, w.log, w.now, s);
    AcceptedExactly(host.scheme, w.reg, w.log, w.now, s);
  }

  /** In every reachable world every addition the verifier reaches fits 64 bits. */
  lemma ReachableVerifyNeverOverflows(host: H.Host, w0: World, steps: seq<Step>, s: V.Submission)
    requires Initial(w0)
    requires |s.signatures| == |s.signers|
    ensures V.AdditionsFit(host.scheme, s, SignerWeightsAt(Run(host, w0, steps).reg, s.signers, s.referenceBlock))
  {
    InitialInv(w0);
    RunKeepsInv(host, w0, steps);
    var w := Run(host, w0, steps);
    VerifyNeverOverflows(host.scheme, w.reg, w.log, w.now, s);
  }

  lemma AddTakesEffect(w: World, auth: Auth, key: Key, weight: u64)
    requires Inv(w) && w.gov.admin in auth && weight > 0
    requires TotalNow(w.log) - WeightNow(w.log, key) + weight <= U64_MAX
    ensures var w' := ApplyAdd(w, auth, key, weight);
      && w'.log == w.log + [SignerAdded(w.now, key, weight)]
      && WeightNow(w'.log, key) == weight == SignerWeight(w'.reg, key)
      && TotalWeight(w'.reg) == TotalNow(w.log) - WeightNow(w.log, key) + weight
      && w' == w.(reg := w'.reg, log := w'.log)
  {
    AddPanicsOnOverflow(w.reg, w.log, w.now, key, weight);
    AddKeepsInv(w, auth, key, weight);
    var e, w' := SignerAdded(w.now, key, weight), ApplyAdd(w, auth, key, weight);
    WeightSnoc(w.log, e, key, w.now);
    TotalSnoc(w.log, e, w.now);
    CurrentIsTrue(w'.reg, w'.log, w'.now, key);
  }

  lemma RemoveTakesEffect(w: World, auth: Auth, key: Key)
    requires Inv(w) && w.gov.admin in auth
    ensures var w' := ApplyRemove(w, auth, key);
      && w'.log == w.log + [SignerRemoved(w.now, key)]
      && WeightNow(w'.log, key) == 0 == SignerWeight(w'.reg, key)
      && TotalWeight(w'.reg) == TotalNow(w.log) - WeightNow(w.log, key)
      && w' == w.(reg := w'.reg, log := w'.log)
  {
    RemoveMirrors(w.reg, w.log, w.now, key);
    RemoveKeepsInv(w, auth, key);
    var e, w' := SignerRemoved(w.now, key), ApplyRemove(w, auth, key);
    WeightSnoc(w.log, e, key, w.now);
    TotalSnoc(w.log, e, w.now);
    CurrentIsTrue(w'.reg, w'.log, w'.now, key);
  }

  /** What a call that meets its conditions is for, it does: in every reachable world an
      authorized add that fits gives the key its weight, a removal takes it away, a valid
      threshold is installed, a proposal stands, its acceptance installs the nominee, an
      accepted envelope leaves its payload, and time passes. */
  lemma CallsTakeEffect(host: H.Host, w0: World, steps: seq<Step>, step: Step)
    requires Initial(w0)
    ensures var w := Run(host, w0, steps);
      var w' := Apply(host, w, step);
      match step
      case AdvanceLedger(n) => w.now + n <= U32_MAX ==> w' == w.(now := w.now + n)
      case AddSignerCall(auth, key, weight) =>
        w.gov.admin in auth && weight > 0 && TotalNow(w.log) - WeightNow(w.log, key) + weight <= U64_MAX ==>
          && WeightNow(w'.log, key) == weight == SignerWeight(w'.reg, key)
          && TotalWeight(w'.reg) == TotalNow(w.log) - WeightNow(w.log, key) + weight
      case RemoveSignerCall(auth, key) =>
        w.gov.admin in auth ==>
          && WeightNow(w'.log, key) == 0 == SignerWeight(w'.reg, key)
          && TotalWeight(w'.reg) == TotalNow(w.log) - WeightNow(w.log, key)
      case SetThresholdCall(auth, numerator, denominator) =>
        w.gov.admin in auth && 0 < numerator <= denominator ==>
          w'.reg.threshold.numerator == numerator && w'.reg.threshold.denominator == denominator
      case AdminCall(Propose(auth, nominee)) =>
        w.gov.admin in auth ==> w'.gov == AdminState(w.gov.admin, Some(nominee))
      case AdminCall(Accept(auth)) =>
        w.gov.pending.Some? && w.gov.pending.value in auth ==> w'.gov == AdminState(w.gov.pending.value, None)
      case AdminCall(Other) => w' == w
      case Submit(s) =>
        Accepts(host, w, step) ==>
          var d := host.decode(s.envelope).value;
          d.eventId in w'.handler.payloads && w'.handler.payloads[d.eventId] == d.payload
  {
    InitialInv(w0);
    RunKeepsInv(host, w0, steps);
    var w := Run(host, w0, steps);
    match step
    case AddSignerCall(auth, key, weight) =>
      if w.gov.admin in auth && weight > 0 && TotalNow(w.log) - WeightNow(w.log, key) + weight <= U64_MAX {
        AddTakesEffect(w, auth, key, weight);
      }
    case RemoveSignerCall(auth, key) =>
      if w.gov.admin in auth {
        RemoveTakesEffect(w, auth, key);
      }
    case SetThresholdCall(auth, numerator, denominator) => T.CheckExactly(numerator, denominator);
    case _ =>
  }

  // ---------------------------------------------------------------- end-to-end safety

  /** Every event ever accepted was backed: at its acceptance the reference block was
      strictly past and at most 200 ledgers old, and distinct keys that truly held
      weight at that block, each with a valid signature, together met the true
      requirement under the threshold then in force. The weights are read off the event
      log as it stands at the end of the run. */
  lemma EveryAcceptanceIsBacked(host: H.Host, w0: World, steps: seq<Step>, i: nat)
    requires Initial(w0)
    requires i < |steps| && Accepts(host, Run(host, w0, steps[..i]), steps[i])
    ensures var w, s := Run(host, w0, steps[..i]), steps[i].submission;
      && s.referenceBlock < w.now <= s.referenceBlock + 200
      && Backed(host.scheme, Run(host, w0, steps).log, w.reg.threshold, s)
  {
    RunFrom(host, w0, steps, i);
    AcceptedIsBackedLater(host, Run(host, w0, steps[..i]), steps[i].submission, Run(host, w0, steps));
  }

  lemma AcceptedIsBackedLater(host: H.Host, w: World, s: V.Submission, later: World)
    requires Inv(w) && Follows(w, later)
    requires H.Screen(host, w.reg, w.handler, w.now, s).None?
    ensures s.referenceBlock < w.now <= s.referenceBlock + 200
    ensures Backed(host.scheme, later.log, w.reg.threshold, s)
  {
    H.ScreenPassesIff(host, w.reg, w.handler, w.now, s);
    AcceptedIsBacked(host.scheme, w.reg, w.log, w.now, s);
    var more := NewEvents(w, later);
    BackedStays(host.scheme, w.log, more, w.reg.threshold, s);
  }

  /** Two events accepted anywhere in a run for one reference block, each under the
      threshold of its own time, shared signers of weight at least the two requirements
      less the total: at least one signer, if the requirements together exceed it. */
  lemma AcceptancesIntersect(host: H.Host, w0: World, steps: seq<Step>, i: nat, j: nat)
    requires Initial(w0)
    requires i < |steps| && Accepts(host, Run(host, w0, steps[..i]), steps[i])
    requires j < |steps| && Accepts(host, Run(host, w0, steps[..j]), steps[j])
    requires steps[i].submission.referenceBlock == steps[j].submission.referenceBlock
    ensures var log, t := Run(host, w0, steps).log, steps[i].submission.referenceBlock;
      var needed := TrueRequired(log, Run(host, w0, steps[..i]).reg.threshold, t)
                    + TrueRequired(log, Run(host, w0, steps[..j]).reg.threshold, t);
      var common := Elements(steps[i].submission.signers) * Elements(steps[j].submission.signers);
      && needed <= Sum(common, WeightsAt(log, t)) + TotalAt(log, t)
      && (needed > TotalAt(log, t) ==> common != {})
  {
    EveryAcceptanceIsBacked(host, w0, steps, i);
    EveryAcceptanceIsBacked(host, w0, steps, j);
    QuorumsIntersect(host.scheme, Run(host, w0, steps).log,
                     Run(host, w0, steps[..i]).reg.threshold, Run(host, w0, steps[..j]).reg.threshold,
                     steps[i].submission, steps[j].submission);
  }

  /** With the threshold unchanged, verification of a past block gives the same verdict
      later in the run, up to 201 ledgers after the block, whatever happened between. */
  lemma VerdictsAreStable(host: H.Host, w0: World, before: seq<Step>, between: seq<Step>, s: V.Submission)
    requires Initial(w0)
    requires var w1, w2 := Run(host, w0, before), Run(host, w0, before + between);
      && w1.reg.threshold == w2.reg.threshold
      && s.referenceBlock < w1.now && w2.now <= s.referenceBlock + 201
    ensures V.Verify(host.scheme, Run(host, w0, before).reg, s)
         == V.Verify(host.scheme, Run(host, w0, before + between).reg, s)
  {
    var w1, w2 := Run(host, w0, before), Run(host, w0, before + between);
    assert (before + between)[..|before|] == before;
    RunFrom(host, w0, before + between, |before|);
    var more := NewEvents(w1, w2);
    VerdictIsStable(host.scheme, w1.reg, w2.reg, w1.log, more, w1.now, w2.now, s);
  }

  // ---------------------------------------------------------------- at most once

  function AcceptedEvent(host: H.Host, w: World, step: Step): seq<H.Decoded> {
    if Accepts(host, w, step) then [host.decode(step.submission.envelope).value] else []
  }

  /** The decoded envelopes of the accepted submissions, in order. */
  function AcceptedEvents(host: H.Host, w0: World, steps: seq<Step>): seq<H.Decoded> {
    if steps == [] then []
    else
      AcceptedEvents(host, w0, Front(steps)) + AcceptedEvent(host, Run(host, w0, Front(steps)), Last(steps))
  }

  lemma StepKeepsOneEach(host: H.Host, w: World, step: Step, ds: seq<H.Decoded>)
    requires H.OneEach(w.handler, ds)
    ensures H.OneEach(Apply(host, w, step).handler, ds + AcceptedEvent(host, w, step))
  {
    if Accepts(host, w, step) {
      H.ScreenPassesIff(host, w.reg, w.handler, w.now, step.submission);
      H.OneMore(w.handler, ds, host.decode(step.submission.envelope).value, Apply(host, w, step).handler);
    } else {
      assert ds + [] == ds;
    }
  }

  /** In every run each event id is accepted at most once; exactly the accepted ids are
      seen and have a payload, the one accepted; and the published events are exactly one
      Verified and one Triggered per accepted envelope, in order of acceptance. */
  lemma {:induction false} AtMostOnce(host: H.Host, w0: World, steps: seq<Step>)
    requires Initial(w0)
    ensures H.OneEach(Run(host, w0, steps).handler, AcceptedEvents(host, w0, steps))
  {
    if steps != [] {
      AtMostOnce(host, w0, Front(steps));
      StepKeepsOneEach(host, Run(host, w0, Front(steps)), Last(steps), AcceptedEvents(host, w0, Front(steps)));
    }
  }

  /** A payload, once stored, is there to stay. */
  lemma {:induction false} PayloadsAreFinal(host: H.Host, w: World, steps: seq<Step>, id: H.EventId)
    requires w.handler.payloads.Keys == w.handler.seen
    requires id in w.handler.payloads
    ensures var w' := Run(host, w, steps);
      && w'.handler.payloads.Keys == w'.handler.seen
      && id in w'.handler.payloads && w'.handler.payloads[id] == w.handler.payloads[id]
  {
    if steps != [] {
      PayloadsAreFinal(host, w, Front(steps), id);
    }
  }

  // ---------------------------------------------------------------- governance

  /** What a step means to the registry's admin role. */
  function AdminPart(steps: seq<Step>): (parts: seq<AdminStep>)
    ensures |parts| == |steps|
    ensures forall i :: 0 <= i < |steps| ==> parts[i] == if steps[i].AdminCall? then steps[i].step else Other
  {
    seq(|steps|, i requires 0 <= i < |steps| => if steps[i].AdminCall? then steps[i].step else Other)
  }

  lemma {:induction false} AdminRunsApart(host: H.Host, w: World, steps: seq<Step>)
    ensures Run(host, w, steps).gov == RunAdmin(w.gov, AdminPart(steps))
  {
    if steps != [] {
      AdminRunsApart(host, w, Front(steps));
      assert AdminPart(steps)[..|steps| - 1] == AdminPart(Front(steps));
    }
  }

  /** Whoever may change the signers or the threshold now was either admin from the start
      or was nominated by the previous admin and accepted. */
  lemma AdminChangesHands(host: H.Host, w0: World, steps: seq<Step>, i: nat) returns (j: nat)
    requires Initial(w0) && i < |steps|
    requires Run(host, w0, steps[..i + 1]).gov.admin != Run(host, w0, steps[..i]).gov.admin
    ensures j < i && Nominated(w0.gov, AdminPart(steps), j, i, Run(host, w0, steps[..i + 1]).gov.admin)
    ensures steps[i].AdminCall? && steps[i].step.Accept?
    ensures Run(host, w0, steps[..i + 1]).gov.admin in steps[i].step.auth
  {
    AdminRunsApart(host, w0, steps[..i + 1]);
    AdminRunsApart(host, w0, steps[..i]);
    assert AdminPart(steps)[..i + 1] == AdminPart(steps[..i + 1]);
    assert AdminPart(steps)[..i] == AdminPart(steps[..i]);
    j := EveryHandover(w0.gov, AdminPart(steps), i);
  }

  /** What one step may do to signers and threshold. */
  lemma OnlyTheAdminChangesTheRegistry(host: H.Host, w: World, step: Step)
    ensures var w' := Apply(host, w, step);
      && (w'.log != w.log ==> EventOf(w, step, Last(w'.log)) && w'.log == w.log + [Last(w'.log)])
      && (w'.log == w.log ==> w'.reg == w.reg.(threshold := w'.reg.threshold))
      && (w'.reg.threshold != w.reg.threshold ==> Sets(w, step, w'.reg.threshold))
  {
    assert w.reg == w.reg.(threshold := w.reg.threshold);
  }

  /** The step is the present admin's call that publishes `e` now. */
  predicate EventOf(w: World, step: Step, e: SignerEvent) {
    match step
    case AddSignerCall(auth, key, weight) =>
      w.gov.admin in auth && weight > 0 && e == SignerAdded(w.now, key, weight)
    case RemoveSignerCall(auth, key) => w.gov.admin in auth && e == SignerRemoved(w.now, key)
    case _ => false
  }

  /** The step is the present admin's call that sets the threshold to `th`. */
  predicate Sets(w: World, step: Step, th: T.Threshold) {
    && step.SetThresholdCall? && w.gov.admin in step.auth
    && T.Check(step.numerator, step.denominator).None?
    && th == T.Fraction(step.numerator, step.denominator)
  }

  /** Every event of the final log, at whatever position, was published by one step of the
      run: the call of the admin then in office that adds or removes that very key. */
  lemma {:induction false} EveryEventWasAuthorized(host: H.Host, w0: World, steps: seq<Step>, m: nat) returns (i: nat)
    requires Initial(w0) && m < |Run(host, w0, steps).log|
    ensures i < |steps| && |Run(host, w0, steps[..i]).log| == m
    ensures EventOf(Run(host, w0, steps[..i]), steps[i], Run(host, w0, steps).log[m])
    decreases |steps|
  {
    var prior := Run(host, w0, Front(steps));
    OnlyTheAdminChangesTheRegistry(host, prior, Last(steps));
    if m < |prior.log| {
      i := EveryEventWasAuthorized(host, w0, Front(steps), m);
      assert steps[..i] == Front(steps)[..i];
    } else {
      i := |steps| - 1;
    }
  }

  /** The threshold in force is the initial one, or one that the admin of the time set in
      some step and that has stood ever since. */
  lemma {:induction false} ThresholdWasAuthorized(host: H.Host, w0: World, steps: seq<Step>) returns (i: nat)
    requires Run(host, w0, steps).reg.threshold != w0.reg.threshold
    ensures i < |steps|
    ensures Sets(Run(host, w0, steps[..i]), steps[i], Run(host, w0, steps).reg.threshold)
    ensures forall j :: i < j <= |steps| ==>
      Run(host, w0, steps[..j]).reg.threshold == Run(host, w0, steps).reg.threshold
    decreases |steps|
  {
    var prior, th := Run(host, w0, Front(steps)), Run(host, w0, steps).reg.threshold;
    assert steps[..|steps|] == steps;
    OnlyTheAdminChangesTheRegistry(host, prior, Last(steps));
    if th != prior.reg.threshold {
      i := |steps| - 1;
    } else {
      i := ThresholdWasAuthorized(host, w0, Front(steps));
      assert steps[..i] == Front(steps)[..i] && steps[i] == Front(steps)[i];
      forall j | i < j <= |steps| ensures Run(host, w0, steps[..j]).reg.threshold == th {
        if j < |steps| {
          assert steps[..j] == Front(steps)[..j];
        }
      }
    }
  }
}
