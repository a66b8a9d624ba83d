/** The project's governance root: the tracked handler set, its events and its admin
    (contracts/project-root). What another contract replies is an input of the step: its
    answer to `verification_contract()`, and how a forwarded call ends. */
module ProjectRoot {
  import opened Ints
  import opened History
  import opened Sums
  import opened Admin
  import opened Threshold

  datatype ContractType = SecurityContract | VerificationContract | HandlerContract

  datatype RootEvent =
    | Forwarded(target: Address)
    | HandlerRegistered(handler: Address)
    | HandlerRemoved(handler: Address)

  datatype RootState = RootState(
    security: Address,
    verification: Address,
    gov: AdminState,
    handlers: seq<Address>,
    events: seq<RootEvent>)

  /** How a forwarded call ends: it returns, it returns one of the security contract's
      typed errors, or it fails in any other way (a foreign error, an abort, a value that
      does not convert), which the root re-raises as a panic. */
  datatype CallOutcome = Returned | ReturnedError(error: SecurityError) | Broken

  datatype RootStep =
    | RegisterHandler(auth: Auth, handler: Address, answer: Option<Address>)
    | UnregisterHandler(auth: Auth, handler: Address)
    | AcceptContractAdmin(auth: Auth, handler: Address, answer: Option<Address>, outcome: CallOutcome)
    | ForwardCall(auth: Auth, target: Address, answer: Option<Address>, outcome: CallOutcome)
    | RootAdmin(step: AdminStep)

  datatype RootReply = Done | NotOurContract | NotAHandler | Failed(error: SecurityError) | Panicked

  function EnsureOurContract(st: RootState, target: Address, answer: Option<Address>): Option<ContractType> {
    if target == st.verification then Some(VerificationContract)
    else if target == st.security then Some(SecurityContract)
    else if answer != Some(st.verification) then None
    else Some(HandlerContract)
  }

  function RemoveFirst(hs: seq<Address>, h: Address): seq<Address> {
    if hs == [] then []
    else if hs[0] == h then hs[1..]
    else [hs[0]] + RemoveFirst(hs[1..], h)
  }

  function Track(st: RootState, h: Address): RootState {
    if h in st.handlers then st
    else st.(handlers := st.handlers + [h], events := st.events + [HandlerRegistered(h)])
  }

  function Untrack(st: RootState, h: Address): RootState {
    if h in st.handlers
    then st.(handlers := RemoveFirst(st.handlers, h), events := st.events + [HandlerRemoved(h)])
    else st
  }

  /** The reply of a call, in the order the code makes its checks. */
  function ReplyOf(st: RootState, step: RootStep): RootReply {
    match step
    case RegisterHandler(auth, h, answer) =>
      if st.gov.admin !in auth then Panicked
      else (match EnsureOurContract(st, h, answer)
            case None => NotOurContract
            case Some(HandlerContract) => Done
            case Some(_) => NotAHandler)
    case UnregisterHandler(auth, _) => if st.gov.admin in auth then Done else Panicked
    case AcceptContractAdmin(auth, h, answer, outcome) => ForwardReply(st, auth, h, answer, outcome)
    case ForwardCall(auth, target, answer, outcome) => ForwardReply(st, auth, target, answer, outcome)
    case RootAdmin(a) => if Allowed(st.gov, a) then Done else Panicked
  }

  function ForwardReply(st: RootState, auth: Auth, target: Address, answer: Option<Address>, outcome: CallOutcome)
    : RootReply
  {
    if EnsureOurContract(st, target, answer).None? then NotOurContract
    else if st.gov.admin !in auth then Panicked
    else
      match outcome
      case Returned => Done
      case ReturnedError(e) => Failed(e)
      case Broken => Panicked
  }

  /** Only a call that outcome leaves a trace. */
  function ApplyRoot(st: RootState, step: RootStep): RootState {
    if ReplyOf(st, step) != Done then st
    else
      match step
      case RegisterHandler(_, h, _) => Track(st, h)
      case UnregisterHandler(_, h) => Untrack(st, h)
      case AcceptContractAdmin(_, h, answer, _) =>
        var forwarded := st.(events := st.events + [Forwarded(h)]);
        if EnsureOurContract(st, h, answer) == Some(HandlerContract) then Track(forwarded, h) else forwarded
      case ForwardCall(_, target, _, _) => st.(events := st.events + [Forwarded(target)])
      case RootAdmin(a) => st.(gov := ApplyAdmin(st.gov, a))
  }

  function RunRoot(st: RootState, steps: seq<RootStep>): RootState {
    if steps == [] then st else ApplyRoot(RunRoot(st, Front(steps)), Last(steps))
  }

  // ---------------------------------------------------------------- replay

  /** The handler set an observer of the event log would hold. */
  function Replay(events: seq<RootEvent>): seq<Address> {
    if events == [] then []
    else
      var hs := Replay(Front(events));
      match Last(events)
      case Forwarded(_) => hs
      case HandlerRegistered(h) => hs + [h]
      case HandlerRemoved(h) => RemoveFirst(hs, h)
  }

  /** Every registration names a handler not tracked then, every removal one that was. */
  ghost predicate Faithful(events: seq<RootEvent>) {
    events != [] ==>
    && Faithful(Front(events))
    && (Last(events).HandlerRegistered? ==> Last(events).handler !in Replay(Front(events)))
    && (Last(events).HandlerRemoved? ==> Last(events).handler in Replay(Front(events)))
  }

  lemma {:induction false} RemoveFirstFromDistinct(hs: seq<Address>, h: Address)
    requires Distinct(hs)
    ensures Distinct(RemoveFirst(hs, h))
    ensures Elements(RemoveFirst(hs, h)) == Elements(hs) - {h}
  {
    if hs == [] {
    } else if hs[0] == h {
      assert hs == [h] + hs[1..];
      assert Elements(hs[1..]) == Elements(hs) - {h};
    } else {
      var rest := RemoveFirst(hs[1..], h);
      RemoveFirstFromDistinct(hs[1..], h);
      assert hs[0] !in Elements(hs[1..]);
      assert forall i :: 0 <= i < |rest| ==> rest[i] in Elements(rest);
      assert Elements([hs[0]] + rest) == {hs[0]} + Elements(rest);
      assert Elements(hs) == {hs[0]} + Elements(hs[1..]);
    }
  }

  // ---------------------------------------------------------------- every run

  ghost predicate FreshRoot(st: RootState) {
    st.gov.pending.None? && st.handlers == [] && st.events == []
  }

  ghost predicate RootInv(st: RootState) {
    && Distinct(st.handlers)
    && st.security !in st.handlers && st.verification !in st.handlers
    && st.handlers == Replay(st.events)
    && Faithful(st.events)
  }

  lemma ReplaySnoc(events: seq<RootEvent>, e: RootEvent)
    ensures Front(events + [e]) == events && Last(events + [e]) == e
  {
  }

  lemma TrackKeepsInv(st: RootState, h: Address)
    requires RootInv(st) && h != st.security && h != st.verification
    ensures RootInv(Track(st, h))
  {
    ReplaySnoc(st.events, HandlerRegistered(h));
  }

  lemma UntrackKeepsInv(st: RootState, h: Address)
    requires RootInv(st)
    ensures RootInv(Untrack(st, h))
    ensures forall x :: x in Untrack(st, h).handlers <==> x in st.handlers && x != h
  {
    ReplaySnoc(st.events, HandlerRemoved(h));
    RemoveFirstFromDistinct(st.handlers, h);
    var hs := RemoveFirst(st.handlers, h);
    assert forall x :: x in hs <==> x in Elements(hs);
    assert forall x :: x in st.handlers <==> x in Elements(st.handlers);
  }

  lemma ForwardedKeepsInv(st: RootState, target: Address)
    requires RootInv(st)
    ensures RootInv(st.(events := st.events + [Forwarded(target)]))
  {
    ReplaySnoc(st.events, Forwarded(target));
  }

  lemma RootStepKeepsInv(st: RootState, step: RootStep)
    requires RootInv(st)
    ensures RootInv(ApplyRoot(st, step))
  {
    if ReplyOf(st, step) == Done {
      match step
      case RegisterHandler(_, h, _) => TrackKeepsInv(st, h);
      case UnregisterHandler(_, h) => UntrackKeepsInv(st, h);
      case AcceptContractAdmin(_, h, answer, _) =>
        var forwarded := st.(events := st.events + [Forwarded(h)]);
        ForwardedKeepsInv(st, h);
        if EnsureOurContract(st, h, answer) == Some(HandlerContract) {
          TrackKeepsInv(forwarded, h);
        }
      case ForwardCall(_, target, _, _) => ForwardedKeepsInv(st, target);
      case RootAdmin(a) =>
    }
  }

  /** In every run: the tracked set has no duplicates, never contains the project's own
      security or verification contract, and is the replay of the published events, in
      which no registration or removal is ever repeated. */
  lemma {:induction false} RootRunKeepsInv(st: RootState, steps: seq<RootStep>)
    requires FreshRoot(st)
    ensures var st' := RunRoot(st, steps);
      RootInv(st') && st'.security == st.security && st'.verification == st.verification
  {
    if steps != [] {
      RootRunKeepsInv(st, Front(steps));
      RootStepKeepsInv(RunRoot(st, Front(steps)), Last(steps));
    }
  }

  /** The step that brought `h` in: authorized by the admin of the time, for a contract
      that then named this project's verification contract as its own. */
  predicate Vetted(st: RootState, step: RootStep, h: Address) {
    && (step.RegisterHandler? || step.AcceptContractAdmin?)
    && step.handler == h
    && st.gov.admin in step.auth
    && step.answer == Some(st.verification)
  }

  /** Membership is explicit: a tracked handler was vetted by some step and has not been
      unregistered by an authorized step since. */
  lemma {:induction false} TrackedWasVetted(st: RootState, steps: seq<RootStep>, h: Address) returns (i: nat)
    requires FreshRoot(st)
    requires h in RunRoot(st, steps).handlers
    ensures i < |steps| && Vetted(RunRoot(st, steps[..i]), steps[i], h)
    ensures forall j :: i < j < |steps| && steps[j].UnregisterHandler? && steps[j].handler == h
              ==> RunRoot(st, steps[..j]).gov.admin !in steps[j].auth
    decreases |steps|
  {
    var prior := RunRoot(st, Front(steps));
    RootRunKeepsInv(st, Front(steps));
    if h in prior.handlers {
      UntrackKeepsInv(prior, h);
      i := TrackedWasVetted(st, Front(steps), h);
      assert steps[..i] == Front(steps)[..i];
      forall j | i < j < |steps| && steps[j].UnregisterHandler? && steps[j].handler == h
        ensures RunRoot(st, steps[..j]).gov.admin !in steps[j].auth
      {
        if j < |steps| - 1 {
          assert steps[..j] == Front(steps)[..j] && steps[j] == Front(steps)[j];
        }
      }
    } else {
      i := |steps| - 1;
      NewlyTracked(prior, Last(steps), h);
    }
  }

  lemma NewlyTracked(st: RootState, step: RootStep, h: Address)
    requires RootInv(st)
    requires h !in st.handlers && h in ApplyRoot(st, step).handlers
    ensures Vetted(st, step, h)
  {
    if step.UnregisterHandler? {
      UntrackKeepsInv(st, step.handler);
    }
  }

  /** The tracked set changes only with the admin's authority, by one handler at a time,
      and a removal only by an explicit unregistration of that handler: forwarding a call
      that moves a handler's admin away does not untrack it. */
  lemma OnlyTheAdminChangesTheHandlers(st: RootState, step: RootStep)
    requires RootInv(st)
    ensures var hs, hs' := Elements(st.handlers), Elements(ApplyRoot(st, step).handlers);
      && (hs' != hs ==> !step.RootAdmin? && !step.ForwardCall? && st.gov.admin in step.auth)
      && (hs' != hs ==> hs' == if step.UnregisterHandler? then hs - {step.handler} else hs + {step.handler})
  {
    if step.UnregisterHandler? {
      UntrackKeepsInv(st, step.handler);
    }
  }

  // ---------------------------------------------------------------- admin

  function AdminPart(steps: seq<RootStep>): (parts: seq<AdminStep>)
    ensures |parts| == |steps|
    ensures forall i :: 0 <= i < |steps| ==> parts[i] == if steps[i].RootAdmin? then steps[i].step else Other
  {
    seq(|steps|, i requires 0 <= i < |steps| => if steps[i].RootAdmin? then steps[i].step else Other)
  }

  lemma {:induction false} AdminRunsApart(st: RootState, steps: seq<RootStep>)
    ensures RunRoot(st, steps).gov == RunAdmin(st.gov, AdminPart(steps))
  {
    if steps != [] {
      AdminRunsApart(st, Front(steps));
      assert AdminPart(steps)[..|steps| - 1] == AdminPart(Front(steps));
    }
  }

  /** Every change of the project's admin is a proposal by the outgoing admin followed by
      the nominee's own accept. */
  lemma RootAdminChangesHands(st: RootState, steps: seq<RootStep>, i: nat) returns (j: nat)
    requires FreshRoot(st) && i < |steps|
    requires RunRoot(st, steps[..i + 1]).gov.admin != RunRoot(st, steps[..i]).gov.admin
    ensures j < i && Nominated(st.gov, AdminPart(steps), j, i, RunRoot(st, steps[..i + 1]).gov.admin)
    ensures steps[i].RootAdmin? && steps[i].step.Accept?
    ensures RunRoot(st, steps[..i + 1]).gov.admin in steps[i].step.auth
  {
    AdminRunsApart(st, steps[..i + 1]);
    AdminRunsApart(st, steps[..i]);
    assert AdminPart(steps)[..i + 1] == AdminPart(steps[..i + 1]);
    assert AdminPart(steps)[..i] == AdminPart(steps[..i]);
    j := EveryHandover(st.gov, AdminPart(steps), i);
  }

  // ---------------------------------------------------------------- the code

  class Root {
    const security: Address
    const verification: Address
    const gov: AdminStore
    var handlers: seq<Address>
    ghost var events: seq<RootEvent>

    ghost function State(): RootState
      reads this, gov
    {
      RootState(security, verification, gov.State(), handlers, events)
    }

    constructor (admin: Address, security: Address, verification: Address)
      ensures fresh(gov)
      ensures State() == RootState(security, verification, AdminState(admin, None), [], [])
      ensures FreshRoot(State())
    {
      this.security, this.verification := security, verification;
      gov := new AdminStore(admin);
      handlers, events := [], [];
    }

    method FirstIndexOf(h: Address) returns (index: Option<nat>)
      ensures index.None? <==> h !in handlers
      ensures index.Some? ==>
        && index.value < |handlers| && handlers[index.value] == h
        && handlers[..index.value] + handlers[index.value + 1..] == RemoveFirst(handlers, h)
    {
      var i := 0;
      while i < |handlers|
        invariant i <= |handlers|
        invariant h !in handlers[..i]
        invariant RemoveFirst(handlers, h) == handlers[..i] + RemoveFirst(handlers[i..], h)
      {
        assert handlers[i..][1..] == handlers[i + 1..];
        if handlers[i] == h {
          return Some(i);
        }
        i := i + 1;
      }
      return None;
    }

    method AddHandler(h: Address) returns (added: bool)
      modifies this
      ensures added <==> h !in old(handlers)
      ensures handlers == old(handlers) + if added then [h] else []
      ensures events == old(events) + if added then [HandlerRegistered(h)] else []
      ensures State() == Track(old(State()), h)
    {
      var index := FirstIndexOf(h);
      if index.Some? {
        return false;
      }
      handlers := handlers + [h];
      events := events + [HandlerRegistered(h)];
      return true;
    }

    method RemoveHandler(h: Address) returns (removed: bool)
      modifies this
      ensures removed <==> h in old(handlers)
      ensures events == old(events) + if removed then [HandlerRemoved(h)] else []
      ensures State() == Untrack(old(State()), h)
    {
      var index := FirstIndexOf(h);
      if index.None? {
        return false;
      }
      handlers := handlers[..index.value] + handlers[index.value + 1..];
      events := events + [HandlerRemoved(h)];
      return true;
    }

    method Classify(target: Address, answer: Option<Address>) returns (kind: Option<ContractType>)
      ensures kind == EnsureOurContract(State(), target, answer)
      ensures kind == Some(VerificationContract) <==> target == verification
      ensures kind == Some(SecurityContract) <==> target == security != verification
      ensures kind == Some(HandlerContract)
         <==> target != verification && target != security && answer == Some(verification)
    {
      if target == verification {
        return Some(VerificationContract);
      }
      if target == security {
        return Some(SecurityContract);
      }
      if answer != Some(verification) {
        return None;
      }
      return Some(HandlerContract);
    }

    method Register(auth: Auth, h: Address, answer: Option<Address>) returns (reply: RootReply)
      requires RootInv(State())
      modifies this
      ensures reply == ReplyOf(old(State()), RegisterHandler(auth, h, answer))
      ensures State() == ApplyRoot(old(State()), RegisterHandler(auth, h, answer))
      ensures reply == Panicked <==> gov.admin !in auth
      ensures reply == NotAHandler <==> gov.admin in auth && (h == security || h == verification)
      ensures reply == NotOurContract
         <==> gov.admin in auth && h != security && h != verification && answer != Some(verification)
      ensures reply == Done
         <==> gov.admin in auth && h != security && h != verification && answer == Some(verification)
      ensures reply == Done ==> h in handlers
      ensures var added := reply == Done && h !in old(handlers);
        && handlers == old(handlers) + (if added then [h] else [])
        && events == old(events) + (if added then [HandlerRegistered(h)] else [])
      ensures RootInv(State())
    {
      RootStepKeepsInv(State(), RegisterHandler(auth, h, answer));
      if gov.admin !in auth {
        return Panicked;
      }
      var kind := Classify(h, answer);
      if kind.None? {
        return NotOurContract;
      }
      if kind.value != HandlerContract {
        return NotAHandler;
      }
      var _ := AddHandler(h);
      return Done;
    }

    method Unregister(auth: Auth, h: Address) returns (reply: RootReply)
      requires RootInv(State())
      modifies this
      ensures reply == ReplyOf(old(State()), UnregisterHandler(auth, h))
      ensures State() == ApplyRoot(old(State()), UnregisterHandler(auth, h))
      ensures reply == if gov.admin in auth then Done else Panicked
      ensures forall x :: x in handlers <==> x in old(handlers) && !(reply == Done && x == h)
      ensures events == old(events) + if reply == Done && h in old(handlers) then [HandlerRemoved(h)] else []
      ensures RootInv(State()) && (reply == Done ==> h !in handlers)
    {
      RootStepKeepsInv(State(), UnregisterHandler(auth, h));
      UntrackKeepsInv(State(), h);
      if gov.admin !in auth {
        return Panicked;
      }
      var _ := RemoveHandler(h);
      return Done;
    }

    /** When each reply of a forwarding call is given. */
    ghost predicate ForwardReplies(auth: Auth, target: Address, answer: Option<Address>, outcome: CallOutcome,
                                   reply: RootReply)
      reads gov
    {
      var ours := target == verification || target == security || answer == Some(verification);
      && (reply == NotOurContract <==> !ours)
      && (reply == Panicked <==> ours && (gov.admin !in auth || outcome == Broken))
      && (forall e :: reply == Failed(e) <==> (ours && gov.admin in auth && outcome == ReturnedError(e)))
      && (reply == Done <==> ours && gov.admin in auth && outcome == Returned)
    }

    /** `propose_contract_admin` and `upgrade_contract`: the call is passed on and recorded;
        the tracked set stays, even when a handler's admin is moved away. */
    method Forward(auth: Auth, target: Address, answer: Option<Address>, outcome: CallOutcome)
      returns (reply: RootReply)
      requires RootInv(State())
      modifies this
      ensures reply == ReplyOf(old(State()), ForwardCall(auth, target, answer, outcome))
      ensures State() == ApplyRoot(old(State()), ForwardCall(auth, target, answer, outcome))
      ensures ForwardReplies(auth, target, answer, outcome, reply)
      ensures handlers == old(handlers)
      ensures events == old(events) + if reply == Done then [Forwarded(target)] else []
      ensures RootInv(State())
    {
      RootStepKeepsInv(State(), ForwardCall(auth, target, answer, outcome));
      var kind := Classify(target, answer);
      if kind.None? {
        return NotOurContract;
      }
      if gov.admin !in auth {
        return Panicked;
      }
      match outcome {
        case Returned =>
        case ReturnedError(e) => return Failed(e);
        case Broken => return Panicked;
      }
      events := events + [Forwarded(target)];
      return Done;
    }

    method AcceptAdminOf(auth: Auth, h: Address, answer: Option<Address>, outcome: CallOutcome)
      returns (reply: RootReply)
      requires RootInv(State())
      modifies this
      ensures reply == ReplyOf(old(State()), AcceptContractAdmin(auth, h, answer, outcome))
      ensures State() == ApplyRoot(old(State()), AcceptContractAdmin(auth, h, answer, outcome))
      ensures ForwardReplies(auth, h, answer, outcome, reply)
      ensures var added := reply == Done && h != security && h != verification && h !in old(handlers);
        && handlers == old(handlers) + (if added then [h] else [])
        && events == old(events) + (if reply == Done then [Forwarded(h)] else [])
                     + (if added then [HandlerRegistered(h)] else [])
      ensures RootInv(State())
    {
      RootStepKeepsInv(State(), AcceptContractAdmin(auth, h, answer, outcome));
      var kind := Classify(h, answer);
      if kind.None? {
        return NotOurContract;
      }
      if gov.admin !in auth {
        return Panicked;
      }
      match outcome {
        case Returned =>
        case ReturnedError(e) => return Failed(e);
        case Broken => return Panicked;
      }
      events := events + [Forwarded(h)];
      if kind.value == HandlerContract {
        var _ := AddHandler(h);
      }
      return Done;
    }
  }
}
