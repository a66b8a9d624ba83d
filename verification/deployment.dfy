/** One deployed stack of contracts, executing transactions one after another. Running
    the contracts' code takes exactly the steps of `World`, so every theorem about runs
    there is a theorem about runs of this code. */
module Deployment {
  import opened Ints
  import opened History
  import opened Keys
  import opened SignerLog
  import opened Registry
  import opened Admin
  import opened World
  import opened SecurityContract
  import opened VerificationContract
  import opened HandlerContract
  import H = Handler
  import T = Threshold

  class Stack {
    const security: Security
    const handler: EnvelopeHandler
    var now: u32

    ghost predicate Valid()
      reads this, security, handler
    {
      handler.verification.security == security && security.Valid(now) && handler.Valid()
    }

    ghost function State(): World
      reads this, security, security.gov, handler
    {
      World(now, security.gov.State(), security.State(), handler.State(), security.log)
    }

    /** The stack starts when a registry has just been deployed. */
    constructor (security: Security, now: u32)
      requires security.Valid(now)
      requires security.State() == Empty(security.threshold) && security.log == []
      requires security.gov.pending.None?
      ensures Valid() && Initial(State())
      ensures this.security == security && fresh(handler) && this.now == now
    {
      this.security := security;
      var verifier := new Verifier(security);
      handler := new EnvelopeHandler(verifier);
      this.now := now;
    }

    /** A fresh stack, if the registry's constructor accepts the threshold. */
    static method Deploy(admin: Address, numerator: u64, denominator: u64, now: u32)
      returns (error: Option<T.SecurityError>, stack: Option<Stack>)
      ensures error == T.Check(numerator, denominator)
      ensures stack.Some? <==> error.None?
      ensures stack.Some? <==> 0 < numerator <= denominator
      ensures stack.Some? ==>
        && fresh(stack.value) && stack.value.Valid() && Initial(stack.value.State())
        && stack.value.State().gov.admin == admin && stack.value.now == now
        && stack.value.State().reg.threshold == T.Fraction(numerator, denominator)
    {
      var e, security := Security.Deploy(admin, numerator, denominator);
      if e.Some? {
        return e, None;
      }
      var s := new Stack(security.value, now);
      return None, Some(s);
    }

    method ExecuteAdd(auth: Auth, key: Key, weight: u64)
      requires Valid()
      modifies security
      ensures Valid()
      ensures State() == ApplyAdd(old(State()), auth, key, weight)
    {
      var _ := security.AddSigner(auth, now, key, weight);
    }

    method ExecuteRemove(auth: Auth, key: Key)
      requires Valid()
      modifies security
      ensures Valid()
      ensures State() == ApplyRemove(old(State()), auth, key)
    {
      RemoveMirrors(security.State(), security.log, now, key);
      var _ := security.RemoveSigner(auth, now, key);
    }

    method ExecuteAdmin(step: AdminStep)
      requires Valid()
      modifies security.gov
      ensures Valid()
      ensures State() == old(State()).(gov := ApplyAdmin(old(State()).gov, step))
    {
      match step {
        case Propose(auth, newAdmin) => var _ := security.gov.ProposeAdmin(auth, newAdmin);
        case Accept(auth) => var _ := security.gov.AcceptAdmin(auth);
        case Other =>
      }
    }

    method Execute(host: H.Host, step: Step)
      requires Valid()
      modifies this, security, security.gov, handler
      ensures Valid()
      ensures State() == Apply(host, old(State()), step)
    {
      match step {
        case AdvanceLedger(n) =>
          if now + n <= U32_MAX {
            TimePasses(security.State(), security.log, now, now + n);
            now := now + n;
          }
        case AddSignerCall(auth, key, weight) => ExecuteAdd(auth, key, weight);
        case RemoveSignerCall(auth, key) => ExecuteRemove(auth, key);
        case SetThresholdCall(auth, numerator, denominator) =>
          var _ := security.SetThreshold(auth, now, numerator, denominator);
        case AdminCall(a) => ExecuteAdmin(a);
        case Submit(s) => var _ := handler.VerifyEnvelope(host, now, s);
      }
    }

    /** Any sequence of transactions. */
    method ExecuteAll(host: H.Host, steps: seq<Step>)
      requires Valid()
      modifies this, security, security.gov, handler
      ensures Valid()
      ensures State() == Run(host, old(State()), steps)
    {
      var i := 0;
      while i < |steps|
        invariant i <= |steps|
        invariant Valid()
        invariant State() == Run(host, old(State()), steps[..i])
      {
        Execute(host, steps[i]);
        assert Front(steps[..i + 1]) == steps[..i];
        i := i + 1;
      }
      assert steps[..i] == steps;
    }
  }
}
