/** The two-step admin transfer every contract shares (packages/shared/src/admin.rs). */
module Admin {
  import opened Ints

  datatype Address = Address(id: nat)

  /** `require_auth` on an address succeeds when the call carries its authorization. */
  type Auth = set<Address>

  datatype AdminState = AdminState(admin: Address, pending: Option<Address>)

  datatype AdminEvent = AdminProposed(oldAdmin: Address, newAdmin: Address) | AdminAccepted(newAdmin: Address)

  datatype AdminStep = Propose(auth: Auth, newAdmin: Address) | Accept(auth: Auth) | Other

  predicate Allowed(st: AdminState, step: AdminStep) {
    match step
    case Propose(auth, _) => st.admin in auth
    case Accept(auth) => st.pending.Some? && st.pending.value in auth
    case Other => true
  }

  /** A call that is not allowed panics and is rolled back. */
  function ApplyAdmin(st: AdminState, step: AdminStep): AdminState {
    if !Allowed(st, step) then st
    else
      match step
      case Propose(_, newAdmin) => st.(pending := Some(newAdmin))
      case Accept(_) => AdminState(st.pending.value, None)
      case Other => st
  }

  function RunAdmin(st: AdminState, steps: seq<AdminStep>): AdminState {
    if steps == [] then st
    else ApplyAdmin(RunAdmin(st, steps[..|steps| - 1]), steps[|steps| - 1])
  }

  lemma RunAdminStep(st: AdminState, steps: seq<AdminStep>, i: nat)
    requires i < |steps|
    ensures RunAdmin(st, steps[..i + 1]) == ApplyAdmin(RunAdmin(st, steps[..i]), steps[i])
  {
    assert steps[..i + 1][..i] == steps[..i];
  }

  /** Step `j` proposed `nominee` with the authority of the admin who still holds office,
      unchanged and with that nomination standing, after each of the steps up to `i`. */
  ghost predicate Nominated(st: AdminState, steps: seq<AdminStep>, j: nat, i: nat, nominee: Address)
    requires j < i <= |steps|
  {
    && steps[j].Propose? && steps[j].newAdmin == nominee
    && RunAdmin(st, steps[..j]).admin in steps[j].auth
    && forall m :: j < m <= i ==>
         RunAdmin(st, steps[..m]) == AdminState(RunAdmin(st, steps[..j]).admin, Some(nominee))
  }

  /** A pending admin was always proposed by the admin now in office. */
  lemma {:induction false} PendingWasNominated(st: AdminState, steps: seq<AdminStep>, i: nat) returns (j: nat)
    requires st.pending.None?
    requires i <= |steps| && RunAdmin(st, steps[..i]).pending.Some?
    ensures j < i && Nominated(st, steps, j, i, RunAdmin(st, steps[..i]).pending.value)
  {
    RunAdminStep(st, steps, i - 1);
    var before, step := RunAdmin(st, steps[..i - 1]), steps[i - 1];
    if step.Propose? && Allowed(before, step) {
      j := i - 1;
    } else {
      j := PendingWasNominated(st, steps, i - 1);
    }
  }

  /** Every handover: when a step changes the admin, the nominee accepted it with their
      own authority, and the outgoing admin had proposed that nominee before. */
  lemma EveryHandover(st: AdminState, steps: seq<AdminStep>, i: nat) returns (j: nat)
    requires st.pending.None?
    requires i < |steps|
    requires RunAdmin(st, steps[..i + 1]).admin != RunAdmin(st, steps[..i]).admin
    ensures steps[i].Accept? && RunAdmin(st, steps[..i + 1]).admin in steps[i].auth
    ensures RunAdmin(st, steps[..i + 1]).pending.None?
    ensures j < i && Nominated(st, steps, j, i, RunAdmin(st, steps[..i + 1]).admin)
  {
    RunAdminStep(st, steps, i);
    j := PendingWasNominated(st, steps, i);
  }

  /** The stored slots and their code. */
  class AdminStore {
    var admin: Address
    var pending: Option<Address>
    ghost var events: seq<AdminEvent>

    ghost function State(): AdminState
      reads this
    {
      AdminState(admin, pending)
    }

    constructor (initial: Address)
      ensures State() == AdminState(initial, None) && events == []
    {
      admin, pending, events := initial, None, [];
    }

    /** `ok` is false when the call panics. */
    method ProposeAdmin(auth: Auth, newAdmin: Address) returns (ok: bool)
      modifies this
      ensures ok <==> old(admin) in auth
      ensures State() == ApplyAdmin(old(State()), Propose(auth, newAdmin))
      ensures admin == old(admin) && pending == if ok then Some(newAdmin) else old(pending)
      ensures events == old(events) + if ok then [AdminProposed(old(admin), newAdmin)] else []
    {
      if admin !in auth {
        return false;
      }
      pending := Some(newAdmin);
      events := events + [AdminProposed(admin, newAdmin)];
      return true;
    }

    method AcceptAdmin(auth: Auth) returns (ok: bool)
      modifies this
      ensures ok <==> old(pending).Some? && old(pending).value in auth
      ensures State() == ApplyAdmin(old(State()), Accept(auth))
      ensures ok ==> admin == old(pending).value && pending == None
      ensures !ok ==> admin == old(admin) && pending == old(pending)
      ensures events == old(events) + if ok then [AdminAccepted(old(pending).value)] else []
    {
      if pending.None? || pending.value !in auth {
        return false;
      }
      admin := pending.value;
      pending := None;
      events := events + [AdminAccepted(admin)];
      return true;
    }
  }
}
