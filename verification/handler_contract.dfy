/** The envelope handlers' code (contracts/ethereum-handler and contracts/stellar-handler). */
module HandlerContract {
  import opened Ints
  import opened Quorum
  import opened Handler
  import opened VerificationContract
  import V = Verification

  class EnvelopeHandler {
    const verification: Verifier
    var eventSeen: set<EventId>
    var payloads: map<EventId, V.Bytes>

    /** The published events, and the envelopes accepted so far. */
    ghost var events: seq<HandlerEvent>
    ghost var accepted: seq<Decoded>

    ghost function State(): HandlerState
      reads this
    {
      HandlerState(eventSeen, payloads, events)
    }

    /** The stored state is the record of the accepted envelopes. */
    ghost predicate Valid()
      reads this
    {
      OneEach(State(), accepted)
    }

    constructor (verification: Verifier)
      ensures this.verification == verification
      ensures State() == HandlerState({}, map[], []) && accepted == []
      ensures Valid()
    {
      this.verification := verification;
      eventSeen, payloads, events, accepted := {}, map[], [], [];
    }

    /** Exactly the ids of accepted envelopes have been seen. */
    method IsEventSeen(id: EventId) returns (seen: bool)
      requires Valid()
      ensures seen <==> exists d :: d in accepted && d.eventId == id
    {
      seen := id in eventSeen;
    }

    method MarkEventSeen(id: EventId)
      modifies this`eventSeen
      ensures eventSeen == old(eventSeen) + {id}
    {
      eventSeen := eventSeen + {id};
    }

    method SavePayload(id: EventId, payload: V.Bytes)
      modifies this`payloads
      ensures payloads == old(payloads)[id := payload]
    {
      payloads := payloads[id := payload];
    }

    /** The payload of the one accepted envelope with this id, or none. */
    method GetPayload(id: EventId) returns (payload: Option<V.Bytes>)
      requires Valid()
      ensures payload.None? <==> forall d :: d in accepted ==> d.eventId != id
      ensures forall d :: d in accepted && d.eventId == id ==> payload == Some(d.payload)
    {
      payload := if id in payloads then Some(payloads[id]) else None;
    }

    /** What an accepted envelope leaves behind. */
    method Commit(d: Decoded)
      requires Valid() && forall x :: x in accepted ==> x.eventId != d.eventId
      modifies this
      ensures Valid() && accepted == old(accepted) + [d]
      ensures State() == HandlerState(
        old(eventSeen) + {d.eventId},
        old(payloads)[d.eventId := d.payload],
        old(events) + [Verified(d.eventId), Triggered(d.triggerId, d.eventId)])
    {
      MarkEventSeen(d.eventId);
      SavePayload(d.eventId, d.payload);
      events := events + [Verified(d.eventId), Triggered(d.triggerId, d.eventId)];
      OneMore(old(State()), accepted, d, State());
      accepted := accepted + [d];
    }

    /** `verify_eth` and `verify_xlm`: `None` is success. A submission goes through
        exactly when it is timely, decodable, fresh, and backed by the true history. */
    method VerifyEnvelope(host: Host, now: u32, s: V.Submission) returns (error: Option<HandlerError>)
      requires Valid() && verification.security.Valid(now)
      modifies this
      ensures error == Screen(host, verification.security.State(), old(State()), now, s)
      ensures error == old(TrueError(host, now, s))
      ensures State() == Handle(host, verification.security.State(), old(State()), now, s)
      ensures error.None? <==>
        && s.referenceBlock < now <= s.referenceBlock + 200
        && host.decode(s.envelope).Some?
        && (forall d :: d in old(accepted) ==> d.eventId != host.decode(s.envelope).value.eventId)
        && Backed(host.scheme, verification.security.log, verification.security.threshold, s)
      ensures accepted == old(accepted) + if error.None? then [host.decode(s.envelope).value] else []
      ensures Valid()
    {
      ScreenMeaning(host, now, s);
      ErrorIsTrue(host, now, s);
      if s.referenceBlock >= now {
        return Some(InvalidReferenceBlock);
      }
      if now - s.referenceBlock > MAX_REFERENCE_BLOCK_AGE {
        return Some(InvalidReferenceBlock);
      }
      var envelope := host.decode(s.envelope);
      if envelope.None? {
        return Some(InvalidEnvelope);
      }
      var d := envelope.value;
      var seen := IsEventSeen(d.eventId);
      if seen {
        return Some(EventAlreadySeen);
      }
      var v := verification.Verify(now, host.scheme, s);
      error := MapVerdict(v);
      if error.Some? {
        return;
      }
      Commit(d);
    }

    /** The error an observer of the whole history expects: the window before the envelope,
        the envelope before replay, replay before the signatures, and then the error of the
        true verdict. */
    ghost function TrueError(host: Host, now: u32, s: V.Submission): Option<HandlerError>
      reads this, verification.security
    {
      var d := host.decode(s.envelope);
      if !(s.referenceBlock < now <= s.referenceBlock + 200) then Some(InvalidReferenceBlock)
      else if d.None? then Some(InvalidEnvelope)
      else if exists x :: x in accepted && x.eventId == d.value.eventId then Some(EventAlreadySeen)
      else MapVerdict(TrueVerdict(host.scheme, verification.security.log, verification.security.threshold, s))
    }

    lemma ErrorIsTrue(host: Host, now: u32, s: V.Submission)
      requires Valid() && verification.security.Valid(now)
      ensures Screen(host, verification.security.State(), State(), now, s) == TrueError(host, now, s)
    {
      var reg := verification.security.State();
      RefusalsInOrder(host, reg, State(), now, s);
      ScreenPassesIff(host, reg, State(), now, s);
      if now <= s.referenceBlock + 200 {
        WindowVerdictIsTrue(host.scheme, reg, verification.security.log, now, s);
      }
      assert forall id :: id in State().seen <==> exists d :: d in accepted && d.eventId == id;
    }

    lemma ScreenMeaning(host: Host, now: u32, s: V.Submission)
      requires Valid() && verification.security.Valid(now)
      ensures Screen(host, verification.security.State(), State(), now, s).None? <==>
        && s.referenceBlock < now <= s.referenceBlock + 200
        && host.decode(s.envelope).Some?
        && (forall d :: d in accepted ==> d.eventId != host.decode(s.envelope).value.eventId)
        && Backed(host.scheme, verification.security.log, verification.security.threshold, s)
    {
      var reg := verification.security.State();
      ScreenPassesIff(host, reg, State(), now, s);
      if now <= s.referenceBlock + 200 {
        WindowAcceptsIffBacked(host.scheme, reg, verification.security.log, now, s);
      }
      assert forall id :: id in State().seen <==> exists d :: d in accepted && d.eventId == id;
    }
  }
}
