/** The envelope handler: reference-block window, replay protection, and delegation to
    the verifier. The two handlers differ only in how an envelope is decoded and which
    signature scheme is behind the verifier; both are parameters here. */
module Handler {
  import opened Ints
  import opened Keys
  import opened History
  import opened Registry
  import V = Verification

  const MAX_REFERENCE_BLOCK_AGE: u32 := 200

  type EventId = seq<byte>

  datatype Decoded = Decoded(eventId: EventId, triggerId: u64, payload: V.Bytes)

  /** What the host supplies: signature checking and envelope decoding. */
  datatype Host = Host(scheme: V.Scheme, decode: V.Bytes -> Option<Decoded>)

  datatype HandlerError =
    | EventAlreadySeen
    | InvalidReferenceBlock
    | InvalidEnvelope
    | OtherInvocationError
    | FromVerifier(error: V.VerifyError)

  datatype HandlerEvent =
    | Verified(eventId: EventId)
    | Triggered(triggerId: u64, eventId: EventId)

  datatype HandlerState = HandlerState(
    seen: set<EventId>,
    payloads: map<EventId, V.Bytes>,
    events: seq<HandlerEvent>)

  function ValidateReferenceBlock(current: u32, referenceBlock: u32): Option<HandlerError> {
    if referenceBlock >= current then Some(InvalidReferenceBlock)
    else if current - referenceBlock > MAX_REFERENCE_BLOCK_AGE then Some(InvalidReferenceBlock)
    else None
  }

  /** A trapped verifier call reaches the handler as an error, not as a trap. */
  function MapVerdict(v: V.Verdict): Option<HandlerError> {
    match v
    case Accepted => None
    case Rejected(e) => Some(FromVerifier(e))
    case Trapped => Some(OtherInvocationError)
  }

  /** The checks in their order; `None` lets the submission through. */
  function Screen(host: Host, reg: Registry, st: HandlerState, now: u32, s: V.Submission): Option<HandlerError> {
    var stale := ValidateReferenceBlock(now, s.referenceBlock);
    if stale.Some? then stale
    else
      match host.decode(s.envelope)
      case None => Some(InvalidEnvelope)
      case Some(d) =>
        if d.eventId in st.seen then Some(EventAlreadySeen)
        else MapVerdict(V.Verify(host.scheme, reg, s))
  }

  function Handle(host: Host, reg: Registry, st: HandlerState, now: u32, s: V.Submission): HandlerState {
    if Screen(host, reg, st, now, s).Some? then st
    else
      var d := host.decode(s.envelope).value;
      HandlerState(
        st.seen + {d.eventId},
        st.payloads[d.eventId := d.payload],
        st.events + [Verified(d.eventId), Triggered(d.triggerId, d.eventId)])
  }

  /** Exactly what gets through: a strictly past block at most 200 ledgers old, a
      decodable envelope with an unseen event id, and a verified quorum. */
  lemma ScreenPassesIff(host: Host, reg: Registry, st: HandlerState, now: u32, s: V.Submission)
    ensures Screen(host, reg, st, now, s).None? <==>
      && s.referenceBlock < now <= s.referenceBlock + 200
      && host.decode(s.envelope).Some?
      && host.decode(s.envelope).value.eventId !in st.seen
      && V.Verify(host.scheme, reg, s) == V.Accepted
  {
  }

  /** Which error a refused submission gets: the window before the envelope, the envelope
      before replay, replay before the signatures. */
  lemma RefusalsInOrder(host: Host, reg: Registry, st: HandlerState, now: u32, s: V.Submission)
    ensures var e := Screen(host, reg, st, now, s);
      var timely := s.referenceBlock < now <= s.referenceBlock + 200;
      var d := host.decode(s.envelope);
      var v := V.Verify(host.scheme, reg, s);
      && (e == Some(InvalidReferenceBlock) <==> !timely)
      && (e == Some(InvalidEnvelope) <==> timely && d.None?)
      && (e == Some(EventAlreadySeen) <==> timely && d.Some? && d.value.eventId in st.seen)
      && (e == Some(OtherInvocationError)
          <==> timely && d.Some? && d.value.eventId !in st.seen && v == V.Trapped)
      && (forall x ::
            (e == Some(FromVerifier(x)) <==> timely && d.Some? && d.value.eventId !in st.seen && v == V.Rejected(x)))
  {
  }

  // ---------------------------------------------------------------- accepted envelopes

  function Pairs(ds: seq<Decoded>): seq<HandlerEvent> {
    if ds == [] then []
    else Pairs(Front(ds)) + [Verified(Last(ds).eventId), Triggered(Last(ds).triggerId, Last(ds).eventId)]
  }

  ghost predicate DistinctIds(ds: seq<Decoded>) {
    forall i, j :: 0 <= i < j < |ds| ==> ds[i].eventId != ds[j].eventId
  }

  ghost function Ids(ds: seq<Decoded>): set<EventId> {
    set d | d in ds :: d.eventId
  }

  /** The state is the record of the accepted envelopes `ds`: ids distinct, exactly those
      ids seen and with a payload, each its own, and one pair of events each. */
  ghost predicate OneEach(st: HandlerState, ds: seq<Decoded>) {
    && DistinctIds(ds)
    && st.seen == st.payloads.Keys == Ids(ds)
    && (forall d :: d in ds ==> d.eventId in st.payloads && st.payloads[d.eventId] == d.payload)
    && st.events == Pairs(ds)
  }

  lemma IdsSnoc(ds: seq<Decoded>, d: Decoded)
    ensures Ids(ds + [d]) == Ids(ds) + {d.eventId}
    ensures DistinctIds(ds) && d.eventId !in Ids(ds) ==> DistinctIds(ds + [d])
  {
    assert forall x :: x in ds + [d] <==> x in ds || x == d;
    assert forall i :: 0 <= i < |ds| ==> ds[i] in ds && (ds + [d])[i] == ds[i];
  }

  lemma OneMore(st: HandlerState, ds: seq<Decoded>, d: Decoded, st': HandlerState)
    requires OneEach(st, ds) && d.eventId !in st.seen
    requires st'.seen == st.seen + {d.eventId}
    requires st'.payloads == st.payloads[d.eventId := d.payload]
    requires st'.events == st.events + [Verified(d.eventId), Triggered(d.triggerId, d.eventId)]
    ensures OneEach(st', ds + [d])
  {
    IdsSnoc(ds, d);
    assert Front(ds + [d]) == ds;
    forall x | x in ds + [d] ensures x.eventId in st'.payloads && st'.payloads[x.eventId] == x.payload {
      assert x != d ==> x in ds && x.eventId in Ids(ds);
    }
  }
}
