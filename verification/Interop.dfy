/** Undisturbed exchanges, and the two carriers side by side. */
module Interop {
  import opened Contracts
  import opened Json
  import opened Framing
  import opened LocalIp
  import opened Wire
  import opened Recency
  import opened Delivery
  import opened Protocol
  import opened Sizes

  // ---------------------------------------------------------------- a request that arrives

  /** The request was put on the wire, fits the server's frame, and names a peer known by the same secret. */
  ghost predicate Addressed(w: World, r: Request) {
    && r.envelope.Valid() && ValidNonce(r.nonce)
    && Begin(w.crypto, r).Ok? && Begin(w.crypto, r).value.Attempted?
    && |CanonicalBytes(RequestFrame(w.crypto, r))| <= w.server.maxFrameBytes
    && r.envelope.sourcePeerId in w.server.peerSecrets
    && w.server.peerSecrets[r.envelope.sourcePeerId] == r.client.secret
  }

  ghost predicate InTime(w: World, r: Request, clock: Clock) {
    DeliveryInTime(r.envelope, r.sentAtMs, w.server.Policy(), clock)
  }

  /**
   Exactly when a client puts a request on the wire: it is between the configured peers, within the payload
   limit, unexpired, and its frame, whose length is exact, is within the frame limit.
   */
  lemma SendsExactly(c: Crypto, r: Request)
    requires TagsAreHex(c) && r.envelope.Valid() && r.client.maxFrameBytes < HEADER_RANGE
    ensures Begin(c, r).Ok? && Begin(c, r).value.Attempted? <==>
              && r.envelope.sourcePeerId == r.client.localPeerId
              && r.envelope.destinationPeerId == r.client.remotePeerId
              && |r.envelope.payload| <= r.client.maxPayloadBytes
              && r.sentAtMs < r.envelope.createdAtMs + r.envelope.ttlMs
              && DeliveryLength(r.envelope, r.nonce, r.sentAtMs) <= r.client.maxFrameBytes
  {
    DeliveryFitsExactly(c, r.envelope, r.nonce, r.sentAtMs, r.client.secret, r.client.maxFrameBytes);
  }

  /** The server's exchange over the client's own bytes. */
  function Arrival(w: World, cache: Cache, r: Request, clock: Clock, answer: Answer): Served
    requires Begin(w.crypto, r).Ok? && Begin(w.crypto, r).value.Attempted?
  {
    Serve(w.crypto, w.server, cache, ReadFrame(Begin(w.crypto, r).value.stream, w.server.maxFrameBytes), clock, answer)
  }

  function Validated(w: World, r: Request, clock: Clock): Result<(Envelope, string)> {
    ValidateDelivery(w.crypto, RequestFrame(w.crypto, r), r.client.secret, w.server.Policy(), clock)
  }

  function Consultation(w: World, cache: Cache, r: Request, clock: Clock, answer: Answer): Consulted {
    Consult(w.crypto, w.server, cache, r.envelope, clock.expiryNowMs, answer)
  }

  /** What the server makes of the request: the outcome of its consultation, or why there is none. */
  function Decision(w: World, cache: Cache, r: Request, clock: Clock, answer: Answer): Result<Reply> {
    match Validated(w, r, clock)
    case Err(reason) => Err(reason)
    case Ok(_) => Consultation(w, cache, r, clock, answer).event.Reported(w.server)
  }

  /** The reply that the acknowledgement of a decision carries. */
  function ReplyTo(decision: Result<Reply>): Reply {
    match decision
    case Ok(reply) => reply
    case Err(reason) => RefusalReply(reason)
  }

  function Answered(w: World, cache: Cache, r: Request, clock: Clock, answer: Answer): Reply {
    ReplyTo(Decision(w, cache, r, clock, answer))
  }

  function AckOf(w: World, r: Request, reply: Reply): Ack {
    Ack(r.client.secret, AckFor(w.server.kind, r.envelope.messageId, r.nonce, reply))
  }

  lemma RequestIsRead(w: World, r: Request)
    requires Addressed(w, r)
    ensures ReadFrame(Begin(w.crypto, r).value.stream, w.server.maxFrameBytes) == Ok(RequestFrame(w.crypto, r))
  {
    var stream := Begin(w.crypto, r).value.stream;
    FrameRoundTrip(RequestFrame(w.crypto, r), r.client.maxFrameBytes, w.server.maxFrameBytes, []);
    assert stream + [] == stream;
  }

  /** The server looks up the client's own secret. */
  lemma RequestIsAddressed(w: World, r: Request)
    requires TagsAreHex(w.crypto) && Addressed(w, r)
    ensures SourcePeer(RequestFrame(w.crypto, r)) == Ok(r.envelope.sourcePeerId)
    ensures SecretFor(w.server, Ok(RequestFrame(w.crypto, r))) == Some((RequestFrame(w.crypto, r), r.client.secret))
  {
    DeliveryFrameFields(w.crypto, r.envelope, r.nonce, r.sentAtMs, r.client.secret);
  }

  /** The request validates, as exactly what the client sent, precisely when it is in time. */
  lemma ValidatesInTime(w: World, r: Request, clock: Clock)
    requires TagsAreHex(w.crypto) && Addressed(w, r)
    ensures Validated(w, r, clock).Ok? <==> InTime(w, r, clock)
    ensures InTime(w, r, clock) ==> Validated(w, r, clock) == Ok((r.envelope, r.nonce))
  {
    DeliveryValidates(w.crypto, r.envelope, r.nonce, r.sentAtMs, r.client.secret, w.server.Policy(), clock);
  }

  lemma ArrivalConcludes(w: World, cache: Cache, r: Request, clock: Clock, answer: Answer)
    requires TagsAreHex(w.crypto) && Addressed(w, r)
    ensures Arrival(w, cache, r, clock, answer)
         == Conclude(w.crypto, w.server, cache, RequestFrame(w.crypto, r), r.client.secret,
                     Validated(w, r, clock), clock.expiryNowMs, answer)
  {
    RequestIsRead(w, r);
    RequestIsAddressed(w, r);
  }

  /** The refusal of an honest request is addressed to that request. */
  lemma RefusalIsAddressed(w: World, r: Request, reason: string)
    requires TagsAreHex(w.crypto) && r.envelope.Valid()
    ensures RefusalFor(w.server.kind, RequestFrame(w.crypto, r), reason)
         == AckFor(w.server.kind, r.envelope.messageId, r.nonce, RefusalReply(reason))
  {
    RequestClaims(w.crypto, r);
  }

  lemma RequestClaims(c: Crypto, r: Request)
    ensures ClaimedId(RequestFrame(c, r)) == r.envelope.messageId && ClaimedNonce(RequestFrame(c, r)) == r.nonce
  {
    DeliveryFields(r.envelope, r.nonce, r.sentAtMs);
    SignedGets(c, DeliveryUnsigned(r.envelope, r.nonce, r.sentAtMs), r.client.secret);
    FieldsDescribe(r.envelope);
    ClaimsRead(RequestFrame(c, r), EnvelopeFields(r.envelope), r.envelope.messageId, r.nonce);
  }

  lemma ClaimsRead(frame: Fields, raw: Fields, messageId: string, nonce: string)
    requires Get(frame, "envelope") == Some(Obj(raw)) && Get(frame, "nonce") == Some(Str(nonce))
    requires Get(raw, "message_id") == Some(Str(messageId))
    ensures ClaimedId(frame) == messageId && ClaimedNonce(frame) == nonce
  {
  }

  /** The acknowledgement of a concluded exchange carries the reply to its decision. */
  lemma ConclusionIsAcked(w: World, cache: Cache, r: Request, clock: Clock, answer: Answer)
    requires TagsAreHex(w.crypto) && r.envelope.Valid()
    requires Validated(w, r, clock).Ok? ==> Validated(w, r, clock) == Ok((r.envelope, r.nonce))
    ensures Conclude(w.crypto, w.server, cache, RequestFrame(w.crypto, r), r.client.secret,
                     Validated(w, r, clock), clock.expiryNowMs, answer).ack
         == Some(AckOf(w, r, Answered(w, cache, r, clock, answer)))
  {
    var decision := Decision(w, cache, r, clock, answer);
    if decision.Err? {
      RefusalIsAddressed(w, r, decision.reason);
    }
  }

  /**
   The server answers every addressed request. In time, it consults its cache for exactly the client's
   envelope; late, it changes nothing. Either way the signed acknowledgement carries the reply to its decision:
   the outcome, or a rejection with the reason if the call failed or the request did not validate.
   */
  lemma RequestIsAnswered(w: World, cache: Cache, r: Request, clock: Clock, answer: Answer)
    requires TagsAreHex(w.crypto) && Addressed(w, r)
    ensures var served := Arrival(w, cache, r, clock, answer);
            && served.ack == Some(AckOf(w, r, Answered(w, cache, r, clock, answer)))
            && if InTime(w, r, clock)
               then served.event == Some(Consultation(w, cache, r, clock, answer).event)
                    && served.cache == Consultation(w, cache, r, clock, answer).cache
                    && Decision(w, cache, r, clock, answer)
                       == Consultation(w, cache, r, clock, answer).event.Reported(w.server)
               else served.event == None && served.cache == cache && Decision(w, cache, r, clock, answer).Err?
  {
    ValidatesInTime(w, r, clock);
    ArrivalConcludes(w, cache, r, clock, answer);
    ConclusionIsAcked(w, cache, r, clock, answer);
    ConcludeConsults(w.crypto, w.server, cache, RequestFrame(w.crypto, r), r.client.secret,
                     Validated(w, r, clock), clock.expiryNowMs, answer);
  }

  // ---------------------------------------------------------------- the way back

  /** The bytes that come back; none if the acknowledgement does not fit the server's frame. */
  function Returned(w: World, r: Request, reply: Reply): Bytes {
    match Transmit(w.crypto, Some(AckOf(w, r, reply)), w.server.maxFrameBytes)
    case Some(stream) => stream
    case None => []
  }

  /** The acknowledgement fits both frames, and what it carries is within the client's reply limit. */
  ghost predicate ComesBack(w: World, r: Request, reply: Reply) {
    && Transmit(w.crypto, Some(AckOf(w, r, reply)), w.server.maxFrameBytes).Some?
    && |CanonicalBytes(AckFrame(w, r, reply))| <= r.client.maxFrameBytes
    && (r.client.kind == Rpc ==> |Carried(w, reply)| <= r.client.maxReplyBytes)
  }

  function AckFrame(w: World, r: Request, reply: Reply): Fields {
    Signed(w.crypto, AckOf(w, r, reply).unsigned, r.client.secret)
  }

  /** What a client makes of a signed acknowledgement of its own request. */
  function ReportOf(w: World, r: Request, reply: Reply): Report {
    Report(r.envelope.messageId, reply.accepted, true,
           if r.client.kind == Rpc then Carried(w, reply) else [], Take(reply.detail, MAX_DETAIL_CHARS))
  }

  /** How a client reads the acknowledgement of its own request, whichever carrier made it. */
  lemma OwnAckRead(w: World, r: Request, reply: Reply)
    requires TagsAreHex(w.crypto) && r.envelope.Valid() && ValidNonce(r.nonce)
    ensures var read := ReadAck(w.crypto, r, AckFrame(w, r, reply));
            if r.client.kind == Rpc && |Carried(w, reply)| > r.client.maxReplyBytes then read.Err?
            else read == Ok(Reply(reply.accepted, if r.client.kind == Rpc then Carried(w, reply) else [],
                                  Take(reply.detail, MAX_DETAIL_CHARS)))
  {
    var frame, unsigned := AckFrame(w, r, reply), AckOf(w, r, reply).unsigned;
    AckForFields(w.server.kind, r.envelope.messageId, r.nonce, reply);
    AckForIsUnsigned(w.server.kind, r.envelope.messageId, r.nonce, reply);
    SignedValidates(w.crypto, unsigned, r.client.secret, "ack");
    SignedGets(w.crypto, unsigned, r.client.secret);
    OutcomeRead(frame, r.envelope.messageId, r.nonce, reply, r.envelope.messageId, r.nonce);
    PayloadRead(frame, r.envelope.messageId, r.nonce, r.client.maxReplyBytes, Carried(w, reply));
  }

  lemma AckForIsUnsigned(kind: Kind, messageId: string, nonce: string, reply: Reply)
    ensures var f := AckFor(kind, messageId, nonce, reply);
            && "signature" !in f
            && Get(f, "schema") == Some(Str(SCHEMA)) && Get(f, "authority") == Some(Str("none"))
  {
    match kind
    case Plain => PlainAckFields(messageId, nonce, reply.accepted, reply.detail);
    case Rpc => AckFields(messageId, nonce, reply);
  }

  /** The client receives the acknowledgement exactly when it fits, and otherwise no frame at all. */
  lemma ReturnedIsReceived(w: World, r: Request, reply: Reply)
    ensures var sent := Transmit(w.crypto, Some(AckOf(w, r, reply)), w.server.maxFrameBytes).Some?;
            var received := ReadFrame(Returned(w, r, reply), r.client.maxFrameBytes);
            if sent && |CanonicalBytes(AckFrame(w, r, reply))| <= r.client.maxFrameBytes
            then received == Ok(AckFrame(w, r, reply)) else received.Err?
  {
    var frame, back := AckFrame(w, r, reply), Returned(w, r, reply);
    if back != [] {
      assert back + [] == back;
      if |CanonicalBytes(frame)| <= r.client.maxFrameBytes {
        FrameRoundTrip(frame, w.server.maxFrameBytes, r.client.maxFrameBytes, []);
      } else {
        HeaderRoundTrip(|CanonicalBytes(frame)|);
        assert back[..4] == Header(|CanonicalBytes(frame)|);
      }
    }
  }

  /** The client's report is the carried reply if it comes back, and an unacknowledged failure if not. */
  lemma ReturnedIsReported(w: World, r: Request, reply: Reply)
    requires TagsAreHex(w.crypto) && r.envelope.Valid() && ValidNonce(r.nonce)
    ensures var report := Finish(w.crypto, r, Returned(w, r, reply));
            if ComesBack(w, r, reply) then report == ReportOf(w, r, reply)
            else !report.acknowledged && !report.accepted
  {
    ReturnedIsReceived(w, r, reply);
    OwnAckRead(w, r, reply);
  }

  // ---------------------------------------------------------------- what always comes back

  /** Both ends use limits that construction accepts, and the nonce is 32 hexadecimal digits. */
  ghost predicate LimitsAccepted(w: World, r: Request) {
    && IsHexText(r.nonce, 32)
    && FrameLimit(w.server.maxFrameBytes).Ok? && FrameLimit(r.client.maxFrameBytes).Ok?
    && (w.server.kind == Rpc ==> ReplyLimit(w.server.maxReplyBytes, w.server.maxFrameBytes).Ok?)
    && (r.client.kind == Rpc ==> ReplyLimit(r.client.maxReplyBytes, r.client.maxFrameBytes).Ok?)
  }

  /** A plain verdict, an empty reply, or a reply within both bounds with a detail below U+10000. */
  ghost predicate Returnable(w: World, r: Request, reply: Reply) {
    || w.server.kind == Plain
    || reply.payload == []
    || (&& r.client.kind == Rpc && reply.Valid()
        && (forall i | 0 <= i < |reply.detail| :: reply.detail[i] as nat < 0x10000)
        && |reply.payload| <= w.server.maxReplyBytes && |reply.payload| <= r.client.maxReplyBytes
        && w.server.maxFrameBytes < HEADER_RANGE && r.client.maxFrameBytes < HEADER_RANGE)
  }

  /** With accepted limits no such acknowledgement is ever lost for its size. */
  lemma ReturnableComesBack(w: World, r: Request, reply: Reply)
    requires TagsAreHex(w.crypto) && LimitsAccepted(w, r) && ValidId(r.envelope.messageId) && Returnable(w, r, reply)
    ensures ComesBack(w, r, reply)
  {
    var frame := AckFrame(w, r, reply);
    AckIsObject(w, r, reply);
    if w.server.kind == Plain {
      PlainAckBound(w.crypto, r.envelope.messageId, r.nonce, reply.accepted, reply.detail, r.client.secret);
    } else if reply.payload == [] {
      EmptyReplyBound(w.crypto, r.envelope.messageId, r.nonce, reply, r.client.secret);
    } else {
      LongReplyFits(w, r, reply);
    }
  }

  lemma ReturnableIsReported(w: World, r: Request, reply: Reply)
    requires TagsAreHex(w.crypto) && LimitsAccepted(w, r) && r.envelope.Valid() && ValidNonce(r.nonce)
    requires Returnable(w, r, reply)
    ensures Finish(w.crypto, r, Returned(w, r, reply)) == ReportOf(w, r, reply)
  {
    ReturnableComesBack(w, r, reply);
    ReturnedIsReported(w, r, reply);
  }

  lemma AckIsObject(w: World, r: Request, reply: Reply)
    ensures |CanonicalBytes(AckFrame(w, r, reply))| >= 2
  {
    CanonicalAtLeastTwo(AckFrame(w, r, reply));
  }

  lemma LongReplyFits(w: World, r: Request, reply: Reply)
    requires TagsAreHex(w.crypto) && LimitsAccepted(w, r) && ValidId(r.envelope.messageId)
    requires w.server.kind == Rpc && reply.payload != [] && Returnable(w, r, reply)
    ensures ReplyAckFits(w.crypto, r.envelope.messageId, r.nonce, reply, r.client.secret, w.server.maxFrameBytes)
    ensures ReplyAckFits(w.crypto, r.envelope.messageId, r.nonce, reply, r.client.secret, r.client.maxFrameBytes)
  {
    BasicPlaneRepliesFit(w.crypto, r.envelope.messageId, r.nonce, reply.accepted, reply.detail, r.client.secret);
    assert Reply(reply.accepted, reply.payload, reply.detail) == reply;
  }

  // ---------------------------------------------------------------- undisturbed exchanges

  /** The server decided on exactly the client's envelope, and acknowledges its decision with this reply. */
  predicate DecidedWith(w: World, r: Request, served: Served, reply: Reply) {
    && served.event.Some? && served.event.value.envelope == r.envelope
    && reply == ReplyTo(served.event.value.Reported(w.server))
    && served.ack == Some(AckOf(w, r, reply))
  }

  lemma InTimeIsDecided(w: World, cache: Cache, r: Request, clock: Clock, answer: Answer)
    requires TagsAreHex(w.crypto) && Addressed(w, r) && InTime(w, r, clock)
    ensures DecidedWith(w, r, Arrival(w, cache, r, clock, answer), Answered(w, cache, r, clock, answer))
  {
    RequestIsAnswered(w, cache, r, clock, answer);
    ConsultedEnvelope(w.crypto, w.server, cache, r.envelope, clock.expiryNowMs, answer);
  }

  lemma ConsultedEnvelope(c: Crypto, cfg: ServerConfig, cache: Cache, e: Envelope, at: int, answer: Answer)
    ensures Consult(c, cfg, cache, e, at, answer).event.envelope == e
  {
  }

  /**
   An undisturbed exchange of a request in time: one event for exactly the client's envelope, and a report
   of the reply to the server's decision, a failed call included, exactly if that reply comes back.
   */
  lemma UndisturbedExchange(w: World, cache: Cache, r: Request, clock: Clock, answer: Answer)
    requires TagsAreHex(w.crypto) && Addressed(w, r) && InTime(w, r, clock)
    ensures var reply := Answered(w, cache, r, clock, answer);
            && DecidedWith(w, r, Arrival(w, cache, r, clock, answer), reply)
            && var report := Finish(w.crypto, r, Returned(w, r, reply));
               && (report.acknowledged <==> ComesBack(w, r, reply))
               && (report.acknowledged ==> report == ReportOf(w, r, reply))
  {
    InTimeIsDecided(w, cache, r, clock, answer);
    ReturnedIsReported(w, r, Answered(w, cache, r, clock, answer));
  }

  /**
   With accepted limits it completes: over the plain carrier always, over the request/reply carrier unless a
   long reply has a detail beyond U+FFFF or exceeds the client's own limit.
   */
  lemma UndisturbedExchangeCompletes(w: World, cache: Cache, r: Request, clock: Clock, answer: Answer)
    requires TagsAreHex(w.crypto) && Addressed(w, r) && InTime(w, r, clock) && LimitsAccepted(w, r)
    requires Returnable(w, r, Answered(w, cache, r, clock, answer))
    ensures var reply := Answered(w, cache, r, clock, answer);
            && DecidedWith(w, r, Arrival(w, cache, r, clock, answer), reply)
            && Finish(w.crypto, r, Returned(w, r, reply)) == ReportOf(w, r, reply)
  {
    InTimeIsDecided(w, cache, r, clock, answer);
    ReturnableIsReported(w, r, Answered(w, cache, r, clock, answer));
  }

  lemma FailedConsultation(w: World, cache: Cache, r: Request, clock: Clock, answer: Answer)
    requires r.envelope.messageId !in cache.entries && CallFails(w.server, answer)
    ensures Consultation(w, cache, r, clock, answer)
         == Consulted(cache, Failed(r.envelope, answer, clock.expiryNowMs))
    ensures Consultation(w, cache, r, clock, answer).event.Reported(w.server) == Err(FailureReason(answer))
  {
    OutcomeByAnswer(w.server, answer);
  }

  /** An empty rejection always reaches the client, with its detail. */
  lemma RejectionIsReported(w: World, r: Request, reply: Reply)
    requires TagsAreHex(w.crypto) && LimitsAccepted(w, r) && r.envelope.Valid() && ValidNonce(r.nonce)
    requires !reply.accepted && reply.payload == []
    ensures Finish(w.crypto, r, Returned(w, r, reply))
         == Report(r.envelope.messageId, false, true, [], Take(reply.detail, MAX_DETAIL_CHARS))
  {
    ReturnableIsReported(w, r, reply);
  }

  /**
   A receiver call that fails (it raises, returns the wrong type, or its reply is too large) is reported as an
   acknowledged rejection with the reason, cut to 256 characters, and leaves the cache as it was.
   */
  lemma FailedCallIsReported(w: World, cache: Cache, r: Request, clock: Clock, answer: Answer)
    requires TagsAreHex(w.crypto) && Addressed(w, r) && InTime(w, r, clock) && LimitsAccepted(w, r)
    requires r.envelope.messageId !in cache.entries && CallFails(w.server, answer)
    ensures var served, reason := Arrival(w, cache, r, clock, answer), FailureReason(answer);
            && served.event == Some(Failed(r.envelope, answer, clock.expiryNowMs)) && served.cache == cache
            && Finish(w.crypto, r, Returned(w, r, RefusalReply(reason)))
               == Report(r.envelope.messageId, false, true, [], Take(reason, MAX_DETAIL_CHARS))
            && served.ack == Some(AckOf(w, r, RefusalReply(reason)))
  {
    var reason := FailureReason(answer);
    RequestIsAnswered(w, cache, r, clock, answer);
    FailedConsultation(w, cache, r, clock, answer);
    RejectionIsReported(w, r, RefusalReply(reason));
  }

  lemma LateIsRefused(w: World, cache: Cache, r: Request, clock: Clock, answer: Answer)
    requires TagsAreHex(w.crypto) && Addressed(w, r) && !InTime(w, r, clock)
    ensures Arrival(w, cache, r, clock, answer)
         == Served(cache, None, Some(AckOf(w, r, Answered(w, cache, r, clock, answer))))
    ensures !Answered(w, cache, r, clock, answer).accepted && Answered(w, cache, r, clock, answer).payload == []
  {
    RequestIsAnswered(w, cache, r, clock, answer);
  }

  /** A request that is no longer in time gets an acknowledged rejection, whatever the cache holds. */
  lemma LateRequestIsRefused(w: World, cache: Cache, r: Request, clock: Clock, answer: Answer)
    requires TagsAreHex(w.crypto) && Addressed(w, r) && !InTime(w, r, clock) && LimitsAccepted(w, r)
    ensures var served, reply := Arrival(w, cache, r, clock, answer), Answered(w, cache, r, clock, answer);
            && served.cache == cache && served.event == None && served.ack == Some(AckOf(w, r, reply))
            && var report := Finish(w.crypto, r, Returned(w, r, reply));
               && report.acknowledged && !report.accepted
               && report.messageId == r.envelope.messageId && report.payload == []
  {
    LateIsRefused(w, cache, r, clock, answer);
    RejectionIsReported(w, r, Answered(w, cache, r, clock, answer));
  }

  // ---------------------------------------------------------------- replies that never come back

  /**
   A completed reply that does not fit the server's frame is cached all the same, and while its id is resident
   every retry in time replays it and is dropped without an acknowledgement.
   */
  lemma RetriesAreDropped(w: World, cache: Cache, log: seq<Event>, r: Request, clock: Clock, answer: Answer,
                          reply: Reply, nonce: string)
    requires TagsAreHex(w.crypto) && Addressed(w, r) && InTime(w, r, clock) && w.server.kind == Rpc
    requires Consistent(w.crypto, w.server, cache, log) && Latest(log, r.envelope.messageId) == Some((r.envelope, reply))
    requires Resident(Touched(log), w.server.replayCapacity, r.envelope.messageId)
    requires IsHexText(r.nonce, 32) && IsHexText(nonce, 32) && w.server.maxFrameBytes < HEADER_RANGE
    requires !ReplyAckFits(w.crypto, r.envelope.messageId, nonce, reply, r.client.secret, w.server.maxFrameBytes)
    ensures var served := Arrival(w, cache, r, clock, answer);
            && served.event == Some(Replayed(r.envelope, reply, clock.expiryNowMs))
            && Transmit(w.crypto, served.ack, w.server.maxFrameBytes) == None
            && !Finish(w.crypto, r, Returned(w, r, reply)).acknowledged
  {
    ReplayIsAnswered(w, cache, log, r, clock, answer, reply);
    UnfitIsDropped(w, r, reply, nonce);
  }

  lemma ReplayIsAnswered(w: World, cache: Cache, log: seq<Event>, r: Request, clock: Clock, answer: Answer, reply: Reply)
    requires TagsAreHex(w.crypto) && Addressed(w, r) && InTime(w, r, clock)
    requires Consistent(w.crypto, w.server, cache, log) && Latest(log, r.envelope.messageId) == Some((r.envelope, reply))
    requires Resident(Touched(log), w.server.replayCapacity, r.envelope.messageId)
    ensures var served := Arrival(w, cache, r, clock, answer);
            && served.event == Some(Replayed(r.envelope, reply, clock.expiryNowMs))
            && served.ack == Some(AckOf(w, r, reply))
  {
    RequestIsAnswered(w, cache, r, clock, answer);
    ResidentIsReplayed(w, cache, log, r, clock, answer, reply);
  }

  lemma ResidentIsReplayed(w: World, cache: Cache, log: seq<Event>, r: Request, clock: Clock, answer: Answer, reply: Reply)
    requires Consistent(w.crypto, w.server, cache, log) && Latest(log, r.envelope.messageId) == Some((r.envelope, reply))
    requires Resident(Touched(log), w.server.replayCapacity, r.envelope.messageId)
    requires r.envelope.Valid() && InTime(w, r, clock)
    ensures Consultation(w, cache, r, clock, answer).event == Replayed(r.envelope, reply, clock.expiryNowMs)
  {
    ConsultRefines(w.crypto, w.server, cache, log, r.envelope, clock.expiryNowMs, answer);
  }

  lemma UnfitIsDropped(w: World, r: Request, reply: Reply, nonce: string)
    requires TagsAreHex(w.crypto) && r.envelope.Valid() && ValidNonce(r.nonce) && w.server.kind == Rpc
    requires IsHexText(r.nonce, 32) && IsHexText(nonce, 32) && w.server.maxFrameBytes < HEADER_RANGE
    requires !ReplyAckFits(w.crypto, r.envelope.messageId, nonce, reply, r.client.secret, w.server.maxFrameBytes)
    ensures Transmit(w.crypto, Some(AckOf(w, r, reply)), w.server.maxFrameBytes) == None
    ensures !Finish(w.crypto, r, Returned(w, r, reply)).acknowledged
  {
    SizeForgetsNonce(w.crypto, r.envelope.messageId, r.nonce, nonce, reply, r.client.secret);
    CanonicalAtLeastTwo(Signed(w.crypto, ReplyAckUnsigned(r.envelope.messageId, nonce, reply), r.client.secret));
    ReturnedIsReported(w, r, reply);
  }

  /** There is such a reply within accepted limits: the receiver's answer is taken, and its id is any one-letter "m". */
  lemma DroppedReplyExists(c: Crypto, cfg: ServerConfig, secret: Bytes)
    requires TagsAreHex(c) && cfg.kind == Rpc && cfg.maxReplyBytes == 1533 && cfg.maxFrameBytes == 4096
    ensures var reply := Reply(true, seq(1533, _ => 0), seq(256, _ => '\U{1F600}'));
            var nonce := seq(32, _ => 'a');
            && ReplyLimit(cfg.maxReplyBytes, cfg.maxFrameBytes).Ok? && FrameLimit(cfg.maxFrameBytes).Ok?
            && CompletesWith(cfg, ReturnsReply(reply), reply) && IsHexText(nonce, 32)
            && !ReplyAckFits(c, "m", nonce, reply, secret, cfg.maxFrameBytes)
  {
    AstralDetailDoesNotFit(c, secret);
  }

  // ---------------------------------------------------------------- the plain server as an RPC server

  /** A plain receiver's answer, given to an RPC server as an empty reply with the same detail text. */
  function AsReply(answer: Answer): Answer {
    match answer
    case Raises(text) => Raises(text)
    case ReturnsBool(verdict) => ReturnsReply(PlainReply(verdict))
    case ReturnsReply(_) => ReturnsReply(PlainReply(true))
  }

  function AsRpc(cfg: ServerConfig): ServerConfig {
    cfg.(kind := Rpc)
  }

  /** The same event, up to how the receiver's answer is written. */
  function Translated(event: Event): Event {
    match event
    case Completed(e, answer, reply, at) => Completed(e, AsReply(answer), reply, at)
    case Failed(e, answer, at) => Failed(e, AsReply(answer), at)
    case Replayed(_, _, _) => event
    case Conflicted(_, _) => event
  }

  /** A plain client reads the same outcome from the two acknowledgements. */
  ghost predicate PlainReadsAlike(c: Crypto, secret: Bytes, p: Fields, q: Fields) {
    forall forId, forNonce ::
      && ValidateAck(c, p, secret, forId, forNonce).Ok? == ValidateAck(c, q, secret, forId, forNonce).Ok?
      && (ValidateAck(c, p, secret, forId, forNonce).Ok? ==>
            ValidateAck(c, p, secret, forId, forNonce) == ValidateAck(c, q, secret, forId, forNonce))
  }

  /** So does a request/reply client, whatever its reply limit. */
  ghost predicate RpcReadsAlike(c: Crypto, secret: Bytes, p: Fields, q: Fields) {
    forall forId, forNonce, most: nat ::
      && ValidateReplyAck(c, p, secret, forId, forNonce, most).Ok?
         == ValidateReplyAck(c, q, secret, forId, forNonce, most).Ok?
      && (ValidateReplyAck(c, p, secret, forId, forNonce, most).Ok? ==>
            ValidateReplyAck(c, p, secret, forId, forNonce, most) == ValidateReplyAck(c, q, secret, forId, forNonce, most))
  }

  /** Both kinds of client read the same outcome; request/reply clients if the reply is known to be empty. */
  ghost predicate ReadAlike(c: Crypto, plain: Ack, rpc: Ack, empty: bool) {
    var p, q := Signed(c, plain.unsigned, plain.secret), Signed(c, rpc.unsigned, rpc.secret);
    && plain.secret == rpc.secret
    && PlainReadsAlike(c, plain.secret, p, q)
    && (empty ==> RpcReadsAlike(c, plain.secret, p, q))
  }

  lemma AcksReadAlike(c: Crypto, messageId: string, nonce: string, reply: Reply, secret: Bytes)
    requires TagsAreHex(c)
    ensures ReadAlike(c, Ack(secret, AckFor(Plain, messageId, nonce, reply)),
                      Ack(secret, AckFor(Rpc, messageId, nonce, reply)), reply.payload == [])
  {
    var p := Signed(c, AckFor(Plain, messageId, nonce, reply), secret);
    var q := Signed(c, AckFor(Rpc, messageId, nonce, reply), secret);
    forall forId, forNonce
      ensures ValidateAck(c, p, secret, forId, forNonce).Ok? == ValidateAck(c, q, secret, forId, forNonce).Ok?
      ensures ValidateAck(c, p, secret, forId, forNonce).Ok? ==>
                ValidateAck(c, p, secret, forId, forNonce) == ValidateAck(c, q, secret, forId, forNonce)
    {
      RpcAckRead(c, messageId, nonce, reply, secret, forId, forNonce, |reply.payload|);
      PlainAckRead(c, messageId, nonce, reply, secret, forId, forNonce, |reply.payload|);
    }
    if reply.payload == [] {
      EmptyRepliesReadAlike(c, messageId, nonce, reply, secret);
    }
  }

  lemma EmptyRepliesReadAlike(c: Crypto, messageId: string, nonce: string, reply: Reply, secret: Bytes)
    requires TagsAreHex(c) && reply.payload == []
    ensures RpcReadsAlike(c, secret, Signed(c, AckFor(Plain, messageId, nonce, reply), secret),
                          Signed(c, AckFor(Rpc, messageId, nonce, reply), secret))
  {
    var p := Signed(c, AckFor(Plain, messageId, nonce, reply), secret);
    var q := Signed(c, AckFor(Rpc, messageId, nonce, reply), secret);
    forall forId, forNonce, most: nat
      ensures ValidateReplyAck(c, p, secret, forId, forNonce, most).Ok?
           == ValidateReplyAck(c, q, secret, forId, forNonce, most).Ok?
      ensures ValidateReplyAck(c, p, secret, forId, forNonce, most).Ok? ==>
                ValidateReplyAck(c, p, secret, forId, forNonce, most)
                == ValidateReplyAck(c, q, secret, forId, forNonce, most)
    {
      RpcAckRead(c, messageId, nonce, reply, secret, forId, forNonce, most);
      PlainAckRead(c, messageId, nonce, reply, secret, forId, forNonce, most);
    }
  }

  lemma RefusalsReadAlike(c: Crypto, frame: Fields, reason: string, secret: Bytes)
    requires TagsAreHex(c)
    ensures ReadAlike(c, Ack(secret, RefusalFor(Plain, frame, reason)), Ack(secret, RefusalFor(Rpc, frame, reason)), true)
  {
    AcksReadAlike(c, ClaimedId(frame), ClaimedNonce(frame), RefusalReply(reason), secret);
  }

  /** A cache as a plain server leaves it: no outcome has reply bytes. */
  ghost predicate PlainCache(cache: Cache) {
    forall id | id in cache.entries :: cache.entries[id].reply.payload == []
  }

  lemma PlainOutcomeIsEmpty(cfg: ServerConfig, answer: Answer)
    requires cfg.kind == Plain && Outcome(cfg, answer).Ok?
    ensures Outcome(cfg, answer).value.payload == []
  {
  }

  lemma PlainConsultation(c: Crypto, cfg: ServerConfig, cache: Cache, e: Envelope, at: int, answer: Answer)
    requires cfg.kind == Plain && PlainCache(cache)
    ensures var consulted := Consult(c, cfg, cache, e, at, answer);
            && PlainCache(consulted.cache)
            && (consulted.event.Reported(cfg).Ok? ==> consulted.event.Reported(cfg).value.payload == [])
  {
    if e.messageId !in cache.entries && Outcome(cfg, answer).Ok? {
      PlainOutcomeIsEmpty(cfg, answer);
    }
  }

  lemma ConsultAlike(c: Crypto, cfg: ServerConfig, cache: Cache, e: Envelope, at: int, answer: Answer)
    requires cfg.kind == Plain
    ensures var p, q := Consult(c, cfg, cache, e, at, answer), Consult(c, AsRpc(cfg), cache, e, at, AsReply(answer));
            && p.cache == q.cache && q.event == Translated(p.event)
            && p.event.Reported(cfg) == q.event.Reported(AsRpc(cfg))
  {
    OutcomeAlike(cfg, answer);
    if e.messageId !in cache.entries {
      match Outcome(cfg, answer)
      case Ok(_) =>
      case Err(_) =>
    }
  }

  lemma OutcomeAlike(cfg: ServerConfig, answer: Answer)
    requires cfg.kind == Plain
    ensures Outcome(AsRpc(cfg), AsReply(answer)) == Outcome(cfg, answer)
    ensures AsRpc(cfg).replayCapacity == cfg.replayCapacity
  {
    match answer
    case Raises(_) =>
    case ReturnsBool(_) =>
    case ReturnsReply(_) =>
  }

  /**
   Step for step, an RPC server whose receiver gives empty replies with the plain detail texts does
   what the plain server does: same cache, same events, acknowledgements that clients of both kinds read alike
   (request/reply clients if no cached outcome has reply bytes, as none does that a plain server stored).
   */
  lemma RpcServerActsAsPlain(c: Crypto, cfg: ServerConfig, cache: Cache, received: Result<Fields>,
                             clock: Clock, answer: Answer)
    requires TagsAreHex(c) && cfg.kind == Plain
    ensures var p := Serve(c, cfg, cache, received, clock, answer);
            var q := Serve(c, AsRpc(cfg), cache, received, clock, AsReply(answer));
            && p.cache == q.cache
            && (p.event.Some? <==> q.event.Some?) && (p.event.Some? ==> q.event.value == Translated(p.event.value))
            && (p.ack.Some? <==> q.ack.Some?) && (p.ack.Some? ==> ReadAlike(c, p.ack.value, q.ack.value, PlainCache(cache)))
            && (PlainCache(cache) ==> PlainCache(p.cache))
  {
    var authenticated := SecretFor(cfg, received);
    assert SecretFor(AsRpc(cfg), received) == authenticated;
    if authenticated.Some? {
      var (frame, secret) := authenticated.value;
      ConcludeAlike(c, cfg, cache, frame, secret, ValidateDelivery(c, frame, secret, cfg.Policy(), clock),
                    clock.expiryNowMs, answer);
    }
  }

  lemma ConcludeAlike(c: Crypto, cfg: ServerConfig, cache: Cache, frame: Fields, secret: Bytes,
                      validated: Result<(Envelope, string)>, at: int, answer: Answer)
    requires TagsAreHex(c) && cfg.kind == Plain
    ensures var p := Conclude(c, cfg, cache, frame, secret, validated, at, answer);
            var q := Conclude(c, AsRpc(cfg), cache, frame, secret, validated, at, AsReply(answer));
            && p.cache == q.cache
            && (p.event.Some? <==> q.event.Some?) && (p.event.Some? ==> q.event.value == Translated(p.event.value))
            && p.ack.Some? && q.ack.Some? && ReadAlike(c, p.ack.value, q.ack.value, PlainCache(cache))
            && (PlainCache(cache) ==> PlainCache(p.cache))
  {
    match validated
    case Err(reason) => RefusalsReadAlike(c, frame, reason, secret);
    case Ok((e, nonce)) =>
      ConsultAlike(c, cfg, cache, e, at, answer);
      if PlainCache(cache) {
        PlainConsultation(c, cfg, cache, e, at, answer);
      }
      match Consult(c, cfg, cache, e, at, answer).event.Reported(cfg)
      case Ok(reply) => AcksReadAlike(c, e.messageId, nonce, reply, secret);
      case Err(reason) => RefusalsReadAlike(c, frame, reason, secret);
  }

  // ---------------------------------------------------------------- and over any course of connections

  datatype Contact = Contact(received: Result<Fields>, clock: Clock, answer: Answer)
  datatype Course = Course(cache: Cache, events: seq<Event>, acks: seq<Option<Ack>>)

  /** What a server does over a sequence of connections. */
  function Serves(c: Crypto, cfg: ServerConfig, cache: Cache, contacts: seq<Contact>): Course
    decreases |contacts|
  {
    if contacts == [] then Course(cache, [], [])
    else
      var first := contacts[0];
      var served := Serve(c, cfg, cache, first.received, first.clock, first.answer);
      Joined(served, Serves(c, cfg, served.cache, contacts[1..]))
  }

  function Joined(served: Served, later: Course): Course {
    Course(later.cache, Events(served) + later.events, [served.ack] + later.acks)
  }

  function AsRpcContacts(contacts: seq<Contact>): (r: seq<Contact>)
    ensures |r| == |contacts|
  {
    if contacts == [] then []
    else [contacts[0].(answer := AsReply(contacts[0].answer))] + AsRpcContacts(contacts[1..])
  }

  function TranslatedAll(events: seq<Event>): seq<Event> {
    if events == [] then [] else [Translated(events[0])] + TranslatedAll(events[1..])
  }

  ghost predicate AcksAlike(c: Crypto, plain: Option<Ack>, rpc: Option<Ack>, empty: bool) {
    (plain.Some? <==> rpc.Some?) && (plain.Some? ==> ReadAlike(c, plain.value, rpc.value, empty))
  }

  lemma TranslatedJoin(events: seq<Event>, more: seq<Event>)
    requires |events| <= 1
    ensures TranslatedAll(events + more) == TranslatedAll(events) + TranslatedAll(more)
  {
    if events == [] {
      assert events + more == more;
    } else {
      assert (events + more)[1..] == more && TranslatedAll(events) == [Translated(events[0])];
    }
  }

  /** Equal caches, the same events, and acknowledgements that are read alike. */
  ghost predicate CoursesAlike(c: Crypto, p: Course, q: Course, empty: bool) {
    p.cache == q.cache && q.events == TranslatedAll(p.events) && AllAlike(c, p.acks, q.acks, empty)
  }

  /** Pair by pair. */
  ghost predicate AllAlike(c: Crypto, p: seq<Option<Ack>>, q: seq<Option<Ack>>, empty: bool) {
    && |p| == |q|
    && (p != [] ==> AcksAlike(c, p[0], q[0], empty) && AllAlike(c, p[1..], q[1..], empty))
  }

  lemma {:induction false} StillAlike(c: Crypto, p: seq<Option<Ack>>, q: seq<Option<Ack>>, empty: bool, known: bool)
    requires AllAlike(c, p, q, known) && (empty ==> known)
    ensures AllAlike(c, p, q, empty)
  {
    if p != [] {
      KnownAlike(c, p[0], q[0], empty, known);
      StillAlike(c, p[1..], q[1..], empty, known);
    }
  }

  lemma JoinedAlike(c: Crypto, p: Served, q: Served, later: Course, alike: Course, empty: bool, known: bool)
    requires Events(q) == TranslatedAll(Events(p)) && AcksAlike(c, p.ack, q.ack, empty)
    requires CoursesAlike(c, later, alike, known) && (empty ==> known)
    ensures CoursesAlike(c, Joined(p, later), Joined(q, alike), empty)
  {
    TranslatedJoin(Events(p), later.events);
    StillAlike(c, later.acks, alike.acks, empty, known);
    assert ([p.ack] + later.acks)[1..] == later.acks && ([q.ack] + alike.acks)[1..] == alike.acks;
  }

  lemma KnownAlike(c: Crypto, ack: Option<Ack>, other: Option<Ack>, empty: bool, known: bool)
    requires AcksAlike(c, ack, other, known) && (empty ==> known)
    ensures AcksAlike(c, ack, other, empty)
  {
  }

  /** The two servers stay together over every sequence of connections, from any common cache. */
  lemma {:induction false} RpcCourseIsPlain(c: Crypto, cfg: ServerConfig, cache: Cache, contacts: seq<Contact>)
    requires TagsAreHex(c) && cfg.kind == Plain
    ensures CoursesAlike(c, Serves(c, cfg, cache, contacts), Serves(c, AsRpc(cfg), cache, AsRpcContacts(contacts)),
                         PlainCache(cache))
    ensures |Serves(c, cfg, cache, contacts).acks| == |contacts|
    decreases |contacts|
  {
    if contacts != [] {
      var first := contacts[0];
      RpcCourseIsPlain(c, cfg, Serve(c, cfg, cache, first.received, first.clock, first.answer).cache, contacts[1..]);
      CourseStepIsPlain(c, cfg, cache, first, contacts[1..]);
      assert [first] + contacts[1..] == contacts;
    }
  }

  lemma CourseStepIsPlain(c: Crypto, cfg: ServerConfig, cache: Cache, first: Contact, rest: seq<Contact>)
    requires TagsAreHex(c) && cfg.kind == Plain
    requires var next := Serve(c, cfg, cache, first.received, first.clock, first.answer).cache;
             CoursesAlike(c, Serves(c, cfg, next, rest), Serves(c, AsRpc(cfg), next, AsRpcContacts(rest)), PlainCache(next))
    ensures CoursesAlike(c, Serves(c, cfg, cache, [first] + rest),
                         Serves(c, AsRpc(cfg), cache, AsRpcContacts([first] + rest)), PlainCache(cache))
  {
    var p := Serve(c, cfg, cache, first.received, first.clock, first.answer);
    var q := Serve(c, AsRpc(cfg), cache, first.received, first.clock, AsReply(first.answer));
    RpcServerActsAsPlain(c, cfg, cache, first.received, first.clock, first.answer);
    JoinedAlike(c, p, q, Serves(c, cfg, p.cache, rest), Serves(c, AsRpc(cfg), p.cache, AsRpcContacts(rest)),
                PlainCache(cache), PlainCache(p.cache));
    CourseUnfolds(c, cfg, cache, first, rest);
    CourseUnfolds(c, AsRpc(cfg), cache, first.(answer := AsReply(first.answer)), AsRpcContacts(rest));
    ContactsUnfold(first, rest);
  }

  lemma ContactsUnfold(first: Contact, rest: seq<Contact>)
    ensures AsRpcContacts([first] + rest) == [first.(answer := AsReply(first.answer))] + AsRpcContacts(rest)
  {
    assert ([first] + rest)[1..] == rest;
  }

  lemma CourseUnfolds(c: Crypto, cfg: ServerConfig, cache: Cache, first: Contact, rest: seq<Contact>)
    ensures var served := Serve(c, cfg, cache, first.received, first.clock, first.answer);
            Serves(c, cfg, cache, [first] + rest) == Joined(served, Serves(c, cfg, served.cache, rest))
  {
    assert ([first] + rest)[1..] == rest;
  }
}
