/**
 What an acknowledged rejection is worth. It does not follow from one that the receiver never accepted the
 envelope: there are two ways for it to arise after an acceptance, and an exact condition for a retry to be
 reported as accepted again.
 */
module Rejections {
  import opened Contracts
  import Recency
  import opened Json
  import opened JsonSize
  import opened Text
  import opened Framing
  import opened LocalIp
  import opened Wire
  import opened Delivery
  import opened History
  import opened Protocol
  import opened Interop
  import opened Sizes
  import opened Progress

  // ---------------------------------------------------------------- exactly when a request is accepted

  ghost predicate IsResident(w: World, s: State, e: Envelope) {
    Recency.Resident(Touched(s.log), w.server.replayCapacity, e.messageId)
  }

  /** The id's latest completed call was for exactly this envelope, and accepted it. */
  predicate LatestAccepts(log: seq<Event>, e: Envelope) {
    var latest := Latest(log, e.messageId);
    latest.Some? && latest.value.0 == e && latest.value.1.accepted
  }

  /** What the server decides in time: the latest outcome or a conflict while the id is resident, a new call if not. */
  ghost function OutcomeByResidence(w: World, s: State, r: Request, answer: Answer): Result<Reply> {
    if IsResident(w, s, r.envelope) then
      match Latest(s.log, r.envelope.messageId)
      case Some((e, reply)) => Ok(if e == r.envelope then reply else CONFLICT)
      case None => Ok(CONFLICT)
    else Outcome(w.server, answer)
  }

  lemma DecisionByResidence(w: World, s: State, r: Request, clock: Clock, answer: Answer)
    requires Consistent(w.crypto, w.server, s.cache, s.log) && r.envelope.Valid() && InTime(w, r, clock)
    ensures Consultation(w, s.cache, r, clock, answer).event.Reported(w.server) == OutcomeByResidence(w, s, r, answer)
  {
    var id := r.envelope.messageId;
    Recency.ResidentIffHeld(Touched(s.log), w.server.replayCapacity, id);
    if id in s.cache.entries {
      ResidentIsReported(w, s, r, clock, answer);
    } else {
      CallIsReported(w, s.cache, r, clock, answer);
    }
  }

  lemma ResidentIsReported(w: World, s: State, r: Request, clock: Clock, answer: Answer)
    requires Consistent(w.crypto, w.server, s.cache, s.log) && r.envelope.Valid() && InTime(w, r, clock)
    requires IsResident(w, s, r.envelope)
    ensures Consultation(w, s.cache, r, clock, answer).event.Reported(w.server) == OutcomeByResidence(w, s, r, answer)
  {
    ConsultRefines(w.crypto, w.server, s.cache, s.log, r.envelope, clock.expiryNowMs, answer);
  }

  lemma CallIsReported(w: World, cache: Cache, r: Request, clock: Clock, answer: Answer)
    requires r.envelope.messageId !in cache.entries
    ensures Consultation(w, cache, r, clock, answer).event.Reported(w.server) == Outcome(w.server, answer)
  {
  }

  lemma AnsweredByResidence(w: World, s: State, r: Request, clock: Clock, answer: Answer)
    requires TagsAreHex(w.crypto) && Addressed(w, r) && Consistent(w.crypto, w.server, s.cache, s.log)
    ensures InTime(w, r, clock) ==>
              Answered(w, s.cache, r, clock, answer) == ReplyTo(OutcomeByResidence(w, s, r, answer))
    ensures !InTime(w, r, clock) ==> !Answered(w, s.cache, r, clock, answer).accepted
  {
    RequestIsAnswered(w, s.cache, r, clock, answer);
    if InTime(w, r, clock) {
      DecisionByResidence(w, s, r, clock, answer);
    }
  }

  /** The receiver's answer accepts, and the acknowledgement of the reply it makes comes back. */
  ghost predicate CallAccepts(w: World, r: Request, answer: Answer) {
    exists reply :: AcceptingAnswer(w.server, answer, reply) && ComesBack(w, r, reply)
  }

  /**
   Exactly when an undisturbed request, a first one or any retry, is reported as accepted: it is in time, and
   if its id is resident the latest completed call was for this very envelope and accepted it, if not the
   receiver accepts it now; and the acknowledgement comes back.
   */
  lemma RequestIsAcceptedIff(w: World, actions: seq<Action>, r: Request, clock: Clock, answer: Answer)
    requires Sound(w) && TagsAreHex(w.crypto) && Legal(w, actions) && Enabled(w, After(w, actions), ClientSends(r))
    requires Addressed(w, r) && Timely(After(w, actions), clock, answer)
    ensures var s := After(w, actions);
            && Legal(w, actions + Undisturbed(w, s, r, clock, answer))
            && Leaves(w, s, r, clock, answer, After(w, actions + Undisturbed(w, s, r, clock, answer)))
            && (Outcomes(w, s, r, clock, answer).accepted <==>
                  && InTime(w, r, clock)
                  && if IsResident(w, s, r.envelope)
                     then LatestAccepts(s.log, r.envelope)
                          && ComesBack(w, r, Latest(s.log, r.envelope.messageId).value.1)
                     else CallAccepts(w, r, answer))
  {
    var s := After(w, actions);
    RunKeeps(w, actions);
    UndisturbedExchangeIsLegal(w, actions, r, clock, answer);
    AcceptedByResidence(w, s, r, clock, answer);
  }

  lemma AcceptedByResidence(w: World, s: State, r: Request, clock: Clock, answer: Answer)
    requires TagsAreHex(w.crypto) && Addressed(w, r) && Consistent(w.crypto, w.server, s.cache, s.log)
    ensures Outcomes(w, s, r, clock, answer).accepted <==>
              && InTime(w, r, clock)
              && if IsResident(w, s, r.envelope)
                 then LatestAccepts(s.log, r.envelope) && ComesBack(w, r, Latest(s.log, r.envelope.messageId).value.1)
                 else CallAccepts(w, r, answer)
  {
    AnsweredByResidence(w, s, r, clock, answer);
    AcceptedIfReturned(w, r, Answered(w, s.cache, r, clock, answer));
    AcceptingReply(w, s, r, answer);
  }

  lemma AcceptingReply(w: World, s: State, r: Request, answer: Answer)
    ensures var reply := ReplyTo(OutcomeByResidence(w, s, r, answer));
            reply.accepted && ComesBack(w, r, reply) <==>
              if IsResident(w, s, r.envelope)
              then LatestAccepts(s.log, r.envelope) && ComesBack(w, r, Latest(s.log, r.envelope.messageId).value.1)
              else CallAccepts(w, r, answer)
  {
    if !IsResident(w, s, r.envelope) {
      AcceptingCall(w, r, answer);
    }
  }

  lemma AcceptingCall(w: World, r: Request, answer: Answer)
    ensures var reply := ReplyTo(Outcome(w.server, answer));
            reply.accepted && ComesBack(w, r, reply) <==> CallAccepts(w, r, answer)
  {
    OutcomeByAnswer(w.server, answer);
    forall reply
      ensures AcceptingAnswer(w.server, answer, reply) <==> Outcome(w.server, answer) == Ok(reply) && reply.accepted
    {
      AcceptingOutcome(w.server, answer, reply);
    }
  }

  lemma AcceptedIfReturned(w: World, r: Request, reply: Reply)
    requires TagsAreHex(w.crypto) && Addressed(w, r)
    ensures Finish(w.crypto, r, Returned(w, r, reply)).accepted <==> reply.accepted && ComesBack(w, r, reply)
  {
    ReturnedIsReported(w, r, reply);
  }

  /** With accepted limits: in time, and while resident accepted before, otherwise accepted now. */
  lemma RequestIsAcceptedWithinLimits(w: World, actions: seq<Action>, r: Request, clock: Clock, answer: Answer)
    requires Sound(w) && TagsAreHex(w.crypto) && Legal(w, actions) && Enabled(w, After(w, actions), ClientSends(r))
    requires Addressed(w, r) && Timely(After(w, actions), clock, answer) && LimitsAccepted(w, r)
    requires LatestAccepts(After(w, actions).log, r.envelope) ==>
               Returnable(w, r, Latest(After(w, actions).log, r.envelope.messageId).value.1)
    requires forall reply | AcceptingAnswer(w.server, answer, reply) :: Returnable(w, r, reply)
    ensures var s := After(w, actions);
            Outcomes(w, s, r, clock, answer).accepted <==>
              && InTime(w, r, clock)
              && if IsResident(w, s, r.envelope) then LatestAccepts(s.log, r.envelope)
                 else exists reply :: AcceptingAnswer(w.server, answer, reply)
  {
    var s := After(w, actions);
    RequestIsAcceptedIff(w, actions, r, clock, answer);
    if LatestAccepts(s.log, r.envelope) {
      ReturnableComesBack(w, r, Latest(s.log, r.envelope.messageId).value.1);
    }
    forall reply | AcceptingAnswer(w.server, answer, reply) ensures ComesBack(w, r, reply) {
      ReturnableComesBack(w, r, reply);
    }
  }

  // ---------------------------------------------------------------- first cause: too late

  /** The log is as it was, and one more report is an acknowledged rejection of the request. */
  predicate RejectedLast(s: State, t: State, r: Request) {
    && t.log == s.log
    && s.reports <= t.reports && |t.reports| == |s.reports| + 1
    && t.reports[|s.reports|].0 == r
    && t.reports[|s.reports|].1.acknowledged && !t.reports[|s.reports|].1.accepted
  }

  /** From any reachable state, whatever was accepted before: a late request may be reported as rejected. */
  lemma LateRejectionIsLegal(w: World, actions: seq<Action>, r: Request, clock: Clock, answer: Answer)
    requires TagsAreHex(w.crypto) && Legal(w, actions) && Enabled(w, After(w, actions), ClientSends(r))
    requires Addressed(w, r) && Timely(After(w, actions), clock, answer) && LimitsAccepted(w, r)
    requires !InTime(w, r, clock)
    ensures var s := After(w, actions);
            var longer := actions + Undisturbed(w, s, r, clock, answer);
            Legal(w, longer) && RejectedLast(s, After(w, longer), r)
  {
    var s := After(w, actions);
    UndisturbedExchangeIsLegal(w, actions, r, clock, answer);
    LateExchangeLeaves(w, s, r, clock, answer, After(w, actions + Undisturbed(w, s, r, clock, answer)));
  }

  lemma LateExchangeLeaves(w: World, s: State, r: Request, clock: Clock, answer: Answer, t: State)
    requires TagsAreHex(w.crypto) && Addressed(w, r) && LimitsAccepted(w, r) && !InTime(w, r, clock)
    requires Leaves(w, s, r, clock, answer, t)
    ensures RejectedLast(s, t, r)
  {
    LateRequestIsRefused(w, s.cache, r, clock, answer);
  }

  // ---------------------------------------------------------------- second cause: somebody else's frame

  /** A frame that anybody can make: the ids of a pending request, and no signature. */
  function BareFrame(r: Request): Fields {
    map["envelope" := Obj(BareEnvelope(r)), "nonce" := Str(r.nonce)]
  }

  function BareEnvelope(r: Request): Fields {
    map["source_peer_id" := Str(r.envelope.sourcePeerId), "message_id" := Str(r.envelope.messageId)]
  }

  lemma BareFrameFields(r: Request)
    ensures Get(BareFrame(r), "envelope") == Some(Obj(BareEnvelope(r))) && Get(BareFrame(r), "schema") == None
    ensures Get(BareFrame(r), "signature") == None
    ensures Get(BareEnvelope(r), "source_peer_id") == Some(Str(r.envelope.sourcePeerId))
    ensures ClaimedId(BareFrame(r)) == r.envelope.messageId && ClaimedNonce(BareFrame(r)) == r.nonce
  {
  }

  lemma BareEnvelopeSize(r: Request)
    requires r.envelope.Valid()
    ensures ValueSize(Obj(BareEnvelope(r))) <= 320
  {
    var none: Fields := map[];
    EnvelopeKeysArePlain();
    AddsPlainText(none, "source_peer_id", r.envelope.sourcePeerId);
    var one := none["source_peer_id" := Str(r.envelope.sourcePeerId)];
    AddsPlainText(one, "message_id", r.envelope.messageId);
    assert one["message_id" := Str(r.envelope.messageId)] == BareEnvelope(r);
    assert BareEnvelope(r) != map[];
    ObjectSize(BareEnvelope(r));
  }

  lemma BareFrameFits(r: Request, limit: nat)
    requires r.envelope.Valid() && ValidNonce(r.nonce) && limit >= 4096
    ensures FrameBytes(BareFrame(r), limit).Ok? && |CanonicalBytes(BareFrame(r))| <= 4096
  {
    BareEnvelopeSize(r);
    NonceSize(r.nonce);
    BareFrameSize(Obj(BareEnvelope(r)), r.nonce);
    CanonicalAtLeastTwo(BareFrame(r));
  }

  lemma NonceSize(nonce: string)
    requires ValidNonce(nonce)
    ensures EscapedLength(nonce) <= 768
  {
    assert EscapesWithin(nonce, 6);
    EscapedLengthBound(nonce, 6);
  }

  lemma BareFrameSize(envelope: Value, nonce: string)
    ensures |CanonicalBytes(map["envelope" := envelope, "nonce" := Str(nonce)])|
         == 24 + ValueSize(envelope) + EscapedLength(nonce)
  {
    var none: Fields := map[];
    var one, both := none["envelope" := envelope], none["envelope" := envelope]["nonce" := Str(nonce)];
    assert IsPlain("envelope") && IsPlain("nonce");
    Adds(none, "envelope", envelope);
    AddsText(one, "nonce", nonce);
    assert both == map["envelope" := envelope, "nonce" := Str(nonce)] && "nonce" in both;
    ObjectSize(both);
  }

  const UNSUPPORTED := "unsupported local-IP frame"

  /** The server answers such a frame with a signed rejection addressed to the pending request. */
  lemma BareFrameIsRefused(w: World, r: Request, clock: Clock)
    requires r.envelope.Valid() && r.envelope.sourcePeerId in w.server.peerSecrets
    requires w.server.peerSecrets[r.envelope.sourcePeerId] == r.client.secret
    ensures SecretFor(w.server, Ok(BareFrame(r))) == Some((BareFrame(r), r.client.secret))
    ensures ValidateDelivery(w.crypto, BareFrame(r), r.client.secret, w.server.Policy(), clock) == Err(UNSUPPORTED)
    ensures RefusalFor(w.server.kind, BareFrame(r), UNSUPPORTED) == AckOf(w, r, RefusalReply(UNSUPPORTED)).unsigned
    ensures !TagVerifies(w.crypto, BareFrame(r), r.client.secret)
  {
    BareFrameFields(r);
    PeerIdOfValidId(r.envelope.sourcePeerId);
  }

  function BareArrives(r: Request, limit: nat, clock: Clock, answer: Answer): Action
    requires FrameBytes(BareFrame(r), limit).Ok?
  {
    ServerReceives(FrameBytes(BareFrame(r), limit).value, clock, answer)
  }

  lemma BareFrameIsRead(r: Request, limit: nat)
    requires FrameBytes(BareFrame(r), limit).Ok?
    ensures ReadFrame(FrameBytes(BareFrame(r), limit).value, limit) == Ok(BareFrame(r))
  {
    var stream := FrameBytes(BareFrame(r), limit).value;
    FrameRoundTrip(BareFrame(r), limit, limit, []);
    assert stream + [] == stream;
  }

  /** The server knows the request's source by the client's secret. */
  ghost predicate Provisioned(w: World, r: Request) {
    && r.envelope.sourcePeerId in w.server.peerSecrets
    && w.server.peerSecrets[r.envelope.sourcePeerId] == r.client.secret
  }

  /** Nothing keeps such a frame out, and all it changes is what the server has signed. */
  lemma BareFrameArrives(w: World, s: State, r: Request, clock: Clock, answer: Answer)
    requires r.envelope.Valid() && ValidNonce(r.nonce) && Provisioned(w, r) && Timely(s, clock, answer)
    requires FrameLimit(w.server.maxFrameBytes).Ok? && FrameBytes(BareFrame(r), w.server.maxFrameBytes).Ok?
    ensures var a := BareArrives(r, w.server.maxFrameBytes, clock, answer);
            && Enabled(w, s, a)
            && Step(w, s, a) == s.(nowMs := clock.expiryNowMs,
                                   mints := s.mints + [Mint(r.client.secret, Refusal(BareFrame(r), UNSUPPORTED))])
  {
    BareFrameIsRead(r, w.server.maxFrameBytes);
    BareFrameIsRefused(w, r, clock);
    assert s.log + [] == s.log;
  }

  /**
   From any reachable state: while a request is pending, a frame that needs no secret to make turns its report
   into an acknowledged rejection, in time or not, and the receiver hears nothing of it.
   */
  lemma StrayRejectionIsLegal(w: World, actions: seq<Action>, r: Request, clock: Clock, answer: Answer)
    requires Sound(w) && TagsAreHex(w.crypto) && Legal(w, actions) && r in After(w, actions).requests
    requires Provisioned(w, r) && LimitsAccepted(w, r) && Timely(After(w, actions), clock, answer)
    ensures FrameBytes(BareFrame(r), w.server.maxFrameBytes).Ok?
    ensures var s := After(w, actions);
            var longer := actions + [BareArrives(r, w.server.maxFrameBytes, clock, answer), ReadsRefusal(w, r)];
            && Legal(w, longer) && RejectedLast(s, After(w, longer), r)
            && After(w, longer).cache == s.cache && After(w, longer).nowMs == clock.expiryNowMs
  {
    var s := After(w, actions);
    RunKeeps(w, actions);
    BareFrameFits(r, w.server.maxFrameBytes);
    var arrives := BareArrives(r, w.server.maxFrameBytes, clock, answer);
    BareFrameArrives(w, s, r, clock, answer);
    RefusalMayBeRead(w, s, r, clock);
    ReturnableIsReported(w, r, RefusalReply(UNSUPPORTED));
    ContinuesTwice(w, actions, s, arrives, RefusedState(s, r, clock), ReadsRefusal(w, r));
  }

  function RefusedState(s: State, r: Request, clock: Clock): State {
    s.(nowMs := clock.expiryNowMs, mints := s.mints + [Mint(r.client.secret, Refusal(BareFrame(r), UNSUPPORTED))])
  }

  function ReadsRefusal(w: World, r: Request): Action {
    ClientReceives(r, Returned(w, r, RefusalReply(UNSUPPORTED)))
  }

  lemma RefusalMayBeRead(w: World, s: State, r: Request, clock: Clock)
    requires r in s.requests && r.envelope.Valid() && Provisioned(w, r)
    ensures Enabled(w, RefusedState(s, r, clock), ReadsRefusal(w, r))
  {
    BareFrameIsRefused(w, r, clock);
    AckMayBeRead(w, RefusedState(s, r, clock), r, s.mints,
                 Mint(r.client.secret, Refusal(BareFrame(r), UNSUPPORTED)), RefusalReply(UNSUPPORTED));
  }

  // ---------------------------------------------------------------- both causes, for every envelope

  function Sender(e: Envelope, secret: Bytes, limit: nat): Client {
    Client(Plain, e.sourcePeerId, e.destinationPeerId, secret, limit, |e.payload|, 1)
  }

  /** One plain server and one client, with a secret of their own. */
  function Pair(c: Crypto, e: Envelope, secret: Bytes, limit: nat): World {
    World(c, ServerConfig(Plain, e.destinationPeerId, map[e.sourcePeerId := secret], limit, |e.payload|, 1, 1, 1),
          {Sender(e, secret, limit)})
  }

  function Sending(e: Envelope, secret: Bytes, limit: nat, nonce: string): Request {
    Request(Sender(e, secret, limit), e, nonce, e.createdAtMs)
  }

  /** The envelope's frame fits the limit under this nonce. */
  ghost predicate Suits(c: Crypto, e: Envelope, limit: nat, nonce: string) {
    && TagsAreHex(c) && InjectiveHash(c) && e.Valid() && IsHexText(nonce, 32)
    && 4096 <= limit < HEADER_RANGE && DeliveryLength(e, nonce, e.createdAtMs) <= limit
  }

  lemma SendingIsAddressed(c: Crypto, e: Envelope, secret: Bytes, limit: nat, nonce: string)
    requires Suits(c, e, limit, nonce)
    ensures var w, r := Pair(c, e, secret, limit), Sending(e, secret, limit, nonce);
            Addressed(w, r) && LimitsAccepted(w, r) && Provisioned(w, r)
  {
    var r := Sending(e, secret, limit, nonce);
    HexIsNonce(nonce);
    SendsExactly(c, r);
    DeliveryFitsExactly(c, e, nonce, e.createdAtMs, secret, limit);
  }

  lemma SendingIsInTime(c: Crypto, e: Envelope, secret: Bytes, limit: nat, nonce: string)
    requires e.Valid()
    ensures InTime(Pair(c, e, secret, limit), Sending(e, secret, limit, nonce), Clock(e.createdAtMs, e.createdAtMs))
  {
  }

  lemma HexIsNonce(nonce: string)
    requires IsHexText(nonce, 32)
    ensures ValidNonce(nonce)
  {
    forall i | 0 <= i < |nonce| ensures 33 <= nonce[i] as nat < 128 {
      assert HexValue(nonce[i]).Some?;
    }
  }

  lemma MaySend(c: Crypto, e: Envelope, secret: Bytes, limit: nat, nonce: string, s: State)
    requires Suits(c, e, limit, nonce) && forall q :: q in s.requests ==> q.nonce != nonce
    ensures Enabled(Pair(c, e, secret, limit), s, ClientSends(Sending(e, secret, limit, nonce)))
  {
    SendingIsAddressed(c, e, secret, limit, nonce);
  }

  /** The first sending arrives when the envelope is made, is accepted, and is reported as accepted. */
  ghost predicate Accepted(s: State, r: Request) {
    && s.log == [Completed(r.envelope, ReturnsBool(true), PlainReply(true), r.envelope.createdAtMs)]
    && s.reports == [(r, Report(r.envelope.messageId, true, true, [], "accepted by local receiver"))]
    && s.requests == {r} && s.nowMs == r.envelope.createdAtMs
  }

  lemma FirstExchange(w: World, r: Request, clock: Clock)
    requires TagsAreHex(w.crypto) && w.server.kind == Plain && r.client.kind == Plain
    requires Addressed(w, r) && LimitsAccepted(w, r) && InTime(w, r, clock) && Enabled(w, INITIAL, ClientSends(r))
    requires Timely(INITIAL, clock, ReturnsBool(true)) && clock.expiryNowMs == r.envelope.createdAtMs
    ensures var actions := [] + Undisturbed(w, INITIAL, r, clock, ReturnsBool(true));
            Legal(w, actions) && Accepted(After(w, actions), r)
  {
    var answer := ReturnsBool(true);
    UndisturbedExchangeIsLegal(w, [], r, clock, answer);
    FirstAnswer(w, r, clock);
    FirstLeaves(w, r, clock, After(w, [] + Undisturbed(w, INITIAL, r, clock, answer)));
  }

  lemma FirstIsAccepted(c: Crypto, e: Envelope, secret: Bytes, limit: nat, nonce: string) returns (actions: seq<Action>)
    requires Suits(c, e, limit, nonce)
    ensures Legal(Pair(c, e, secret, limit), actions)
    ensures Accepted(After(Pair(c, e, secret, limit), actions), Sending(e, secret, limit, nonce))
  {
    var w, r := Pair(c, e, secret, limit), Sending(e, secret, limit, nonce);
    var clock := Clock(e.createdAtMs, e.createdAtMs);
    SendingIsAddressed(c, e, secret, limit, nonce);
    MaySend(c, e, secret, limit, nonce, INITIAL);
    FirstExchange(w, r, clock);
    actions := [] + Undisturbed(w, INITIAL, r, clock, ReturnsBool(true));
  }

  lemma FirstLeaves(w: World, r: Request, clock: Clock, s: State)
    requires TagsAreHex(w.crypto) && Addressed(w, r) && w.server.kind == Plain && r.client.kind == Plain
    requires clock.expiryNowMs == r.envelope.createdAtMs
    requires Leaves(w, INITIAL, r, clock, ReturnsBool(true), s)
    requires Events(Arrival(w, EMPTY, r, clock, ReturnsBool(true)))
          == [Completed(r.envelope, ReturnsBool(true), PlainReply(true), clock.expiryNowMs)]
    requires ComesBack(w, r, PlainReply(true))
    requires Answered(w, EMPTY, r, clock, ReturnsBool(true)) == PlainReply(true)
    ensures Accepted(s, r)
  {
    AcceptanceIsReported(w, r);
  }

  lemma AcceptanceIsReported(w: World, r: Request)
    requires TagsAreHex(w.crypto) && Addressed(w, r) && r.client.kind == Plain && ComesBack(w, r, PlainReply(true))
    ensures Finish(w.crypto, r, Returned(w, r, PlainReply(true)))
         == Report(r.envelope.messageId, true, true, [], "accepted by local receiver")
  {
    ReturnedIsReported(w, r, PlainReply(true));
  }

  lemma FirstAnswer(w: World, r: Request, clock: Clock)
    requires TagsAreHex(w.crypto) && w.server.kind == Plain && Addressed(w, r) && LimitsAccepted(w, r)
    requires InTime(w, r, clock)
    ensures Events(Arrival(w, EMPTY, r, clock, ReturnsBool(true)))
         == [Completed(r.envelope, ReturnsBool(true), PlainReply(true), clock.expiryNowMs)]
    ensures ComesBack(w, r, PlainReply(true))
    ensures Answered(w, EMPTY, r, clock, ReturnsBool(true)) == PlainReply(true)
  {
    RequestIsAnswered(w, EMPTY, r, clock, ReturnsBool(true));
    FirstConsultation(w, r, clock);
    ReturnableComesBack(w, r, PlainReply(true));
  }

  lemma FirstConsultation(w: World, r: Request, clock: Clock)
    requires w.server.kind == Plain
    ensures Consultation(w, EMPTY, r, clock, ReturnsBool(true)).event
         == Completed(r.envelope, ReturnsBool(true), PlainReply(true), clock.expiryNowMs)
  {
  }

  /** One receiver call, which accepted the envelope and was reported as accepted. */
  predicate AcceptedOnce(s: State, e: Envelope) {
    && s.log == [Completed(e, ReturnsBool(true), PlainReply(true), e.createdAtMs)]
    && |s.reports| >= 1
    && s.reports[0].0.envelope == e && s.reports[0].1.acknowledged && s.reports[0].1.accepted
  }

  /** That, and a later report that rejects it. */
  predicate AcceptedThenRejected(s: State, e: Envelope) {
    && AcceptedOnce(s, e) && |s.reports| == 2
    && s.reports[1].0.envelope == e && s.reports[1].1.acknowledged && !s.reports[1].1.accepted
  }

  lemma EndsLate(w: World, actions: seq<Action>, r: Request, clock: Clock, answer: Answer)
    requires TagsAreHex(w.crypto) && Legal(w, actions) && Enabled(w, After(w, actions), ClientSends(r))
    requires Addressed(w, r) && Timely(After(w, actions), clock, answer) && LimitsAccepted(w, r)
    requires !InTime(w, r, clock)
    requires AcceptedOnce(After(w, actions), r.envelope) && |After(w, actions).reports| == 1
    ensures var longer := actions + Undisturbed(w, After(w, actions), r, clock, answer);
            Legal(w, longer) && AcceptedThenRejected(After(w, longer), r.envelope)
  {
    LateRejectionIsLegal(w, actions, r, clock, answer);
  }

  lemma EndsStray(w: World, actions: seq<Action>, r: Request, clock: Clock, answer: Answer)
    requires Sound(w) && TagsAreHex(w.crypto) && Legal(w, actions) && r in After(w, actions).requests
    requires Provisioned(w, r) && LimitsAccepted(w, r) && Timely(After(w, actions), clock, answer)
    requires AcceptedOnce(After(w, actions), r.envelope) && |After(w, actions).reports| == 1
    ensures FrameBytes(BareFrame(r), w.server.maxFrameBytes).Ok?
    ensures var longer := actions + [BareArrives(r, w.server.maxFrameBytes, clock, answer), ReadsRefusal(w, r)];
            && Legal(w, longer) && AcceptedThenRejected(After(w, longer), r.envelope)
            && After(w, longer).nowMs == clock.expiryNowMs
  {
    StrayRejectionIsLegal(w, actions, r, clock, answer);
  }

  /**
   For every envelope there is a run that ends in its acknowledged rejection although its only receiver call
   accepted it and was reported as accepted: the retry came when the envelope had expired.
   */
  lemma RejectedAfterAcceptance(c: Crypto, e: Envelope, secret: Bytes, limit: nat, first: string, second: string)
    returns (actions: seq<Action>)
    requires Suits(c, e, limit, first) && Suits(c, e, limit, second) && first != second
    ensures var w := Pair(c, e, secret, limit);
            Sound(w) && Legal(w, actions) && AcceptedThenRejected(After(w, actions), e)
  {
    var w, r := Pair(c, e, secret, limit), Sending(e, secret, limit, second);
    var clock := Clock(e.ExpiresAtMs(), e.ExpiresAtMs());
    var before := FirstIsAccepted(c, e, secret, limit, first);
    SendingIsAddressed(c, e, secret, limit, second);
    MaySend(c, e, secret, limit, second, After(w, before));
    EndsLate(w, before, r, clock, ReturnsBool(true));
    actions := before + Undisturbed(w, After(w, before), r, clock, ReturnsBool(true));
  }

  /** The second sending put on the wire after the first was accepted. */
  lemma RetryIsSent(c: Crypto, e: Envelope, secret: Bytes, limit: nat, first: string, second: string)
    returns (actions: seq<Action>)
    requires Suits(c, e, limit, first) && Suits(c, e, limit, second) && first != second
    ensures var w := Pair(c, e, secret, limit);
            && Legal(w, actions)
            && var s := After(w, actions);
               && AcceptedOnce(s, e) && |s.reports| == 1
               && Sending(e, secret, limit, second) in s.requests && s.nowMs == e.createdAtMs
  {
    var w, r := Pair(c, e, secret, limit), Sending(e, secret, limit, second);
    var before := FirstIsAccepted(c, e, secret, limit, first);
    var s := After(w, before);
    MaySend(c, e, secret, limit, second, s);
    Continues(w, before, s, ClientSends(r));
    actions := before + [ClientSends(r)];
  }

  /** And one in which the retry is in time: the server refused another frame that carried the retry's ids. */
  lemma RejectedInTimeAfterAcceptance(c: Crypto, e: Envelope, secret: Bytes, limit: nat, first: string, second: string)
    returns (actions: seq<Action>)
    requires Suits(c, e, limit, first) && Suits(c, e, limit, second) && first != second
    ensures var w := Pair(c, e, secret, limit);
            && Sound(w) && Legal(w, actions) && AcceptedThenRejected(After(w, actions), e)
            && After(w, actions).nowMs == e.createdAtMs
            && InTime(w, Sending(e, secret, limit, second), Clock(e.createdAtMs, e.createdAtMs))
  {
    var w, r := Pair(c, e, secret, limit), Sending(e, secret, limit, second);
    var clock := Clock(e.createdAtMs, e.createdAtMs);
    var sent := RetryIsSent(c, e, secret, limit, first, second);
    SendingIsAddressed(c, e, secret, limit, second);
    SendingIsInTime(c, e, secret, limit, second);
    EndsStray(w, sent, r, clock, ReturnsBool(true));
    actions := sent + [BareArrives(r, limit, clock, ReturnsBool(true)), ReadsRefusal(w, r)];
  }
}
