/**
 The receiving server of the plain and of the request/reply carrier, with the replay cache that
 they share, and its specification as a property of the whole log of what the server did.
 */
module Delivery {
  import opened Contracts
  import opened Recency
  import opened OrderedDicts
  import opened Json
  import opened Framing
  import opened LocalIp
  import opened Wire
  import Base64

  /** The carrier that acknowledges, and the one whose acknowledgement holds a reply. */
  datatype Kind = Plain | Rpc

  datatype ServerConfig = ServerConfig(
    kind: Kind,
    localPeerId: string,
    peerSecrets: map<string, Bytes>,
    maxFrameBytes: nat,
    maxPayloadBytes: nat,
    maxReplyBytes: nat,
    maxClockSkewMs: int,
    replayCapacity: nat
  ) {
    function Policy(): DeliveryPolicy {
      DeliveryPolicy(localPeerId, maxPayloadBytes, maxClockSkewMs)
    }
  }

  /** The numeric checks of construction, in the order in which they are made. */
  function CheckConfig(cfg: ServerConfig): Check {
    var mustBePositive := if cfg.kind == Rpc then " must be a positive integer" else " must be positive";
    if cfg.maxClockSkewMs < 1 then Fail("max_clock_skew_ms" + mustBePositive)
    else if cfg.replayCapacity < 1 then Fail("replay_capacity" + mustBePositive)
    else if FrameLimit(cfg.maxFrameBytes).Err? then Fail(FrameLimit(cfg.maxFrameBytes).reason)
    else
      match PayloadLimit(cfg.maxPayloadBytes, cfg.maxFrameBytes)
      case Err(reason) => Fail(reason)
      case Ok(_) =>
        if cfg.kind == Rpc && ReplyLimit(cfg.maxReplyBytes, cfg.maxFrameBytes).Err?
        then Fail(ReplyLimit(cfg.maxReplyBytes, cfg.maxFrameBytes).reason)
        else Pass
  }

  // ---------------------------------------------------------------- receivers

  /** What one call of the receiver does. */
  datatype Answer = Raises(text: string) | ReturnsBool(verdict: bool) | ReturnsReply(reply: Reply)

  function PlainReply(accepted: bool): Reply {
    Reply(accepted, [], if accepted then "accepted by local receiver" else "rejected by local receiver")
  }

  /** The outcome that is cached, or the error that is not. */
  function Outcome(cfg: ServerConfig, answer: Answer): Result<Reply> {
    match (cfg.kind, answer)
    case (_, Raises(text)) => Err(text)
    case (Plain, ReturnsBool(verdict)) => Ok(PlainReply(verdict))
    case (Plain, ReturnsReply(_)) => Ok(PlainReply(true))
    case (Rpc, ReturnsBool(_)) => Err("request receiver must return LocalIpReceiverReply")
    case (Rpc, ReturnsReply(reply)) =>
      if |reply.payload| > cfg.maxReplyBytes then Err("reply payload exceeds receiver limit") else Ok(reply)
  }

  /** The calls that fail: the receiver raises, or a request receiver returns no reply or one that is too large. */
  predicate CallFails(cfg: ServerConfig, answer: Answer) {
    match answer
    case Raises(_) => true
    case ReturnsBool(_) => cfg.kind == Rpc
    case ReturnsReply(reply) => cfg.kind == Rpc && |reply.payload| > cfg.maxReplyBytes
  }

  /** What is reported of such a call. */
  function FailureReason(answer: Answer): string {
    match answer
    case Raises(text) => text
    case ReturnsBool(_) => "request receiver must return LocalIpReceiverReply"
    case ReturnsReply(_) => "reply payload exceeds receiver limit"
  }

  /** The outcome of a call that does not fail; to the plain server whatever is not false counts as true. */
  ghost predicate CompletesWith(cfg: ServerConfig, answer: Answer, reply: Reply) {
    match answer
    case Raises(_) => false
    case ReturnsBool(verdict) =>
      && cfg.kind == Plain
      && reply == if verdict then Reply(true, [], "accepted by local receiver")
                  else Reply(false, [], "rejected by local receiver")
    case ReturnsReply(given) =>
      if cfg.kind == Plain then reply == Reply(true, [], "accepted by local receiver")
      else |given.payload| <= cfg.maxReplyBytes && reply == given
  }

  /** The outcome by the answer alone. */
  lemma OutcomeByAnswer(cfg: ServerConfig, answer: Answer)
    ensures CallFails(cfg, answer) <==> Outcome(cfg, answer) == Err(FailureReason(answer))
    ensures CallFails(cfg, answer) <==> Outcome(cfg, answer).Err?
    ensures forall reply :: CompletesWith(cfg, answer, reply) <==> Outcome(cfg, answer) == Ok(reply)
  {
    match answer
    case Raises(_) =>
    case ReturnsBool(_) =>
    case ReturnsReply(_) =>
  }

  const CONFLICT := Reply(false, [], "message_id reused with different content")

  // ---------------------------------------------------------------- the cache

  datatype Entry = Entry(fingerprint: string, reply: Reply)
  datatype Cache = Cache(order: seq<string>, entries: map<string, Entry>)

  const EMPTY := Cache([], map[])

  function Insert(cache: Cache, capacity: nat, id: string, entry: Entry): Cache {
    var order := LastN(cache.order + [id], capacity);
    Cache(order, map k | k in order && k in cache.entries[id := entry] :: cache.entries[id := entry][k])
  }

  /** What the server did with one validated delivery, and when. */
  datatype Event =
    | Completed(envelope: Envelope, answer: Answer, reply: Reply, at: int)
    | Failed(envelope: Envelope, answer: Answer, at: int)
    | Replayed(envelope: Envelope, reply: Reply, at: int)
    | Conflicted(envelope: Envelope, at: int)
  {
    predicate CallsReceiver() {
      Completed? || Failed?
    }

    predicate Touches() {
      !Failed?
    }

    /** What the acknowledgement of the event reports. */
    function Reported(cfg: ServerConfig): Result<Reply> {
      match this
      case Completed(_, _, reply, _) => Ok(reply)
      case Failed(_, answer, _) => Outcome(cfg, answer)
      case Replayed(_, reply, _) => Ok(reply)
      case Conflicted(_, _) => Ok(CONFLICT)
    }
  }

  datatype Consulted = Consulted(cache: Cache, event: Event)

  /** One validated delivery against the cache; `answer` is used only if the receiver is called. */
  function Consult(c: Crypto, cfg: ServerConfig, cache: Cache, e: Envelope, at: int, answer: Answer): Consulted {
    var fingerprint := Fingerprint(c, e);
    if e.messageId in cache.entries then
      var entry := cache.entries[e.messageId];
      var touched := cache.(order := Without(cache.order, e.messageId) + [e.messageId]);
      if entry.fingerprint == fingerprint then Consulted(touched, Replayed(e, entry.reply, at))
      else Consulted(touched, Conflicted(e, at))
    else
      match Outcome(cfg, answer)
      case Err(_) => Consulted(cache, Failed(e, answer, at))
      case Ok(reply) =>
        Consulted(Insert(cache, cfg.replayCapacity, e.messageId, Entry(fingerprint, reply)),
                  Completed(e, answer, reply, at))
  }

  /**
   A delivery whose id is not in the cache calls the receiver. The call fails exactly if the receiver raises, or
   the server is one of requests and the answer is a boolean or a reply over the limit; then nothing is cached.
   */
  lemma FailsExactly(c: Crypto, cfg: ServerConfig, cache: Cache, e: Envelope, at: int, answer: Answer)
    requires e.messageId !in cache.entries
    ensures var r := Consult(c, cfg, cache, e, at, answer);
            var fails := answer.Raises?
                         || (cfg.kind == Rpc && (answer.ReturnsBool? || |answer.reply.payload| > cfg.maxReplyBytes));
            && (fails ==> r == Consulted(cache, Failed(e, answer, at)))
            && (fails && answer.Raises? ==> r.event.Reported(cfg) == Err(answer.text))
            && (fails && answer.ReturnsBool? ==>
                  r.event.Reported(cfg) == Err("request receiver must return LocalIpReceiverReply"))
            && (fails && answer.ReturnsReply? ==> r.event.Reported(cfg) == Err("reply payload exceeds receiver limit"))
            && (!fails ==> r.event.Completed?)
  {
    OutcomeByAnswer(cfg, answer);
  }

  /** What a call that does not fail completes with, and where it is kept: at the young end of the cache. */
  lemma CompletesExactly(c: Crypto, cfg: ServerConfig, cache: Cache, e: Envelope, at: int, answer: Answer)
    requires e.messageId !in cache.entries && Consult(c, cfg, cache, e, at, answer).event.Completed?
    requires cfg.replayCapacity >= 1
    ensures var r := Consult(c, cfg, cache, e, at, answer);
            var reply := r.event.reply;
            && r.event == Completed(e, answer, reply, at) && r.event.Reported(cfg) == Ok(reply)
            && (cfg.kind == Plain && answer == ReturnsBool(false) ==>
                  reply == Reply(false, [], "rejected by local receiver"))
            && (cfg.kind == Plain && answer != ReturnsBool(false) ==>
                  reply == Reply(true, [], "accepted by local receiver"))
            && (cfg.kind == Rpc ==> answer == ReturnsReply(reply))
            && r.cache.order != [] && r.cache.order[|r.cache.order| - 1] == e.messageId
            && e.messageId in r.cache.entries
            && r.cache.entries[e.messageId] == Entry(c.sha256(CanonicalBytes(EnvelopeFields(e))), reply)
  {
    OutcomeByAnswer(cfg, answer);
    YoungEnd(cache.order, cfg.replayCapacity, e.messageId);
  }

  lemma YoungEnd(order: seq<string>, capacity: nat, id: string)
    requires capacity >= 1
    ensures var after := LastN(order + [id], capacity); after != [] && after[|after| - 1] == id
  {
  }

  /** A resident id: the same envelope gets its own outcome again, any other one a conflict, and no entry changes. */
  lemma HitsExactly(c: Crypto, cfg: ServerConfig, cache: Cache, e: Envelope, at: int, answer: Answer)
    requires e.messageId in cache.entries
    ensures var r := Consult(c, cfg, cache, e, at, answer);
            var entry := cache.entries[e.messageId];
            && r.cache == Cache(Without(cache.order, e.messageId) + [e.messageId], cache.entries)
            && if entry.fingerprint == c.sha256(CanonicalBytes(EnvelopeFields(e)))
               then r.event == Replayed(e, entry.reply, at) && r.event.Reported(cfg) == Ok(entry.reply)
               else r.event == Conflicted(e, at)
                    && r.event.Reported(cfg) == Ok(Reply(false, [], "message_id reused with different content"))
  {
  }

  // ---------------------------------------------------------------- one exchange

  /** An acknowledgement before signing, and the secret it is signed with. */
  datatype Ack = Ack(secret: Bytes, unsigned: Fields)

  function AckFor(kind: Kind, messageId: string, nonce: string, reply: Reply): Fields {
    match kind
    case Plain => AckUnsigned(messageId, nonce, reply.accepted, reply.detail)
    case Rpc => ReplyAckUnsigned(messageId, nonce, reply)
  }

  function TextOr(fields: Fields, key: string, fallback: string): string {
    if key in fields then PyStr(Some(fields[key])) else fallback
  }

  /** The ids that a frame carries, validated or not. */
  function ClaimedId(frame: Fields): string {
    var raw := match Get(frame, "envelope") case Some(Obj(fields)) => fields case _ => map[];
    TextOr(raw, "message_id", "unknown")
  }

  function ClaimedNonce(frame: Fields): string {
    TextOr(frame, "nonce", "unknown")
  }

  function RefusalReply(reason: string): Reply {
    Reply(false, [], Take(reason, MAX_DETAIL_CHARS))
  }

  /** The error path: a rejection addressed from fields that need not have been validated. */
  function RefusalFor(kind: Kind, frame: Fields, reason: string): Fields {
    AckFor(kind, ClaimedId(frame), ClaimedNonce(frame), RefusalReply(reason))
  }

  lemma AckForFields(kind: Kind, messageId: string, nonce: string, reply: Reply)
    ensures var f := AckFor(kind, messageId, nonce, reply);
            && Get(f, "kind") == Some(Str("ack"))
            && Get(f, "message_id") == Some(Str(Take(messageId, 128)))
            && Get(f, "request_nonce") == Some(Str(Take(nonce, 128)))
            && Get(f, "accepted") == Some(Bool(reply.accepted))
            && Get(f, "detail") == Some(Str(Take(reply.detail, MAX_DETAIL_CHARS)))
            && Get(f, "reply_payload_b64")
               == if kind == Rpc then Some(Str(Base64.Encode(reply.payload))) else None
  {
    match kind
    case Plain => PlainAckFields(messageId, nonce, reply.accepted, reply.detail);
    case Rpc => AckFields(messageId, nonce, reply);
  }

  datatype Served = Served(cache: Cache, event: Option<Event>, ack: Option<Ack>)

  /** The exchange once the delivery has been validated, or refused with a reason. */
  function Conclude(c: Crypto, cfg: ServerConfig, cache: Cache, frame: Fields, secret: Bytes,
                    validated: Result<(Envelope, string)>, at: int, answer: Answer): Served
  {
    match validated
    case Err(reason) => Served(cache, None, Some(Ack(secret, RefusalFor(cfg.kind, frame, reason))))
    case Ok((e, nonce)) =>
      var consulted := Consult(c, cfg, cache, e, at, answer);
      var unsigned :=
        match consulted.event.Reported(cfg)
        case Ok(reply) => AckFor(cfg.kind, e.messageId, nonce, reply)
        case Err(reason) => RefusalFor(cfg.kind, frame, reason);
      Served(consulted.cache, Some(consulted.event), Some(Ack(secret, unsigned)))
  }

  function Serve(c: Crypto, cfg: ServerConfig, cache: Cache, received: Result<Fields>, clock: Clock, answer: Answer)
    : Served
  {
    match SecretFor(cfg, received)
    case None => Served(cache, None, None)
    case Some((frame, secret)) =>
      Conclude(c, cfg, cache, frame, secret, ValidateDelivery(c, frame, secret, cfg.Policy(), clock),
               clock.expiryNowMs, answer)
  }

  /** The received frame with the provisioned secret of the peer it names; None closes silently. */
  function SecretFor(cfg: ServerConfig, received: Result<Fields>): Option<(Fields, Bytes)> {
    match received
    case Err(_) => None
    case Ok(frame) =>
      match SourcePeer(frame)
      case Ok(peer) => if peer in cfg.peerSecrets then Some((frame, cfg.peerSecrets[peer])) else None
      case Err(_) => None
  }

  /** The frame's envelope names this peer as its source. */
  ghost predicate NamesPeer(frame: Fields, peer: string) {
    exists raw :: Get(frame, "envelope") == Some(Obj(raw)) && PeerId(Get(raw, "source_peer_id")) == Ok(peer)
  }

  /** No acknowledgement, and no change, exactly if nothing was read or the frame names no provisioned peer. */
  lemma ClosesSilently(c: Crypto, cfg: ServerConfig, cache: Cache, received: Result<Fields>, clock: Clock, answer: Answer)
    ensures var served := Serve(c, cfg, cache, received, clock, answer);
            && (served.ack.None? ==> served == Served(cache, None, None))
            && (served.ack.None? <==> received.Err? || forall peer <- cfg.peerSecrets :: !NamesPeer(received.value, peer))
  {
    if received.Ok? {
      forall peer ensures NamesPeer(received.value, peer) <==> SourcePeer(received.value) == Ok(peer) {
        PeerIsNamed(received.value, peer);
      }
      SecretForNamed(cfg, received.value);
      var authenticated := SecretFor(cfg, received);
      if authenticated.Some? {
        var (frame, secret) := authenticated.value;
        ConcludeAcks(c, cfg, cache, frame, secret, ValidateDelivery(c, frame, secret, cfg.Policy(), clock),
                     clock.expiryNowMs, answer);
      }
    }
  }

  lemma PeerIsNamed(frame: Fields, peer: string)
    ensures NamesPeer(frame, peer) <==> SourcePeer(frame) == Ok(peer)
  {
    match Get(frame, "envelope")
    case Some(Obj(raw)) =>
    case _ =>
  }

  lemma SecretForNamed(cfg: ServerConfig, frame: Fields)
    ensures SecretFor(cfg, Ok(frame)).None? <==> forall peer <- cfg.peerSecrets :: SourcePeer(frame) != Ok(peer)
    ensures SecretFor(cfg, Ok(frame)).Some? ==>
              exists peer <- cfg.peerSecrets :: SourcePeer(frame) == Ok(peer)
                                                && SecretFor(cfg, Ok(frame)) == Some((frame, cfg.peerSecrets[peer]))
  {
  }

  lemma ConcludeAcks(c: Crypto, cfg: ServerConfig, cache: Cache, frame: Fields, secret: Bytes,
                     validated: Result<(Envelope, string)>, at: int, answer: Answer)
    ensures Conclude(c, cfg, cache, frame, secret, validated, at, answer).ack.Some?
  {
  }

  /**
   A frame that names a provisioned peer and does not validate is answered under that peer's secret with a
   rejection that shows the reason, changes nothing, and is addressed from the frame's own entries.
   */
  lemma RefusesExactly(c: Crypto, cfg: ServerConfig, cache: Cache, frame: Fields, peer: string, clock: Clock,
                       answer: Answer, reason: string)
    requires SourcePeer(frame) == Ok(peer) && peer in cfg.peerSecrets
    requires ValidateDelivery(c, frame, cfg.peerSecrets[peer], cfg.Policy(), clock) == Err(reason)
    ensures var served := Serve(c, cfg, cache, Ok(frame), clock, answer);
            && served.cache == cache && served.event == None
            && served.ack.Some? && served.ack.value.secret == cfg.peerSecrets[peer]
            && var f := served.ack.value.unsigned;
               && Get(f, "kind") == Some(Str("ack")) && Get(f, "accepted") == Some(Bool(false))
               && Get(f, "detail") == Some(Str(Take(reason, 256)))
               && Get(f, "message_id") == Some(Str(Take(ClaimedId(frame), 128)))
               && Get(f, "request_nonce") == Some(Str(Take(ClaimedNonce(frame), 128)))
               && Get(f, "reply_payload_b64") == if cfg.kind == Rpc then Some(Str("")) else None
  {
    AckForFields(cfg.kind, ClaimedId(frame), ClaimedNonce(frame), RefusalReply(reason));
    assert Base64.Encode([]) == "";
  }

  /** The ids that a refusal is addressed with are the frame's own; what is absent is "unknown". */
  lemma ClaimsExactly(frame: Fields, raw: Fields)
    requires Get(frame, "envelope") == Some(Obj(raw))
    ensures Get(raw, "message_id") == None ==> ClaimedId(frame) == "unknown"
    ensures forall id :: Get(raw, "message_id") == Some(Str(id)) ==> ClaimedId(frame) == id
    ensures Get(frame, "nonce") == None ==> ClaimedNonce(frame) == "unknown"
    ensures forall nonce :: Get(frame, "nonce") == Some(Str(nonce)) ==> ClaimedNonce(frame) == nonce
  {
  }

  /** An exchange changes the cache only through one consultation, or not at all. */
  lemma ConcludeConsults(c: Crypto, cfg: ServerConfig, cache: Cache, frame: Fields, secret: Bytes,
                         validated: Result<(Envelope, string)>, at: int, answer: Answer)
    ensures var served := Conclude(c, cfg, cache, frame, secret, validated, at, answer);
            match validated
            case Err(_) => served.cache == cache && served.event == None
            case Ok((e, _)) =>
              served.event.Some? && served.event.value.envelope == e && served.event.value.at == at
              && Consult(c, cfg, cache, e, at, answer) == Consulted(served.cache, served.event.value)
  {
  }

  /** An event comes from a frame that validated under the secret of the peer it names. */
  lemma ServedFrom(c: Crypto, cfg: ServerConfig, cache: Cache, received: Result<Fields>, clock: Clock, answer: Answer)
    requires Serve(c, cfg, cache, received, clock, answer).event.Some?
    ensures received.Ok? && SourcePeer(received.value).Ok? && SourcePeer(received.value).value in cfg.peerSecrets
    ensures var secret := cfg.peerSecrets[SourcePeer(received.value).value];
            var validated := ValidateDelivery(c, received.value, secret, cfg.Policy(), clock);
            validated.Ok? && Serve(c, cfg, cache, received, clock, answer).event.value.envelope == validated.value.0
  {
    var (frame, secret) := SecretFor(cfg, received).value;
    ConcludeConsults(c, cfg, cache, frame, secret, ValidateDelivery(c, frame, secret, cfg.Policy(), clock),
                     clock.expiryNowMs, answer);
  }

  lemma ValidatedIsOwn(c: Crypto, cfg: ServerConfig, frame: Fields, peer: string, clock: Clock)
    requires SourcePeer(frame) == Ok(peer) && peer in cfg.peerSecrets
    requires ValidateDelivery(c, frame, cfg.peerSecrets[peer], cfg.Policy(), clock).Ok?
    ensures var e := ValidateDelivery(c, frame, cfg.peerSecrets[peer], cfg.Policy(), clock).value.0;
            && e.Valid() && e.destinationPeerId == cfg.localPeerId && !e.IsExpired(clock.expiryNowMs)
            && e.sourcePeerId == peer
            && TagVerifies(c, frame, cfg.peerSecrets[peer])
            && CarriedEnvelope(frame) == Ok(e)
  {
    ValidDeliveryMeans(c, frame, cfg.peerSecrets[peer], cfg.Policy(), clock);
    LookupMatchesSource(frame, peer, CarriedEnvelope(frame).value);
  }

  /** Whatever reaches the receiver came in a frame with the tag of all its content under its source's own secret. */
  lemma ServedUnderOwnSecret(c: Crypto, cfg: ServerConfig, cache: Cache, received: Result<Fields>,
                             clock: Clock, answer: Answer)
    requires Serve(c, cfg, cache, received, clock, answer).event.Some?
    ensures received.Ok?
    ensures var e := Serve(c, cfg, cache, received, clock, answer).event.value.envelope;
            && e.Valid() && e.destinationPeerId == cfg.localPeerId && !e.IsExpired(clock.expiryNowMs)
            && e.sourcePeerId in cfg.peerSecrets
            && SignedAs(c, received.value, cfg.peerSecrets[e.sourcePeerId], "delivery")
            && (exists raw :: Get(received.value, "envelope") == Some(Obj(raw)) && ReadsAs(raw, e))
  {
    ServedFrom(c, cfg, cache, received, clock, answer);
    var secret := cfg.peerSecrets[SourcePeer(received.value).value];
    CarriesExactly(received.value, Serve(c, cfg, cache, received, clock, answer).event.value.envelope);
    ValidatesSigned(c, received.value, secret, "delivery");
    ValidDeliveryMeans(c, received.value, secret, cfg.Policy(), clock);
    ValidatedIsOwn(c, cfg, received.value, SourcePeer(received.value).value, clock);
  }

  // ---------------------------------------------------------------- specification by history

  /** The ids touched by a log; a failed call leaves no trace in the cache. */
  function Touched(log: seq<Event>): seq<string> {
    if log == [] then []
    else
      var last := log[|log| - 1];
      var before := Touched(log[..|log| - 1]);
      if last.Touches() then before + [last.envelope.messageId] else before
  }

  /** The envelope and outcome of the latest completed call for an id. */
  function Latest(log: seq<Event>, id: string): Option<(Envelope, Reply)> {
    if log == [] then None
    else
      var last := log[|log| - 1];
      if last.Completed? && last.envelope.messageId == id then Some((last.envelope, last.reply))
      else Latest(log[..|log| - 1], id)
  }

  /** Which event may follow a log, with no mention of any cache. */
  ghost predicate Admits(cfg: ServerConfig, log: seq<Event>, event: Event) {
    var e := event.envelope;
    var resident := Resident(Touched(log), cfg.replayCapacity, e.messageId);
    && e.Valid() && e.destinationPeerId == cfg.localPeerId && !e.IsExpired(event.at)
    && match event
       case Completed(_, answer, reply, _) => !resident && CompletesWith(cfg, answer, reply)
       case Failed(_, answer, _) => !resident && CallFails(cfg, answer)
       case Replayed(_, reply, _) => resident && Latest(log, e.messageId) == Some((e, reply))
       case Conflicted(_, _) => resident && Latest(log, e.messageId).Some? && Latest(log, e.messageId).value.0 != e
  }

  /** Every event of the log is one that its history admits. */
  ghost predicate Chronicle(cfg: ServerConfig, log: seq<Event>) {
    forall j | 0 <= j < |log| :: Admits(cfg, log[..j], log[j])
  }

  lemma ChronicleExtends(cfg: ServerConfig, log: seq<Event>, event: Event)
    requires Chronicle(cfg, log) && Admits(cfg, log, event)
    ensures Chronicle(cfg, log + [event])
  {
    var longer := log + [event];
    forall j | 0 <= j < |longer| ensures Admits(cfg, longer[..j], longer[j]) {
      assert longer[..j] == if j == |log| then log else log[..j];
    }
  }

  ghost predicate EntryMatches(c: Crypto, log: seq<Event>, id: string, entry: Entry) {
    && Latest(log, id).Some?
    && Latest(log, id).value.0.messageId == id
    && entry == Entry(Fingerprint(c, Latest(log, id).value.0), Latest(log, id).value.1)
  }

  /** The cache is what the log says it should be. */
  ghost predicate CacheMatches(c: Crypto, cfg: ServerConfig, cache: Cache, log: seq<Event>) {
    && cache.order == After(Touched(log), cfg.replayCapacity)
    && (forall id :: id in cache.entries <==> id in cache.order)
    && (forall id | id in cache.entries :: EntryMatches(c, log, id, cache.entries[id]))
  }

  /** The state of a server that has done exactly what its log says. */
  ghost predicate Consistent(c: Crypto, cfg: ServerConfig, cache: Cache, log: seq<Event>) {
    && InjectiveHash(c) && cfg.replayCapacity >= 1
    && CacheMatches(c, cfg, cache, log)
    && Chronicle(cfg, log)
  }

  lemma ExtendLog(log: seq<Event>, event: Event)
    ensures Touched(log + [event])
         == if event.Touches() then Touched(log) + [event.envelope.messageId] else Touched(log)
    ensures forall id :: Latest(log + [event], id)
                      == if event.Completed? && event.envelope.messageId == id
                         then Some((event.envelope, event.reply)) else Latest(log, id)
  {
    assert (log + [event])[..|log|] == log;
  }

  /** A hit or a conflict: the id moves to the young end and no entry changes. */
  lemma HitRefines(c: Crypto, cfg: ServerConfig, cache: Cache, log: seq<Event>, id: string, event: Event)
    requires cfg.replayCapacity >= 1 && CacheMatches(c, cfg, cache, log) && id in cache.entries
    requires event.envelope.messageId == id && (event.Replayed? || event.Conflicted?)
    ensures CacheMatches(c, cfg, cache.(order := Without(cache.order, id) + [id]), log + [event])
  {
    ExtendLog(log, event);
    AfterAppend(Touched(log), cfg.replayCapacity, id);
    WithoutMembers(cache.order, id);
    forall k | k in cache.entries ensures EntryMatches(c, log + [event], k, cache.entries[k]) {
      assert EntryMatches(c, log, k, cache.entries[k]);
    }
  }

  /** A completed call: a new entry at the young end, the oldest one dropped on overflow. */
  lemma InsertRefines(c: Crypto, cfg: ServerConfig, cache: Cache, log: seq<Event>, event: Event)
    requires cfg.replayCapacity >= 1 && CacheMatches(c, cfg, cache, log)
    requires event.Completed? && event.envelope.messageId !in cache.entries
    ensures var entry := Entry(Fingerprint(c, event.envelope), event.reply);
            CacheMatches(c, cfg, Insert(cache, cfg.replayCapacity, event.envelope.messageId, entry), log + [event])
  {
    var id := event.envelope.messageId;
    var entry := Entry(Fingerprint(c, event.envelope), event.reply);
    var inserted := Insert(cache, cfg.replayCapacity, id, entry);
    ExtendLog(log, event);
    AfterAppend(Touched(log), cfg.replayCapacity, id);
    assert inserted.order == After(Touched(log + [event]), cfg.replayCapacity);
    forall k ensures k in inserted.entries <==> k in inserted.order {
      if k in inserted.order {
        assert k in cache.order + [id];
      }
    }
    forall k | k in inserted.entries ensures EntryMatches(c, log + [event], k, inserted.entries[k]) {
      assert k != id ==> EntryMatches(c, log, k, cache.entries[k]);
    }
  }

  /** The server refines the history specification, one delivery at a time. */
  lemma ConsultRefines(c: Crypto, cfg: ServerConfig, cache: Cache, log: seq<Event>, e: Envelope, at: int, answer: Answer)
    requires Consistent(c, cfg, cache, log)
    requires e.Valid() && e.destinationPeerId == cfg.localPeerId && !e.IsExpired(at)
    ensures var r := Consult(c, cfg, cache, e, at, answer);
            && r.event.envelope == e && r.event.at == at
            && Admits(cfg, log, r.event)
            && Consistent(c, cfg, r.cache, log + [r.event])
  {
    var id := e.messageId;
    var event := Consult(c, cfg, cache, e, at, answer).event;
    OutcomeByAnswer(cfg, answer);
    ResidentIffHeld(Touched(log), cfg.replayCapacity, id);
    if id in cache.entries {
      assert EntryMatches(c, log, id, cache.entries[id]);
      FingerprintExact(c, Latest(log, id).value.0, e);
      HitRefines(c, cfg, cache, log, id, event);
    } else if event.Completed? {
      InsertRefines(c, cfg, cache, log, event);
    } else {
      FailureRefines(c, cfg, cache, log, event);
    }
    ChronicleExtends(cfg, log, event);
  }

  function Events(served: Served): seq<Event> {
    if served.event.Some? then [served.event.value] else []
  }

  lemma ServeConsults(c: Crypto, cfg: ServerConfig, cache: Cache, received: Result<Fields>, clock: Clock, answer: Answer)
    ensures var served := Serve(c, cfg, cache, received, clock, answer);
            match served.event
            case None => served.cache == cache
            case Some(event) =>
              Consult(c, cfg, cache, event.envelope, clock.expiryNowMs, answer) == Consulted(served.cache, event)
  {
    var authenticated := SecretFor(cfg, received);
    if authenticated.Some? {
      var (frame, secret) := authenticated.value;
      ConcludeConsults(c, cfg, cache, frame, secret, ValidateDelivery(c, frame, secret, cfg.Policy(), clock),
                       clock.expiryNowMs, answer);
    }
  }

  /** A whole exchange keeps the server consistent with its log. */
  lemma ServeRefines(c: Crypto, cfg: ServerConfig, cache: Cache, log: seq<Event>, received: Result<Fields>,
                     clock: Clock, answer: Answer)
    requires Consistent(c, cfg, cache, log)
    ensures var served := Serve(c, cfg, cache, received, clock, answer);
            Consistent(c, cfg, served.cache, log + Events(served))
  {
    var served := Serve(c, cfg, cache, received, clock, answer);
    ServeConsults(c, cfg, cache, received, clock, answer);
    if served.event.Some? {
      ServedUnderOwnSecret(c, cfg, cache, received, clock, answer);
      ConsultRefines(c, cfg, cache, log, served.event.value.envelope, clock.expiryNowMs, answer);
    } else {
      assert log + [] == log;
    }
  }

  lemma FailureRefines(c: Crypto, cfg: ServerConfig, cache: Cache, log: seq<Event>, event: Event)
    requires CacheMatches(c, cfg, cache, log) && event.Failed?
    ensures CacheMatches(c, cfg, cache, log + [event])
  {
    ExtendLog(log, event);
    forall k | k in cache.entries ensures EntryMatches(c, log + [event], k, cache.entries[k]) {
      assert EntryMatches(c, log, k, cache.entries[k]);
    }
  }

  // ---------------------------------------------------------------- the server

  class LocalIpServer {
    const crypto: Crypto
    const config: ServerConfig
    const deliveryCache: OrderedDict<Entry>
    ghost var log: seq<Event>

    ghost function Contents(): Cache
      reads deliveryCache
    {
      Cache(deliveryCache.keys, deliveryCache.items)
    }

    ghost predicate Valid()
      reads this, deliveryCache
    {
      deliveryCache.Valid() && Consistent(crypto, config, Contents(), log)
    }

    constructor (crypto: Crypto, config: ServerConfig)
      requires config.replayCapacity >= 1 && InjectiveHash(crypto)
      ensures Valid() && fresh(deliveryCache) && log == []
      ensures this.crypto == crypto && this.config == config
    {
      this.crypto := crypto;
      this.config := config;
      this.deliveryCache := new OrderedDict();
      this.log := [];
    }

    /** Construction as callers see it: out-of-range limits are refused. */
    static method Create(crypto: Crypto, config: ServerConfig) returns (r: Result<LocalIpServer>)
      requires InjectiveHash(crypto)
      ensures r.Ok? <==>
              && config.maxClockSkewMs >= 1 && config.replayCapacity >= 1
              && config.maxFrameBytes >= 4096 && 1 <= config.maxPayloadBytes < config.maxFrameBytes
              && (config.kind == Rpc ==>
                    1 <= config.maxReplyBytes && (config.maxReplyBytes + 2) / 3 * 4 + 2048 < config.maxFrameBytes)
      ensures r.Err? ==> CheckConfig(config) == Fail(r.reason)
      ensures r.Ok? ==> fresh(r.value) && fresh(r.value.deliveryCache) && r.value.Valid() && r.value.log == []
      ensures r.Ok? ==> r.value.crypto == crypto && r.value.config == config
    {
      var check := CheckConfig(config);
      if check.Fail? {
        return Err(check.reason);
      }
      var server := new LocalIpServer(crypto, config);
      return Ok(server);
    }

    /** Store a fresh outcome at the young end and evict whatever overflows. */
    method Store(id: string, entry: Entry)
      requires deliveryCache.Valid() && id !in deliveryCache.items
      modifies deliveryCache
      ensures deliveryCache.Valid()
      ensures Contents() == Insert(old(Contents()), config.replayCapacity, id, entry)
    {
      ghost var before := Contents();
      WithoutAppend(before.order, [id], id);
      WithoutAbsent(before.order, id);
      deliveryCache.Put(id, entry);
      assert deliveryCache.keys == before.order + [id];
      deliveryCache.MoveToEnd(id);
      assert deliveryCache.keys == before.order + [id];
      deliveryCache.EvictDownTo(config.replayCapacity);
      assert forall k <- deliveryCache.keys :: k in before.entries[id := entry];
      assert deliveryCache.items == Insert(before, config.replayCapacity, id, entry).entries;
    }

    /** The cache part of an exchange: hit, conflict, or receiver call and store. */
    method Deliver(e: Envelope, at: int, answer: Answer) returns (reported: Result<Reply>)
      requires deliveryCache.Valid()
      modifies deliveryCache
      ensures deliveryCache.Valid()
      ensures Contents() == Consult(crypto, config, old(Contents()), e, at, answer).cache
      ensures reported == Consult(crypto, config, old(Contents()), e, at, answer).event.Reported(config)
      ensures e.messageId !in old(deliveryCache.items) && CallFails(config, answer) ==>
                Contents() == old(Contents()) && reported == Err(FailureReason(answer))
      ensures e.messageId !in old(deliveryCache.items) && !CallFails(config, answer) ==>
                reported.Ok? && CompletesWith(config, answer, reported.value)
      ensures e.messageId in old(deliveryCache.items) ==>
                && Contents().entries == old(Contents().entries)
                && var entry := old(deliveryCache.items)[e.messageId];
                   reported == Ok(if entry.fingerprint == crypto.sha256(CanonicalBytes(EnvelopeFields(e))) then entry.reply
                                  else Reply(false, [], "message_id reused with different content"))
    {
      OutcomeByAnswer(config, answer);
      var fingerprint := Fingerprint(crypto, e);
      if e.messageId in deliveryCache.items {
        var cached := deliveryCache.items[e.messageId];
        deliveryCache.MoveToEnd(e.messageId);
        reported := Ok(if cached.fingerprint == fingerprint then cached.reply else CONFLICT);
      } else {
        reported := Outcome(config, answer);
        if reported.Ok? {
          Store(e.messageId, Entry(fingerprint, reported.value));
        }
      }
    }

    /** One accepted connection, from its byte stream to the bytes sent back, if any. */
    method ServeOnce(connection: Connection, clock: Clock, answer: Answer) returns (sent: Option<Bytes>)
      requires Valid()
      modifies this, deliveryCache, connection
      ensures Valid()
      ensures var served := Serve(crypto, config, old(Contents()),
                                  ReadFrame(old(connection.incoming), config.maxFrameBytes), clock, answer);
              && Contents() == served.cache
              && log == old(log) + Events(served)
              && sent == Transmit(crypto, served.ack, config.maxFrameBytes)
    {
      var received := ReceiveFrame(connection, config.maxFrameBytes);
      ghost var served := Serve(crypto, config, Contents(), received, clock, answer);
      ServeRefines(crypto, config, Contents(), log, received, clock, answer);
      log := log + Events(served);
      var ack := Exchange(received, clock, answer);
      sent := Transmit(crypto, ack, config.maxFrameBytes);
    }

    /** Everything between the received frame and the acknowledgement. */
    method Exchange(received: Result<Fields>, clock: Clock, answer: Answer) returns (ack: Option<Ack>)
      requires deliveryCache.Valid()
      modifies deliveryCache
      ensures deliveryCache.Valid()
      ensures var served := Serve(crypto, config, old(Contents()), received, clock, answer);
              Contents() == served.cache && ack == served.ack
    {
      var authenticated := SecretFor(config, received);
      if authenticated.None? {
        return None;
      }
      var (frame, secret) := authenticated.value;
      var validated := ValidateDelivery(crypto, frame, secret, config.Policy(), clock);
      if validated.Err? {
        return Some(Ack(secret, RefusalFor(config.kind, frame, validated.reason)));
      }
      var (e, nonce) := validated.value;
      var reported := Deliver(e, clock.expiryNowMs, answer);
      var unsigned := if reported.Ok? then AckFor(config.kind, e.messageId, nonce, reported.value)
                      else RefusalFor(config.kind, frame, reported.reason);
      return Some(Ack(secret, unsigned));
    }
  }

  /** A signed acknowledgement on the wire; one that does not fit the limit is dropped. */
  function Transmit(c: Crypto, ack: Option<Ack>, limit: nat): Option<Bytes> {
    match ack
    case None => None
    case Some(Ack(secret, unsigned)) =>
      match FrameBytes(Signed(c, unsigned, secret), limit)
      case Ok(stream) => Some(stream)
      case Err(_) => None
  }
}
