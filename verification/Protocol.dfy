/**
 Whole runs of clients and one server over a network that may deliver any bytes at all: lost,
 repeated, reordered, altered or invented. The only thing the network cannot do is present a tag
 that verifies under a secret on content that was never signed with that secret.
 */
module Protocol {
  import opened Contracts
  import opened Json
  import opened Framing
  import opened LocalIp
  import opened Wire
  import opened Delivery
  import opened History
  import Base64

  // ---------------------------------------------------------------- clients

  datatype Client = Client(
    kind: Kind,
    localPeerId: string,
    remotePeerId: string,
    secret: Bytes,
    maxFrameBytes: nat,
    maxPayloadBytes: nat,
    maxReplyBytes: nat
  )

  /** An exchange that a client has put on the wire. */
  datatype Request = Request(client: Client, envelope: Envelope, nonce: string, sentAtMs: int)

  /** The plain report has no payload; here it is empty. */
  datatype Report = Report(messageId: string, accepted: bool, acknowledged: bool, payload: Bytes, detail: string)

  datatype Attempt = Attempted(stream: Bytes) | Reported(report: Report)

  function NotAcknowledged(e: Envelope, detail: string): Report {
    Report(e.messageId, false, false, [], detail)
  }

  /** What each carrier calls its exchange in the texts of its reports. */
  function Noun(kind: Kind): string {
    match kind
    case Plain => "delivery"
    case Rpc => "request"
  }

  function Failure(r: Request, reason: string): Report {
    NotAcknowledged(r.envelope, "local-IP " + Noun(r.client.kind) + " failed: " + reason)
  }

  function RequestFrame(c: Crypto, r: Request): Fields {
    DeliveryFrame(c, r.envelope, r.nonce, r.sentAtMs, r.client.secret)
  }

  /** The first half of a send: refused outright, reported without sending, or put on the wire. */
  function Begin(c: Crypto, r: Request): Result<Attempt> {
    if r.envelope.sourcePeerId != r.client.localPeerId then Err("envelope source does not match configured local peer") else
    :- Need(r.envelope.destinationPeerId == r.client.remotePeerId,
            "envelope destination does not match configured remote peer");
    :- Need(|r.envelope.payload| <= r.client.maxPayloadBytes,
            if r.client.kind == Rpc then "envelope exceeds local-IP request payload limit"
            else "envelope exceeds local-IP payload limit");
    Ok(Launch(c, r))
  }

  function Launch(c: Crypto, r: Request): Attempt {
    if r.envelope.IsExpired(r.sentAtMs) then
      Reported(NotAcknowledged(r.envelope, "envelope expired before local-IP " + Noun(r.client.kind)))
    else
      match FrameBytes(RequestFrame(c, r), r.client.maxFrameBytes)
      case Ok(stream) => Attempted(stream)
      case Err(reason) => Reported(Failure(r, reason))
  }

  /** The first of the three mismatches that applies is the error of a send. */
  lemma RefusesOutright(c: Crypto, r: Request)
    ensures Begin(c, r).Err? <==>
              || r.envelope.sourcePeerId != r.client.localPeerId
              || r.envelope.destinationPeerId != r.client.remotePeerId
              || |r.envelope.payload| > r.client.maxPayloadBytes
    ensures Begin(c, r).Err? ==>
              Begin(c, r).reason
              == if r.envelope.sourcePeerId != r.client.localPeerId
                 then "envelope source does not match configured local peer"
                 else if r.envelope.destinationPeerId != r.client.remotePeerId
                 then "envelope destination does not match configured remote peer"
                 else if r.client.kind == Rpc then "envelope exceeds local-IP request payload limit"
                 else "envelope exceeds local-IP payload limit"
  {
  }

  /**
   A send that is no error either puts the whole frame on the wire, or sends nothing and reports so: not
   accepted, not acknowledged, no payload, because the envelope has expired or its frame is too long.
   */
  lemma BeginsExactly(c: Crypto, r: Request)
    requires Begin(c, r).Ok?
    ensures var bytes := CanonicalBytes(RequestFrame(c, r));
            var expired := r.sentAtMs >= r.envelope.createdAtMs + r.envelope.ttlMs;
            match Begin(c, r).value
            case Attempted(stream) =>
              !expired && |bytes| <= r.client.maxFrameBytes && |bytes| < HEADER_RANGE && stream == Header(|bytes|) + bytes
            case Reported(report) =>
              && (expired || |bytes| > r.client.maxFrameBytes || |bytes| >= HEADER_RANGE)
              && report == Report(r.envelope.messageId, false, false, [], report.detail)
              && var noun := if r.client.kind == Rpc then "request" else "delivery";
                 && (expired ==> report.detail == "envelope expired before local-IP " + noun)
                 && (!expired && |bytes| > r.client.maxFrameBytes ==>
                       report.detail == "local-IP " + noun + " failed: " + "local-IP frame exceeds configured limit")
  {
    CanonicalAtLeastTwo(RequestFrame(c, r));
    FramesExactly(RequestFrame(c, r), r.client.maxFrameBytes);
    LaunchesByFrame(c, r);
  }

  lemma LaunchesByFrame(c: Crypto, r: Request)
    ensures var framed := FrameBytes(RequestFrame(c, r), r.client.maxFrameBytes);
            Launch(c, r)
            == if r.sentAtMs >= r.envelope.createdAtMs + r.envelope.ttlMs
               then Reported(NotAcknowledged(r.envelope, "envelope expired before local-IP " + Noun(r.client.kind)))
               else if framed.Ok? then Attempted(framed.value) else Reported(Failure(r, framed.reason))
  {
  }

  lemma FramesExactly(frame: Fields, limit: nat)
    requires |CanonicalBytes(frame)| >= 2
    ensures var bytes := CanonicalBytes(frame);
            FrameBytes(frame, limit)
            == if |bytes| > limit then Err("local-IP frame exceeds configured limit")
               else if |bytes| >= HEADER_RANGE then Err("frame length does not fit the header")
               else Ok(Header(|bytes|) + bytes)
  {
  }

  /** What a client reads from an acknowledgement. */
  function ReadAck(c: Crypto, r: Request, frame: Fields): Result<Reply> {
    match r.client.kind
    case Rpc =>
      ValidateReplyAck(c, frame, r.client.secret, r.envelope.messageId, r.nonce, r.client.maxReplyBytes)
    case Plain =>
      var (accepted, detail) :- ValidateAck(c, frame, r.client.secret, r.envelope.messageId, r.nonce);
      Ok(Reply(accepted, [], detail))
  }

  /** The second half of a send: the report on the bytes that come back. */
  function Finish(c: Crypto, r: Request, stream: Bytes): Report {
    match ReadFrame(stream, r.client.maxFrameBytes)
    case Err(reason) => Failure(r, reason)
    case Ok(frame) =>
      match ReadAck(c, r, frame)
      case Err(reason) => Failure(r, reason)
      case Ok(reply) => Report(r.envelope.messageId, reply.accepted, true, reply.payload, reply.detail)
  }

  /** The report on any bytes: what the acknowledgement in them says, or why there is none, and then nothing else. */
  lemma FinishesExactly(c: Crypto, r: Request, stream: Bytes)
    ensures var report := Finish(c, r, stream);
            var read := ReadFrame(stream, r.client.maxFrameBytes);
            var ack := if read.Ok? then ReadAck(c, r, read.value) else Err(read.reason);
            && report.messageId == r.envelope.messageId && (report.acknowledged <==> ack.Ok?)
            && if ack.Ok?
               then report.accepted == ack.value.accepted && report.payload == ack.value.payload
                    && report.detail == ack.value.detail
               else !report.accepted && report.payload == []
                    && var noun := if r.client.kind == Rpc then "request" else "delivery";
                       report.detail == "local-IP " + noun + " failed: " + ack.reason
  {
  }

  /** Exactly which frames a client takes as its acknowledgement, and what it reads from them. */
  lemma ReadsAckExactly(c: Crypto, r: Request, frame: Fields, reply: Reply)
    ensures ReadAck(c, r, frame) == Ok(reply) <==>
              && SignedAs(c, frame, r.client.secret, "ack")
              && Get(frame, "message_id") == Some(Str(r.envelope.messageId))
              && Get(frame, "request_nonce") == Some(Str(r.nonce))
              && Get(frame, "accepted") == Some(Bool(reply.accepted)) && ShowsDetail(frame, reply.detail)
              && if r.client.kind == Plain then reply.payload == []
                 else |reply.payload| <= r.client.maxReplyBytes && ShowsPayload(frame, reply.payload)
  {
    AckExactly(c, frame, r.client.secret, r.envelope.messageId, r.nonce, reply.accepted, reply.detail);
    ReplyAckExactly(c, frame, r.client.secret, r.envelope.messageId, r.nonce, r.client.maxReplyBytes, reply);
  }

  // ---------------------------------------------------------------- what was signed, and by whom

  datatype Origin =
    | ByClient(request: Request)
    | Verdict(envelope: Envelope, nonce: string, reply: Reply)
    | Refusal(frame: Fields, reason: string)
    | Foreign(message: Bytes)

  /** One use of a secret to sign something. */
  datatype Mint = Mint(secret: Bytes, origin: Origin)

  function MintedBytes(cfg: ServerConfig, mint: Mint): Bytes {
    match mint.origin
    case ByClient(r) => CanonicalBytes(DeliveryUnsigned(r.envelope, r.nonce, r.sentAtMs))
    case Verdict(e, nonce, reply) => CanonicalBytes(AckFor(cfg.kind, e.messageId, nonce, reply))
    case Refusal(frame, reason) => CanonicalBytes(RefusalFor(cfg.kind, frame, reason))
    case Foreign(message) => message
  }

  ghost predicate WasSigned(cfg: ServerConfig, mints: seq<Mint>, secret: Bytes, message: Bytes) {
    exists i :: 0 <= i < |mints| && mints[i].secret == secret && MintedBytes(cfg, mints[i]) == message
  }

  /** The assumption on tags: content that arrives with its tag under a secret was signed with that secret. */
  ghost predicate Unforged(c: Crypto, cfg: ServerConfig, mints: seq<Mint>, frame: Fields, secret: Bytes) {
    var content := CanonicalBytes(frame - {"signature"});
    Get(frame, "signature") == Some(Str(c.hmac(secret, content))) ==> WasSigned(cfg, mints, secret, content)
  }

  // ---------------------------------------------------------------- runs

  datatype World = World(crypto: Crypto, server: ServerConfig, clients: set<Client>) {
    /** The secrets that only honest clients and the server hold. */
    function Secrets(): set<Bytes> {
      set client | client in clients :: client.secret
    }
  }

  datatype State = State(
    cache: Cache,
    log: seq<Event>,
    nowMs: int,
    requests: set<Request>,
    mints: seq<Mint>,
    reports: seq<(Request, Report)>
  )

  const INITIAL := State(EMPTY, [], 0, {}, [], [])

  datatype Action =
    | ClientSends(request: Request)
    | ClientDeclines(request: Request)
    | ServerReceives(stream: Bytes, clock: Clock, answer: Answer)
    | ClientReceives(request: Request, stream: Bytes)
    | ClientTimesOut(request: Request, detail: string)
    | ForeignerSigns(secret: Bytes, message: Bytes)

  function Received(w: World, stream: Bytes): Result<Fields> {
    ReadFrame(stream, w.server.maxFrameBytes)
  }

  function ServedBy(w: World, s: State, a: Action): Served
    requires a.ServerReceives?
  {
    Serve(w.crypto, w.server, s.cache, Received(w, a.stream), a.clock, a.answer)
  }

  /** What the server signs once the delivery has been validated or refused, given its event. */
  function MintsFor(cfg: ServerConfig, frame: Fields, secret: Bytes, validated: Result<(Envelope, string)>,
                    event: Option<Event>): seq<Mint>
  {
    match (validated, event)
    case (Ok((e, nonce)), Some(event)) =>
      (match event.Reported(cfg)
       case Ok(reply) => [Mint(secret, Verdict(e, nonce, reply))]
       case Err(reason) => [Mint(secret, Refusal(frame, reason))])
    case (Err(reason), _) => [Mint(secret, Refusal(frame, reason))]
    case _ => []
  }

  /** What the server signs in an exchange, if anything. */
  function ServerMints(w: World, s: State, a: Action): seq<Mint>
    requires a.ServerReceives?
  {
    match SecretFor(w.server, Received(w, a.stream))
    case None => []
    case Some((frame, secret)) =>
      MintsFor(w.server, frame, secret, ValidateDelivery(w.crypto, frame, secret, w.server.Policy(), a.clock),
               ServedBy(w, s, a).event)
  }

  /** The record is complete: it holds the one content that the server signs for its acknowledgement, if there is one. */
  lemma AcksAreRecorded(w: World, s: State, a: Action)
    requires a.ServerReceives?
    ensures match ServedBy(w, s, a).ack
            case None => ServerMints(w, s, a) == []
            case Some(ack) =>
              && |ServerMints(w, s, a)| == 1 && ServerMints(w, s, a)[0].secret == ack.secret
              && MintedBytes(w.server, ServerMints(w, s, a)[0]) == CanonicalBytes(ack.unsigned)
  {
    var authenticated := SecretFor(w.server, Received(w, a.stream));
    if authenticated.Some? {
      var (frame, secret) := authenticated.value;
      var validated := ValidateDelivery(w.crypto, frame, secret, w.server.Policy(), a.clock);
      ConclusionIsRecorded(w, s.cache, frame, secret, validated, a.clock.expiryNowMs, a.answer);
    }
  }

  lemma ConclusionIsRecorded(w: World, cache: Cache, frame: Fields, secret: Bytes,
                             validated: Result<(Envelope, string)>, at: int, answer: Answer)
    ensures var served := Conclude(w.crypto, w.server, cache, frame, secret, validated, at, answer);
            var mints := MintsFor(w.server, frame, secret, validated, served.event);
            && served.ack.Some? && |mints| == 1 && mints[0].secret == served.ack.value.secret == secret
            && MintedBytes(w.server, mints[0]) == CanonicalBytes(served.ack.value.unsigned)
  {
    ConcludeConsults(w.crypto, w.server, cache, frame, secret, validated, at, answer);
  }

  ghost predicate Enabled(w: World, s: State, a: Action) {
    match a
    case ClientSends(r) =>
      && r.client in w.clients && r.envelope.Valid() && ValidNonce(r.nonce)
      && Begin(w.crypto, r).Ok? && Begin(w.crypto, r).value.Attempted?
      && forall q :: q in s.requests ==> q.nonce != r.nonce
    case ClientDeclines(r) =>
      && r.client in w.clients && r.envelope.Valid()
      && Begin(w.crypto, r).Ok? && Begin(w.crypto, r).value.Reported?
    case ServerReceives(stream, clock, answer) =>
      && s.nowMs <= clock.skewNowMs <= clock.expiryNowMs
      && (answer.ReturnsReply? ==> answer.reply.Valid())
      && (SecretFor(w.server, Received(w, stream)).Some? ==>
            var (frame, secret) := SecretFor(w.server, Received(w, stream)).value;
            Unforged(w.crypto, w.server, s.mints, frame, secret))
    case ClientReceives(r, stream) =>
      && r in s.requests
      && (ReadFrame(stream, r.client.maxFrameBytes).Ok? ==>
            Unforged(w.crypto, w.server, s.mints, ReadFrame(stream, r.client.maxFrameBytes).value, r.client.secret))
    case ClientTimesOut(r, _) => r in s.requests
    case ForeignerSigns(secret, _) => secret !in w.Secrets()
  }

  /** The report of a send that ends without sending anything. */
  function Declined(c: Crypto, r: Request): seq<(Request, Report)> {
    match Begin(c, r)
    case Ok(Reported(report)) => [(r, report)]
    case _ => []
  }

  function Step(w: World, s: State, a: Action): State {
    match a
    case ClientSends(r) => s.(requests := s.requests + {r}, mints := s.mints + [Mint(r.client.secret, ByClient(r))])
    case ClientDeclines(r) => s.(reports := s.reports + Declined(w.crypto, r))
    case ServerReceives(_, clock, _) =>
      var served := ServedBy(w, s, a);
      s.(cache := served.cache, log := s.log + Events(served), nowMs := clock.expiryNowMs,
         mints := s.mints + ServerMints(w, s, a))
    case ClientReceives(r, stream) => s.(reports := s.reports + [(r, Finish(w.crypto, r, stream))])
    case ClientTimesOut(r, detail) =>
      s.(reports := s.reports + [(r, Failure(r, detail))])
    case ForeignerSigns(secret, message) => s.(mints := s.mints + [Mint(secret, Foreign(message))])
  }

  function After(w: World, actions: seq<Action>): State {
    if actions == [] then INITIAL
    else Step(w, After(w, actions[..|actions| - 1]), actions[|actions| - 1])
  }

  ghost predicate Legal(w: World, actions: seq<Action>) {
    actions != [] ==>
      var before := actions[..|actions| - 1];
      Legal(w, before) && Enabled(w, After(w, before), actions[|actions| - 1])
  }

  /** The assumptions about the primitives, and a server that could be constructed. */
  ghost predicate Sound(w: World) {
    InjectiveHash(w.crypto) && w.server.replayCapacity >= 1
  }

  // ---------------------------------------------------------------- the invariant

  /** The server completed, replayed or found a conflict for this envelope, and this reply is what it reported. */
  ghost predicate WasDecided(cfg: ServerConfig, log: seq<Event>, e: Envelope, reply: Reply) {
    exists i :: 0 <= i < |log| && Decides(cfg, log[i], e, reply)
  }

  predicate Decides(cfg: ServerConfig, event: Event, e: Envelope, reply: Reply) {
    !event.Failed? && event.envelope == e && event.Reported(cfg) == Ok(reply)
  }

  /** A client with this secret asked for exactly this exchange. */
  ghost predicate WasRequested(requests: set<Request>, secret: Bytes, e: Envelope, nonce: string) {
    exists r :: r in requests && r.client.secret == secret && r.envelope == e && r.nonce == nonce
  }

  ghost predicate GoodMint(w: World, s: State, mint: Mint) {
    match mint.origin
    case ByClient(r) => r in s.requests && r.client.secret == mint.secret
    case Verdict(e, nonce, reply) =>
      && |e.messageId| <= 128 && |nonce| <= 128
      && reply.Valid() && WasDecided(w.server, s.log, e, reply)
      && (mint.secret in w.Secrets() ==> WasRequested(s.requests, mint.secret, e, nonce))
    case Refusal(frame, _) => SecretFor(w.server, Ok(frame)) == Some((frame, mint.secret))
    case Foreign(_) => mint.secret !in w.Secrets()
  }

  /** The report tells a verdict that the server signed on exactly the client's exchange. */
  predicate TellsVerdict(w: World, mint: Mint, r: Request, report: Report) {
    && mint.secret == r.client.secret && mint.origin.Verdict?
    && mint.origin.envelope == r.envelope && mint.origin.nonce == r.nonce && Tells(w, r, report, mint.origin.reply)
  }

  predicate Tells(w: World, r: Request, report: Report, reply: Reply) {
    && report.accepted == reply.accepted && report.detail == reply.detail
    && report.payload == if r.client.kind == Rpc then Carried(w, reply) else []
  }

  /** The report tells a refusal that the server signed for some frame with the ids of the request. */
  predicate TellsRefusal(mint: Mint, r: Request, report: Report) {
    && mint.secret == r.client.secret && mint.origin.Refusal? && CarriesIds(mint.origin.frame, r)
    && !report.accepted && report.payload == [] && report.detail == Take(mint.origin.reason, MAX_DETAIL_CHARS)
  }

  ghost predicate TellsMint(w: World, mints: seq<Mint>, r: Request, report: Report) {
    exists i :: 0 <= i < |mints| && (TellsVerdict(w, mints[i], r, report) || TellsRefusal(mints[i], r, report))
  }

  predicate CarriesIds(frame: Fields, r: Request) {
    Take(ClaimedId(frame), 128) == r.envelope.messageId && Take(ClaimedNonce(frame), 128) == r.nonce
  }

  /** An acknowledged report tells a verdict or a refusal; only a verdict accepts. Any other one has no payload. */
  ghost predicate GoodReport(w: World, s: State, r: Request, report: Report) {
    && report.messageId == r.envelope.messageId
    && (report.accepted ==> report.acknowledged)
    && (if report.acknowledged then TellsMint(w, s.mints, r, report) else report.payload == [])
  }

  /** The reply bytes an acknowledgement carries: only the request/reply carrier has any. */
  function Carried(w: World, reply: Reply): Bytes {
    if w.server.kind == Rpc then reply.payload else []
  }

  ghost predicate GoodRequests(w: World, requests: set<Request>) {
    && (forall r | r in requests :: r.client in w.clients && r.envelope.Valid() && ValidNonce(r.nonce))
    && (forall r, q | r in requests && q in requests && r.nonce == q.nonce :: r == q)
  }

  ghost predicate LogInTime(s: State) {
    && ClockRuns(s.log)
    && (forall i | 0 <= i < |s.log| :: s.log[i].at <= s.nowMs)
    && (forall i | 0 <= i < |s.log| :: s.log[i].Completed? ==> s.log[i].reply.Valid())
  }

  ghost predicate GoodMints(w: World, s: State) {
    forall i | 0 <= i < |s.mints| :: GoodMint(w, s, s.mints[i])
  }

  ghost predicate GoodReports(w: World, s: State) {
    forall i | 0 <= i < |s.reports| ::
      (s.reports[i].1.acknowledged ==> s.reports[i].0 in s.requests) && GoodReport(w, s, s.reports[i].0, s.reports[i].1)
  }

  /** The event's envelope was signed for by its own source; an honest source asked for it. */
  ghost predicate Authentic(w: World, requests: set<Request>, e: Envelope) {
    && e.sourcePeerId in w.server.peerSecrets
    && var secret := w.server.peerSecrets[e.sourcePeerId];
       secret in w.Secrets() ==> exists r :: r in requests && r.client.secret == secret && r.envelope == e
  }

  ghost predicate AuthenticLog(w: World, s: State) {
    forall i | 0 <= i < |s.log| :: Authentic(w, s.requests, s.log[i].envelope)
  }

  ghost predicate Invariant(w: World, s: State) {
    && Consistent(w.crypto, w.server, s.cache, s.log)
    && LogInTime(s)
    && GoodRequests(w, s.requests)
    && AuthenticLog(w, s)
    && GoodMints(w, s)
    && GoodReports(w, s)
  }

  // ---------------------------------------------------------------- kinds of signed content

  lemma RefusalRejects(kind: Kind, frame: Fields, reason: string)
    ensures Get(RefusalFor(kind, frame, reason), "kind") == Some(Str("ack"))
  {
    AckForFields(kind, ClaimedId(frame), ClaimedNonce(frame), RefusalReply(reason));
  }

  /** A verified frame under an honest secret is the content of some recorded use of that secret. */
  lemma FindMint(w: World, s: State, frame: Fields, secret: Bytes, kind: string) returns (i: nat)
    requires ValidateSigned(w.crypto, frame, secret, kind).Pass?
    requires Unforged(w.crypto, w.server, s.mints, frame, secret)
    ensures i < |s.mints| && s.mints[i].secret == secret
    ensures MintedBytes(w.server, s.mints[i]) == CanonicalBytes(Unsigned(frame))
    ensures Get(Unsigned(frame), "kind") == Some(Str(kind))
  {
    ValidatedMeans(w.crypto, frame, secret, kind);
    i :| 0 <= i < |s.mints| && s.mints[i].secret == secret
      && MintedBytes(w.server, s.mints[i]) == CanonicalBytes(Unsigned(frame));
  }

  /** A verified delivery under an honest secret was signed by a client. */
  lemma DeliveryMint(w: World, s: State, frame: Fields, secret: Bytes) returns (r: Request)
    requires GoodMints(w, s) && secret in w.Secrets()
    requires Unforged(w.crypto, w.server, s.mints, frame, secret)
    requires ValidateSigned(w.crypto, frame, secret, "delivery").Pass?
    ensures r in s.requests && r.client.secret == secret
    ensures Unsigned(frame) == DeliveryUnsigned(r.envelope, r.nonce, r.sentAtMs)
  {
    var i := FindMint(w, s, frame, secret, "delivery");
    assert GoodMint(w, s, s.mints[i]);
    match s.mints[i].origin
    case ByClient(q) =>
      CanonicalInjective(DeliveryUnsigned(q.envelope, q.nonce, q.sentAtMs), Unsigned(frame));
      r := q;
    case Verdict(v, n, reply) =>
      CanonicalInjective(AckFor(w.server.kind, v.messageId, n, reply), Unsigned(frame));
      AckForFields(w.server.kind, v.messageId, n, reply);
      assert false;
    case Refusal(f, reason) =>
      CanonicalInjective(RefusalFor(w.server.kind, f, reason), Unsigned(frame));
      RefusalRejects(w.server.kind, f, reason);
      assert false;
    case Foreign(_) =>
      assert false;
  }

  /** A delivery that verifies under an honest secret was requested by a client with that secret. */
  lemma DeliveryWasRequested(w: World, s: State, frame: Fields, secret: Bytes, e: Envelope, nonce: string)
    requires GoodRequests(w, s.requests) && GoodMints(w, s) && secret in w.Secrets()
    requires Unforged(w.crypto, w.server, s.mints, frame, secret)
    requires ValidateSigned(w.crypto, frame, secret, "delivery").Pass?
    requires CarriedEnvelope(frame) == Ok(e) && Get(frame, "nonce") == Some(Str(nonce))
    ensures WasRequested(s.requests, secret, e, nonce)
  {
    var r := DeliveryMint(w, s, frame, secret);
    ValidatedMeans(w.crypto, frame, secret, "delivery");
    DeliveryFields(r.envelope, r.nonce, r.sentAtMs);
    CarriedEnvelopeRoundTrip(frame, r.envelope);
  }

  /** A verified acknowledgement under an honest secret is a verdict or a refusal of the server. */
  lemma AckMint(w: World, s: State, frame: Fields, secret: Bytes) returns (i: nat)
    requires GoodMints(w, s) && secret in w.Secrets()
    requires Unforged(w.crypto, w.server, s.mints, frame, secret)
    requires ValidateSigned(w.crypto, frame, secret, "ack").Pass?
    ensures i < |s.mints| && s.mints[i].secret == secret
    ensures s.mints[i].origin.Verdict? || s.mints[i].origin.Refusal?
    ensures MintedBytes(w.server, s.mints[i]) == CanonicalBytes(Unsigned(frame))
  {
    i := FindMint(w, s, frame, secret, "ack");
    assert GoodMint(w, s, s.mints[i]);
    match s.mints[i].origin
    case ByClient(q) =>
      CanonicalInjective(DeliveryUnsigned(q.envelope, q.nonce, q.sentAtMs), Unsigned(frame));
      DeliveryFields(q.envelope, q.nonce, q.sentAtMs);
      assert false;
    case Verdict(_, _, _) =>
    case Refusal(_, _) =>
    case Foreign(_) =>
      assert false;
  }

  /** The reading of an acknowledgement once its signature has been checked. */
  function AckReading(r: Request, frame: Fields): Result<Reply> {
    match r.client.kind
    case Rpc => ReplyAckOutcome(frame, r.envelope.messageId, r.nonce, r.client.maxReplyBytes)
    case Plain =>
      var (accepted, detail) :- AckOutcome(frame, r.envelope.messageId, r.nonce);
      Ok(Reply(accepted, [], detail))
  }

  lemma ReadAckOutcome(c: Crypto, r: Request, frame: Fields)
    requires ReadAck(c, r, frame).Ok?
    ensures ValidateSigned(c, frame, r.client.secret, "ack").Pass? && AckReading(r, frame) == ReadAck(c, r, frame)
  {
  }

  /** What a client reads from an acknowledgement that the server made with these parts, field by field. */
  lemma AckReadBack(w: World, r: Request, frame: Fields, messageId: string, nonce: string, reply: Reply)
    requires Get(frame, "message_id") == Some(Str(Take(messageId, 128)))
    requires Get(frame, "request_nonce") == Some(Str(Take(nonce, 128)))
    requires Get(frame, "accepted") == Some(Bool(reply.accepted))
    requires Get(frame, "detail") == Some(Str(Take(reply.detail, MAX_DETAIL_CHARS)))
    requires Get(frame, "reply_payload_b64")
          == if w.server.kind == Rpc then Some(Str(Base64.Encode(reply.payload))) else None
    requires AckReading(r, frame).Ok?
    ensures Take(messageId, 128) == r.envelope.messageId && Take(nonce, 128) == r.nonce
    ensures AckReading(r, frame).value
         == Reply(reply.accepted, if r.client.kind == Rpc then Carried(w, reply) else [],
                  Take(reply.detail, MAX_DETAIL_CHARS))
  {
    if r.client.kind == Rpc {
      PayloadRead(frame, r.envelope.messageId, r.nonce, r.client.maxReplyBytes, Carried(w, reply));
    }
    OutcomeRead(frame, messageId, nonce, reply, r.envelope.messageId, r.nonce);
  }

  /** The same for a whole frame whose unsigned content is known. */
  lemma AckFrameReadBack(w: World, r: Request, frame: Fields, messageId: string, nonce: string, reply: Reply)
    requires ReadAck(w.crypto, r, frame).Ok?
    requires CanonicalBytes(Unsigned(frame)) == CanonicalBytes(AckFor(w.server.kind, messageId, nonce, reply))
    ensures Take(messageId, 128) == r.envelope.messageId && Take(nonce, 128) == r.nonce
    ensures ReadAck(w.crypto, r, frame).value
         == Reply(reply.accepted, if r.client.kind == Rpc then Carried(w, reply) else [],
                  Take(reply.detail, MAX_DETAIL_CHARS))
  {
    ReadAckOutcome(w.crypto, r, frame);
    ValidatedMeans(w.crypto, frame, r.client.secret, "ack");
    CanonicalInjective(AckFor(w.server.kind, messageId, nonce, reply), Unsigned(frame));
    AckForFields(w.server.kind, messageId, nonce, reply);
    AckReadBack(w, r, frame, messageId, nonce, reply);
  }

  function ReportFrom(r: Request, reply: Reply): Report {
    Report(r.envelope.messageId, reply.accepted, true, reply.payload, reply.detail)
  }

  /** Whatever acknowledgement a client reads tells one of the signatures that the server made. */
  lemma AckTellsMint(w: World, s: State, r: Request, frame: Fields) returns (i: nat)
    requires GoodRequests(w, s.requests) && GoodMints(w, s) && r in s.requests
    requires Unforged(w.crypto, w.server, s.mints, frame, r.client.secret)
    requires ReadAck(w.crypto, r, frame).Ok?
    ensures var report := ReportFrom(r, ReadAck(w.crypto, r, frame).value);
            i < |s.mints| && (TellsVerdict(w, s.mints[i], r, report) || TellsRefusal(s.mints[i], r, report))
  {
    ReadAckOutcome(w.crypto, r, frame);
    i := AckMint(w, s, frame, r.client.secret);
    assert GoodMint(w, s, s.mints[i]);
    if s.mints[i].origin.Verdict? {
      VerdictWasOurs(w, s, r, frame, s.mints[i]);
    } else {
      RefusalCarriedOurIds(w, r, frame, s.mints[i]);
    }
  }

  lemma VerdictWasOurs(w: World, s: State, r: Request, frame: Fields, mint: Mint)
    requires GoodRequests(w, s.requests) && r in s.requests && r.client.secret in w.Secrets()
    requires GoodMint(w, s, mint) && mint.origin.Verdict? && mint.secret == r.client.secret
    requires MintedBytes(w.server, mint) == CanonicalBytes(Unsigned(frame)) && ReadAck(w.crypto, r, frame).Ok?
    ensures TellsVerdict(w, mint, r, ReportFrom(r, ReadAck(w.crypto, r, frame).value))
  {
    var Verdict(e, nonce, reply) := mint.origin;
    AckFrameReadBack(w, r, frame, e.messageId, nonce, reply);
    var q :| q in s.requests && q.client.secret == mint.secret && q.envelope == e && q.nonce == nonce;
    assert q == r;
  }

  lemma RefusalCarriedOurIds(w: World, r: Request, frame: Fields, mint: Mint)
    requires mint.origin.Refusal? && mint.secret == r.client.secret
    requires MintedBytes(w.server, mint) == CanonicalBytes(Unsigned(frame)) && ReadAck(w.crypto, r, frame).Ok?
    ensures TellsRefusal(mint, r, ReportFrom(r, ReadAck(w.crypto, r, frame).value))
  {
    var Refusal(refused, reason) := mint.origin;
    AckFrameReadBack(w, r, frame, ClaimedId(refused), ClaimedNonce(refused), RefusalReply(reason));
  }

  // ---------------------------------------------------------------- every step keeps the invariant

  /** More requests and a longer log take nothing away from what earlier signatures meant. */
  lemma MintStaysGood(w: World, s: State, t: State, mint: Mint)
    requires GoodMint(w, s, mint) && s.requests <= t.requests && s.log <= t.log
    ensures GoodMint(w, t, mint)
  {
    match mint.origin
    case Verdict(e, _, reply) => DecidedStays(w.server, s.log, t.log, e, reply);
    case _ =>
  }

  lemma DecidedStays(cfg: ServerConfig, log: seq<Event>, longer: seq<Event>, e: Envelope, reply: Reply)
    requires log <= longer && WasDecided(cfg, log, e, reply)
    ensures WasDecided(cfg, longer, e, reply)
  {
    var i :| 0 <= i < |log| && Decides(cfg, log[i], e, reply);
    assert longer[i] == log[i];
  }

  lemma ReportStaysGood(w: World, s: State, t: State, r: Request, report: Report)
    requires GoodReport(w, s, r, report) && s.mints <= t.mints
    ensures GoodReport(w, t, r, report)
  {
    if report.acknowledged {
      var i :| 0 <= i < |s.mints| && (TellsVerdict(w, s.mints[i], r, report) || TellsRefusal(s.mints[i], r, report));
      assert t.mints[i] == s.mints[i];
    }
  }

  /** A state that only gained requests, log entries and good mints or reports keeps the rest. */
  lemma OldPartsStay(w: World, s: State, t: State)
    requires GoodMints(w, s) && GoodReports(w, s) && s.requests <= t.requests && s.log <= t.log
    requires s.mints <= t.mints && s.reports <= t.reports
    ensures forall i | 0 <= i < |s.mints| :: GoodMint(w, t, t.mints[i])
    ensures forall i | 0 <= i < |s.reports| ::
              (t.reports[i].1.acknowledged ==> t.reports[i].0 in t.requests)
              && GoodReport(w, t, t.reports[i].0, t.reports[i].1)
  {
    forall i | 0 <= i < |s.mints| ensures GoodMint(w, t, t.mints[i]) {
      assert t.mints[i] == s.mints[i];
      MintStaysGood(w, s, t, s.mints[i]);
    }
    forall i | 0 <= i < |s.reports|
      ensures t.reports[i].1.acknowledged ==> t.reports[i].0 in t.requests
      ensures GoodReport(w, t, t.reports[i].0, t.reports[i].1)
    {
      assert t.reports[i] == s.reports[i];
      ReportStaysGood(w, s, t, s.reports[i].0, s.reports[i].1);
    }
  }

  lemma ClientSendKeeps(w: World, s: State, r: Request)
    requires Invariant(w, s) && Enabled(w, s, ClientSends(r))
    ensures Invariant(w, Step(w, s, ClientSends(r)))
  {
    var t := Step(w, s, ClientSends(r));
    OldPartsStay(w, s, t);
    AuthenticStays(w, s, t);
    RequestsGrow(w, s.requests, r);
    assert GoodMint(w, t, t.mints[|s.mints|]);
  }

  lemma AuthenticStays(w: World, s: State, t: State)
    requires AuthenticLog(w, s) && s.requests <= t.requests
    ensures forall i | 0 <= i < |s.log| :: Authentic(w, t.requests, s.log[i].envelope)
  {
    forall i | 0 <= i < |s.log| ensures Authentic(w, t.requests, s.log[i].envelope) {
      var e := s.log[i].envelope;
      assert Authentic(w, s.requests, e);
      var secret := w.server.peerSecrets[e.sourcePeerId];
      if secret in w.Secrets() {
        var r :| r in s.requests && r.client.secret == secret && r.envelope == e;
        assert r in t.requests;
      }
    }
  }

  /** A fresh event is authentic: its frame verified under its own source's secret. */
  lemma ServedIsAuthentic(w: World, s: State, a: Action)
    requires GoodRequests(w, s.requests) && GoodMints(w, s) && a.ServerReceives? && Enabled(w, s, a)
    ensures ServedBy(w, s, a).event.Some? ==> Authentic(w, s.requests, ServedBy(w, s, a).event.value.envelope)
  {
    if ServedBy(w, s, a).event.Some? {
      var (frame, secret) := SecretFor(w.server, Received(w, a.stream)).value;
      var validated := ValidateDelivery(w.crypto, frame, secret, w.server.Policy(), a.clock);
      ConcludeConsults(w.crypto, w.server, s.cache, frame, secret, validated, a.clock.expiryNowMs, a.answer);
      ValidDeliveryMeans(w.crypto, frame, secret, w.server.Policy(), a.clock);
      AuthenticDelivery(w, s, frame, SourcePeer(frame).value, validated.value.0, validated.value.1);
    }
  }

  lemma AuthenticDelivery(w: World, s: State, frame: Fields, peer: string, e: Envelope, nonce: string)
    requires GoodRequests(w, s.requests) && GoodMints(w, s)
    requires SourcePeer(frame) == Ok(peer) && peer in w.server.peerSecrets
    requires Unforged(w.crypto, w.server, s.mints, frame, w.server.peerSecrets[peer])
    requires ValidateSigned(w.crypto, frame, w.server.peerSecrets[peer], "delivery").Pass?
    requires CarriedEnvelope(frame) == Ok(e) && Get(frame, "nonce") == Some(Str(nonce))
    ensures Authentic(w, s.requests, e)
  {
    LookupMatchesSource(frame, peer, e);
    var secret := w.server.peerSecrets[peer];
    if secret in w.Secrets() {
      DeliveryWasRequested(w, s, frame, secret, e, nonce);
    }
  }

  lemma RequestsGrow(w: World, requests: set<Request>, r: Request)
    requires GoodRequests(w, requests)
    requires r.client in w.clients && r.envelope.Valid() && ValidNonce(r.nonce)
    requires forall q :: q in requests ==> q.nonce != r.nonce
    ensures GoodRequests(w, requests + {r})
  {
  }

  lemma ReportKeeps(w: World, s: State, r: Request, report: Report)
    requires Invariant(w, s) && (report.acknowledged ==> r in s.requests) && GoodReport(w, s, r, report)
    ensures Invariant(w, s.(reports := s.reports + [(r, report)]))
  {
    OldPartsStay(w, s, s.(reports := s.reports + [(r, report)]));
  }

  lemma ClientDeclineKeeps(w: World, s: State, r: Request)
    requires Invariant(w, s) && Enabled(w, s, ClientDeclines(r))
    ensures Invariant(w, Step(w, s, ClientDeclines(r)))
  {
    BeginsExactly(w.crypto, r);
    ReportKeeps(w, s, r, Begin(w.crypto, r).value.report);
  }

  lemma ClientReceiveKeeps(w: World, s: State, r: Request, stream: Bytes)
    requires Invariant(w, s) && Enabled(w, s, ClientReceives(r, stream))
    ensures Invariant(w, Step(w, s, ClientReceives(r, stream)))
  {
    var report := Finish(w.crypto, r, stream);
    if report.acknowledged {
      var frame := ReadFrame(stream, r.client.maxFrameBytes).value;
      var i := AckTellsMint(w, s, r, frame);
      assert report == ReportFrom(r, ReadAck(w.crypto, r, frame).value);
    }
    ReportKeeps(w, s, r, report);
  }

  lemma VerdictIsGood(w: World, s: State, t: State, frame: Fields, secret: Bytes, clock: Clock, e: Envelope, nonce: string)
    requires GoodRequests(w, s.requests) && GoodMints(w, s) && s.requests <= t.requests && t.log != []
    requires Chronicle(w.server, t.log) && LogInTime(t) && t.log[|t.log| - 1].envelope == e
    requires Unforged(w.crypto, w.server, s.mints, frame, secret)
    requires ValidateDelivery(w.crypto, frame, secret, w.server.Policy(), clock) == Ok((e, nonce))
    ensures var reported := t.log[|t.log| - 1].Reported(w.server);
            reported.Ok? ==> GoodMint(w, t, Mint(secret, Verdict(e, nonce, reported.value)))
  {
    ValidatedWasRequested(w, s, frame, secret, clock, e, nonce);
    LastEventDecides(w.server, t.log);
    ReportedIsValid(w.server, t, |t.log| - 1);
  }

  lemma ValidatedWasRequested(w: World, s: State, frame: Fields, secret: Bytes, clock: Clock, e: Envelope, nonce: string)
    requires GoodRequests(w, s.requests) && GoodMints(w, s)
    requires Unforged(w.crypto, w.server, s.mints, frame, secret)
    requires ValidateDelivery(w.crypto, frame, secret, w.server.Policy(), clock) == Ok((e, nonce))
    ensures |e.messageId| <= 128 && |nonce| <= 128
    ensures secret in w.Secrets() ==> WasRequested(s.requests, secret, e, nonce)
  {
    ValidDeliveryMeans(w.crypto, frame, secret, w.server.Policy(), clock);
    if secret in w.Secrets() {
      DeliveryWasRequested(w, s, frame, secret, e, nonce);
    }
  }

  /** The last event decides, or its receiver call failed. */
  lemma LastEventDecides(cfg: ServerConfig, log: seq<Event>)
    requires Chronicle(cfg, log) && log != []
    ensures var last := log[|log| - 1];
            if last.Failed? then last.Reported(cfg).Err?
            else last.Reported(cfg).Ok? && WasDecided(cfg, log, last.envelope, last.Reported(cfg).value)
  {
    var j := |log| - 1;
    assert Admits(cfg, log[..j], log[j]);
    assert !log[j].Failed? ==> Decides(cfg, log[j], log[j].envelope, log[j].Reported(cfg).value);
  }

  lemma ReportedIsValid(cfg: ServerConfig, s: State, j: nat)
    requires Chronicle(cfg, s.log) && LogInTime(s) && j < |s.log|
    ensures s.log[j].Reported(cfg).Ok? ==> s.log[j].Reported(cfg).value.Valid()
  {
    assert Admits(cfg, s.log[..j], s.log[j]);
    if s.log[j].Replayed? {
      var i := ReplayedWasCompleted(cfg, s.log, j);
    }
  }

  /** What the server signs in an exchange is good in the state after it. */
  lemma ExchangeMintsGood(w: World, s: State, t: State, frame: Fields, secret: Bytes, clock: Clock, served: Served)
    requires GoodRequests(w, s.requests) && GoodMints(w, s) && s.requests <= t.requests
    requires Unforged(w.crypto, w.server, s.mints, frame, secret)
    requires SecretFor(w.server, Ok(frame)) == Some((frame, secret))
    requires t.log == s.log + Events(served) && Chronicle(w.server, t.log) && LogInTime(t)
    requires var validated := ValidateDelivery(w.crypto, frame, secret, w.server.Policy(), clock);
             validated.Ok? ==> served.event.Some? && served.event.value.envelope == validated.value.0
    ensures var validated := ValidateDelivery(w.crypto, frame, secret, w.server.Policy(), clock);
            forall mint <- MintsFor(w.server, frame, secret, validated, served.event) :: GoodMint(w, t, mint)
  {
    var validated := ValidateDelivery(w.crypto, frame, secret, w.server.Policy(), clock);
    if validated.Ok? {
      var (e, nonce) := validated.value;
      assert t.log[|t.log| - 1] == served.event.value;
      VerdictIsGood(w, s, t, frame, secret, clock, e, nonce);
    }
    MintsForCases(w, t, frame, secret, validated, served.event);
  }

  lemma MintsForCases(w: World, t: State, frame: Fields, secret: Bytes, validated: Result<(Envelope, string)>,
                      event: Option<Event>)
    requires SecretFor(w.server, Ok(frame)) == Some((frame, secret)) && (validated.Ok? ==> event.Some?)
    requires validated.Ok? && event.value.Reported(w.server).Ok? ==>
               GoodMint(w, t, Mint(secret, Verdict(validated.value.0, validated.value.1,
                                                   event.value.Reported(w.server).value)))
    ensures forall mint <- MintsFor(w.server, frame, secret, validated, event) :: GoodMint(w, t, mint)
  {
  }

  lemma ServerReceiveKeeps(w: World, s: State, a: Action)
    requires Sound(w) && Invariant(w, s) && a.ServerReceives? && Enabled(w, s, a)
    ensures Invariant(w, Step(w, s, a))
  {
    var t, received, served := Step(w, s, a), Received(w, a.stream), ServedBy(w, s, a);
    ServeRefines(w.crypto, w.server, s.cache, s.log, received, a.clock, a.answer);
    ServeConsults(w.crypto, w.server, s.cache, received, a.clock, a.answer);
    LogGrowsInTime(w, s, t, served, a.answer);
    ServerMintsGood(w, s, a, t);
    ServedIsAuthentic(w, s, a);
    ExtendedStateGood(w, s, t, Events(served), ServerMints(w, s, a));
  }

  lemma ExtendedStateGood(w: World, s: State, t: State, events: seq<Event>, mints: seq<Mint>)
    requires GoodMints(w, s) && GoodReports(w, s) && AuthenticLog(w, s)
    requires t.requests == s.requests && t.reports == s.reports
    requires t.log == s.log + events && t.mints == s.mints + mints
    requires forall event <- events :: Authentic(w, s.requests, event.envelope)
    requires forall mint <- mints :: GoodMint(w, t, mint)
    ensures GoodMints(w, t) && GoodReports(w, t) && AuthenticLog(w, t)
  {
    OldPartsStay(w, s, t);
    forall i | 0 <= i < |t.mints| ensures GoodMint(w, t, t.mints[i]) {
      assert i >= |s.mints| ==> t.mints[i] == mints[i - |s.mints|];
    }
    forall i | 0 <= i < |t.log| ensures Authentic(w, t.requests, t.log[i].envelope) {
      assert t.log[i] == if i < |s.log| then s.log[i] else events[i - |s.log|];
    }
  }

  lemma ServerMintsGood(w: World, s: State, a: Action, t: State)
    requires GoodRequests(w, s.requests) && GoodMints(w, s) && a.ServerReceives? && Enabled(w, s, a)
    requires t.log == s.log + Events(ServedBy(w, s, a)) && t.requests == s.requests
    requires Chronicle(w.server, t.log) && LogInTime(t)
    ensures forall mint <- ServerMints(w, s, a) :: GoodMint(w, t, mint)
  {
    var authenticated := SecretFor(w.server, Received(w, a.stream));
    if authenticated.Some? {
      var (frame, secret) := authenticated.value;
      var validated := ValidateDelivery(w.crypto, frame, secret, w.server.Policy(), a.clock);
      ConcludeConsults(w.crypto, w.server, s.cache, frame, secret, validated, a.clock.expiryNowMs, a.answer);
      ExchangeMintsGood(w, s, t, frame, secret, a.clock, ServedBy(w, s, a));
    }
  }

  lemma LogGrowsInTime(w: World, s: State, t: State, served: Served, answer: Answer)
    requires LogInTime(s) && s.nowMs <= t.nowMs && t.log == s.log + Events(served)
    requires answer.ReturnsReply? ==> answer.reply.Valid()
    requires served.event.Some? ==>
               Consult(w.crypto, w.server, s.cache, served.event.value.envelope, t.nowMs, answer).event
               == served.event.value
    ensures LogInTime(t)
  {
    if served.event.Some? {
      ConsultedReply(w.crypto, w.server, s.cache, served.event.value.envelope, t.nowMs, answer);
    }
  }

  /** A fresh completed event carries a bounded detail and the time of the exchange. */
  lemma ConsultedReply(c: Crypto, cfg: ServerConfig, cache: Cache, e: Envelope, at: int, answer: Answer)
    requires answer.ReturnsReply? ==> answer.reply.Valid()
    ensures var event := Consult(c, cfg, cache, e, at, answer).event;
            event.at == at && (event.Completed? ==> event.reply.Valid())
  {
  }

  lemma StepKeeps(w: World, s: State, a: Action)
    requires Sound(w) && Invariant(w, s) && Enabled(w, s, a)
    ensures Invariant(w, Step(w, s, a))
  {
    match a
    case ClientSends(r) => ClientSendKeeps(w, s, r);
    case ClientDeclines(r) => ClientDeclineKeeps(w, s, r);
    case ServerReceives(_, _, _) => ServerReceiveKeeps(w, s, a);
    case ClientReceives(r, stream) => ClientReceiveKeeps(w, s, r, stream);
    case ClientTimesOut(r, detail) => ReportKeeps(w, s, r, Failure(r, detail));
    case ForeignerSigns(secret, message) => OldPartsStay(w, s, Step(w, s, a));
  }

  /** The invariant holds after every legal run. */
  lemma {:induction false} RunKeeps(w: World, actions: seq<Action>)
    requires Sound(w) && Legal(w, actions)
    ensures Invariant(w, After(w, actions))
  {
    if actions != [] {
      var before := actions[..|actions| - 1];
      RunKeeps(w, before);
      StepKeeps(w, After(w, before), actions[|actions| - 1]);
    }
  }

  // ---------------------------------------------------------------- main results

  /**
   A report of acceptance, in any run, means that the server's receiver was called with exactly the
   reported envelope and accepted it; the reply bytes and the detail are the ones it gave.
   */
  lemma AcceptedMeansReceived(w: World, actions: seq<Action>, n: nat) returns (i: nat)
    requires Sound(w) && Legal(w, actions) && n < |After(w, actions).reports|
    requires After(w, actions).reports[n].1.accepted
    ensures i < |After(w, actions).log|
    ensures var (r, report) := After(w, actions).reports[n];
            BackedBy(w.server, r, report, After(w, actions).log[i])
  {
    RunKeeps(w, actions);
    var s := After(w, actions);
    assert GoodReport(w, s, s.reports[n].0, s.reports[n].1);
    i := BackedReport(w, s, s.reports[n].0, s.reports[n].1);
  }

  /** A report without an acknowledgement, of a send that ended before it began included, tells of failure only. */
  lemma UnacknowledgedMeans(w: World, actions: seq<Action>, n: nat)
    requires Sound(w) && Legal(w, actions) && n < |After(w, actions).reports|
    requires !After(w, actions).reports[n].1.acknowledged
    ensures var (r, report) := After(w, actions).reports[n];
            report == Report(r.envelope.messageId, false, false, [], report.detail)
  {
    RunKeeps(w, actions);
    var s := After(w, actions);
    assert GoodReport(w, s, s.reports[n].0, s.reports[n].1);
  }

  /** The receiver returned true, or an accepting reply within the bound. */
  ghost predicate AcceptingAnswer(cfg: ServerConfig, answer: Answer, reply: Reply) {
    match cfg.kind
    case Plain =>
      (answer == ReturnsBool(true) || answer.ReturnsReply?) && reply == Reply(true, [], "accepted by local receiver")
    case Rpc => answer == ReturnsReply(reply) && reply.accepted && |reply.payload| <= cfg.maxReplyBytes
  }

  /** The event that a report of acceptance speaks of. */
  ghost predicate BackedBy(cfg: ServerConfig, r: Request, report: Report, event: Event) {
    && event.Completed? && event.envelope == r.envelope
    && AcceptingAnswer(cfg, event.answer, event.reply)
    && report.acknowledged && report.messageId == r.envelope.messageId
    && report.detail == event.reply.detail
    && (r.client.kind == Rpc ==> report.payload == event.reply.payload)
  }

  lemma AcceptingOutcome(cfg: ServerConfig, answer: Answer, reply: Reply)
    ensures AcceptingAnswer(cfg, answer, reply) <==> CompletesWith(cfg, answer, reply) && reply.accepted
  {
  }

  /** An accepting verdict goes back to a completed call of the receiver, its own or the one it replays. */
  lemma AcceptingVerdict(cfg: ServerConfig, log: seq<Event>, e: Envelope, reply: Reply) returns (i: nat)
    requires Chronicle(cfg, log) && WasDecided(cfg, log, e, reply) && reply.accepted
    ensures i < |log| && log[i].Completed? && log[i].envelope == e && log[i].reply == reply
    ensures AcceptingAnswer(cfg, log[i].answer, reply)
  {
    i :| 0 <= i < |log| && Decides(cfg, log[i], e, reply);
    if log[i].Replayed? {
      i := ReplayedWasCompleted(cfg, log, i);
    }
    CompletedOutcome(cfg, log, i);
    AcceptingOutcome(cfg, log[i].answer, reply);
  }

  lemma BackedReport(w: World, s: State, r: Request, report: Report) returns (i: nat)
    requires GoodReport(w, s, r, report) && GoodMints(w, s) && report.accepted && Chronicle(w.server, s.log)
    ensures i < |s.log| && BackedBy(w.server, r, report, s.log[i])
  {
    var j :| 0 <= j < |s.mints| && TellsVerdict(w, s.mints[j], r, report);
    assert GoodMint(w, s, s.mints[j]);
    i := AcceptingVerdict(w.server, s.log, r.envelope, s.mints[j].origin.reply);
  }

  // ---------------------------------------------------------------- where an acknowledgement comes from

  /** The server signed this in the action at position `k`. */
  ghost predicate SignedAt(w: World, actions: seq<Action>, k: nat, mint: Mint) {
    && k < |actions| && actions[k].ServerReceives?
    && mint in ServerMints(w, After(w, actions[..k]), actions[k])
  }

  lemma {:induction false} ServerSignedAt(w: World, actions: seq<Action>, i: nat) returns (k: nat)
    requires i < |After(w, actions).mints|
    requires After(w, actions).mints[i].origin.Verdict? || After(w, actions).mints[i].origin.Refusal?
    ensures SignedAt(w, actions, k, After(w, actions).mints[i])
  {
    var last := |actions| - 1;
    var before, a := actions[..last], actions[last];
    var s := After(w, before);
    assert After(w, actions) == Step(w, s, a);
    if i < |s.mints| {
      OldMintStays(w, s, a, i);
      k := ServerSignedAt(w, before, i);
      assert before[..k] == actions[..k];
    } else {
      k := last;
      FreshMintIsServers(w, s, a, i);
    }
  }

  lemma OldMintStays(w: World, s: State, a: Action, i: nat)
    requires i < |s.mints|
    ensures i < |Step(w, s, a).mints| && Step(w, s, a).mints[i] == s.mints[i]
  {
  }

  lemma FreshMintIsServers(w: World, s: State, a: Action, i: nat)
    requires |s.mints| <= i < |Step(w, s, a).mints|
    requires Step(w, s, a).mints[i].origin.Verdict? || Step(w, s, a).mints[i].origin.Refusal?
    ensures a.ServerReceives? && Step(w, s, a).mints[i] in ServerMints(w, s, a)
  {
  }

  /** In this action the server read a frame that names a peer with this secret. */
  ghost predicate ReadsFor(w: World, a: Action, secret: Bytes) {
    && a.ServerReceives? && Received(w, a.stream).Ok?
    && SecretFor(w.server, Received(w, a.stream)) == Some((Received(w, a.stream).value, secret))
  }

  function ValidatedIn(w: World, a: Action, secret: Bytes): Result<(Envelope, string)>
    requires a.ServerReceives? && Received(w, a.stream).Ok?
  {
    ValidateDelivery(w.crypto, Received(w, a.stream).value, secret, w.server.Policy(), a.clock)
  }

  /**
   The action at position `k` decided the request: the frame it read validated, by its own clock, to exactly
   the client's envelope and nonce, and its event, not a failed call, has the outcome that the report tells.
   */
  ghost predicate DecidedAt(w: World, actions: seq<Action>, k: nat, r: Request, report: Report) {
    && k < |actions| && ReadsFor(w, actions[k], r.client.secret)
    && ValidatedIn(w, actions[k], r.client.secret) == Ok((r.envelope, r.nonce))
    && var event := ServedBy(w, After(w, actions[..k]), actions[k]).event;
       && event.Some? && !event.value.Failed? && event.value.envelope == r.envelope
       && event.value.Reported(w.server).Ok? && Tells(w, r, report, event.value.Reported(w.server).value)
  }

  /** Why an action refuses the frame it reads: it does not validate by the action's own clock, or its call fails. */
  ghost function RefusalIn(w: World, s: State, a: Action, secret: Bytes): Option<string>
    requires a.ServerReceives? && Received(w, a.stream).Ok?
  {
    match ValidatedIn(w, a, secret)
    case Err(reason) => Some(reason)
    case Ok(_) =>
      match ServedBy(w, s, a).event
      case Some(Failed(_, answer, _)) => if CallFails(w.server, answer) then Some(FailureReason(answer)) else None
      case _ => None
  }

  /**
   The action at position `k` refused the frame it read, which carried the ids of the request but need not be
   the client's, and signed that refusal; the report tells its reason.
   */
  ghost predicate RefusedAt(w: World, actions: seq<Action>, k: nat, r: Request, report: Report) {
    && k < |actions| && ReadsFor(w, actions[k], r.client.secret)
    && var frame := Received(w, actions[k].stream).value;
       var s := After(w, actions[..k]);
       var refusal := RefusalIn(w, s, actions[k], r.client.secret);
       && CarriesIds(frame, r) && refusal.Some?
       && Mint(r.client.secret, Refusal(frame, refusal.value)) in ServerMints(w, s, actions[k])
       && !report.accepted && report.payload == [] && report.detail == Take(refusal.value, MAX_DETAIL_CHARS)
  }

  /** What a signature of the server says about the action in which it was made. */
  lemma ServerMintMeans(w: World, s: State, a: Action, mint: Mint)
    requires a.ServerReceives? && mint in ServerMints(w, s, a)
    ensures ReadsFor(w, a, mint.secret)
    ensures match mint.origin
            case Verdict(e, nonce, reply) =>
              && ValidatedIn(w, a, mint.secret) == Ok((e, nonce))
              && ServedBy(w, s, a).event.Some? && !ServedBy(w, s, a).event.value.Failed?
              && ServedBy(w, s, a).event.value.envelope == e
              && ServedBy(w, s, a).event.value.Reported(w.server) == Ok(reply)
            case Refusal(frame, reason) =>
              Received(w, a.stream) == Ok(frame) && RefusalIn(w, s, a, mint.secret) == Some(reason)
            case _ => false
  {
    var (frame, secret) := SecretFor(w.server, Received(w, a.stream)).value;
    var validated := ValidateDelivery(w.crypto, frame, secret, w.server.Policy(), a.clock);
    ConcludeConsults(w.crypto, w.server, s.cache, frame, secret, validated, a.clock.expiryNowMs, a.answer);
    if validated.Ok? {
      ConsultedOutcome(w.crypto, w.server, s.cache, validated.value.0, a.clock.expiryNowMs, a.answer);
    }
    MintsForMeans(w.server, frame, secret, validated, ServedBy(w, s, a).event, mint);
  }

  lemma MintsForMeans(cfg: ServerConfig, frame: Fields, secret: Bytes, validated: Result<(Envelope, string)>,
                      event: Option<Event>, mint: Mint)
    requires mint in MintsFor(cfg, frame, secret, validated, event)
    requires event.Some? && event.value.Failed? ==>
               CallFails(cfg, event.value.answer) && event.value.Reported(cfg) == Err(FailureReason(event.value.answer))
    requires event.Some? && !event.value.Failed? ==> event.value.Reported(cfg).Ok?
    ensures mint.secret == secret
    ensures match mint.origin
            case Verdict(e, nonce, reply) =>
              validated == Ok((e, nonce)) && event.Some? && !event.value.Failed? && event.value.Reported(cfg) == Ok(reply)
            case Refusal(refused, reason) =>
              && refused == frame
              && (validated == Err(reason)
                  || (validated.Ok? && event.Some? && event.value.Failed? && event.value.Reported(cfg) == Err(reason)))
            case _ => false
  {
  }

  /** A consultation fails exactly if it has an outcome to report. */
  lemma ConsultedOutcome(c: Crypto, cfg: ServerConfig, cache: Cache, e: Envelope, at: int, answer: Answer)
    ensures var event := Consult(c, cfg, cache, e, at, answer).event;
            if event.Failed? then CallFails(cfg, event.answer) && event.Reported(cfg) == Err(FailureReason(event.answer))
            else event.Reported(cfg).Ok?
  {
    OutcomeByAnswer(cfg, answer);
  }

  lemma TellsMintAt(w: World, actions: seq<Action>, k: nat, mint: Mint, r: Request, report: Report)
    requires SignedAt(w, actions, k, mint)
    requires TellsVerdict(w, mint, r, report) || TellsRefusal(mint, r, report)
    ensures DecidedAt(w, actions, k, r, report) || RefusedAt(w, actions, k, r, report)
  {
    ServerMintMeans(w, After(w, actions[..k]), actions[k], mint);
  }

  /**
   Any acknowledgement that a client may read in any run was signed in an earlier action of the server, which
   decided exactly the client's request or refused a frame that carried its ids.
   */
  lemma AckWasVerdictOrRefusal(w: World, actions: seq<Action>, r: Request, stream: Bytes) returns (k: nat)
    requires Sound(w) && Legal(w, actions) && Enabled(w, After(w, actions), ClientReceives(r, stream))
    requires Finish(w.crypto, r, stream).acknowledged
    ensures var report := Finish(w.crypto, r, stream);
            DecidedAt(w, actions, k, r, report) || RefusedAt(w, actions, k, r, report)
  {
    var s, frame := After(w, actions), ReadFrame(stream, r.client.maxFrameBytes).value;
    RunKeeps(w, actions);
    var i := AckTellsMint(w, s, r, frame);
    assert Finish(w.crypto, r, stream) == ReportFrom(r, ReadAck(w.crypto, r, frame).value);
    k := ServerSignedAt(w, actions, i);
    TellsMintAt(w, actions, k, s.mints[i], r, Finish(w.crypto, r, stream));
  }

  /** A report was made by a client's action at some position. */
  ghost predicate ReportedAt(w: World, actions: seq<Action>, m: nat, r: Request, report: Report) {
    m < |actions|
    && match actions[m]
       case ClientDeclines(q) => q == r && Begin(w.crypto, r) == Ok(Reported(report))
       case ClientReceives(q, stream) => q == r && report == Finish(w.crypto, r, stream)
       case ClientTimesOut(q, detail) => q == r && report == Failure(r, detail)
       case _ => false
  }

  lemma OldReportStays(w: World, s: State, a: Action, n: nat)
    requires n < |s.reports|
    ensures n < |Step(w, s, a).reports| && Step(w, s, a).reports[n] == s.reports[n]
  {
  }

  lemma FreshReportIsClients(w: World, s: State, actions: seq<Action>, m: nat, n: nat)
    requires m < |actions| && |s.reports| <= n < |Step(w, s, actions[m]).reports|
    ensures var (r, report) := Step(w, s, actions[m]).reports[n]; ReportedAt(w, actions, m, r, report)
  {
    match actions[m]
    case ClientDeclines(_) =>
    case ClientReceives(_, _) =>
    case ClientTimesOut(_, _) =>
    case _ =>
  }

  /**
   Every acknowledged report, in any run, was made on an acknowledgement that the server had signed in an
   earlier action: one that decided exactly the client's request, or one that refused a frame with its ids.
   */
  lemma {:induction false} AcknowledgedMeans(w: World, actions: seq<Action>, n: nat) returns (k: nat, m: nat)
    requires Sound(w) && Legal(w, actions) && n < |After(w, actions).reports|
    requires After(w, actions).reports[n].1.acknowledged
    ensures k < m
    ensures var (r, report) := After(w, actions).reports[n]; ToldAt(w, actions, k, m, r, report)
  {
    var last := |actions| - 1;
    var before := actions[..last];
    if n < |After(w, before).reports| {
      OldReportStays(w, After(w, before), actions[last], n);
      k, m := AcknowledgedMeans(w, before, n);
      var (r, report) := After(w, before).reports[n];
      ToldEarlier(w, actions, last, k, m, r, report);
    } else {
      FreshReportIsClients(w, After(w, before), actions, last, n);
      k, m := LastIsTold(w, actions, n);
    }
  }

  /** The report was made at position `m` on what the server signed at position `k`. */
  ghost predicate ToldAt(w: World, actions: seq<Action>, k: nat, m: nat, r: Request, report: Report) {
    && ReportedAt(w, actions, m, r, report)
    && (DecidedAt(w, actions, k, r, report) || RefusedAt(w, actions, k, r, report))
  }

  lemma LastIsTold(w: World, actions: seq<Action>, n: nat) returns (k: nat, m: nat)
    requires Sound(w) && actions != [] && Legal(w, actions) && n < |After(w, actions).reports|
    requires var (r, report) := After(w, actions).reports[n];
             report.acknowledged && ReportedAt(w, actions, |actions| - 1, r, report)
    ensures k < m
    ensures var (r, report) := After(w, actions).reports[n]; ToldAt(w, actions, k, m, r, report)
  {
    m := |actions| - 1;
    var (r, report) := After(w, actions).reports[n];
    OnlyReceiptAcknowledges(w, actions, m, r, report);
    k := AckWasVerdictOrRefusal(w, actions[..m], r, actions[m].stream);
    AtPrefix(w, actions, m, k, r, report);
  }

  lemma OnlyReceiptAcknowledges(w: World, actions: seq<Action>, m: nat, r: Request, report: Report)
    requires ReportedAt(w, actions, m, r, report) && report.acknowledged
    ensures actions[m].ClientReceives?
  {
    if Begin(w.crypto, r).Ok? {
      BeginsExactly(w.crypto, r);
    }
  }

  lemma ToldEarlier(w: World, actions: seq<Action>, m: nat, k: nat, j: nat, r: Request, report: Report)
    requires m <= |actions| && k < j && ToldAt(w, actions[..m], k, j, r, report)
    ensures ToldAt(w, actions, k, j, r, report)
  {
    AtPrefix(w, actions, m, k, r, report);
  }

  lemma AtPrefix(w: World, actions: seq<Action>, m: nat, k: nat, r: Request, report: Report)
    requires m <= |actions| && k < m
    ensures DecidedAt(w, actions[..m], k, r, report) ==> DecidedAt(w, actions, k, r, report)
    ensures RefusedAt(w, actions[..m], k, r, report) ==> RefusedAt(w, actions, k, r, report)
  {
    assert actions[..m][..k] == actions[..k];
  }

  /**
   An acknowledged rejection, in any run, means one of two things: an earlier action of the server decided
   exactly the client's request and did not accept it, or it refused the frame it read, not necessarily the
   client's, which named a peer with the client's secret and carried the request's ids.
   */
  lemma RejectionMeans(w: World, actions: seq<Action>, n: nat) returns (k: nat, m: nat)
    requires Sound(w) && Legal(w, actions) && n < |After(w, actions).reports|
    requires After(w, actions).reports[n].1.acknowledged && !After(w, actions).reports[n].1.accepted
    ensures var (r, report) := After(w, actions).reports[n];
            && k < m && ReportedAt(w, actions, m, r, report)
            && (|| (&& DecidedAt(w, actions, k, r, report)
                    && !ServedBy(w, After(w, actions[..k]), actions[k]).event.value.Reported(w.server).value.accepted)
                || RefusedAt(w, actions, k, r, report))
  {
    k, m := AcknowledgedMeans(w, actions, n);
  }

  /** Every run's log is one that the history specification admits, in the order of the clock. */
  lemma RunIsChronicle(w: World, actions: seq<Action>)
    requires Sound(w) && Legal(w, actions)
    ensures Chronicle(w.server, After(w, actions).log) && ClockRuns(After(w, actions).log)
  {
    RunKeeps(w, actions);
  }

  /** At most once over a whole run, as long as too few other ids displace the first outcome. */
  lemma RunDeliversAtMostOnce(w: World, actions: seq<Action>, i: nat, j: nat)
    requires Sound(w) && Legal(w, actions)
    requires var log := After(w, actions).log;
             && i < j < |log| && log[i].Completed?
             && var e := log[i].envelope;
                |TouchedBefore(log, i + 1, e.ExpiresAtMs()) - {e.messageId}| < w.server.replayCapacity
    ensures var log := After(w, actions).log;
            log[j].envelope == log[i].envelope ==> !log[j].CallsReceiver()
  {
    RunIsChronicle(w, actions);
    AtMostOnce(w.server, After(w, actions).log, i, j);
  }

  /**
   The receiver only ever sees envelopes signed with their own source's secret; if only honest
   clients hold that secret, one of them asked for exactly that envelope.
   */
  lemma CallsAreAuthentic(w: World, actions: seq<Action>, i: nat)
    requires Sound(w) && Legal(w, actions) && i < |After(w, actions).log|
    ensures Authentic(w, After(w, actions).requests, After(w, actions).log[i].envelope)
  {
    RunKeeps(w, actions);
  }
}
