/**
 What a run can always do next: from any reachable state, an exchange that nobody disturbs is a legal
 continuation, and the client's report of it is the reply to the server's own decision.
 */
module Progress {
  import opened Contracts
  import opened Json
  import opened Framing
  import opened LocalIp
  import opened Wire
  import opened Delivery
  import opened Protocol
  import opened Interop

  // ---------------------------------------------------------------- longer runs

  ghost predicate Reaches(w: World, actions: seq<Action>, s: State) {
    Legal(w, actions) && After(w, actions) == s
  }

  lemma Continues(w: World, actions: seq<Action>, s: State, a: Action)
    requires Reaches(w, actions, s) && Enabled(w, s, a)
    ensures Reaches(w, actions + [a], Step(w, s, a))
  {
    assert (actions + [a])[..|actions|] == actions;
  }

  lemma ContinuesTwice(w: World, actions: seq<Action>, s: State, a: Action, t: State, b: Action)
    requires Reaches(w, actions, s) && Enabled(w, s, a) && Step(w, s, a) == t && Enabled(w, t, b)
    ensures Reaches(w, actions + [a, b], Step(w, t, b))
  {
    Continues(w, actions, s, a);
    Continues(w, actions + [a], t, b);
    assert actions + [a] + [b] == actions + [a, b];
  }

  lemma JustSigned(cfg: ServerConfig, mints: seq<Mint>, mint: Mint)
    ensures WasSigned(cfg, mints + [mint], mint.secret, MintedBytes(cfg, mint))
  {
    assert (mints + [mint])[|mints|] == mint;
  }

  // ---------------------------------------------------------------- the request arrives

  function Arrives(w: World, r: Request, clock: Clock, answer: Answer): Action
    requires Begin(w.crypto, r).Ok? && Begin(w.crypto, r).value.Attempted?
  {
    ServerReceives(Begin(w.crypto, r).value.stream, clock, answer)
  }

  /** The clock has not gone back, and the receiver's reply is one that could be constructed. */
  ghost predicate Timely(s: State, clock: Clock, answer: Answer) {
    s.nowMs <= clock.skewNowMs <= clock.expiryNowMs && (answer.ReturnsReply? ==> answer.reply.Valid())
  }

  lemma RequestIsUnforged(w: World, mints: seq<Mint>, r: Request)
    ensures Unforged(w.crypto, w.server, mints + [Mint(r.client.secret, ByClient(r))],
                     RequestFrame(w.crypto, r), r.client.secret)
  {
    DeliveryFields(r.envelope, r.nonce, r.sentAtMs);
    UnsignedSigned(w.crypto, DeliveryUnsigned(r.envelope, r.nonce, r.sentAtMs), r.client.secret);
    JustSigned(w.server, mints, Mint(r.client.secret, ByClient(r)));
  }

  /** The request just put on the wire may arrive. */
  lemma RequestMayArrive(w: World, s: State, r: Request, clock: Clock, answer: Answer)
    requires TagsAreHex(w.crypto) && Addressed(w, r) && Timely(s, clock, answer)
    ensures Enabled(w, Step(w, s, ClientSends(r)), Arrives(w, r, clock, answer))
  {
    RequestIsRead(w, r);
    RequestIsAddressed(w, r);
    RequestIsUnforged(w, s.mints, r);
  }

  /** The record of the acknowledgement of a decision. */
  function MintOf(w: World, r: Request, decision: Result<Reply>): Mint {
    Mint(r.client.secret,
         match decision
         case Ok(reply) => Verdict(r.envelope, r.nonce, reply)
         case Err(reason) => Refusal(RequestFrame(w.crypto, r), reason))
  }

  lemma MintOfIsAck(w: World, r: Request, decision: Result<Reply>)
    requires TagsAreHex(w.crypto) && r.envelope.Valid()
    ensures MintedBytes(w.server, MintOf(w, r, decision)) == CanonicalBytes(AckOf(w, r, ReplyTo(decision)).unsigned)
  {
    if decision.Err? {
      RefusalIsAddressed(w, r, decision.reason);
    }
  }

  lemma ArrivalIsSigned(w: World, s: State, r: Request, clock: Clock, answer: Answer)
    requires TagsAreHex(w.crypto) && Addressed(w, r)
    ensures ServerMints(w, s, Arrives(w, r, clock, answer))
         == [MintOf(w, r, Decision(w, s.cache, r, clock, answer))]
  {
    RequestIsRead(w, r);
    RequestIsAddressed(w, r);
    ValidatesInTime(w, r, clock);
    RequestIsAnswered(w, s.cache, r, clock, answer);
  }

  // ---------------------------------------------------------------- the acknowledgement is read

  /** The acknowledgement just signed may be read by the client, or found missing. */
  lemma AckMayBeRead(w: World, s: State, r: Request, mints: seq<Mint>, mint: Mint, reply: Reply)
    requires r in s.requests && s.mints == mints + [mint] && mint.secret == r.client.secret
    requires MintedBytes(w.server, mint) == CanonicalBytes(AckOf(w, r, reply).unsigned)
    ensures Enabled(w, s, ClientReceives(r, Returned(w, r, reply)))
  {
    ReturnedIsReceived(w, r, reply);
    AckForIsUnsigned(w.server.kind, r.envelope.messageId, r.nonce, reply);
    UnsignedSigned(w.crypto, AckOf(w, r, reply).unsigned, r.client.secret);
    JustSigned(w.server, mints, mint);
  }

  // ---------------------------------------------------------------- the whole exchange

  function Reads(w: World, s: State, r: Request, clock: Clock, answer: Answer): Action {
    ClientReceives(r, Returned(w, r, Answered(w, s.cache, r, clock, answer)))
  }

  function Outcomes(w: World, s: State, r: Request, clock: Clock, answer: Answer): Report {
    Finish(w.crypto, r, Returned(w, r, Answered(w, s.cache, r, clock, answer)))
  }

  /** The states after the request has been sent, has arrived, and has been answered. */
  function Sent(w: World, s: State, r: Request): State {
    Step(w, s, ClientSends(r))
  }

  function Arrived(w: World, s: State, r: Request, clock: Clock, answer: Answer): State
    requires Begin(w.crypto, r).Ok? && Begin(w.crypto, r).value.Attempted?
  {
    Step(w, Sent(w, s, r), Arrives(w, r, clock, answer))
  }

  function Exchanged(w: World, s: State, r: Request, clock: Clock, answer: Answer): State
    requires Begin(w.crypto, r).Ok? && Begin(w.crypto, r).value.Attempted?
  {
    Step(w, Arrived(w, s, r, clock, answer), Reads(w, s, r, clock, answer))
  }

  lemma ArrivedParts(w: World, s: State, r: Request, clock: Clock, answer: Answer)
    requires TagsAreHex(w.crypto) && Addressed(w, r)
    ensures var t, served := Arrived(w, s, r, clock, answer), Arrival(w, s.cache, r, clock, answer);
            && t.cache == served.cache && t.log == s.log + Events(served) && t.nowMs == clock.expiryNowMs
            && t.requests == s.requests + {r} && t.reports == s.reports
            && t.mints == s.mints + [Mint(r.client.secret, ByClient(r))]
                        + [MintOf(w, r, Decision(w, s.cache, r, clock, answer))]
  {
    ArrivalIsSigned(w, Sent(w, s, r), r, clock, answer);
    SendingAddsRequest(w, s, r);
    ServingChanges(w, Sent(w, s, r), Arrives(w, r, clock, answer));
  }

  lemma SendingAddsRequest(w: World, s: State, r: Request)
    ensures Sent(w, s, r) == s.(requests := s.requests + {r}, mints := s.mints + [Mint(r.client.secret, ByClient(r))])
  {
  }

  lemma ServingChanges(w: World, s: State, a: Action)
    requires a.ServerReceives?
    ensures var served := ServedBy(w, s, a);
            Step(w, s, a) == s.(cache := served.cache, log := s.log + Events(served), nowMs := a.clock.expiryNowMs,
                                mints := s.mints + ServerMints(w, s, a))
  {
  }

  lemma ReadingIsEnabled(w: World, s: State, r: Request, clock: Clock, answer: Answer)
    requires TagsAreHex(w.crypto) && Addressed(w, r)
    ensures Enabled(w, Arrived(w, s, r, clock, answer), Reads(w, s, r, clock, answer))
  {
    var decision := Decision(w, s.cache, r, clock, answer);
    ArrivedParts(w, s, r, clock, answer);
    MintOfIsAck(w, r, decision);
    AckMayBeRead(w, Arrived(w, s, r, clock, answer), r, s.mints + [Mint(r.client.secret, ByClient(r))],
                 MintOf(w, r, decision), ReplyTo(decision));
  }

  /** What the exchange leaves behind. */
  ghost predicate Leaves(w: World, s: State, r: Request, clock: Clock, answer: Answer, t: State)
    requires Begin(w.crypto, r).Ok? && Begin(w.crypto, r).value.Attempted?
  {
    LeavesAs(s, r, Arrival(w, s.cache, r, clock, answer), clock.expiryNowMs, Outcomes(w, s, r, clock, answer), t)
  }

  predicate LeavesAs(s: State, r: Request, served: Served, at: int, report: Report, t: State) {
    && t.cache == served.cache && t.log == s.log + Events(served) && t.nowMs == at
    && t.requests == s.requests + {r} && t.reports == s.reports + [(r, report)]
  }

  lemma LeavesReport(s: State, r: Request, served: Served, at: int, report: Report, t: State)
    requires t.cache == served.cache && t.log == s.log + Events(served) && t.nowMs == at
    requires t.requests == s.requests + {r} && t.reports == s.reports
    ensures LeavesAs(s, r, served, at, report, t.(reports := t.reports + [(r, report)]))
  {
  }

  lemma ReceiptAddsReport(w: World, t: State, r: Request, stream: Bytes)
    ensures Step(w, t, ClientReceives(r, stream)) == t.(reports := t.reports + [(r, Finish(w.crypto, r, stream))])
  {
  }

  lemma ExchangedParts(w: World, s: State, r: Request, clock: Clock, answer: Answer)
    requires TagsAreHex(w.crypto) && Addressed(w, r)
    ensures Leaves(w, s, r, clock, answer, Exchanged(w, s, r, clock, answer))
  {
    var t := Arrived(w, s, r, clock, answer);
    ArrivedParts(w, s, r, clock, answer);
    ReadingLeaves(w, s, r, clock, answer, t);
  }

  lemma ReadingLeaves(w: World, s: State, r: Request, clock: Clock, answer: Answer, t: State)
    requires Begin(w.crypto, r).Ok? && Begin(w.crypto, r).value.Attempted?
    requires var served := Arrival(w, s.cache, r, clock, answer);
             && t.cache == served.cache && t.log == s.log + Events(served) && t.nowMs == clock.expiryNowMs
             && t.requests == s.requests + {r} && t.reports == s.reports
    ensures Leaves(w, s, r, clock, answer, Step(w, t, Reads(w, s, r, clock, answer)))
  {
    ReceiptAddsReport(w, t, r, Returned(w, r, Answered(w, s.cache, r, clock, answer)));
    LeavesReport(s, r, Arrival(w, s.cache, r, clock, answer), clock.expiryNowMs, Outcomes(w, s, r, clock, answer), t);
  }

  /** The three actions of an undisturbed exchange. */
  function Undisturbed(w: World, s: State, r: Request, clock: Clock, answer: Answer): seq<Action>
    requires Begin(w.crypto, r).Ok? && Begin(w.crypto, r).value.Attempted?
  {
    [ClientSends(r), Arrives(w, r, clock, answer), Reads(w, s, r, clock, answer)]
  }

  /** The two halves of an exchange, as one continuation. */
  lemma ExchangeContinues(w: World, actions: seq<Action>, s: State, r: Request, clock: Clock, answer: Answer)
    requires Reaches(w, actions, s) && TagsAreHex(w.crypto) && Addressed(w, r)
    requires Enabled(w, s, ClientSends(r)) && Timely(s, clock, answer)
    ensures Reaches(w, actions + Undisturbed(w, s, r, clock, answer), Exchanged(w, s, r, clock, answer))
  {
    var sends, arrives := ClientSends(r), Arrives(w, r, clock, answer);
    RequestMayArrive(w, s, r, clock, answer);
    ReadingIsEnabled(w, s, r, clock, answer);
    ContinuesTwice(w, actions, s, sends, Sent(w, s, r), arrives);
    Continues(w, actions + [sends, arrives], Arrived(w, s, r, clock, answer), Reads(w, s, r, clock, answer));
    JoinThree(actions, sends, arrives, Reads(w, s, r, clock, answer));
  }

  lemma JoinThree(actions: seq<Action>, a: Action, b: Action, c: Action)
    ensures actions + [a, b] + [c] == actions + [a, b, c]
  {
  }

  /**
   From any reachable state, whatever the server decides: the undisturbed exchange is legal, the log grows by
   the server's own event, if there is one, and the client reports on the reply to the server's decision.
   */
  lemma UndisturbedExchangeIsLegal(w: World, actions: seq<Action>, r: Request, clock: Clock, answer: Answer)
    requires TagsAreHex(w.crypto) && Legal(w, actions) && Enabled(w, After(w, actions), ClientSends(r))
    requires Addressed(w, r) && Timely(After(w, actions), clock, answer)
    ensures var s := After(w, actions);
            var longer := actions + Undisturbed(w, s, r, clock, answer);
            && Legal(w, longer) && Leaves(w, s, r, clock, answer, After(w, longer))
            && var reply := Answered(w, s.cache, r, clock, answer);
               ComesBack(w, r, reply) ==> Outcomes(w, s, r, clock, answer) == ReportOf(w, r, reply)
  {
    var s := After(w, actions);
    ExchangeContinues(w, actions, s, r, clock, answer);
    ExchangedParts(w, s, r, clock, answer);
    ReturnedIsReported(w, r, Answered(w, s.cache, r, clock, answer));
  }
}
