/** Accepted replies whose acknowledgement cannot be sent: legal runs in which a client never learns of them. */
module Dropped {
  import opened Contracts
  import Recency
  import opened Text
  import opened Json
  import opened LocalIp
  import opened Framing
  import opened Wire
  import opened Delivery
  import opened Protocol
  import opened Interop
  import opened Sizes
  import opened Progress
  import Rejections

  /** No acknowledgement that carries this reply for the id fits the server's frame. */
  ghost predicate Unsendable(w: World, r: Request, reply: Reply) {
    forall nonce | IsHexText(nonce, 32) ::
      !ReplyAckFits(w.crypto, r.envelope.messageId, nonce, reply, r.client.secret, w.server.maxFrameBytes)
  }

  /** One more event, and one more report, which is not acknowledged. */
  predicate DroppedLast(s: State, t: State, event: Event, r: Request) {
    && t.log == s.log + [event]
    && s.reports <= t.reports && |t.reports| == |s.reports| + 1
    && t.reports[|s.reports|].0 == r
    && !t.reports[|s.reports|].1.acknowledged && !t.reports[|s.reports|].1.accepted
  }

  /** Every undisturbed request that is decided with such a reply goes unacknowledged. */
  lemma DecidedAndDropped(w: World, s: State, r: Request, clock: Clock, answer: Answer, event: Event, reply: Reply, t: State)
    requires TagsAreHex(w.crypto) && Addressed(w, r) && InTime(w, r, clock) && w.server.kind == Rpc
    requires IsHexText(r.nonce, 32) && w.server.maxFrameBytes < HEADER_RANGE && Unsendable(w, r, reply)
    requires Consultation(w, s.cache, r, clock, answer).event == event && event.Reported(w.server) == Ok(reply)
    requires Leaves(w, s, r, clock, answer, t)
    ensures DroppedLast(s, t, event, r)
  {
    RequestIsAnswered(w, s.cache, r, clock, answer);
    UnfitIsDropped(w, r, reply, r.nonce);
    ReturnedIsReported(w, r, reply);
  }

  /** From any reachable state: while such a reply is resident, a retry in time is replayed and goes unacknowledged. */
  lemma RetryIsDropped(w: World, actions: seq<Action>, r: Request, clock: Clock, answer: Answer, reply: Reply)
    requires Sound(w) && TagsAreHex(w.crypto) && Legal(w, actions) && Enabled(w, After(w, actions), ClientSends(r))
    requires Addressed(w, r) && InTime(w, r, clock) && Timely(After(w, actions), clock, answer) && w.server.kind == Rpc
    requires IsHexText(r.nonce, 32) && w.server.maxFrameBytes < HEADER_RANGE && Unsendable(w, r, reply)
    requires Rejections.IsResident(w, After(w, actions), r.envelope)
    requires Latest(After(w, actions).log, r.envelope.messageId) == Some((r.envelope, reply))
    ensures var s := After(w, actions);
            var longer := actions + Undisturbed(w, s, r, clock, answer);
            Legal(w, longer)
            && DroppedLast(s, After(w, longer), Replayed(r.envelope, reply, clock.expiryNowMs), r)
            && After(w, longer).nowMs == clock.expiryNowMs && After(w, longer).requests == s.requests + {r}
  {
    var s := After(w, actions);
    var longer := actions + Undisturbed(w, s, r, clock, answer);
    RunKeeps(w, actions);
    UndisturbedExchangeIsLegal(w, actions, r, clock, answer);
    RetryLeavesDropped(w, s, r, clock, answer, reply, After(w, longer));
  }

  lemma RetryLeavesDropped(w: World, s: State, r: Request, clock: Clock, answer: Answer, reply: Reply, t: State)
    requires TagsAreHex(w.crypto) && Addressed(w, r) && InTime(w, r, clock) && w.server.kind == Rpc
    requires IsHexText(r.nonce, 32) && w.server.maxFrameBytes < HEADER_RANGE && Unsendable(w, r, reply)
    requires Consistent(w.crypto, w.server, s.cache, s.log) && Rejections.IsResident(w, s, r.envelope)
    requires Latest(s.log, r.envelope.messageId) == Some((r.envelope, reply)) && Leaves(w, s, r, clock, answer, t)
    ensures DroppedLast(s, t, Replayed(r.envelope, reply, clock.expiryNowMs), r)
  {
    ResidentIsReplayed(w, s.cache, s.log, r, clock, answer, reply);
    DecidedAndDropped(w, s, r, clock, answer, Replayed(r.envelope, reply, clock.expiryNowMs), reply, t);
  }

  // ---------------------------------------------------------------- a run, for every small envelope

  /** A reply within the reply limit 1533 that no frame of 4096 bytes carries. */
  function LongReply(): Reply {
    Reply(true, seq(1533, _ => 0), seq(256, _ => '\U{1F600}'))
  }

  function Caller(e: Envelope, secret: Bytes): Client {
    Client(Rpc, e.sourcePeerId, e.destinationPeerId, secret, 4096, |e.payload|, 1533)
  }

  function Answering(e: Envelope, secret: Bytes): ServerConfig {
    ServerConfig(Rpc, e.destinationPeerId, map[e.sourcePeerId := secret], 4096, |e.payload|, 1533, 1, 1)
  }

  function RpcPair(c: Crypto, e: Envelope, secret: Bytes): World {
    World(c, Answering(e, secret), {Caller(e, secret)})
  }

  function Calling(e: Envelope, secret: Bytes, nonce: string): Request {
    Request(Caller(e, secret), e, nonce, e.createdAtMs)
  }

  lemma LongReplyIsUnsendable(w: World, r: Request)
    requires TagsAreHex(w.crypto) && w.server.maxFrameBytes == 4096
    ensures LongReply().Valid() && Unsendable(w, r, LongReply())
  {
    forall nonce | IsHexText(nonce, 32)
      ensures !ReplyAckFits(w.crypto, r.envelope.messageId, nonce, LongReply(), r.client.secret, 4096)
    {
      LongReplyDoesNotFit(w.crypto, r.envelope.messageId, nonce, r.client.secret);
    }
  }

  lemma LongReplyDoesNotFit(c: Crypto, messageId: string, nonce: string, secret: Bytes)
    requires TagsAreHex(c)
    ensures !ReplyAckFits(c, messageId, nonce, LongReply(), secret, 4096)
  {
    UniformLength(LongReply().detail, 12);
    ReplyAckSize(c, messageId, nonce, LongReply(), secret);
  }

  lemma LongReplyIsTaken(e: Envelope, secret: Bytes)
    ensures CompletesWith(Answering(e, secret), ReturnsReply(LongReply()), LongReply())
    ensures FrameLimit(4096).Ok? && ReplyLimit(1533, 4096).Ok? && LongReply().Valid()
  {
  }

  lemma CallingIsAddressed(c: Crypto, e: Envelope, secret: Bytes, nonce: string)
    requires Rejections.Suits(c, e, 4096, nonce)
    ensures Addressed(RpcPair(c, e, secret), Calling(e, secret, nonce))
  {
    var r := Calling(e, secret, nonce);
    Rejections.HexIsNonce(nonce);
    SendsExactly(c, r);
    DeliveryFitsExactly(c, e, nonce, e.createdAtMs, secret, 4096);
  }

  lemma CallingIsInTime(c: Crypto, e: Envelope, secret: Bytes, nonce: string)
    requires e.Valid()
    ensures InTime(RpcPair(c, e, secret), Calling(e, secret, nonce), Clock(e.createdAtMs, e.createdAtMs))
  {
  }

  lemma MayCall(c: Crypto, e: Envelope, secret: Bytes, nonce: string)
    requires Rejections.Suits(c, e, 4096, nonce)
    ensures Enabled(RpcPair(c, e, secret), INITIAL, ClientSends(Calling(e, secret, nonce)))
  {
    CallingIsAddressed(c, e, secret, nonce);
  }

  /** What may be sent at first may be sent later, as long as its nonce is fresh. */
  lemma MaySendLater(w: World, s: State, r: Request)
    requires Enabled(w, INITIAL, ClientSends(r)) && forall q :: q in s.requests ==> q.nonce != r.nonce
    ensures Enabled(w, s, ClientSends(r))
  {
  }

  lemma FirstCall(w: World, r: Request, clock: Clock, answer: Answer, reply: Reply)
    requires CompletesWith(w.server, answer, reply)
    ensures Consultation(w, EMPTY, r, clock, answer).event == Completed(r.envelope, answer, reply, clock.expiryNowMs)
  {
  }

  /** After the first call, from the initial state: taken, cached, and not acknowledged. */
  lemma FirstIsDropped(w: World, r: Request, clock: Clock, reply: Reply)
    requires TagsAreHex(w.crypto) && Addressed(w, r) && InTime(w, r, clock) && w.server.kind == Rpc
    requires IsHexText(r.nonce, 32) && w.server.maxFrameBytes < HEADER_RANGE && Unsendable(w, r, reply)
    requires Enabled(w, INITIAL, ClientSends(r)) && Timely(INITIAL, clock, ReturnsReply(reply))
    requires CompletesWith(w.server, ReturnsReply(reply), reply)
    ensures var longer := [] + Undisturbed(w, INITIAL, r, clock, ReturnsReply(reply));
            var event := Completed(r.envelope, ReturnsReply(reply), reply, clock.expiryNowMs);
            && Legal(w, longer) && DroppedLast(INITIAL, After(w, longer), event, r)
            && After(w, longer).nowMs == clock.expiryNowMs && After(w, longer).requests == {r}
  {
    var answer := ReturnsReply(reply);
    UndisturbedExchangeIsLegal(w, [], r, clock, answer);
    FirstLeavesDropped(w, r, clock, reply, After(w, [] + Undisturbed(w, INITIAL, r, clock, answer)));
  }

  lemma FirstLeavesDropped(w: World, r: Request, clock: Clock, reply: Reply, t: State)
    requires TagsAreHex(w.crypto) && Addressed(w, r) && InTime(w, r, clock) && w.server.kind == Rpc
    requires IsHexText(r.nonce, 32) && w.server.maxFrameBytes < HEADER_RANGE && Unsendable(w, r, reply)
    requires CompletesWith(w.server, ReturnsReply(reply), reply)
    requires Leaves(w, INITIAL, r, clock, ReturnsReply(reply), t)
    ensures DroppedLast(INITIAL, t, Completed(r.envelope, ReturnsReply(reply), reply, clock.expiryNowMs), r)
  {
    var event := Completed(r.envelope, ReturnsReply(reply), reply, clock.expiryNowMs);
    FirstCall(w, r, clock, ReturnsReply(reply), reply);
    DecidedAndDropped(w, INITIAL, r, clock, ReturnsReply(reply), event, reply, t);
  }

  lemma OneCompleted(e: Envelope, answer: Answer, reply: Reply, at: int, capacity: nat)
    requires capacity >= 1
    ensures var log := [Completed(e, answer, reply, at)];
            Recency.Resident(Touched(log), capacity, e.messageId) && Latest(log, e.messageId) == Some((e, reply))
  {
    var log := [Completed(e, answer, reply, at)];
    assert log[..0] == [];
    assert Touched(log) == [e.messageId];
    assert Recency.Since([e.messageId], e.messageId) == {};
  }

  /** The receiver accepted the envelope once, the retry was replayed, and no report was ever acknowledged. */
  predicate AcceptedUnheard(s: State, e: Envelope) {
    && s.log == [Completed(e, ReturnsReply(LongReply()), LongReply(), e.createdAtMs),
                 Replayed(e, LongReply(), e.createdAtMs)]
    && |s.reports| == 2
    && (forall i | 0 <= i < |s.reports| :: s.reports[i].0.envelope == e && !s.reports[i].1.acknowledged)
  }

  /** What the two requests need for that. */
  ghost predicate CanBeDropped(w: World, r: Request, clock: Clock, reply: Reply) {
    && Addressed(w, r) && InTime(w, r, clock) && IsHexText(r.nonce, 32) && Unsendable(w, r, reply)
    && Enabled(w, INITIAL, ClientSends(r)) && clock.expiryNowMs == r.envelope.createdAtMs
  }

  predicate OnceUnheard(s: State, q: Request) {
    && s.log == [Completed(q.envelope, ReturnsReply(LongReply()), LongReply(), q.envelope.createdAtMs)]
    && |s.reports| == 1 && s.reports[0].0 == q && !s.reports[0].1.acknowledged
  }

  lemma CallIsDropped(w: World, q: Request, clock: Clock)
    requires TagsAreHex(w.crypto) && w.server.kind == Rpc && w.server.maxFrameBytes < HEADER_RANGE
    requires Timely(INITIAL, clock, ReturnsReply(LongReply())) && CanBeDropped(w, q, clock, LongReply())
    requires CompletesWith(w.server, ReturnsReply(LongReply()), LongReply()) && w.server.replayCapacity >= 1
    ensures var before := [] + Undisturbed(w, INITIAL, q, clock, ReturnsReply(LongReply()));
            var s := After(w, before);
            && Legal(w, before) && s.requests == {q} && s.nowMs == clock.expiryNowMs
            && OnceUnheard(s, q)
            && Rejections.IsResident(w, s, q.envelope)
            && Latest(s.log, q.envelope.messageId) == Some((q.envelope, LongReply()))
  {
    FirstIsDropped(w, q, clock, LongReply());
    OneCompleted(q.envelope, ReturnsReply(LongReply()), LongReply(), q.envelope.createdAtMs, w.server.replayCapacity);
  }

  lemma TwoAreDropped(w: World, q: Request, r: Request, clock: Clock) returns (actions: seq<Action>)
    requires Sound(w) && TagsAreHex(w.crypto) && w.server.kind == Rpc && w.server.maxFrameBytes < HEADER_RANGE
    requires Timely(INITIAL, clock, ReturnsReply(LongReply())) && clock.skewNowMs == clock.expiryNowMs
    requires CanBeDropped(w, q, clock, LongReply()) && CanBeDropped(w, r, clock, LongReply())
    requires q.envelope == r.envelope && q.nonce != r.nonce
    requires CompletesWith(w.server, ReturnsReply(LongReply()), LongReply())
    ensures Legal(w, actions) && AcceptedUnheard(After(w, actions), r.envelope)
  {
    var answer := ReturnsReply(LongReply());
    CallIsDropped(w, q, clock);
    var before := [] + Undisturbed(w, INITIAL, q, clock, answer);
    MaySendLater(w, After(w, before), r);
    RetryIsDropped(w, before, r, clock, answer, LongReply());
    actions := before + Undisturbed(w, After(w, before), r, clock, answer);
    NeitherIsHeard(After(w, before), After(w, actions), q, r);
  }

  lemma NeitherIsHeard(s: State, t: State, q: Request, r: Request)
    requires OnceUnheard(s, q) && q.envelope == r.envelope
    requires DroppedLast(s, t, Replayed(r.envelope, LongReply(), r.envelope.createdAtMs), r)
    ensures AcceptedUnheard(t, r.envelope)
  {
    assert t.reports[0] == s.reports[0];
  }

  lemma CallingCanBeDropped(c: Crypto, e: Envelope, secret: Bytes, nonce: string)
    requires Rejections.Suits(c, e, 4096, nonce)
    ensures CanBeDropped(RpcPair(c, e, secret), Calling(e, secret, nonce), Clock(e.createdAtMs, e.createdAtMs), LongReply())
  {
    LongReplyIsUnsendable(RpcPair(c, e, secret), Calling(e, secret, nonce));
    CallingIsAddressed(c, e, secret, nonce);
    CallingIsInTime(c, e, secret, nonce);
    MayCall(c, e, secret, nonce);
  }

  /** For every envelope that fits a frame of 4096 bytes there is such a run, with limits that construction accepts. */
  lemma AcceptedAndNeverAcknowledged(c: Crypto, e: Envelope, secret: Bytes, first: string, second: string)
    returns (actions: seq<Action>)
    requires Rejections.Suits(c, e, 4096, first) && Rejections.Suits(c, e, 4096, second) && first != second
    ensures FrameLimit(4096).Ok? && ReplyLimit(1533, 4096).Ok? && LongReply().Valid()
    ensures var w := RpcPair(c, e, secret);
            Sound(w) && Legal(w, actions) && AcceptedUnheard(After(w, actions), e)
  {
    var clock := Clock(e.createdAtMs, e.createdAtMs);
    LongReplyIsTaken(e, secret);
    CallingCanBeDropped(c, e, secret, first);
    CallingCanBeDropped(c, e, secret, second);
    actions := TwoAreDropped(RpcPair(c, e, secret), Calling(e, secret, first), Calling(e, secret, second), clock);
  }
}
