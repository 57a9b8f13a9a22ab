/** Byte-exact frame sizes, and what the configured limits do and do not guarantee. */
module Sizes {
  import opened Contracts
  import opened Text
  import opened Json
  import opened JsonSize
  import opened Framing
  import opened LocalIp
  import opened Wire
  import Base64

  lemma SchemaIsPlain()
    ensures IsPlain(SCHEMA) && |SCHEMA| == 33
  {
  }

  /** The members that every frame starts with. */
  lemma HeadSize(kind: string)
    requires IsPlain(kind)
    ensures FieldsSize(map["schema" := Str(SCHEMA), "kind" := Str(kind)]) == 55 + |kind|
  {
    SchemaIsPlain();
    var f0: Fields := map[];
    AddsPlainText(f0, "schema", SCHEMA);
    AddsPlainText(f0["schema" := Str(SCHEMA)], "kind", kind);
    assert f0["schema" := Str(SCHEMA)]["kind" := Str(kind)] == map["schema" := Str(SCHEMA), "kind" := Str(kind)];
  }

  /** A signature adds the same to any frame. */
  lemma SignedSize(c: Crypto, unsigned: Fields, secret: Bytes)
    requires TagsAreHex(c) && "signature" !in unsigned
    ensures |CanonicalBytes(Signed(c, unsigned, secret))| == FieldsSize(unsigned) + 80
  {
    var tag := Signature(c, unsigned, secret);
    assert IsHexText(tag, SIGNATURE_CHARS);
    forall i | 0 <= i < |tag| ensures IsIdChar(tag[i]) {
      assert HexValue(tag[i]).Some?;
    }
    PlainTextSize(tag);
    Adds(unsigned, "signature", Str(tag));
    ObjectSize(Signed(c, unsigned, secret));
  }

  // ---------------------------------------------------------------- acknowledgements

  /** The part of an acknowledgement whose length its texts decide. */
  function AckTextLength(messageId: string, nonce: string, detail: string): nat {
    EscapedLength(Take(messageId, 128)) + EscapedLength(Take(nonce, 128)) + EscapedLength(Take(detail, MAX_DETAIL_CHARS))
  }

  lemma AckKeysArePlain()
    ensures IsPlain("message_id") && IsPlain("request_nonce")
    ensures IsPlain("accepted") && IsPlain("detail") && IsPlain("authority") && IsPlain("none")
  {
  }

  function AckHead(messageId: string, nonce: string): Fields {
    map[
      "schema" := Str(SCHEMA),
      "kind" := Str("ack"),
      "message_id" := Str(Take(messageId, 128)),
      "request_nonce" := Str(Take(nonce, 128))
    ]
  }

  lemma AckHeadKeys(messageId: string, nonce: string)
    ensures "accepted" !in AckHead(messageId, nonce)
    ensures "detail" !in AckHead(messageId, nonce) && "authority" !in AckHead(messageId, nonce)
  {
  }

  lemma AckHeadSize(messageId: string, nonce: string)
    ensures FieldsSize(AckHead(messageId, nonce))
         == 93 + EscapedLength(Take(messageId, 128)) + EscapedLength(Take(nonce, 128))
  {
    var id, request := Take(messageId, 128), Take(nonce, 128);
    var head: Fields := map["schema" := Str(SCHEMA), "kind" := Str("ack")];
    AckKeysArePlain();
    HeadSize("ack");
    AddsText(head, "message_id", id);
    AddsText(head["message_id" := Str(id)], "request_nonce", request);
    assert head["message_id" := Str(id)]["request_nonce" := Str(request)] == AckHead(messageId, nonce);
  }

  lemma AckTailSize(head: Fields, accepted: bool, detail: string)
    requires "accepted" !in head && "detail" !in head && "authority" !in head
    ensures FieldsSize(head["accepted" := Bool(accepted)]["detail" := Str(detail)]["authority" := Str("none")])
         == FieldsSize(head) + 43 + FlagLength(accepted) + EscapedLength(detail)
  {
    AckKeysArePlain();
    AddsThree(head, "accepted", Bool(accepted), "detail", Str(detail), "authority", Str("none"));
    TextSize(detail);
    PlainTextSize("none");
  }

  lemma PlainAckSize(messageId: string, nonce: string, accepted: bool, detail: string)
    ensures FieldsSize(AckUnsigned(messageId, nonce, accepted, detail))
         == 136 + FlagLength(accepted) + AckTextLength(messageId, nonce, detail)
  {
    AckHeadSize(messageId, nonce);
    AckHeadKeys(messageId, nonce);
    AckTailSize(AckHead(messageId, nonce), accepted, Take(detail, MAX_DETAIL_CHARS));
    AckParts(messageId, nonce, accepted, detail);
  }

  lemma AckParts(messageId: string, nonce: string, accepted: bool, detail: string)
    ensures AckUnsigned(messageId, nonce, accepted, detail)
         == AckHead(messageId, nonce)["accepted" := Bool(accepted)]
              ["detail" := Str(Take(detail, MAX_DETAIL_CHARS))]["authority" := Str("none")]
  {
  }

  lemma SignedReplySize(c: Crypto, plain: Fields, payload: Bytes, secret: Bytes)
    requires TagsAreHex(c) && "reply_payload_b64" !in plain && "signature" !in plain
    ensures |CanonicalBytes(Signed(c, plain["reply_payload_b64" := Str(Base64.Encode(payload))], secret))|
         == FieldsSize(plain) + 103 + (|payload| + 2) / 3 * 4
  {
    var text := Base64.Encode(payload);
    Base64.EncodedSize(payload);
    assert IsPlain("reply_payload_b64");
    AddsText(plain, "reply_payload_b64", text);
    SignedSize(c, plain["reply_payload_b64" := Str(text)], secret);
  }

  /** The exact size of a signed reply acknowledgement. */
  lemma ReplyAckSize(c: Crypto, messageId: string, nonce: string, reply: Reply, secret: Bytes)
    requires TagsAreHex(c)
    ensures |CanonicalBytes(Signed(c, ReplyAckUnsigned(messageId, nonce, reply), secret))|
         == 239 + FlagLength(reply.accepted) + AckTextLength(messageId, nonce, reply.detail)
            + (|reply.payload| + 2) / 3 * 4
  {
    var plain := AckUnsigned(messageId, nonce, reply.accepted, reply.detail);
    PlainAckSize(messageId, nonce, reply.accepted, reply.detail);
    PlainAckFields(messageId, nonce, reply.accepted, reply.detail);
    SignedReplySize(c, plain, reply.payload, secret);
  }

  ghost predicate ReplyAckFits(c: Crypto, messageId: string, nonce: string, reply: Reply, secret: Bytes, limit: nat) {
    FrameBytes(Signed(c, ReplyAckUnsigned(messageId, nonce, reply), secret), limit).Ok?
  }

  /** Every reply that the limits allow can be sent back with these texts. */
  ghost predicate EveryReplyFits(c: Crypto, messageId: string, nonce: string, accepted: bool, detail: string, secret: Bytes) {
    forall maxReply, limit, payload: Bytes |
      && ReplyLimit(maxReply, limit).Ok? && FrameLimit(limit).Ok? && limit < HEADER_RANGE
      && |payload| <= maxReply ::
      ReplyAckFits(c, messageId, nonce, Reply(accepted, payload, detail), secret, limit)
  }

  /**
   Exactly which texts the 2048-byte allowance covers: every reply within an accepted limit fits its
   frame if and only if the escaped id, nonce and detail together stay within 1805 characters
   (1806 when the reply accepts).
   */
  lemma ReplyAllowanceExact(c: Crypto, messageId: string, nonce: string, accepted: bool, detail: string, secret: Bytes)
    requires TagsAreHex(c)
    ensures EveryReplyFits(c, messageId, nonce, accepted, detail, secret)
       <==> AckTextLength(messageId, nonce, detail) <= 1810 - FlagLength(accepted)
  {
    if AckTextLength(messageId, nonce, detail) <= 1810 - FlagLength(accepted) {
      forall maxReply, limit, payload: Bytes |
        && ReplyLimit(maxReply, limit).Ok? && FrameLimit(limit).Ok? && limit < HEADER_RANGE
        && |payload| <= maxReply
        ensures ReplyAckFits(c, messageId, nonce, Reply(accepted, payload, detail), secret, limit)
      {
        AllowanceSuffices(c, messageId, nonce, Reply(accepted, payload, detail), secret, maxReply, limit);
      }
    } else {
      TightestReply(c, messageId, nonce, accepted, detail, secret);
    }
  }

  lemma AllowanceSuffices(c: Crypto, messageId: string, nonce: string, reply: Reply, secret: Bytes, maxReply: nat, limit: nat)
    requires TagsAreHex(c) && AckTextLength(messageId, nonce, reply.detail) <= 1810 - FlagLength(reply.accepted)
    requires ReplyLimit(maxReply, limit).Ok? && FrameLimit(limit).Ok? && limit < HEADER_RANGE
    requires |reply.payload| <= maxReply
    ensures ReplyAckFits(c, messageId, nonce, reply, secret, limit)
  {
    ReplyAckSize(c, messageId, nonce, reply, secret);
    GroupsMonotone(|reply.payload|, maxReply);
  }

  lemma GroupsMonotone(m: nat, n: nat)
    requires m <= n
    ensures (m + 2) / 3 * 4 <= (n + 2) / 3 * 4
  {
  }

  /** With the tightest limits the allowance leaves no byte to spare. */
  lemma TightestReply(c: Crypto, messageId: string, nonce: string, accepted: bool, detail: string, secret: Bytes)
    requires TagsAreHex(c) && AckTextLength(messageId, nonce, detail) > 1810 - FlagLength(accepted)
    ensures !EveryReplyFits(c, messageId, nonce, accepted, detail, secret)
  {
    var payload: Bytes := seq(1536, _ => 0);
    ReplyAckSize(c, messageId, nonce, Reply(accepted, payload, detail), secret);
    assert ReplyLimit(1536, 4097).Ok? && FrameLimit(4097).Ok?;
    assert !ReplyAckFits(c, messageId, nonce, Reply(accepted, payload, detail), secret, 4097);
  }

  /** A valid id, a 32-digit nonce and a detail of 256 characters below U+10000 are always covered. */
  lemma BasicPlaneRepliesFit(c: Crypto, messageId: string, nonce: string, accepted: bool, detail: string, secret: Bytes)
    requires TagsAreHex(c) && ValidId(messageId) && IsHexText(nonce, 32)
    requires |detail| <= MAX_DETAIL_CHARS && forall i | 0 <= i < |detail| :: detail[i] as nat < 0x10000
    ensures EveryReplyFits(c, messageId, nonce, accepted, detail, secret)
    ensures forall payload: Bytes ::
              |CanonicalBytes(Signed(c, ReplyAckUnsigned(messageId, nonce, Reply(accepted, payload, detail)), secret))|
              <= 1940 + (|payload| + 2) / 3 * 4
  {
    PlainLength(messageId);
    HexIsPlain(nonce);
    PlainLength(nonce);
    assert EscapesWithin(detail, 6);
    EscapedLengthBound(detail, 6);
    ReplyAllowanceExact(c, messageId, nonce, accepted, detail, secret);
    forall payload: Bytes
      ensures |CanonicalBytes(Signed(c, ReplyAckUnsigned(messageId, nonce, Reply(accepted, payload, detail)), secret))|
              <= 1940 + (|payload| + 2) / 3 * 4
    {
      ReplyAckSize(c, messageId, nonce, Reply(accepted, payload, detail), secret);
    }
  }

  /** With a valid id and a 32-digit nonce, the texts of any acknowledgement take at most 3232 characters. */
  lemma AckTextBound(messageId: string, nonce: string, detail: string)
    requires ValidId(messageId) && IsHexText(nonce, 32)
    ensures AckTextLength(messageId, nonce, detail) <= 3232
  {
    PlainLength(messageId);
    HexIsPlain(nonce);
    PlainLength(nonce);
    var taken := Take(detail, MAX_DETAIL_CHARS);
    assert EscapesWithin(taken, 12);
    EscapedLengthBound(taken, 12);
  }

  lemma HexIsPlain(nonce: string)
    requires IsHexText(nonce, 32)
    ensures IsPlain(nonce)
  {
    forall i | 0 <= i < |nonce| ensures IsIdChar(nonce[i]) {
      assert HexValue(nonce[i]).Some?;
    }
  }

  /** A plain acknowledgement never exceeds 3453 bytes, whatever its detail. */
  lemma PlainAckBound(c: Crypto, messageId: string, nonce: string, accepted: bool, detail: string, secret: Bytes)
    requires TagsAreHex(c) && ValidId(messageId) && IsHexText(nonce, 32)
    ensures |CanonicalBytes(Signed(c, AckUnsigned(messageId, nonce, accepted, detail), secret))| <= 3453
  {
    PlainAckFields(messageId, nonce, accepted, detail);
    PlainAckSize(messageId, nonce, accepted, detail);
    SignedSize(c, AckUnsigned(messageId, nonce, accepted, detail), secret);
    AckTextBound(messageId, nonce, detail);
  }

  /** Nor does an empty reply exceed 3476 bytes: refusals and conflicts always fit the smallest frame limit. */
  lemma EmptyReplyBound(c: Crypto, messageId: string, nonce: string, reply: Reply, secret: Bytes)
    requires TagsAreHex(c) && ValidId(messageId) && IsHexText(nonce, 32) && reply.payload == []
    ensures |CanonicalBytes(Signed(c, ReplyAckUnsigned(messageId, nonce, reply), secret))| <= 3476
  {
    ReplyAckSize(c, messageId, nonce, reply, secret);
    AckTextBound(messageId, nonce, reply.detail);
  }

  /** The size of an acknowledgement depends on the length of its nonce only. */
  lemma SizeForgetsNonce(c: Crypto, messageId: string, nonce: string, other: string, reply: Reply, secret: Bytes)
    requires TagsAreHex(c) && IsHexText(nonce, 32) && IsHexText(other, 32)
    ensures |CanonicalBytes(Signed(c, ReplyAckUnsigned(messageId, nonce, reply), secret))|
         == |CanonicalBytes(Signed(c, ReplyAckUnsigned(messageId, other, reply), secret))|
  {
    HexIsPlain(nonce);
    HexIsPlain(other);
    PlainLength(nonce);
    PlainLength(other);
    ReplyAckSize(c, messageId, nonce, reply, secret);
    ReplyAckSize(c, messageId, other, reply, secret);
  }

  /** A detail within its 256 characters can still make an allowed reply unsendable. */
  lemma AstralDetailDoesNotFit(c: Crypto, secret: Bytes)
    requires TagsAreHex(c)
    ensures var detail := seq(256, _ => '\U{1F600}');
            var reply := Reply(true, seq(1533, _ => 0), detail);
            var nonce := seq(32, _ => 'a');
            && reply.Valid() && IsHexText(nonce, 32) && ReplyLimit(1533, 4096).Ok?
            && !ReplyAckFits(c, "m", nonce, reply, secret, 4096)
  {
    var detail := seq(256, _ => '\U{1F600}');
    var nonce := seq(32, _ => 'a');
    var reply := Reply(true, seq(1533, _ => 0), detail);
    UniformLength(detail, 12);
    UniformLength(nonce, 1);
    ReplyAckSize(c, "m", nonce, reply, secret);
  }

  // ---------------------------------------------------------------- deliveries

  lemma EnvelopeKeysArePlain()
    ensures IsPlain("message_id") && IsPlain("source_peer_id") && IsPlain("destination_peer_id")
    ensures IsPlain("payload_type") && IsPlain("payload_b64") && IsPlain("created_at_ms") && IsPlain("ttl_ms")
    ensures IsPlain("priority") && IsPlain("ack_required") && IsPlain("hop_limit") && IsPlain("schema")
  {
  }

  function EnvelopeTexts(e: Envelope): Fields {
    map[
      "schema" := Str(e.schema),
      "message_id" := Str(e.messageId),
      "source_peer_id" := Str(e.sourcePeerId),
      "destination_peer_id" := Str(e.destinationPeerId),
      "payload_type" := Str(e.payloadType)
    ]
  }

  /** The part of an envelope's size that its texts decide. */
  function TextsLength(e: Envelope): nat {
    EscapedLength(e.schema) + |e.messageId| + |e.sourcePeerId| + |e.destinationPeerId| + |e.payloadType|
  }

  /** The part that its numbers, flag and priority decide. */
  function NumbersLength(e: Envelope): nat {
    |Decimal(e.createdAtMs)| + |Decimal(e.ttlMs)| + |Decimal(e.hopLimit)|
    + |PriorityText(e.priority)| + FlagLength(e.ackRequired)
  }

  lemma EnvelopeTextsSize(e: Envelope)
    requires e.Valid()
    ensures FieldsSize(EnvelopeTexts(e)) == 91 + TextsLength(e)
  {
    EnvelopeKeysArePlain();
    var f: Fields := map["schema" := Str(e.schema), "message_id" := Str(e.messageId)];
    var none: Fields := map[];
    AddsText(none, "schema", e.schema);
    AddsPlainText(none["schema" := Str(e.schema)], "message_id", e.messageId);
    assert none["schema" := Str(e.schema)]["message_id" := Str(e.messageId)] == f;
    AddsThree(f, "source_peer_id", Str(e.sourcePeerId), "destination_peer_id", Str(e.destinationPeerId),
              "payload_type", Str(e.payloadType));
    PlainTextSize(e.sourcePeerId);
    PlainTextSize(e.destinationPeerId);
    PlainTextSize(e.payloadType);
    assert f["source_peer_id" := Str(e.sourcePeerId)]["destination_peer_id" := Str(e.destinationPeerId)]
             ["payload_type" := Str(e.payloadType)] == EnvelopeTexts(e);
  }

  lemma AddsPayloadAndTimes(f: Fields, e: Envelope)
    requires "payload_b64" !in f && "created_at_ms" !in f && "ttl_ms" !in f
    ensures FieldsSize(f["payload_b64" := Str(Base64.Encode(e.payload))]
                        ["created_at_ms" := Int(e.createdAtMs)]["ttl_ms" := Int(e.ttlMs)])
         == FieldsSize(f) + 44 + (|e.payload| + 2) / 3 * 4 + |Decimal(e.createdAtMs)| + |Decimal(e.ttlMs)|
  {
    EnvelopeKeysArePlain();
    Base64.EncodedSize(e.payload);
    TextSize(Base64.Encode(e.payload));
    AddsThree(f, "payload_b64", Str(Base64.Encode(e.payload)), "created_at_ms", Int(e.createdAtMs),
              "ttl_ms", Int(e.ttlMs));
  }

  lemma AddsFlags(f: Fields, e: Envelope)
    requires "priority" !in f && "ack_required" !in f && "hop_limit" !in f
    ensures FieldsSize(f["priority" := Str(PriorityText(e.priority))]
                        ["ack_required" := Bool(e.ackRequired)]["hop_limit" := Int(e.hopLimit)])
         == FieldsSize(f) + 43 + |PriorityText(e.priority)| + FlagLength(e.ackRequired) + |Decimal(e.hopLimit)|
  {
    EnvelopeKeysArePlain();
    assert IsPlain(PriorityText(e.priority));
    PlainTextSize(PriorityText(e.priority));
    AddsThree(f, "priority", Str(PriorityText(e.priority)), "ack_required", Bool(e.ackRequired),
              "hop_limit", Int(e.hopLimit));
  }

  function EnvelopeWithTimes(e: Envelope): Fields {
    EnvelopeTexts(e)["payload_b64" := Str(Base64.Encode(e.payload))]
      ["created_at_ms" := Int(e.createdAtMs)]["ttl_ms" := Int(e.ttlMs)]
  }

  lemma EnvelopeKeysApart(e: Envelope)
    ensures "payload_b64" !in EnvelopeTexts(e) && "created_at_ms" !in EnvelopeTexts(e) && "ttl_ms" !in EnvelopeTexts(e)
    ensures "priority" !in EnvelopeWithTimes(e) && "ack_required" !in EnvelopeWithTimes(e)
    ensures "hop_limit" !in EnvelopeWithTimes(e)
  {
  }

  lemma EnvelopeParts(e: Envelope)
    ensures EnvelopeFields(e)
         == EnvelopeWithTimes(e)["priority" := Str(PriorityText(e.priority))]
              ["ack_required" := Bool(e.ackRequired)]["hop_limit" := Int(e.hopLimit)]
  {
  }

  lemma EnvelopeFieldsSize(e: Envelope)
    requires e.Valid()
    ensures FieldsSize(EnvelopeFields(e)) == 178 + TextsLength(e) + NumbersLength(e) + (|e.payload| + 2) / 3 * 4
  {
    EnvelopeKeysApart(e);
    EnvelopeTextsSize(e);
    AddsPayloadAndTimes(EnvelopeTexts(e), e);
    AddsFlags(EnvelopeWithTimes(e), e);
    EnvelopeParts(e);
  }

  /** The exact size of an envelope's canonical dictionary. */
  lemma EnvelopeSize(e: Envelope)
    requires e.Valid()
    ensures ValueSize(Obj(EnvelopeFields(e)))
         == 179 + TextsLength(e) + NumbersLength(e) + (|e.payload| + 2) / 3 * 4
  {
    EnvelopeFieldsSize(e);
    assert EnvelopeFields(e) != map[];
    ObjectSize(EnvelopeFields(e));
  }

  /** The length of a delivery frame on the wire, less its four header bytes. */
  function DeliveryLength(e: Envelope, nonce: string, sentAtMs: int): nat {
    378 + EscapedLength(nonce) + |Decimal(sentAtMs)| + TextsLength(e) + NumbersLength(e) + (|e.payload| + 2) / 3 * 4
  }

  lemma AddsDelivery(head: Fields, nonce: string, sentAtMs: int, envelope: Value)
    requires "nonce" !in head && "sent_at_ms" !in head && "envelope" !in head && "authority" !in head
    ensures FieldsSize(head["nonce" := Str(nonce)]["sent_at_ms" := Int(sentAtMs)]["envelope" := envelope]
                           ["authority" := Str("none")])
         == FieldsSize(head) + 56 + EscapedLength(nonce) + |Decimal(sentAtMs)| + ValueSize(envelope)
  {
    assert IsPlain("nonce") && IsPlain("sent_at_ms") && IsPlain("envelope");
    AddsThree(head, "nonce", Str(nonce), "sent_at_ms", Int(sentAtMs), "envelope", envelope);
    TextSize(nonce);
    AckKeysArePlain();
    AddsPlainText(head["nonce" := Str(nonce)]["sent_at_ms" := Int(sentAtMs)]["envelope" := envelope],
                  "authority", "none");
  }

  lemma DeliveryUnsignedSize(e: Envelope, nonce: string, sentAtMs: int)
    requires e.Valid()
    ensures FieldsSize(DeliveryUnsigned(e, nonce, sentAtMs)) == DeliveryLength(e, nonce, sentAtMs) - 80
  {
    EnvelopeSize(e);
    DeliverySizeOver(e, nonce, sentAtMs, Obj(EnvelopeFields(e)));
  }

  lemma DeliverySizeOver(e: Envelope, nonce: string, sentAtMs: int, envelope: Value)
    requires envelope == Obj(EnvelopeFields(e))
    ensures FieldsSize(DeliveryUnsigned(e, nonce, sentAtMs))
         == 119 + EscapedLength(nonce) + |Decimal(sentAtMs)| + ValueSize(envelope)
  {
    var head: Fields := map["schema" := Str(SCHEMA), "kind" := Str("delivery")];
    HeadSize("delivery");
    AddsDelivery(head, nonce, sentAtMs, envelope);
    assert head["nonce" := Str(nonce)]["sent_at_ms" := Int(sentAtMs)]["envelope" := envelope]
               ["authority" := Str("none")] == DeliveryUnsigned(e, nonce, sentAtMs);
  }

  /** A delivery can be sent exactly when its length is within the frame limit. */
  lemma DeliveryFitsExactly(c: Crypto, e: Envelope, nonce: string, sentAtMs: int, secret: Bytes, limit: nat)
    requires TagsAreHex(c) && e.Valid() && limit < HEADER_RANGE
    ensures |CanonicalBytes(DeliveryFrame(c, e, nonce, sentAtMs, secret))| == DeliveryLength(e, nonce, sentAtMs)
    ensures FrameBytes(DeliveryFrame(c, e, nonce, sentAtMs, secret), limit).Ok?
       <==> DeliveryLength(e, nonce, sentAtMs) <= limit
  {
    DeliveryFields(e, nonce, sentAtMs);
    DeliveryUnsignedSize(e, nonce, sentAtMs);
    SignedSize(c, DeliveryUnsigned(e, nonce, sentAtMs), secret);
  }

  const DEFAULT_MAX_FRAME_BYTES := 262144
  const DEFAULT_MAX_PAYLOAD_BYTES := 196608

  /**
   The payload limit ignores the base64 expansion: with the default limits a payload at the limit
   is allowed, and yet no envelope that carries one can ever be sent.
   */
  lemma DefaultPayloadNeverFits(c: Crypto, e: Envelope, nonce: string, sentAtMs: int, secret: Bytes)
    requires TagsAreHex(c) && e.Valid() && |e.payload| == DEFAULT_MAX_PAYLOAD_BYTES
    ensures PayloadLimit(DEFAULT_MAX_PAYLOAD_BYTES, DEFAULT_MAX_FRAME_BYTES) == Ok(DEFAULT_MAX_PAYLOAD_BYTES)
    ensures FrameBytes(DeliveryFrame(c, e, nonce, sentAtMs, secret), DEFAULT_MAX_FRAME_BYTES).Err?
  {
    DeliveryFitsExactly(c, e, nonce, sentAtMs, secret, DEFAULT_MAX_FRAME_BYTES);
  }
}
