/** Envelope codec, signed frames and their validation for the authenticated local-IP carrier. */
module LocalIp {
  import opened Contracts
  import opened Text
  import opened Json
  import Base64

  const SCHEMA := "velvet.communications.local_ip.v1"
  const MIN_FRAME_LIMIT := 4096
  const MAX_DETAIL_CHARS := 256
  const SIGNATURE_CHARS := 64

  /** HMAC-SHA256 and SHA-256, both as lower-case hexadecimal text. */
  datatype Crypto = Crypto(hmac: (Bytes, Bytes) -> string, sha256: Bytes -> string)

  /** The only fact used about tags in isolation: they are 64 hexadecimal digits. */
  ghost predicate TagsAreHex(c: Crypto) {
    forall secret, message :: IsHexText(c.hmac(secret, message), SIGNATURE_CHARS)
  }

  /** No two uses of secrets share a tag. It excludes `TagsAreHex`, and nothing is stated under both. */
  ghost predicate InjectiveTags(c: Crypto) {
    forall s, m, t, n :: c.hmac(s, m) == c.hmac(t, n) ==> s == t && m == n
  }

  ghost predicate InjectiveHash(c: Crypto) {
    forall a, b :: c.sha256(a) == c.sha256(b) ==> a == b
  }

  predicate IsHexText(s: string, length: nat) {
    |s| == length && forall i | 0 <= i < |s| :: HexValue(s[i]).Some?
  }

  function Take(s: string, n: nat): (t: string)
    ensures t <= s && |t| == if |s| < n then |s| else n
  {
    if |s| <= n then s else s[..n]
  }

  // ---------------------------------------------------------------- peers and nonces

  /** The characters that stripping removes. */
  predicate IsSpace(c: char) {
    var n := c as nat;
    || 9 <= n <= 13 || 28 <= n <= 32 || n == 0x85 || n == 0xA0 || n == 0x1680
    || 0x2000 <= n <= 0x200A || n == 0x2028 || n == 0x2029 || n == 0x202F || n == 0x205F || n == 0x3000
  }

  function StripLeft(s: string): string {
    if s != [] && IsSpace(s[0]) then StripLeft(s[1..]) else s
  }

  function StripRight(s: string): string {
    if s != [] && IsSpace(s[|s| - 1]) then StripRight(s[..|s| - 1]) else s
  }

  function Strip(s: string): string {
    StripRight(StripLeft(s))
  }

  function PeerId(v: Option<Value>): Result<string> {
    if v.None? || !v.value.Str? || Strip(v.value.text) == [] then Err("peer_id must be non-empty text")
    else
      var text := Strip(v.value.text);
      :- Need(|text| <= 128 && IsAscii(text), "peer_id must be ASCII up to 128 characters");
      :- Need(forall i | 0 <= i < |text| :: IsIdChar(text[i]), "peer_id contains unsupported characters");
      Ok(text)
  }

  predicate ValidNonce(s: string) {
    1 <= |s| <= 128 && forall i | 0 <= i < |s| :: 33 <= s[i] as nat < 128
  }

  function NonceOf(v: Option<Value>): Result<string> {
    if v.None? || !v.value.Str? || v.value.text == [] then Err("nonce must be non-empty text")
    else
      :- Need(ValidNonce(v.value.text), "nonce must be printable ASCII up to 128 characters");
      Ok(v.value.text)
  }

  // ---------------------------------------------------------------- envelopes

  function EnvelopeFields(e: Envelope): Fields {
    map[
      "schema" := Str(e.schema),
      "message_id" := Str(e.messageId),
      "source_peer_id" := Str(e.sourcePeerId),
      "destination_peer_id" := Str(e.destinationPeerId),
      "payload_type" := Str(e.payloadType),
      "payload_b64" := Str(Base64.Encode(e.payload)),
      "created_at_ms" := Int(e.createdAtMs),
      "ttl_ms" := Int(e.ttlMs),
      "priority" := Str(PriorityText(e.priority)),
      "ack_required" := Bool(e.ackRequired),
      "hop_limit" := Int(e.hopLimit)
    ]
  }

  /** `str(value)`; nested lists and objects are abbreviated, see the README. */
  function PyStr(v: Option<Value>): string {
    match v
    case None => "None"
    case Some(Str(t)) => t
    case Some(Int(n)) => Decimal(n)
    case Some(Bool(b)) => if b then "True" else "False"
    case Some(List(_)) => "[...]"
    case Some(Obj(_)) => "{...}"
  }

  function IntegerOf(v: Option<Value>, name: string): Result<int> {
    if v.Some? && v.value.Int? then Ok(v.value.number) else Err(name + " must be an integer")
  }

  function PayloadOf(v: Option<Value>): Result<Bytes> {
    if v.None? || !v.value.Str? then Err("payload_b64 must be text")
    else
      match Base64.Decode(v.value.text)
      case None => Err("payload_b64 is invalid")
      case Some(b) => Ok(b)
  }

  /** The envelope that the dictionary describes, before the checks of construction. */
  function EnvelopeDraft(raw: Fields): Result<Envelope> {
    var payload :- PayloadOf(Get(raw, "payload_b64"));
    var priority := PriorityOf(PyStr(Get(raw, "priority")));
    :- Need(priority.Some?, "priority is unsupported");
    var ack := Get(raw, "ack_required");
    :- Need(ack.Some? && ack.value.Bool?, "ack_required must be boolean");
    var created :- IntegerOf(Get(raw, "created_at_ms"), "created_at_ms");
    var ttl :- IntegerOf(Get(raw, "ttl_ms"), "ttl_ms");
    var hops :- IntegerOf(Get(raw, "hop_limit"), "hop_limit");
    Ok(Envelope(
      PyStr(Get(raw, "message_id")),
      PyStr(Get(raw, "source_peer_id")),
      PyStr(Get(raw, "destination_peer_id")),
      PyStr(Get(raw, "payload_type")),
      payload, created, ttl, priority.value, ack.value.flag, hops,
      PyStr(Get(raw, "schema"))))
  }

  function EnvelopeOf(raw: Fields): (r: Result<Envelope>)
    ensures r.Ok? ==> r.value.Valid()
  {
    var draft :- EnvelopeDraft(raw);
    draft.Checked()
  }

  // ---------------------------------------------------------------- signed frames

  function Signature(c: Crypto, unsigned: Fields, secret: Bytes): string {
    c.hmac(secret, CanonicalBytes(unsigned))
  }

  function Signed(c: Crypto, unsigned: Fields, secret: Bytes): Fields {
    unsigned["signature" := Str(Signature(c, unsigned, secret))]
  }

  function Unsigned(frame: Fields): Fields {
    frame - {"signature"}
  }

  /** The signature check alone: the frame's tag is the one its secret gives its content. */
  predicate TagVerifies(c: Crypto, frame: Fields, secret: Bytes) {
    Get(frame, "signature") == Some(Str(Signature(c, Unsigned(frame), secret)))
  }

  function ValidateSigned(c: Crypto, frame: Fields, secret: Bytes, kind: string): Check {
    var signature := Get(frame, "signature");
    if Get(frame, "schema") != Some(Str(SCHEMA)) || Get(frame, "kind") != Some(Str(kind)) then
      Fail("unsupported local-IP frame")
    else if Get(frame, "authority") != Some(Str("none")) then
      Fail("local-IP frame cannot carry authority")
    else if signature.None? || !signature.value.Str? || |signature.value.text| != SIGNATURE_CHARS then
      Fail("local-IP signature is invalid")
    else
      Need(TagVerifies(c, frame, secret), "local-IP signature mismatch")
  }

  // ---------------------------------------------------------------- deliveries

  function DeliveryUnsigned(e: Envelope, nonce: string, sentAtMs: int): Fields {
    map[
      "schema" := Str(SCHEMA),
      "kind" := Str("delivery"),
      "nonce" := Str(nonce),
      "sent_at_ms" := Int(sentAtMs),
      "envelope" := Obj(EnvelopeFields(e)),
      "authority" := Str("none")
    ]
  }

  function DeliveryFrame(c: Crypto, e: Envelope, nonce: string, sentAtMs: int, secret: Bytes): Fields {
    Signed(c, DeliveryUnsigned(e, nonce, sentAtMs), secret)
  }

  function SourcePeer(frame: Fields): Result<string> {
    match Get(frame, "envelope")
    case Some(Obj(raw)) => PeerId(Get(raw, "source_peer_id"))
    case _ => Err("delivery envelope is unavailable")
  }

  /** What a receiver checks a delivery against; the clock is read twice. */
  datatype DeliveryPolicy = DeliveryPolicy(destination: string, maxPayloadBytes: nat, maxClockSkewMs: int)
  datatype Clock = Clock(skewNowMs: int, expiryNowMs: int)

  function CheckSentAt(v: Option<Value>, policy: DeliveryPolicy, clock: Clock): Check {
    if v.None? || !v.value.Int? || v.value.number < 0 then Fail("delivery sent_at_ms is invalid")
    else
      var age := clock.skewNowMs - v.value.number;
      Need(-policy.maxClockSkewMs <= age <= policy.maxClockSkewMs,
           "delivery timestamp is outside allowed clock skew")
  }

  function CheckAdmissible(e: Envelope, policy: DeliveryPolicy, clock: Clock): Check {
    if e.destinationPeerId != policy.destination then Fail("delivery destination does not match this peer")
    else if |e.payload| > policy.maxPayloadBytes then Fail("delivery payload exceeds receiver limit")
    else Need(!e.IsExpired(clock.expiryNowMs), "delivery envelope is expired")
  }

  function CarriedEnvelope(frame: Fields): Result<Envelope> {
    match Get(frame, "envelope")
    case Some(Obj(raw)) => EnvelopeOf(raw)
    case _ => Err("delivery envelope must be a mapping")
  }

  /** The checks that follow the signature check. */
  function ReadDelivery(frame: Fields, policy: DeliveryPolicy, clock: Clock): Result<(Envelope, string)> {
    var nonce :- NonceOf(Get(frame, "nonce"));
    :- CheckSentAt(Get(frame, "sent_at_ms"), policy, clock);
    var envelope :- CarriedEnvelope(frame);
    :- CheckAdmissible(envelope, policy, clock);
    Ok((envelope, nonce))
  }

  function ValidateDelivery(c: Crypto, frame: Fields, secret: Bytes, policy: DeliveryPolicy, clock: Clock)
    : Result<(Envelope, string)>
  {
    var check := ValidateSigned(c, frame, secret, "delivery");
    :- check;
    ReadDelivery(frame, policy, clock)
  }

  // ---------------------------------------------------------------- acknowledgements

  /** A receiver's result; the plain carrier has no payload. */
  datatype Reply = Reply(accepted: bool, payload: Bytes, detail: string) {
    predicate Valid() {
      |detail| <= MAX_DETAIL_CHARS
    }
  }

  function AckUnsigned(messageId: string, nonce: string, accepted: bool, detail: string): Fields {
    map[
      "schema" := Str(SCHEMA),
      "kind" := Str("ack"),
      "message_id" := Str(Take(messageId, 128)),
      "request_nonce" := Str(Take(nonce, 128)),
      "accepted" := Bool(accepted),
      "detail" := Str(Take(detail, MAX_DETAIL_CHARS)),
      "authority" := Str("none")
    ]
  }

  function ReplyAckUnsigned(messageId: string, nonce: string, reply: Reply): Fields {
    AckUnsigned(messageId, nonce, reply.accepted, reply.detail)
      ["reply_payload_b64" := Str(Base64.Encode(reply.payload))]
  }

  function AckOutcome(frame: Fields, messageId: string, nonce: string): Result<(bool, string)> {
    if Get(frame, "message_id") != Some(Str(messageId)) then Err("ack message_id mismatch") else
    :- Need(Get(frame, "request_nonce") == Some(Str(nonce)), "ack nonce mismatch");
    var accepted := Get(frame, "accepted");
    :- Need(accepted.Some? && accepted.value.Bool?, "ack accepted field must be boolean");
    var detail := if "detail" in frame then frame["detail"] else Str("");
    :- Need(detail.Str?, "ack detail must be text");
    Ok((accepted.value.flag, Take(detail.text, MAX_DETAIL_CHARS)))
  }

  function ValidateAck(c: Crypto, frame: Fields, secret: Bytes, messageId: string, nonce: string)
    : Result<(bool, string)>
  {
    var check := ValidateSigned(c, frame, secret, "ack");
    :- check;
    AckOutcome(frame, messageId, nonce)
  }

  function ReplyAckOutcome(frame: Fields, messageId: string, nonce: string, maxReplyBytes: nat): Result<Reply> {
    var (accepted, detail) :- AckOutcome(frame, messageId, nonce);
    var encoded := if "reply_payload_b64" in frame then frame["reply_payload_b64"] else Str("");
    :- Need(encoded.Str?, "ack reply payload must be base64 text");
    var payload := Base64.Decode(encoded.text);
    :- Need(payload.Some?, "ack reply payload is invalid");
    :- Need(|payload.value| <= maxReplyBytes, "ack reply payload exceeds configured limit");
    Ok(Reply(accepted, payload.value, detail))
  }

  function ValidateReplyAck(c: Crypto, frame: Fields, secret: Bytes, messageId: string, nonce: string,
                            maxReplyBytes: nat): Result<Reply> {
    var check := ValidateSigned(c, frame, secret, "ack");
    :- check;
    ReplyAckOutcome(frame, messageId, nonce, maxReplyBytes)
  }

  // ---------------------------------------------------------------- limits

  function FrameLimit(value: int): Result<int> {
    if value < MIN_FRAME_LIMIT then Err("max_frame_bytes must be an integer of at least 4096") else Ok(value)
  }

  function PayloadLimit(value: int, frameLimit: int): Result<int> {
    if value < 1 then Err("max_payload_bytes must be a positive integer")
    else if value >= frameLimit then Err("max_payload_bytes must be smaller than max_frame_bytes")
    else Ok(value)
  }

  function ReplyLimit(value: int, frameLimit: int): Result<int> {
    if value < 1 then Err("max_reply_bytes must be a positive integer")
    else if (value + 2) / 3 * 4 + 2048 >= frameLimit then Err("max_reply_bytes is too large for max_frame_bytes")
    else Ok(value)
  }
}
