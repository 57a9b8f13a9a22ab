/** What a signed frame means to the peer that receives it. */
module Wire {
  import opened Contracts
  import opened Text
  import opened Json
  import opened LocalIp
  import opened Framing
  import Base64

  // ---------------------------------------------------------------- envelopes

  lemma PriorityRoundTrip(p: Priority)
    ensures PriorityOf(PriorityText(p)) == Some(p)
  {
  }

  /** Every field of an envelope, read from the dictionary form. */
  ghost predicate Describes(raw: Fields, e: Envelope) {
    && Get(raw, "schema") == Some(Str(e.schema))
    && Get(raw, "message_id") == Some(Str(e.messageId))
    && Get(raw, "source_peer_id") == Some(Str(e.sourcePeerId))
    && Get(raw, "destination_peer_id") == Some(Str(e.destinationPeerId))
    && Get(raw, "payload_type") == Some(Str(e.payloadType))
    && Get(raw, "payload_b64") == Some(Str(Base64.Encode(e.payload)))
    && Get(raw, "created_at_ms") == Some(Int(e.createdAtMs))
    && Get(raw, "ttl_ms") == Some(Int(e.ttlMs))
    && Get(raw, "priority") == Some(Str(PriorityText(e.priority)))
    && Get(raw, "ack_required") == Some(Bool(e.ackRequired))
    && Get(raw, "hop_limit") == Some(Int(e.hopLimit))
  }

  lemma FieldsDescribe(e: Envelope)
    ensures Describes(EnvelopeFields(e), e)
  {
  }

  /** What decoding makes of each entry. */
  ghost predicate ReadsAs(raw: Fields, e: Envelope) {
    && PyStr(Get(raw, "schema")) == e.schema && PyStr(Get(raw, "message_id")) == e.messageId
    && PyStr(Get(raw, "source_peer_id")) == e.sourcePeerId
    && PyStr(Get(raw, "destination_peer_id")) == e.destinationPeerId
    && PyStr(Get(raw, "payload_type")) == e.payloadType
    && PayloadOf(Get(raw, "payload_b64")) == Ok(e.payload)
    && Get(raw, "created_at_ms") == Some(Int(e.createdAtMs)) && Get(raw, "ttl_ms") == Some(Int(e.ttlMs))
    && PriorityOf(PyStr(Get(raw, "priority"))) == Some(e.priority)
    && Get(raw, "ack_required") == Some(Bool(e.ackRequired)) && Get(raw, "hop_limit") == Some(Int(e.hopLimit))
  }

  lemma DecodesAsRead(raw: Fields, e: Envelope)
    requires ReadsAs(raw, e) && e.Valid()
    ensures EnvelopeOf(raw) == Ok(e)
  {
    assert EnvelopeDraft(raw) == Ok(e);
    assert e.Checked() == Ok(e);
  }

  /** What any dictionary decodes to: its entries, if each is one that can be read and the envelope is valid. */
  lemma DecodesExactly(raw: Fields, e: Envelope)
    ensures EnvelopeOf(raw) == Ok(e) <==> ReadsAs(raw, e) && e.Valid()
  {
    if EnvelopeOf(raw) == Ok(e) {
      DraftReadsAs(raw, e);
    }
    if ReadsAs(raw, e) && e.Valid() {
      DecodesAsRead(raw, e);
    }
  }

  lemma DescribedReadsAs(raw: Fields, e: Envelope)
    requires Describes(raw, e)
    ensures ReadsAs(raw, e)
  {
    Base64.DecodeEncode(e.payload);
    PriorityRoundTrip(e.priority);
  }

  lemma DescribedReadsBack(raw: Fields, e: Envelope)
    requires Describes(raw, e) && e.Valid()
    ensures EnvelopeOf(raw) == Ok(e)
  {
    DescribedReadsAs(raw, e);
    DecodesAsRead(raw, e);
  }

  /** A valid envelope survives its trip through the dictionary form. */
  lemma EnvelopeRoundTrip(e: Envelope)
    requires e.Valid()
    ensures EnvelopeOf(EnvelopeFields(e)) == Ok(e)
  {
    FieldsDescribe(e);
    DescribedReadsBack(EnvelopeFields(e), e);
  }

  lemma DescribedOnce(raw: Fields, a: Envelope, b: Envelope)
    requires Describes(raw, a) && Describes(raw, b)
    ensures a == b
  {
    Base64.DecodeEncode(a.payload);
    Base64.DecodeEncode(b.payload);
    PriorityRoundTrip(a.priority);
    PriorityRoundTrip(b.priority);
  }

  /** The dictionary form determines the envelope, valid or not. */
  lemma EnvelopeFieldsInjective(a: Envelope, b: Envelope)
    ensures EnvelopeFields(a) == EnvelopeFields(b) <==> a == b
  {
    if EnvelopeFields(a) == EnvelopeFields(b) {
      FieldsDescribe(a);
      FieldsDescribe(b);
      DescribedOnce(EnvelopeFields(a), a, b);
    }
  }

  // ---------------------------------------------------------------- decoding, then encoding

  const ENVELOPE_KEYS := {
    "schema", "message_id", "source_peer_id", "destination_peer_id", "payload_type", "payload_b64",
    "created_at_ms", "ttl_ms", "priority", "ack_required", "hop_limit"
  }

  predicate IsText(raw: Fields, key: string) {
    key in raw && raw[key].Str?
  }

  /** A dictionary in the form that encoding gives: no other entry, nothing to coerce, canonical base64. */
  predicate CanonicalFields(raw: Fields) {
    && raw.Keys == ENVELOPE_KEYS
    && IsText(raw, "schema") && IsText(raw, "message_id") && IsText(raw, "source_peer_id")
    && IsText(raw, "destination_peer_id") && IsText(raw, "payload_type") && IsText(raw, "priority")
    && IsText(raw, "payload_b64") && Base64.Canonical(raw["payload_b64"].text)
  }

  lemma EncodedKeys(e: Envelope)
    ensures EnvelopeFields(e).Keys == ENVELOPE_KEYS
  {
  }

  lemma PriorityTextOf(text: string)
    ensures PriorityOf(text).Some? ==> PriorityText(PriorityOf(text).value) == text
  {
  }

  /** What a decoded dictionary says, entry by entry, when its texts are texts. */
  lemma DraftDescribed(raw: Fields, e: Envelope)
    requires EnvelopeDraft(raw) == Ok(e) && CanonicalFields(raw)
    ensures Describes(raw, e)
  {
    Base64.CanonicalExactly(raw["payload_b64"].text);
    PriorityTextOf(raw["priority"].text);
    DraftReadsAs(raw, e);
  }

  lemma DraftReadsAs(raw: Fields, e: Envelope)
    requires EnvelopeDraft(raw) == Ok(e)
    ensures ReadsAs(raw, e)
  {
  }

  lemma DescribedIsEncoded(raw: Fields, e: Envelope)
    requires Describes(raw, e) && raw.Keys == ENVELOPE_KEYS
    ensures raw == EnvelopeFields(e)
  {
    var fields := EnvelopeFields(e);
    FieldsDescribe(e);
    EncodedKeys(e);
    forall key | key in raw ensures raw[key] == fields[key] {
      assert Get(raw, key) == Get(fields, key);
    }
  }

  lemma EncodedIsCanonical(e: Envelope)
    ensures CanonicalFields(EnvelopeFields(e))
  {
    EncodedKeys(e);
    Base64.EncodeIsCanonical(e.payload);
  }

  /** Encoding undoes decoding exactly for the dictionaries in canonical form. */
  lemma DecodedReadsBack(raw: Fields)
    requires EnvelopeOf(raw).Ok?
    ensures EnvelopeFields(EnvelopeOf(raw).value) == raw <==> CanonicalFields(raw)
  {
    var e := EnvelopeOf(raw).value;
    if CanonicalFields(raw) {
      DraftDescribed(raw, e);
      DescribedIsEncoded(raw, e);
    }
    EncodedIsCanonical(e);
  }

  /** The same entries but for one key. */
  ghost predicate SameBut(key: string, raw: Fields, fields: Fields) {
    forall k :: k != key ==> Get(raw, k) == Get(fields, k)
  }

  lemma OneEntryReplaced(fields: Fields, key: string, value: Value)
    ensures SameBut(key, fields[key := value], fields) && Get(fields[key := value], key) == Some(value)
  {
  }

  lemma IdReadsAs(raw: Fields, fields: Fields, e: Envelope, value: Option<Value>)
    requires Describes(fields, e) && SameBut("message_id", raw, fields) && Get(raw, "message_id") == value
    ensures ReadsAs(raw, e.(messageId := PyStr(value)))
  {
    DescribedReadsAs(fields, e);
  }

  lemma PayloadReadsAs(raw: Fields, fields: Fields, e: Envelope, text: string, payload: Bytes)
    requires Describes(fields, e) && SameBut("payload_b64", raw, fields)
    requires Get(raw, "payload_b64") == Some(Str(text)) && Base64.Decode(text) == Some(payload)
    ensures ReadsAs(raw, e.(payload := payload))
  {
    DescribedReadsAs(fields, e);
  }

  /** A number where an id is expected is coerced to text: the dictionary decodes and does not come back. */
  lemma CoercedIdIsLost(e: Envelope)
    requires e.Valid()
    ensures var raw := EnvelopeFields(e)["message_id" := Int(7)];
            EnvelopeOf(raw) == Ok(e.(messageId := "7")) && EnvelopeFields(e.(messageId := "7")) != raw
  {
    assert Decimal(7) == "7";
    OneEntryReplaced(EnvelopeFields(e), "message_id", Int(7));
    IdDecodes(EnvelopeFields(e)["message_id" := Int(7)], e, Some(Int(7)));
    EncodedIsCanonical(e.(messageId := "7"));
  }

  /** An absent id is read as the text "None", which is a valid id. */
  lemma AbsentIdIsNone(e: Envelope)
    requires e.Valid()
    ensures EnvelopeOf(EnvelopeFields(e) - {"message_id"}) == Ok(e.(messageId := "None"))
  {
    OneEntryRemoved(EnvelopeFields(e), "message_id");
    NoneIsId();
    IdDecodes(EnvelopeFields(e) - {"message_id"}, e, None);
  }

  lemma NoneIsId()
    ensures ValidId("None") && PyStr(None) == "None"
  {
  }

  lemma OneEntryRemoved(fields: Fields, key: string)
    ensures SameBut(key, fields - {key}, fields) && Get(fields - {key}, key) == None
  {
  }

  lemma IdDecodes(raw: Fields, e: Envelope, value: Option<Value>)
    requires e.Valid() && SameBut("message_id", raw, EnvelopeFields(e)) && Get(raw, "message_id") == value
    requires ValidId(PyStr(value))
    ensures EnvelopeOf(raw) == Ok(e.(messageId := PyStr(value)))
  {
    FieldsDescribe(e);
    IdReadsAs(raw, EnvelopeFields(e), e, value);
    DecodesAsRead(raw, e.(messageId := PyStr(value)));
  }

  /** So is base64 with spare bits or spare padding: it decodes, and another text comes back. */
  lemma TolerantPayloadIsLost(e: Envelope)
    requires e.Valid()
    ensures var spareBits := EnvelopeFields(e)["payload_b64" := Str("QR==")];
            EnvelopeOf(spareBits) == Ok(e.(payload := [65])) && EnvelopeFields(e.(payload := [65])) != spareBits
    ensures var sparePadding := EnvelopeFields(e)["payload_b64" := Str("QUJD=")];
            && EnvelopeOf(sparePadding) == Ok(e.(payload := [65, 66, 67]))
            && EnvelopeFields(e.(payload := [65, 66, 67])) != sparePadding
  {
    Base64.SpareBitsDecode();
    Base64.SparePaddingDecodes();
    PayloadReplaced(e, "QR==", [65]);
    PayloadReplaced(e, "QUJD=", [65, 66, 67]);
  }

  lemma PayloadReplaced(e: Envelope, text: string, payload: Bytes)
    requires e.Valid() && payload != [] && Base64.Decode(text) == Some(payload) && Base64.Encode(payload) != text
    ensures var raw := EnvelopeFields(e)["payload_b64" := Str(text)];
            EnvelopeOf(raw) == Ok(e.(payload := payload)) && EnvelopeFields(e.(payload := payload)) != raw
  {
    var fields := EnvelopeFields(e);
    var raw := fields["payload_b64" := Str(text)];
    FieldsDescribe(e);
    OneEntryReplaced(fields, "payload_b64", Str(text));
    PayloadReadsAs(raw, fields, e, text, payload);
    DecodesAsRead(raw, e.(payload := payload));
    FieldsDescribe(e.(payload := payload));
  }

  // ---------------------------------------------------------------- fingerprints

  function Fingerprint(c: Crypto, e: Envelope): string {
    c.sha256(CanonicalBytes(EnvelopeFields(e)))
  }

  /** Two fingerprints agree exactly when the envelopes do. */
  lemma FingerprintExact(c: Crypto, a: Envelope, b: Envelope)
    requires InjectiveHash(c)
    ensures Fingerprint(c, a) == Fingerprint(c, b) <==> a == b
  {
    CanonicalInjective(EnvelopeFields(a), EnvelopeFields(b));
    EnvelopeFieldsInjective(a, b);
  }

  // ---------------------------------------------------------------- peers

  predicate Blank(s: string) {
    forall i | 0 <= i < |s| :: IsSpace(s[i])
  }

  predicate Between(s: string, t: string, i: nat, j: nat) {
    i <= j <= |s| && t == s[i..j] && Blank(s[..i]) && Blank(s[j..])
  }

  /** `t` is what is left of `s` without the blanks at both ends. */
  ghost predicate Stripped(s: string, t: string) {
    && (exists i: nat, j: nat :: Between(s, t, i, j))
    && (t != [] ==> !IsSpace(t[0]) && !IsSpace(t[|t| - 1]))
  }

  lemma {:induction false} LeftCut(s: string) returns (i: nat)
    ensures i <= |s| && StripLeft(s) == s[i..] && Blank(s[..i]) && (i < |s| ==> !IsSpace(s[i]))
  {
    if s != [] && IsSpace(s[0]) {
      var k := LeftCut(s[1..]);
      i := k + 1;
      assert s[..i] == [s[0]] + s[1..][..k];
    } else {
      i := 0;
    }
  }

  lemma {:induction false} RightCut(s: string) returns (j: nat)
    ensures j <= |s| && StripRight(s) == s[..j] && Blank(s[j..]) && (j > 0 ==> !IsSpace(s[j - 1]))
  {
    var last := |s| - 1;
    if s != [] && IsSpace(s[last]) {
      j := RightCut(s[..last]);
      assert s[j..] == s[..last][j..] + [s[last]];
    } else {
      j := |s|;
    }
  }

  /** Stripping leaves exactly the part between the blanks at both ends. */
  lemma StripExactly(s: string, t: string)
    ensures t == Strip(s) <==> Stripped(s, t)
  {
    var i := LeftCut(s);
    var j := RightCut(s[i..]);
    assert Strip(s) == s[i..i + j] && Blank(s[..i]);
    assert s[i..][j..] == s[i + j..];
    assert Between(s, Strip(s), i, i + j);
    assert Strip(s) != [] ==> s[i] == Strip(s)[0];
    if Stripped(s, t) {
      OneStrip(s, t, Strip(s));
    }
  }

  lemma OneStrip(s: string, t: string, u: string)
    requires Stripped(s, t) && Stripped(s, u)
    ensures t == u
  {
    var i: nat, j: nat :| Between(s, t, i, j);
    var p: nat, q: nat :| Between(s, u, p, q);
    EndsWithin(s, t, i, j, p, q);
    EndsWithin(s, u, p, q, i, j);
  }

  lemma EndsWithin(s: string, t: string, i: nat, j: nat, p: nat, q: nat)
    requires i <= j <= |s| && t == s[i..j] && (t != [] ==> !IsSpace(t[0]) && !IsSpace(t[|t| - 1]))
    requires p <= q <= |s| && Blank(s[..p]) && Blank(s[q..])
    ensures t != [] ==> p <= i && j <= q
  {
    if t != [] {
      SolidWithin(s, i, p, q);
      SolidWithin(s, j - 1, p, q);
    }
  }

  lemma SolidWithin(s: string, k: nat, i: nat, j: nat)
    requires k < |s| && !IsSpace(s[k]) && i <= j <= |s| && Blank(s[..i]) && Blank(s[j..])
    ensures i <= k < j
  {
    forall x | 0 <= x < i ensures IsSpace(s[x]) {
      assert s[..i][x] == s[x];
    }
    forall x | j <= x < |s| ensures IsSpace(s[x]) {
      assert s[j..][x - j] == s[x];
    }
  }

  /** A peer id is text with, between blanks, 1 to 128 letters, digits and `-.:_`, by code point. */
  lemma PeerIdExactly(v: Option<Value>, peer: string)
    ensures PeerId(v) == Ok(peer) <==>
              && v.Some? && v.value.Str? && Stripped(v.value.text, peer) && 1 <= |peer| <= 128
              && forall i | 0 <= i < |peer| :: IsAlnumCode(peer[i] as nat) || peer[i] as nat in {45, 46, 58, 95}
  {
    if v.Some? && v.value.Str? {
      StripExactly(v.value.text, peer);
      PeerTextExactly(v.value.text, peer);
    }
  }

  lemma PeerTextExactly(text: string, peer: string)
    ensures PeerId(Some(Str(text))) == Ok(peer) <==>
              && peer == Strip(text) && 1 <= |peer| <= 128
              && forall i | 0 <= i < |peer| :: IsAlnumCode(peer[i] as nat) || peer[i] as nat in {45, 46, 58, 95}
  {
    IdCharsExactly();
  }

  lemma IdNeverStripped(s: string)
    requires ValidId(s)
    ensures Strip(s) == s && IsAscii(s)
  {
    assert IsIdChar(s[0]) && IsIdChar(s[|s| - 1]);
  }

  /** The peer whose secret is looked up is the envelope's own source, though the lookup strips. */
  lemma LookupMatchesSource(frame: Fields, peer: string, e: Envelope)
    requires SourcePeer(frame) == Ok(peer) && CarriedEnvelope(frame) == Ok(e)
    ensures peer == e.sourcePeerId
  {
    var raw := frame["envelope"].fields;
    DecodedSource(raw, e);
    PeerIdOfValidId(e.sourcePeerId);
  }

  /** A source id that both the decoder and the lookup accept is text. */
  lemma DecodedSource(raw: Fields, e: Envelope)
    requires EnvelopeOf(raw) == Ok(e) && PeerId(Get(raw, "source_peer_id")).Ok?
    ensures e.Valid() && Get(raw, "source_peer_id") == Some(Str(e.sourcePeerId))
  {
  }

  lemma PeerIdOfValidId(s: string)
    requires ValidId(s)
    ensures PeerId(Some(Str(s))) == Ok(s)
  {
    IdNeverStripped(s);
  }

  lemma SourcePeerOfDelivery(frame: Fields, e: Envelope)
    requires e.Valid() && Get(frame, "envelope") == Some(Obj(EnvelopeFields(e)))
    ensures SourcePeer(frame) == Ok(e.sourcePeerId)
  {
    PeerIdOfValidId(e.sourcePeerId);
    FieldsDescribe(e);
  }

  // ---------------------------------------------------------------- signatures

  lemma UnsignedSigned(c: Crypto, unsigned: Fields, secret: Bytes)
    requires "signature" !in unsigned
    ensures Unsigned(Signed(c, unsigned, secret)) == unsigned
    ensures TagVerifies(c, Signed(c, unsigned, secret), secret)
  {
    assert Unsigned(Signed(c, unsigned, secret)) == unsigned;
  }

  lemma SignedGets(c: Crypto, unsigned: Fields, secret: Bytes)
    ensures forall key | key != "signature" :: Get(Signed(c, unsigned, secret), key) == Get(unsigned, key)
  {
  }

  /** The frame has the schema, the kind and no authority, and the tag of all its other content under the secret. */
  ghost predicate SignedAs(c: Crypto, frame: Fields, secret: Bytes, kind: string) {
    && Get(frame, "schema") == Some(Str("velvet.communications.local_ip.v1"))
    && Get(frame, "kind") == Some(Str(kind)) && Get(frame, "authority") == Some(Str("none"))
    && var tag := c.hmac(secret, CanonicalBytes(frame - {"signature"}));
       |tag| == 64 && Get(frame, "signature") == Some(Str(tag))
  }

  lemma ValidatesSigned(c: Crypto, frame: Fields, secret: Bytes, kind: string)
    ensures ValidateSigned(c, frame, secret, kind).Pass? <==> SignedAs(c, frame, secret, kind)
  {
  }

  /** With its own tag as signature, content of the schema and without authority validates for its kind and no other. */
  lemma SignedValidates(c: Crypto, unsigned: Fields, secret: Bytes, kind: string)
    requires TagsAreHex(c) && "signature" !in unsigned
    requires Get(unsigned, "schema") == Some(Str(SCHEMA)) && Get(unsigned, "authority") == Some(Str("none"))
    ensures Signed(c, unsigned, secret) == unsigned["signature" := Str(c.hmac(secret, CanonicalBytes(unsigned)))]
    ensures ValidateSigned(c, unsigned["signature" := Str(c.hmac(secret, CanonicalBytes(unsigned)))], secret, kind).Pass?
       <==> Get(unsigned, "kind") == Some(Str(kind))
  {
    UnsignedSigned(c, unsigned, secret);
    assert IsHexText(Signature(c, unsigned, secret), SIGNATURE_CHARS);
    SignedGets(c, unsigned, secret);
  }

  /** A frame that validates under a secret and kind was signed for exactly its own content. */
  lemma ValidatedMeans(c: Crypto, frame: Fields, secret: Bytes, kind: string)
    requires ValidateSigned(c, frame, secret, kind).Pass?
    ensures TagVerifies(c, frame, secret) && Get(Unsigned(frame), "kind") == Some(Str(kind))
    ensures Get(frame, "schema") == Some(Str(SCHEMA)) && Get(frame, "authority") == Some(Str("none"))
    ensures frame == Signed(c, Unsigned(frame), secret)
    ensures forall key | key != "signature" :: Get(frame, key) == Get(Unsigned(frame), key)
  {
  }

  /** A tag covers the secret and every entry: a frame that carries a tag and validates is what the tag was made for. */
  lemma TagCoversContent(c: Crypto, frame: Fields, secret: Bytes, kind: string, signer: Bytes, content: Fields)
    requires InjectiveTags(c)
    requires Get(frame, "signature") == Some(Str(c.hmac(signer, CanonicalBytes(content))))
    requires ValidateSigned(c, frame, secret, kind).Pass?
    ensures secret == signer && frame - {"signature"} == content
  {
    ValidatesSigned(c, frame, secret, kind);
    CanonicalInjective(frame - {"signature"}, content);
  }

  /** An honest frame with any entry replaced or added, its tag left as it was, validates for nobody. */
  lemma AlteredFrameFails(c: Crypto, unsigned: Fields, secret: Bytes, key: string, value: Value,
                          reader: Bytes, kind: string)
    requires InjectiveTags(c) && "signature" !in unsigned && key != "signature" && Get(unsigned, key) != Some(value)
    ensures ValidateSigned(c, Signed(c, unsigned, secret)[key := value], reader, kind).Fail?
  {
    var frame := Signed(c, unsigned, secret)[key := value];
    assert Get(frame - {"signature"}, key) == Some(value);
    if ValidateSigned(c, frame, reader, kind).Pass? {
      TagCoversContent(c, frame, reader, kind, secret, unsigned);
    }
  }

  /** In particular a delivery cannot be given another envelope. */
  lemma SwappedEnvelopeFails(c: Crypto, e: Envelope, other: Envelope, nonce: string, sentAtMs: int, secret: Bytes,
                             policy: DeliveryPolicy, clock: Clock)
    requires InjectiveTags(c) && other != e
    requires |c.hmac(secret, CanonicalBytes(DeliveryUnsigned(e, nonce, sentAtMs)))| == 64
    ensures ValidateDelivery(c, DeliveryFrame(c, e, nonce, sentAtMs, secret)["envelope" := Obj(EnvelopeFields(other))],
                             secret, policy, clock) == Err("local-IP signature mismatch")
  {
    var unsigned := DeliveryUnsigned(e, nonce, sentAtMs);
    var frame := DeliveryFrame(c, e, nonce, sentAtMs, secret)["envelope" := Obj(EnvelopeFields(other))];
    DeliveryFields(e, nonce, sentAtMs);
    EnvelopeFieldsInjective(e, other);
    AlteredFrameFails(c, unsigned, secret, "envelope", Obj(EnvelopeFields(other)), secret, "delivery");
    SignedGets(c, unsigned, secret);
    MismatchIsReported(c, frame, secret, "delivery");
  }

  lemma MismatchIsReported(c: Crypto, frame: Fields, secret: Bytes, kind: string)
    requires ValidateSigned(c, frame, secret, kind).Fail?
    requires Get(frame, "schema") == Some(Str(SCHEMA)) && Get(frame, "kind") == Some(Str(kind))
    requires Get(frame, "authority") == Some(Str("none"))
    requires Get(frame, "signature").Some? && frame["signature"].Str? && |frame["signature"].text| == 64
    ensures ValidateSigned(c, frame, secret, kind) == Fail("local-IP signature mismatch")
  {
  }

  // ---------------------------------------------------------------- deliveries

  ghost predicate DeliveryInTime(e: Envelope, sentAtMs: int, policy: DeliveryPolicy, clock: Clock) {
    && sentAtMs >= 0
    && -policy.maxClockSkewMs <= clock.skewNowMs - sentAtMs <= policy.maxClockSkewMs
    && e.destinationPeerId == policy.destination
    && |e.payload| <= policy.maxPayloadBytes
    && clock.expiryNowMs < e.createdAtMs + e.ttlMs
  }

  lemma DeliveryFields(e: Envelope, nonce: string, sentAtMs: int)
    ensures var f := DeliveryUnsigned(e, nonce, sentAtMs);
            && Get(f, "schema") == Some(Str(SCHEMA)) && Get(f, "authority") == Some(Str("none"))
            && Get(f, "kind") == Some(Str("delivery")) && "signature" !in f
            && Get(f, "nonce") == Some(Str(nonce))
            && Get(f, "sent_at_ms") == Some(Int(sentAtMs))
            && Get(f, "envelope") == Some(Obj(EnvelopeFields(e)))
  {
  }

  /** What any receiver sees in an honest delivery frame. */
  lemma DeliveryFrameFields(c: Crypto, e: Envelope, nonce: string, sentAtMs: int, secret: Bytes)
    requires TagsAreHex(c) && e.Valid()
    ensures var frame := DeliveryFrame(c, e, nonce, sentAtMs, secret);
            && ValidateSigned(c, frame, secret, "delivery").Pass?
            && Get(frame, "nonce") == Some(Str(nonce))
            && Get(frame, "sent_at_ms") == Some(Int(sentAtMs))
            && CarriedEnvelope(frame) == Ok(e)
            && SourcePeer(frame) == Ok(e.sourcePeerId)
  {
    var unsigned := DeliveryUnsigned(e, nonce, sentAtMs);
    var frame := Signed(c, unsigned, secret);
    DeliveryFields(e, nonce, sentAtMs);
    SignedValidates(c, unsigned, secret, "delivery");
    SignedGets(c, unsigned, secret);
    CarriedEnvelopeRoundTrip(frame, e);
    SourcePeerOfDelivery(frame, e);
  }

  /** In this order: the time of sending, the clock window, the destination, the size, the lifetime. */
  ghost function DeliveryVerdict(e: Envelope, nonce: string, sentAtMs: int, policy: DeliveryPolicy, clock: Clock)
    : Result<(Envelope, string)>
  {
    var skew := clock.skewNowMs - sentAtMs;
    if sentAtMs < 0 then Err("delivery sent_at_ms is invalid")
    else if skew > policy.maxClockSkewMs || -skew > policy.maxClockSkewMs
    then Err("delivery timestamp is outside allowed clock skew")
    else if e.destinationPeerId != policy.destination then Err("delivery destination does not match this peer")
    else if |e.payload| > policy.maxPayloadBytes then Err("delivery payload exceeds receiver limit")
    else if clock.expiryNowMs >= e.createdAtMs + e.ttlMs then Err("delivery envelope is expired")
    else Ok((e, nonce))
  }

  lemma DeliveryReads(frame: Fields, e: Envelope, nonce: string, sentAtMs: int, policy: DeliveryPolicy, clock: Clock)
    requires ValidNonce(nonce) && Get(frame, "nonce") == Some(Str(nonce))
    requires Get(frame, "sent_at_ms") == Some(Int(sentAtMs)) && CarriedEnvelope(frame) == Ok(e)
    ensures ReadDelivery(frame, policy, clock) == DeliveryVerdict(e, nonce, sentAtMs, policy, clock)
  {
    NonceReadsBack(nonce);
    SentAtVerdict(sentAtMs, policy, clock);
    AdmissionVerdict(e, policy, clock);
    ReadsInOrder(frame, policy, clock, e, nonce);
  }

  lemma SentAtVerdict(sentAtMs: int, policy: DeliveryPolicy, clock: Clock)
    ensures var skew := clock.skewNowMs - sentAtMs;
            CheckSentAt(Some(Int(sentAtMs)), policy, clock)
            == if sentAtMs < 0 then Fail("delivery sent_at_ms is invalid")
               else if skew > policy.maxClockSkewMs || -skew > policy.maxClockSkewMs
               then Fail("delivery timestamp is outside allowed clock skew")
               else Pass
  {
  }

  lemma AdmissionVerdict(e: Envelope, policy: DeliveryPolicy, clock: Clock)
    ensures CheckAdmissible(e, policy, clock)
         == if e.destinationPeerId != policy.destination then Fail("delivery destination does not match this peer")
            else if |e.payload| > policy.maxPayloadBytes then Fail("delivery payload exceeds receiver limit")
            else if clock.expiryNowMs >= e.createdAtMs + e.ttlMs then Fail("delivery envelope is expired")
            else Pass
  {
  }

  function AsResult<T>(check: Check, value: T): Result<T> {
    if check.Fail? then Err(check.reason) else Ok(value)
  }

  lemma ReadsInOrder(frame: Fields, policy: DeliveryPolicy, clock: Clock, e: Envelope, nonce: string)
    requires NonceOf(Get(frame, "nonce")) == Ok(nonce) && CarriedEnvelope(frame) == Ok(e)
    ensures ReadDelivery(frame, policy, clock)
         == var sentAt := CheckSentAt(Get(frame, "sent_at_ms"), policy, clock);
            AsResult(if sentAt.Fail? then sentAt else CheckAdmissible(e, policy, clock), (e, nonce))
  {
  }

  lemma DeliveryRead(frame: Fields, e: Envelope, nonce: string, sentAtMs: int, policy: DeliveryPolicy, clock: Clock)
    requires ValidNonce(nonce) && Get(frame, "nonce") == Some(Str(nonce))
    requires Get(frame, "sent_at_ms") == Some(Int(sentAtMs)) && CarriedEnvelope(frame) == Ok(e)
    ensures var r := ReadDelivery(frame, policy, clock);
            && (r.Ok? <==> DeliveryInTime(e, sentAtMs, policy, clock))
            && (r.Ok? ==> r.value == (e, nonce))
  {
    DeliveryReads(frame, e, nonce, sentAtMs, policy, clock);
  }

  lemma NonceReadsBack(nonce: string)
    requires ValidNonce(nonce)
    ensures NonceOf(Some(Str(nonce))) == Ok(nonce)
  {
  }

  lemma InTimeChecks(e: Envelope, sentAtMs: int, policy: DeliveryPolicy, clock: Clock)
    ensures DeliveryInTime(e, sentAtMs, policy, clock)
       <==> CheckSentAt(Some(Int(sentAtMs)), policy, clock).Pass? && CheckAdmissible(e, policy, clock).Pass?
  {
  }

  lemma CarriedEnvelopeRoundTrip(frame: Fields, e: Envelope)
    requires e.Valid() && Get(frame, "envelope") == Some(Obj(EnvelopeFields(e)))
    ensures CarriedEnvelope(frame) == Ok(e)
  {
    EnvelopeRoundTrip(e);
  }

  /** An honest delivery validates exactly when it is in time, addressed here and small enough. */
  lemma DeliveryValidates(c: Crypto, e: Envelope, nonce: string, sentAtMs: int, secret: Bytes,
                          policy: DeliveryPolicy, clock: Clock)
    requires TagsAreHex(c) && e.Valid() && ValidNonce(nonce)
    ensures var r := ValidateDelivery(c, DeliveryFrame(c, e, nonce, sentAtMs, secret), secret, policy, clock);
            && (r.Ok? <==> DeliveryInTime(e, sentAtMs, policy, clock))
            && (r.Ok? ==> r.value == (e, nonce))
  {
    var frame := DeliveryFrame(c, e, nonce, sentAtMs, secret);
    DeliveryFrameFields(c, e, nonce, sentAtMs, secret);
    DeliveryRead(frame, e, nonce, sentAtMs, policy, clock);
  }

  /** Why an honest delivery is refused: the first of these that applies, in this order. */
  lemma DeliveryRefusedBecause(c: Crypto, e: Envelope, nonce: string, sentAtMs: int, secret: Bytes,
                               policy: DeliveryPolicy, clock: Clock)
    requires TagsAreHex(c) && e.Valid() && ValidNonce(nonce)
    ensures ValidateDelivery(c, DeliveryFrame(c, e, nonce, sentAtMs, secret), secret, policy, clock)
         == DeliveryVerdict(e, nonce, sentAtMs, policy, clock)
  {
    var frame := DeliveryFrame(c, e, nonce, sentAtMs, secret);
    DeliveryFrameFields(c, e, nonce, sentAtMs, secret);
    DeliveryReads(frame, e, nonce, sentAtMs, policy, clock);
  }

  /** What any frame must be to validate as a delivery of an envelope with a nonce. */
  lemma ValidatesExactly(c: Crypto, frame: Fields, secret: Bytes, policy: DeliveryPolicy, clock: Clock,
                         e: Envelope, nonce: string)
    ensures ValidateDelivery(c, frame, secret, policy, clock) == Ok((e, nonce)) <==>
              && SignedAs(c, frame, secret, "delivery")
              && Get(frame, "nonce") == Some(Str(nonce))
              && 1 <= |nonce| <= 128 && (forall i | 0 <= i < |nonce| :: 33 <= nonce[i] as nat <= 127)
              && (exists sentAtMs :: Get(frame, "sent_at_ms") == Some(Int(sentAtMs))
                                     && DeliveryInTime(e, sentAtMs, policy, clock))
              && (exists raw :: Get(frame, "envelope") == Some(Obj(raw)) && ReadsAs(raw, e)) && e.Valid()
  {
    ValidatesSigned(c, frame, secret, "delivery");
    CarriesExactly(frame, e);
    AdmitsExactly(Get(frame, "sent_at_ms"), e, policy, clock);
    NonceExactly(Get(frame, "nonce"), nonce);
    ValidatesThenReads(c, frame, secret, policy, clock);
    ReadsExactly(frame, policy, clock, e, nonce);
  }

  lemma ValidatesThenReads(c: Crypto, frame: Fields, secret: Bytes, policy: DeliveryPolicy, clock: Clock)
    ensures if ValidateSigned(c, frame, secret, "delivery").Pass?
            then ValidateDelivery(c, frame, secret, policy, clock) == ReadDelivery(frame, policy, clock)
            else ValidateDelivery(c, frame, secret, policy, clock).Err?
  {
  }

  lemma NonceExactly(v: Option<Value>, nonce: string)
    ensures NonceOf(v) == Ok(nonce) <==>
              && v == Some(Str(nonce))
              && 1 <= |nonce| <= 128 && (forall i | 0 <= i < |nonce| :: 33 <= nonce[i] as nat <= 127)
  {
  }

  lemma ReadsExactly(frame: Fields, policy: DeliveryPolicy, clock: Clock, e: Envelope, nonce: string)
    ensures ReadDelivery(frame, policy, clock) == Ok((e, nonce)) <==>
              && NonceOf(Get(frame, "nonce")) == Ok(nonce)
              && CheckSentAt(Get(frame, "sent_at_ms"), policy, clock).Pass?
              && CarriedEnvelope(frame) == Ok(e) && CheckAdmissible(e, policy, clock).Pass?
  {
  }

  lemma CarriesExactly(frame: Fields, e: Envelope)
    ensures CarriedEnvelope(frame) == Ok(e) <==>
              (exists raw :: Get(frame, "envelope") == Some(Obj(raw)) && ReadsAs(raw, e)) && e.Valid()
  {
    match Get(frame, "envelope")
    case Some(Obj(raw)) => DecodesExactly(raw, e);
    case _ =>
  }

  lemma AdmitsExactly(v: Option<Value>, e: Envelope, policy: DeliveryPolicy, clock: Clock)
    ensures CheckSentAt(v, policy, clock).Pass? && CheckAdmissible(e, policy, clock).Pass?
       <==> exists sentAtMs :: v == Some(Int(sentAtMs)) && DeliveryInTime(e, sentAtMs, policy, clock)
  {
    match v
    case Some(Int(sentAtMs)) => InTimeChecks(e, sentAtMs, policy, clock);
    case _ =>
  }

  /** End to end: what a client puts on the wire is what the server's receive path yields. */
  lemma DeliveryOverTheWire(c: Crypto, e: Envelope, nonce: string, sentAtMs: int, secret: Bytes,
                            sendLimit: nat, receiveLimit: nat, rest: Bytes, policy: DeliveryPolicy, clock: Clock)
    requires TagsAreHex(c) && e.Valid() && ValidNonce(nonce)
    requires FrameBytes(DeliveryFrame(c, e, nonce, sentAtMs, secret), sendLimit).Ok?
    requires |CanonicalBytes(DeliveryFrame(c, e, nonce, sentAtMs, secret))| <= receiveLimit
    requires DeliveryInTime(e, sentAtMs, policy, clock)
    ensures var stream := FrameBytes(DeliveryFrame(c, e, nonce, sentAtMs, secret), sendLimit).value;
            var read := ReadFrame(stream + rest, receiveLimit);
            && read.Ok?
            && SourcePeer(read.value) == Ok(e.sourcePeerId)
            && ValidateDelivery(c, read.value, secret, policy, clock) == Ok((e, nonce))
            && forall cut: nat :: cut < |stream| ==> ReadFrame(stream[..cut], receiveLimit).Err?
  {
    var frame := DeliveryFrame(c, e, nonce, sentAtMs, secret);
    var stream := FrameBytes(frame, sendLimit).value;
    FrameRoundTrip(frame, sendLimit, receiveLimit, rest);
    DeliveryFrameFields(c, e, nonce, sentAtMs, secret);
    DeliveryValidates(c, e, nonce, sentAtMs, secret, policy, clock);
    forall cut: nat | cut < |stream| ensures ReadFrame(stream[..cut], receiveLimit).Err? {
      FramePrefixFails(frame, sendLimit, receiveLimit, cut);
    }
  }

  /** What a validated delivery guarantees. */
  lemma ValidDeliveryMeans(c: Crypto, frame: Fields, secret: Bytes, policy: DeliveryPolicy, clock: Clock)
    requires ValidateDelivery(c, frame, secret, policy, clock).Ok?
    ensures ValidateSigned(c, frame, secret, "delivery").Pass? && TagVerifies(c, frame, secret)
    ensures var (e, nonce) := ValidateDelivery(c, frame, secret, policy, clock).value;
            && CarriedEnvelope(frame) == Ok(e) && e.Valid()
            && e.destinationPeerId == policy.destination && |e.payload| <= policy.maxPayloadBytes
            && !e.IsExpired(clock.expiryNowMs)
            && Get(frame, "nonce") == Some(Str(nonce)) && ValidNonce(nonce)
  {
    assert ReadDelivery(frame, policy, clock).Ok?;
  }

  // ---------------------------------------------------------------- acknowledgements

  lemma AckFields(messageId: string, nonce: string, reply: Reply)
    ensures var f := ReplyAckUnsigned(messageId, nonce, reply);
            && Get(f, "schema") == Some(Str(SCHEMA)) && Get(f, "authority") == Some(Str("none"))
            && Get(f, "kind") == Some(Str("ack")) && "signature" !in f
            && Get(f, "message_id") == Some(Str(Take(messageId, 128)))
            && Get(f, "request_nonce") == Some(Str(Take(nonce, 128)))
            && Get(f, "accepted") == Some(Bool(reply.accepted))
            && Get(f, "detail") == Some(Str(Take(reply.detail, MAX_DETAIL_CHARS)))
            && Get(f, "reply_payload_b64") == Some(Str(Base64.Encode(reply.payload)))
  {
  }

  lemma PlainAckFields(messageId: string, nonce: string, accepted: bool, detail: string)
    ensures var f := AckUnsigned(messageId, nonce, accepted, detail);
            && Get(f, "schema") == Some(Str(SCHEMA)) && Get(f, "authority") == Some(Str("none"))
            && Get(f, "kind") == Some(Str("ack")) && "signature" !in f
            && Get(f, "message_id") == Some(Str(Take(messageId, 128)))
            && Get(f, "request_nonce") == Some(Str(Take(nonce, 128)))
            && Get(f, "accepted") == Some(Bool(accepted))
            && Get(f, "detail") == Some(Str(Take(detail, MAX_DETAIL_CHARS)))
            && "reply_payload_b64" !in f
  {
  }

  ghost predicate AckAddressed(messageId: string, nonce: string, forId: string, forNonce: string) {
    Take(messageId, 128) == forId && Take(nonce, 128) == forNonce
  }

  /** The detail that an acknowledgement shows: none if it has no such entry, at most 256 characters of it. */
  ghost predicate ShowsDetail(frame: Fields, detail: string) {
    match Get(frame, "detail")
    case None => detail == ""
    case Some(Str(t)) => detail == if |t| <= 256 then t else t[..256]
    case Some(_) => false
  }

  /** The reply bytes that an acknowledgement carries: none if it has no such entry. */
  ghost predicate ShowsPayload(frame: Fields, payload: Bytes) {
    match Get(frame, "reply_payload_b64")
    case None => payload == []
    case Some(Str(t)) => Base64.Decode(t) == Some(payload)
    case Some(_) => false
  }

  /** Exactly which frames a plain client takes as its acknowledgement, and what it reads. */
  lemma AckExactly(c: Crypto, frame: Fields, secret: Bytes, forId: string, forNonce: string, accepted: bool, detail: string)
    ensures ValidateAck(c, frame, secret, forId, forNonce) == Ok((accepted, detail)) <==>
              && SignedAs(c, frame, secret, "ack")
              && Get(frame, "message_id") == Some(Str(forId)) && Get(frame, "request_nonce") == Some(Str(forNonce))
              && Get(frame, "accepted") == Some(Bool(accepted)) && ShowsDetail(frame, detail)
  {
    ValidatesSigned(c, frame, secret, "ack");
    OutcomeExactly(frame, forId, forNonce, accepted, detail);
  }

  lemma OutcomeExactly(frame: Fields, forId: string, forNonce: string, accepted: bool, detail: string)
    ensures AckOutcome(frame, forId, forNonce) == Ok((accepted, detail)) <==>
              && Get(frame, "message_id") == Some(Str(forId)) && Get(frame, "request_nonce") == Some(Str(forNonce))
              && Get(frame, "accepted") == Some(Bool(accepted)) && ShowsDetail(frame, detail)
  {
  }

  /** The same for a request/reply client: the reply bytes, none if there is no such entry, are within its limit. */
  lemma ReplyAckExactly(c: Crypto, frame: Fields, secret: Bytes, forId: string, forNonce: string, maxReplyBytes: nat,
                        reply: Reply)
    ensures ValidateReplyAck(c, frame, secret, forId, forNonce, maxReplyBytes) == Ok(reply) <==>
              && ValidateAck(c, frame, secret, forId, forNonce) == Ok((reply.accepted, reply.detail))
              && |reply.payload| <= maxReplyBytes
              && ShowsPayload(frame, reply.payload)
  {
    NoTextNoBytes();
    ReplyOutcomeExactly(frame, forId, forNonce, maxReplyBytes, reply);
  }

  lemma NoTextNoBytes()
    ensures Base64.Decode("") == Some([])
  {
    Base64.DecodeEncode([]);
    assert Base64.Encode([]) == "";
  }

  lemma ReplyOutcomeExactly(frame: Fields, forId: string, forNonce: string, maxReplyBytes: nat, reply: Reply)
    requires Base64.Decode("") == Some([])
    ensures ReplyAckOutcome(frame, forId, forNonce, maxReplyBytes) == Ok(reply) <==>
              && AckOutcome(frame, forId, forNonce) == Ok((reply.accepted, reply.detail))
              && |reply.payload| <= maxReplyBytes
              && ShowsPayload(frame, reply.payload)
  {
  }

  /** Either validator reads either signed ack format, and both read the same outcome. */
  lemma AckFormatsInteroperate(c: Crypto, messageId: string, nonce: string, reply: Reply, secret: Bytes,
                               forId: string, forNonce: string, maxReplyBytes: nat)
    requires TagsAreHex(c) && |reply.payload| <= maxReplyBytes
    ensures var rpc := Signed(c, ReplyAckUnsigned(messageId, nonce, reply), secret);
            var plain := Signed(c, AckUnsigned(messageId, nonce, reply.accepted, reply.detail), secret);
            var detail := Take(reply.detail, MAX_DETAIL_CHARS);
            var addressed := AckAddressed(messageId, nonce, forId, forNonce);
            && (ValidateReplyAck(c, rpc, secret, forId, forNonce, maxReplyBytes).Ok? <==> addressed)
            && (ValidateReplyAck(c, plain, secret, forId, forNonce, maxReplyBytes).Ok? <==> addressed)
            && (ValidateAck(c, rpc, secret, forId, forNonce).Ok? <==> addressed)
            && (ValidateAck(c, plain, secret, forId, forNonce).Ok? <==> addressed)
            && (addressed ==>
                  && ValidateReplyAck(c, rpc, secret, forId, forNonce, maxReplyBytes)
                     == Ok(Reply(reply.accepted, reply.payload, detail))
                  && ValidateReplyAck(c, plain, secret, forId, forNonce, maxReplyBytes)
                     == Ok(Reply(reply.accepted, [], detail))
                  && ValidateAck(c, rpc, secret, forId, forNonce) == Ok((reply.accepted, detail))
                  && ValidateAck(c, plain, secret, forId, forNonce) == Ok((reply.accepted, detail)))
  {
    RpcAckRead(c, messageId, nonce, reply, secret, forId, forNonce, maxReplyBytes);
    PlainAckRead(c, messageId, nonce, reply, secret, forId, forNonce, maxReplyBytes);
  }

  /** The part of an ack that both formats have, once its signature has been checked. */
  lemma OutcomeRead(frame: Fields, messageId: string, nonce: string, reply: Reply, forId: string, forNonce: string)
    requires Get(frame, "message_id") == Some(Str(Take(messageId, 128)))
    requires Get(frame, "request_nonce") == Some(Str(Take(nonce, 128)))
    requires Get(frame, "accepted") == Some(Bool(reply.accepted))
    requires Get(frame, "detail") == Some(Str(Take(reply.detail, MAX_DETAIL_CHARS)))
    ensures if AckAddressed(messageId, nonce, forId, forNonce)
            then AckOutcome(frame, forId, forNonce) == Ok((reply.accepted, Take(reply.detail, MAX_DETAIL_CHARS)))
            else AckOutcome(frame, forId, forNonce).Err?
  {
  }

  /** The reply bytes of an ack; an absent field reads as no bytes. */
  lemma PayloadRead(frame: Fields, forId: string, forNonce: string, maxReplyBytes: nat, payload: Bytes)
    requires Get(frame, "reply_payload_b64") == Some(Str(Base64.Encode(payload)))
          || (Get(frame, "reply_payload_b64") == None && payload == [])
    ensures var r := ReplyAckOutcome(frame, forId, forNonce, maxReplyBytes);
            match AckOutcome(frame, forId, forNonce)
            case Err(_) => r.Err?
            case Ok((accepted, detail)) =>
              if |payload| <= maxReplyBytes then r == Ok(Reply(accepted, payload, detail)) else r.Err?
  {
    Base64.DecodeEncode(payload);
    assert Base64.Encode([]) == "";
  }

  /** How an ack frame is read once its signature has been checked, given its fields. */
  lemma AckRead(frame: Fields, messageId: string, nonce: string, reply: Reply,
                forId: string, forNonce: string, maxReplyBytes: nat)
    requires |reply.payload| <= maxReplyBytes
    requires Get(frame, "message_id") == Some(Str(Take(messageId, 128)))
    requires Get(frame, "request_nonce") == Some(Str(Take(nonce, 128)))
    requires Get(frame, "accepted") == Some(Bool(reply.accepted))
    requires Get(frame, "detail") == Some(Str(Take(reply.detail, MAX_DETAIL_CHARS)))
    requires Get(frame, "reply_payload_b64") == Some(Str(Base64.Encode(reply.payload)))
          || (Get(frame, "reply_payload_b64") == None && reply.payload == [])
    ensures var detail := Take(reply.detail, MAX_DETAIL_CHARS);
            if AckAddressed(messageId, nonce, forId, forNonce) then
              && ReplyAckOutcome(frame, forId, forNonce, maxReplyBytes)
                 == Ok(Reply(reply.accepted, reply.payload, detail))
              && AckOutcome(frame, forId, forNonce) == Ok((reply.accepted, detail))
            else
              && ReplyAckOutcome(frame, forId, forNonce, maxReplyBytes).Err?
              && AckOutcome(frame, forId, forNonce).Err?
  {
    OutcomeRead(frame, messageId, nonce, reply, forId, forNonce);
    PayloadRead(frame, forId, forNonce, maxReplyBytes, reply.payload);
  }

  lemma RpcAckRead(c: Crypto, messageId: string, nonce: string, reply: Reply, secret: Bytes,
                   forId: string, forNonce: string, maxReplyBytes: nat)
    requires TagsAreHex(c) && |reply.payload| <= maxReplyBytes
    ensures var rpc := Signed(c, ReplyAckUnsigned(messageId, nonce, reply), secret);
            var detail := Take(reply.detail, MAX_DETAIL_CHARS);
            if AckAddressed(messageId, nonce, forId, forNonce) then
              && ValidateReplyAck(c, rpc, secret, forId, forNonce, maxReplyBytes)
                 == Ok(Reply(reply.accepted, reply.payload, detail))
              && ValidateAck(c, rpc, secret, forId, forNonce) == Ok((reply.accepted, detail))
            else
              && ValidateReplyAck(c, rpc, secret, forId, forNonce, maxReplyBytes).Err?
              && ValidateAck(c, rpc, secret, forId, forNonce).Err?
  {
    var unsigned := ReplyAckUnsigned(messageId, nonce, reply);
    AckFields(messageId, nonce, reply);
    SignedValidates(c, unsigned, secret, "ack");
    SignedGets(c, unsigned, secret);
    AckRead(Signed(c, unsigned, secret), messageId, nonce, reply, forId, forNonce, maxReplyBytes);
  }

  lemma PlainAckRead(c: Crypto, messageId: string, nonce: string, reply: Reply, secret: Bytes,
                     forId: string, forNonce: string, maxReplyBytes: nat)
    requires TagsAreHex(c)
    ensures var plain := Signed(c, AckUnsigned(messageId, nonce, reply.accepted, reply.detail), secret);
            var detail := Take(reply.detail, MAX_DETAIL_CHARS);
            if AckAddressed(messageId, nonce, forId, forNonce) then
              && ValidateReplyAck(c, plain, secret, forId, forNonce, maxReplyBytes)
                 == Ok(Reply(reply.accepted, [], detail))
              && ValidateAck(c, plain, secret, forId, forNonce) == Ok((reply.accepted, detail))
            else
              && ValidateReplyAck(c, plain, secret, forId, forNonce, maxReplyBytes).Err?
              && ValidateAck(c, plain, secret, forId, forNonce).Err?
  {
    var unsigned := AckUnsigned(messageId, nonce, reply.accepted, reply.detail);
    PlainAckFields(messageId, nonce, reply.accepted, reply.detail);
    SignedValidates(c, unsigned, secret, "ack");
    SignedGets(c, unsigned, secret);
    AckRead(Signed(c, unsigned, secret), messageId, nonce, reply.(payload := []),
            forId, forNonce, maxReplyBytes);
  }
}
