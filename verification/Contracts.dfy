/** Transport-neutral contracts: identifiers, envelopes, offers, plans and reports. */
module Contracts {

  newtype Byte = x: int | 0 <= x < 256
  type Bytes = seq<Byte>

  datatype Option<+T> = None | Some(value: T) {
    predicate IsFailure() {
      None?
    }

    function PropagateFailure<U>(): Option<U>
      requires None?
    {
      None
    }

    function Extract(): T
      requires Some?
    {
      value
    }
  }

  /** An exception of the source is an Err carrying the exception's message. */
  datatype Result<+T> = Ok(value: T) | Err(reason: string) {
    predicate IsFailure() {
      Err?
    }

    function PropagateFailure<U>(): Result<U>
      requires Err?
    {
      Err(reason)
    }

    function Extract(): T
      requires Ok?
    {
      value
    }
  }

  /** `if not condition: raise reason`, for use with `:-`. */
  datatype Check = Pass | Fail(reason: string) {
    predicate IsFailure() {
      Fail?
    }

    function PropagateFailure<U>(): Result<U>
      requires Fail?
    {
      Err(reason)
    }
  }

  function Need(condition: bool, reason: string): Check {
    if condition then Pass else Fail(reason)
  }

  /** No text occurs twice. */
  predicate Distinct(s: seq<string>) {
    forall i, j | 0 <= i < j < |s| :: s[i] != s[j]
  }

  const ENVELOPE_SCHEMA := "velvet.communications.v2v-envelope.v1"

  datatype TransportKind = Ip | LoraP2p | Meshtastic | Lorawan | Serial | Cellular | Other

  datatype Priority = Bulk | Normal | Important | Urgent

  function PriorityText(p: Priority): string {
    match p
    case Bulk => "bulk"
    case Normal => "normal"
    case Important => "important"
    case Urgent => "urgent"
  }

  function PriorityOf(text: string): Option<Priority> {
    if text == "bulk" then Some(Bulk)
    else if text == "normal" then Some(Normal)
    else if text == "important" then Some(Important)
    else if text == "urgent" then Some(Urgent)
    else None
  }

  predicate IsAlnum(c: char) {
    'A' <= c <= 'Z' || 'a' <= c <= 'z' || '0' <= c <= '9'
  }

  predicate IsIdChar(c: char) {
    IsAlnum(c) || c == '.' || c == '_' || c == ':' || c == '-'
  }

  /** An identifier: 1 to 128 identifier characters, the first one alphanumeric. */
  predicate ValidId(s: string) {
    && 1 <= |s| <= 128
    && IsAlnum(s[0])
    && forall i | 0 <= i < |s| :: IsIdChar(s[i])
  }

  /** By code point: letters and digits, and after the first character also - . : and _. */
  lemma IdExactly(s: string)
    ensures ValidId(s) <==>
              && 1 <= |s| <= 128 && IsAlnumCode(s[0] as nat)
              && forall i | 0 <= i < |s| :: IsAlnumCode(s[i] as nat) || s[i] as nat in {45, 46, 58, 95}
  {
    IdCharsExactly();
  }

  lemma IdCharsExactly()
    ensures forall c: char :: IsAlnum(c) <==> IsAlnumCode(c as nat)
    ensures forall c: char :: IsIdChar(c) <==> IsAlnumCode(c as nat) || c as nat in {45, 46, 58, 95}
  {
  }

  predicate IsAlnumCode(n: nat) {
    48 <= n <= 57 || 65 <= n <= 90 || 97 <= n <= 122
  }

  datatype Envelope = Envelope(
    messageId: string,
    sourcePeerId: string,
    destinationPeerId: string,
    payloadType: string,
    payload: Bytes,
    createdAtMs: int,
    ttlMs: int,
    priority: Priority,
    ackRequired: bool,
    hopLimit: int,
    schema: string
  ) {
    predicate Valid() {
      && ValidId(messageId)
      && ValidId(sourcePeerId)
      && ValidId(destinationPeerId)
      && ValidId(payloadType)
      && payload != []
      && createdAtMs >= 0
      && ttlMs >= 1
      && 0 <= hopLimit <= 32
    }

    function ExpiresAtMs(): int {
      createdAtMs + ttlMs
    }

    predicate IsExpired(nowMs: int): (expired: bool)
      ensures expired <==> nowMs - createdAtMs >= ttlMs
    {
      nowMs >= ExpiresAtMs()
    }

    /** The checks of construction, in the order in which they are made. */
    function Checked(): (r: Result<Envelope>)
      ensures r == Ok(this) <==> Valid()
      ensures r.Ok? ==> r.value == this
    {
      if !ValidId(messageId) then Err("invalid message_id") else
      :- Need(ValidId(sourcePeerId), "invalid source_peer_id");
      :- Need(ValidId(destinationPeerId), "invalid destination_peer_id");
      :- Need(ValidId(payloadType), "invalid payload_type");
      :- Need(payload != [], "payload must be non-empty bytes");
      :- Need(createdAtMs >= 0, "created_at_ms must be non-negative");
      :- Need(ttlMs >= 1, "ttl_ms must be positive");
      :- Need(0 <= hopLimit <= 32, "hop_limit must be between 0 and 32");
      Ok(this)
    }
  }

  datatype Offer = Offer(
    name: string,
    kind: TransportKind,
    available: bool,
    maxPayloadBytes: int,
    preference: int,
    protectedPath: bool,
    supportsAck: bool,
    supportsStoreAndForward: bool
  ) {
    predicate Valid() {
      ValidId(name) && maxPayloadBytes >= 1 && preference >= 0
    }
  }

  datatype Plan = Plan(messageId: string, transportName: string, transportKind: TransportKind, degraded: bool)
}
