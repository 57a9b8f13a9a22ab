/** Bounded, authority-free wake requests: their payload codec and their envelopes. */
module Wake {
  import opened Contracts
  import opened Text
  import opened Json

  const SCHEMA := "velvet.communications.wake_request.v1"
  const MAX_TTL_MS := 300000
  const MAX_REFS := 8
  const MAX_REF_CHARS := 160
  const MAX_SUMMARY_CHARS := 256
  const MAX_PAYLOAD_BYTES := 4096
  const HOP_LIMIT := 2

  datatype Reason =
    | SecurityMotion | SecurityTamper | SecurityForcedEntry | SecurityGlassBreak | SecurityVideoAnomaly
    | MedicalAlert | SafetyAlert | NodeHealth | OwnerRequest | Scheduled

  datatype Severity = Attention | UrgentWake | Emergency

  function ReasonText(r: Reason): string {
    match r
    case SecurityMotion => "security_motion"
    case SecurityTamper => "security_tamper"
    case SecurityForcedEntry => "security_forced_entry"
    case SecurityGlassBreak => "security_glass_break"
    case SecurityVideoAnomaly => "security_video_anomaly"
    case MedicalAlert => "medical_alert"
    case SafetyAlert => "safety_alert"
    case NodeHealth => "node_health"
    case OwnerRequest => "owner_request"
    case Scheduled => "scheduled"
  }

  function ReasonOf(s: string): Option<Reason> {
    if s == "security_motion" then Some(SecurityMotion)
    else if s == "security_tamper" then Some(SecurityTamper)
    else if s == "security_forced_entry" then Some(SecurityForcedEntry)
    else if s == "security_glass_break" then Some(SecurityGlassBreak)
    else if s == "security_video_anomaly" then Some(SecurityVideoAnomaly)
    else if s == "medical_alert" then Some(MedicalAlert)
    else if s == "safety_alert" then Some(SafetyAlert)
    else if s == "node_health" then Some(NodeHealth)
    else if s == "owner_request" then Some(OwnerRequest)
    else if s == "scheduled" then Some(Scheduled)
    else None
  }

  function SeverityText(s: Severity): string {
    match s
    case Attention => "attention"
    case UrgentWake => "urgent"
    case Emergency => "emergency"
  }

  function SeverityOf(s: string): Option<Severity> {
    if s == "attention" then Some(Attention)
    else if s == "urgent" then Some(UrgentWake)
    else if s == "emergency" then Some(Emergency)
    else None
  }

  // ---------------------------------------------------------------- requests

  predicate ValidRef(s: string) {
    1 <= |s| <= MAX_REF_CHARS && forall i | 0 <= i < |s| :: 33 <= s[i] as nat <= 126
  }

  predicate ValidRefs(refs: seq<string>) {
    |refs| <= MAX_REFS && (forall r <- refs :: ValidRef(r)) && Distinct(refs)
  }

  predicate ValidSummary(s: string) {
    |s| <= MAX_SUMMARY_CHARS && forall i | 0 <= i < |s| :: s[i] >= ' ' || s[i] == '\t'
  }

  function CheckTimes(observedAtMs: int, expiresAtMs: int): (check: Check)
    ensures check.Pass? <==> 0 <= observedAtMs && 1 <= expiresAtMs - observedAtMs <= MAX_TTL_MS
  {
    if observedAtMs < 0 then Fail("observed_at_ms must be a non-negative integer")
    else if expiresAtMs < 0 then Fail("expires_at_ms must be a non-negative integer")
    else Need(1 <= expiresAtMs - observedAtMs <= MAX_TTL_MS, "wake request lifetime is outside the bounded limit")
  }

  /** The first reference that is not acceptable decides. */
  function CheckEachRef(refs: seq<string>): (check: Check)
    ensures check.Pass? <==> forall r <- refs :: ValidRef(r)
  {
    if refs == [] then Pass
    else
      assert refs == [refs[0]] + refs[1..] && refs[0] in refs;
      if !(1 <= |refs[0]| <= MAX_REF_CHARS) then Fail("wake evidence reference is invalid")
      else if !ValidRef(refs[0]) then Fail("wake evidence references must be printable ASCII")
      else CheckEachRef(refs[1..])
  }

  function CheckRefs(refs: seq<string>): (check: Check)
    ensures check.Pass? <==> ValidRefs(refs)
  {
    if |refs| > MAX_REFS then Fail("too many wake evidence references")
    else if CheckEachRef(refs).Fail? then CheckEachRef(refs)
    else Need(Distinct(refs), "wake evidence references cannot contain duplicates")
  }

  function CheckSummary(s: string): (check: Check)
    ensures check.Pass? <==> ValidSummary(s)
  {
    if |s| > MAX_SUMMARY_CHARS then Fail("summary exceeds bounded length")
    else Need(ValidSummary(s), "summary contains unsupported control characters")
  }

  datatype Request = Request(
    requestId: string,
    sourcePeerId: string,
    targetBodyId: string,
    reason: Reason,
    severity: Severity,
    observedAtMs: int,
    expiresAtMs: int,
    evidenceRefs: seq<string>,
    summary: string
  ) {
    predicate Valid() {
      && ValidId(requestId) && ValidId(sourcePeerId) && ValidId(targetBodyId)
      && 0 <= observedAtMs && 0 <= expiresAtMs
      && 1 <= expiresAtMs - observedAtMs <= MAX_TTL_MS
      && ValidRefs(evidenceRefs)
      && ValidSummary(summary)
    }

    /** The checks of construction, in the order in which they are made. */
    function Checked(): (r: Result<Request>)
      ensures r == Ok(this) <==> Valid()
      ensures r.Ok? ==> r.value == this
    {
      if !ValidId(requestId) then Err("invalid request_id") else
      :- Need(ValidId(sourcePeerId), "invalid source_peer_id");
      :- Need(ValidId(targetBodyId), "invalid target_body_id");
      :- CheckTimes(observedAtMs, expiresAtMs);
      :- CheckRefs(evidenceRefs);
      :- CheckSummary(summary);
      Ok(this)
    }

    predicate IsExpired(nowMs: int) {
      nowMs >= expiresAtMs
    }
  }

  /** The bounds of a request, in numbers. */
  lemma ValidExactly(r: Request)
    ensures r.Valid() <==>
              && ValidId(r.requestId) && ValidId(r.sourcePeerId) && ValidId(r.targetBodyId)
              && 0 <= r.observedAtMs < r.expiresAtMs <= r.observedAtMs + 300000
              && |r.evidenceRefs| <= 8
              && (forall i, j | 0 <= i < j < |r.evidenceRefs| :: r.evidenceRefs[i] != r.evidenceRefs[j])
              && (forall x <- r.evidenceRefs ::
                    1 <= |x| <= 160 && forall i | 0 <= i < |x| :: 33 <= x[i] as nat <= 126)
              && |r.summary| <= 256
              && (forall i | 0 <= i < |r.summary| :: r.summary[i] as nat >= 32 || r.summary[i] as nat == 9)
  {
  }

  // ---------------------------------------------------------------- payloads

  function RefValues(refs: seq<string>): (items: seq<Value>)
    ensures |items| == |refs|
  {
    seq(|refs|, i requires 0 <= i < |refs| => Str(refs[i]))
  }

  function RequestFields(r: Request): Fields {
    map[
      "schema" := Str(SCHEMA),
      "request_id" := Str(r.requestId),
      "source_peer_id" := Str(r.sourcePeerId),
      "target_body_id" := Str(r.targetBodyId),
      "reason" := Str(ReasonText(r.reason)),
      "severity" := Str(SeverityText(r.severity)),
      "observed_at_ms" := Int(r.observedAtMs),
      "expires_at_ms" := Int(r.expiresAtMs),
      "evidence_refs" := List(RefValues(r.evidenceRefs)),
      "summary" := Str(r.summary),
      "canonical" := Bool(false),
      "grants_authority" := Bool(false),
      "grants_execution" := Bool(false),
      "grants_actuation" := Bool(false),
      "authority" := Str("none")
    ]
  }

  const ALLOWED := {
    "schema", "request_id", "source_peer_id", "target_body_id", "reason", "severity", "observed_at_ms",
    "expires_at_ms", "evidence_refs", "summary", "canonical", "grants_authority", "grants_execution",
    "grants_actuation", "authority"
  }

  function ToPayload(r: Request): Result<Bytes> {
    var encoded := CanonicalBytes(RequestFields(r));
    :- Need(|encoded| <= MAX_PAYLOAD_BYTES, "wake request payload exceeds bounded size");
    Ok(encoded)
  }

  function RequiredString(raw: Fields, key: string): Result<string> {
    match Get(raw, key)
    case Some(Str(t)) => if t == "" then Err(key + " must be non-empty text") else Ok(t)
    case _ => Err(key + " must be non-empty text")
  }

  function RequiredInteger(raw: Fields, key: string): Result<int> {
    match Get(raw, key)
    case Some(Int(n)) => if n < 0 then Err(key + " must be a non-negative integer") else Ok(n)
    case _ => Err(key + " must be a non-negative integer")
  }

  function OptionalString(raw: Fields, key: string): Result<string> {
    match Get(raw, key)
    case None => Ok("")
    case Some(Str(t)) => Ok(t)
    case Some(_) => Err(key + " must be text")
  }

  /** The references as texts; whatever is not text becomes a text that no check accepts. */
  function RefTexts(items: seq<Value>): (refs: seq<string>)
    ensures |refs| == |items|
  {
    seq(|items|, i requires 0 <= i < |items| => if items[i].Str? then items[i].text else "")
  }

  function RefsOf(raw: Fields): Result<seq<string>> {
    match Get(raw, "evidence_refs")
    case None => Ok([])
    case Some(List(items)) => Ok(RefTexts(items))
    case Some(_) => Err("evidence_refs must be a list")
  }

  /** No unknown field, the right schema, and no claim to anything beyond an observation. */
  function CheckClaims(raw: Fields): Check {
    if raw.Keys - ALLOWED != {} then Fail("wake request contains unsupported fields")
    else if Get(raw, "schema") != Some(Str(SCHEMA)) then Fail("wake request schema is unsupported")
    else if Get(raw, "canonical") != Some(Bool(false)) then Fail("wake request canonical must be false")
    else if Get(raw, "grants_authority") != Some(Bool(false)) then Fail("wake request grants_authority must be false")
    else if Get(raw, "grants_execution") != Some(Bool(false)) then Fail("wake request grants_execution must be false")
    else if Get(raw, "grants_actuation") != Some(Bool(false)) then Fail("wake request grants_actuation must be false")
    else Need(Get(raw, "authority") == Some(Str("none")), "wake request authority must be none")
  }

  function ReasonAndSeverity(raw: Fields): Result<(Reason, Severity)> {
    match (RequiredString(raw, "reason"), RequiredString(raw, "severity"))
    case (Ok(r), Ok(s)) =>
      if ReasonOf(r).Some? && SeverityOf(s).Some? then Ok((ReasonOf(r).value, SeverityOf(s).value))
      else Err("wake request reason or severity is unsupported")
    case _ => Err("wake request reason or severity is unsupported")
  }

  /** The request that the object describes, before the checks of construction. */
  function Draft(raw: Fields): Result<Request> {
    var refs :- RefsOf(raw);
    var (reason, severity) :- ReasonAndSeverity(raw);
    var requestId :- RequiredString(raw, "request_id");
    var source :- RequiredString(raw, "source_peer_id");
    var target :- RequiredString(raw, "target_body_id");
    var observed :- RequiredInteger(raw, "observed_at_ms");
    var expires :- RequiredInteger(raw, "expires_at_ms");
    var summary :- OptionalString(raw, "summary");
    Ok(Request(requestId, source, target, reason, severity, observed, expires, refs, summary))
  }

  function RequestOf(raw: Fields): Result<Request> {
    var check := CheckClaims(raw);
    :- check;
    var draft :- Draft(raw);
    draft.Checked()
  }

  function FromPayload(payload: Bytes): Result<Request> {
    if payload == [] then Err("wake request payload must be non-empty bytes") else
    :- Need(|payload| <= MAX_PAYLOAD_BYTES, "wake request payload exceeds bounded size");
    match ParseBytes(payload)
    case None => Err("wake request payload is not valid UTF-8 JSON")
    case Some(Obj(raw)) => RequestOf(raw)
    case Some(_) => Err("wake request payload root must be a mapping")
  }

  // ---------------------------------------------------------------- envelopes

  function BuildEnvelope(r: Request, destination: string, messageId: Option<string>): Result<Envelope> {
    if !ValidId(destination) then Err("invalid destination_peer_id") else
    var payload :- ToPayload(r);
    var id := if messageId.Some? && messageId.value != "" then messageId.value else r.requestId;
    Envelope(id, r.sourcePeerId, destination, SCHEMA, payload, r.observedAtMs, r.expiresAtMs - r.observedAtMs,
             if r.severity.Attention? then Important else Urgent, true, HOP_LIMIT, ENVELOPE_SCHEMA).Checked()
  }

  function RequestFromEnvelope(e: Envelope, nowMs: Option<int>): Result<Request> {
    if e.payloadType != SCHEMA then Err("envelope does not contain a wake request") else
    var r :- FromPayload(e.payload);
    :- CheckCarrier(r, e);
    :- CheckNow(r, nowMs);
    Ok(r)
  }

  function CheckCarrier(r: Request, e: Envelope): (check: Check)
    ensures check.Pass? <==> e.sourcePeerId == r.sourcePeerId && e.messageId == r.requestId
  {
    if r.sourcePeerId != e.sourcePeerId then Fail("wake request source does not match envelope source")
    else Need(r.requestId == e.messageId, "wake request id does not match envelope message id")
  }

  function CheckNow(r: Request, nowMs: Option<int>): (check: Check)
    ensures check.Pass? <==> (nowMs.Some? ==> 0 <= nowMs.value < r.expiresAtMs)
  {
    match nowMs
    case None => Pass
    case Some(now) =>
      if now < 0 then Fail("now_ms must be a non-negative integer")
      else Need(!r.IsExpired(now), "wake request is expired")
  }

  // ---------------------------------------------------------------- round trip

  lemma NamesRoundTrip(reason: Reason, severity: Severity)
    ensures ReasonOf(ReasonText(reason)) == Some(reason) && ReasonText(reason) != ""
    ensures SeverityOf(SeverityText(severity)) == Some(severity) && SeverityText(severity) != ""
  {
  }

  lemma RefsReadBack(refs: seq<string>)
    ensures RefTexts(RefValues(refs)) == refs
  {
  }

  /** No unknown entry, the schema, and no claim to anything beyond an observation. */
  ghost predicate ClaimsNothing(raw: Fields) {
    && raw.Keys <= ALLOWED
    && Get(raw, "schema") == Some(Str("velvet.communications.wake_request.v1"))
    && Get(raw, "canonical") == Some(Bool(false))
    && Get(raw, "grants_authority") == Some(Bool(false))
    && Get(raw, "grants_execution") == Some(Bool(false))
    && Get(raw, "grants_actuation") == Some(Bool(false))
    && Get(raw, "authority") == Some(Str("none"))
  }

  lemma ClaimsExactly(raw: Fields)
    ensures CheckClaims(raw).Pass? <==> ClaimsNothing(raw)
  {
    assert raw.Keys <= ALLOWED <==> raw.Keys - ALLOWED == {} by {
      assert forall k :: k in raw.Keys && k !in ALLOWED ==> k in raw.Keys - ALLOWED;
    }
  }

  /** What decoding makes of each entry; the references and the summary may be absent. */
  ghost predicate ReadsAs(raw: Fields, r: Request) {
    && Get(raw, "request_id") == Some(Str(r.requestId))
    && Get(raw, "source_peer_id") == Some(Str(r.sourcePeerId))
    && Get(raw, "target_body_id") == Some(Str(r.targetBodyId))
    && Get(raw, "reason") == Some(Str(ReasonText(r.reason)))
    && Get(raw, "severity") == Some(Str(SeverityText(r.severity)))
    && Get(raw, "observed_at_ms") == Some(Int(r.observedAtMs))
    && Get(raw, "expires_at_ms") == Some(Int(r.expiresAtMs))
    && (match Get(raw, "evidence_refs")
        case None => r.evidenceRefs == []
        case Some(List(items)) => items == RefValues(r.evidenceRefs)
        case Some(_) => false)
    && (match Get(raw, "summary")
        case None => r.summary == ""
        case Some(Str(t)) => t == r.summary
        case Some(_) => false)
  }

  lemma NamesReadBack(s: string)
    ensures ReasonOf(s).Some? ==> ReasonText(ReasonOf(s).value) == s
    ensures SeverityOf(s).Some? ==> SeverityText(SeverityOf(s).value) == s
  {
  }

  lemma RefsExactly(items: seq<Value>, refs: seq<string>)
    requires forall x <- refs :: x != ""
    ensures RefTexts(items) == refs <==> items == RefValues(refs)
  {
    RefsReadBack(refs);
    if RefTexts(items) == refs {
      forall i | 0 <= i < |items| ensures items[i] == RefValues(refs)[i] {
        assert RefTexts(items)[i] == refs[i] && refs[i] in refs;
      }
    }
  }

  lemma RefsOfExactly(raw: Fields, refs: seq<string>)
    requires forall x <- refs :: x != ""
    ensures RefsOf(raw) == Ok(refs) <==>
              match Get(raw, "evidence_refs")
              case None => refs == []
              case Some(List(items)) => items == RefValues(refs)
              case Some(_) => false
  {
    match Get(raw, "evidence_refs")
    case Some(List(items)) => RefsExactly(items, refs);
    case _ =>
  }

  lemma ReasonAndSeverityExactly(raw: Fields, reason: Reason, severity: Severity)
    ensures ReasonAndSeverity(raw) == Ok((reason, severity)) <==>
              && Get(raw, "reason") == Some(Str(ReasonText(reason)))
              && Get(raw, "severity") == Some(Str(SeverityText(severity)))
  {
    NamesRoundTrip(reason, severity);
    forall s: string ensures ReasonOf(s).Some? ==> ReasonText(ReasonOf(s).value) == s
                     ensures SeverityOf(s).Some? ==> SeverityText(SeverityOf(s).value) == s {
      NamesReadBack(s);
    }
  }

  lemma EntriesExactly(raw: Fields, key: string)
    ensures forall t :: t != "" ==> (RequiredString(raw, key) == Ok(t) <==> Get(raw, key) == Some(Str(t)))
    ensures forall n :: n >= 0 ==> (RequiredInteger(raw, key) == Ok(n) <==> Get(raw, key) == Some(Int(n)))
    ensures forall t :: OptionalString(raw, key) == Ok(t) <==>
              match Get(raw, key) case None => t == "" case Some(Str(u)) => u == t case Some(_) => false
  {
  }

  lemma DraftExactly(raw: Fields, r: Request)
    requires r.Valid()
    ensures Draft(raw) == Ok(r) <==> ReadsAs(raw, r)
  {
    assert forall x <- r.evidenceRefs :: x != "" by {
      assert forall x <- r.evidenceRefs :: ValidRef(x);
    }
    RefsOfExactly(raw, r.evidenceRefs);
    ReasonAndSeverityExactly(raw, r.reason, r.severity);
    EntriesExactly(raw, "request_id");
    EntriesExactly(raw, "source_peer_id");
    EntriesExactly(raw, "target_body_id");
    EntriesExactly(raw, "observed_at_ms");
    EntriesExactly(raw, "expires_at_ms");
    EntriesExactly(raw, "summary");
    DraftInOrder(raw, r);
  }

  lemma DraftInOrder(raw: Fields, r: Request)
    ensures Draft(raw) == Ok(r) <==>
              && RefsOf(raw) == Ok(r.evidenceRefs) && ReasonAndSeverity(raw) == Ok((r.reason, r.severity))
              && RequiredString(raw, "request_id") == Ok(r.requestId)
              && RequiredString(raw, "source_peer_id") == Ok(r.sourcePeerId)
              && RequiredString(raw, "target_body_id") == Ok(r.targetBodyId)
              && RequiredInteger(raw, "observed_at_ms") == Ok(r.observedAtMs)
              && RequiredInteger(raw, "expires_at_ms") == Ok(r.expiresAtMs)
              && OptionalString(raw, "summary") == Ok(r.summary)
  {
  }

  /** Exactly which objects decode to a request: those that claim nothing and whose entries say it. */
  lemma DecodesExactly(raw: Fields, r: Request)
    ensures RequestOf(raw) == Ok(r) <==> ClaimsNothing(raw) && ReadsAs(raw, r) && r.Valid()
  {
    ClaimsExactly(raw);
    if r.Valid() {
      DraftExactly(raw, r);
    }
    ChecksDraft(raw, r);
  }

  lemma ChecksDraft(raw: Fields, r: Request)
    ensures RequestOf(raw) == Ok(r) <==> CheckClaims(raw).Pass? && Draft(raw) == Ok(r) && r.Valid()
  {
  }

  /** The fields of a request are the fifteen entries, claim nothing, and say what it says. */
  lemma FieldsClaimNothing(r: Request)
    ensures RequestFields(r).Keys == ALLOWED && ClaimsNothing(RequestFields(r))
  {
  }

  lemma FieldsReadAs(r: Request)
    ensures ReadsAs(RequestFields(r), r)
  {
  }

  lemma FieldsReadBack(r: Request)
    requires r.Valid()
    ensures RequestOf(RequestFields(r)) == Ok(r)
  {
    FieldsClaimNothing(r);
    FieldsReadAs(r);
    DecodesExactly(RequestFields(r), r);
  }

  /** A valid request reads back from its fields written in any key order, as long as they fit. */
  lemma RoundTripAnyOrder(r: Request, ord: KeyOrder)
    requires r.Valid() && Enumerates(ord)
    ensures IsAscii(Render(Obj(RequestFields(r)), ord))
    ensures var payload := ToBytes(Render(Obj(RequestFields(r)), ord));
            |payload| <= MAX_PAYLOAD_BYTES ==> FromPayload(payload) == Ok(r)
  {
    CanonicalFromAnyOrder(RequestFields(r), ord);
    if |ToBytes(Render(Obj(RequestFields(r)), ord))| <= MAX_PAYLOAD_BYTES {
      ParsedFieldsReadBack(r, ToBytes(Render(Obj(RequestFields(r)), ord)));
    }
  }

  lemma ParsedFieldsReadBack(r: Request, payload: Bytes)
    requires r.Valid() && |payload| <= MAX_PAYLOAD_BYTES && ParseBytes(payload) == Some(Obj(RequestFields(r)))
    ensures FromPayload(payload) == Ok(r)
  {
    FieldsReadBack(r);
    ParsedObject(payload, RequestFields(r));
  }

  lemma ParsedObject(payload: Bytes, raw: Fields)
    requires |payload| <= MAX_PAYLOAD_BYTES && ParseBytes(payload) == Some(Obj(raw))
    ensures FromPayload(payload) == RequestOf(raw)
  {
    assert payload != [] by {
      EmptyParsesToNothing();
    }
  }

  lemma EmptyParsesToNothing()
    ensures ParseBytes([]) == None
  {
  }

  /** Encoding, when it succeeds, is undone by decoding. */
  lemma RoundTrip(r: Request)
    requires r.Valid() && ToPayload(r).Ok?
    ensures FromPayload(ToPayload(r).value) == Ok(r)
  {
    SortedEnumerates();
    RoundTripAnyOrder(r, Sorted());
  }

  /** Whatever decodes is a valid request from an object that claims nothing else. */
  lemma DecodedClaimsNothing(payload: Bytes)
    requires FromPayload(payload).Ok?
    ensures FromPayload(payload).value.Valid()
    ensures |payload| <= 4096
    ensures var parsed := ParseBytes(payload);
            parsed.Some? && parsed.value.Obj? && ClaimsNothing(parsed.value.fields)
  {
    var raw := ParseBytes(payload).value.fields;
    DecodesExactly(raw, FromPayload(payload).value);
  }

  /**
   A built envelope is valid, expires with its request, and is read back as the request exactly
   when the message id is the request's own and the time, if given, is before expiry.
   */
  lemma EnvelopeRoundTrip(r: Request, destination: string, messageId: Option<string>, nowMs: Option<int>)
    requires r.Valid() && BuildEnvelope(r, destination, messageId).Ok?
    ensures var e := BuildEnvelope(r, destination, messageId).value;
            && e.Valid() && (forall t :: e.IsExpired(t) <==> r.IsExpired(t))
            && e.priority == (if r.severity == Attention then Important else Urgent)
            && e.sourcePeerId == r.sourcePeerId && e.destinationPeerId == destination && e.ackRequired && e.hopLimit == 2
            && e.payloadType == "velvet.communications.wake_request.v1" && e.payload == CanonicalBytes(RequestFields(r))
            && e.createdAtMs == r.observedAtMs && e.ttlMs == r.expiresAtMs - r.observedAtMs
            && e.messageId == (if messageId == None || messageId.value == "" then r.requestId else messageId.value)
            && (RequestFromEnvelope(e, nowMs).Ok? <==>
                  (messageId == None || messageId.value == "" || messageId.value == r.requestId)
                  && (nowMs.Some? ==> 0 <= nowMs.value < r.expiresAtMs))
            && (RequestFromEnvelope(e, nowMs).Ok? ==> RequestFromEnvelope(e, nowMs) == Ok(r))
  {
    var e := BuildEnvelope(r, destination, messageId).value;
    RoundTrip(r);
    EnvelopeReadsExactly(e, nowMs, r);
    if RequestFromEnvelope(e, nowMs).Ok? {
      EnvelopeReadsExactly(e, nowMs, RequestFromEnvelope(e, nowMs).value);
    }
  }

  /** Exactly which envelopes give a request: of the wake type, with its payload, its source and its id, before expiry. */
  lemma EnvelopeReadsExactly(e: Envelope, nowMs: Option<int>, r: Request)
    ensures RequestFromEnvelope(e, nowMs) == Ok(r) <==>
              && e.payloadType == "velvet.communications.wake_request.v1" && FromPayload(e.payload) == Ok(r)
              && e.sourcePeerId == r.sourcePeerId && e.messageId == r.requestId
              && (nowMs.Some? ==> 0 <= nowMs.value < r.expiresAtMs)
  {
  }

  /** Building fails only for a bad destination, a bad explicit id, or a payload over the cap. */
  lemma BuildsExactly(r: Request, destination: string, messageId: Option<string>)
    requires r.Valid()
    ensures BuildEnvelope(r, destination, messageId).Ok? <==>
              && ValidId(destination) && ToPayload(r).Ok?
              && (messageId.None? || messageId.value == "" || ValidId(messageId.value))
  {
    SchemaIsId();
    if ValidId(destination) && ToPayload(r).Ok? {
      CanonicalNonEmpty(RequestFields(r));
      var id := if messageId.Some? && messageId.value != "" then messageId.value else r.requestId;
      var e := Envelope(id, r.sourcePeerId, destination, SCHEMA, ToPayload(r).value, r.observedAtMs,
                        r.expiresAtMs - r.observedAtMs, if r.severity.Attention? then Important else Urgent, true,
                        HOP_LIMIT, ENVELOPE_SCHEMA);
      assert e.Valid() <==> ValidId(id);
      assert BuildEnvelope(r, destination, messageId) == e.Checked();
    }
  }

  lemma SchemaIsId()
    ensures ValidId(SCHEMA)
  {
  }

  lemma CanonicalNonEmpty(fields: Fields)
    ensures CanonicalBytes(fields) != []
  {
    CanonicalRoundTrip(fields);
    assert ParseBytes([]) == None;
  }
}
