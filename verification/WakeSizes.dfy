/** Byte-exact wake payload sizes, and which requests fit the cap. */
module WakeSizes {
  import opened Contracts
  import opened Text
  import opened Json
  import opened JsonSize
  import opened Wake

  /** The references as a rendered list: two quotes each, commas between them, two brackets. */
  function RefsLength(refs: seq<string>): nat {
    if refs == [] then 0 else 2 + EscapedLength(refs[0]) + (if |refs| > 1 then 1 else 0) + RefsLength(refs[1..])
  }

  lemma {:induction false} RefItemsSize(refs: seq<string>)
    requires Enumerates(Sorted())
    ensures |RenderItems(RefValues(refs), Sorted())| == RefsLength(refs)
  {
    var items := RefValues(refs);
    if refs != [] {
      assert items[1..] == RefValues(refs[1..]);
      RefItemsSize(refs[1..]);
      SortedBelow(items[0], |items|);
      assert |Render(items[0], Sorted())| == 2 + EscapedLength(refs[0]);
    }
  }

  lemma RefListSize(refs: seq<string>)
    ensures ValueSize(List(RefValues(refs))) == 2 + RefsLength(refs)
  {
    SortedEnumerates();
    RefItemsSize(refs);
  }

  /** The exact length of a request's payload. */
  function PayloadLength(r: Request): nat {
    311 + |r.requestId| + |r.sourcePeerId| + |r.targetBodyId| + |ReasonText(r.reason)| + |SeverityText(r.severity)|
    + |Decimal(r.observedAtMs)| + |Decimal(r.expiresAtMs)| + RefsLength(r.evidenceRefs) + EscapedLength(r.summary)
  }

  lemma KeysArePlain()
    ensures IsPlain("schema") && IsPlain("request_id") && IsPlain("source_peer_id") && IsPlain("target_body_id")
    ensures IsPlain("reason") && IsPlain("severity") && IsPlain("observed_at_ms") && IsPlain("expires_at_ms")
    ensures IsPlain("evidence_refs") && IsPlain("summary") && IsPlain("canonical") && IsPlain("authority")
  {
  }

  lemma ClaimKeysArePlain()
    ensures IsPlain("grants_authority") && IsPlain("grants_execution") && IsPlain("grants_actuation")
    ensures IsPlain("none")
  {
  }

  lemma SchemaIsPlain()
    ensures IsPlain(SCHEMA) && |SCHEMA| == 37
  {
  }

  lemma ReasonIsPlain(reason: Reason)
    ensures IsPlain(ReasonText(reason)) && |ReasonText(reason)| <= 22
  {
  }

  lemma SeverityIsPlain(severity: Severity)
    ensures IsPlain(SeverityText(severity)) && |SeverityText(severity)| <= 9
  {
  }

  lemma NamesArePlain(reason: Reason, severity: Severity)
    ensures IsPlain(ReasonText(reason)) && |ReasonText(reason)| <= 22
    ensures IsPlain(SeverityText(severity)) && |SeverityText(severity)| <= 9
  {
    ReasonIsPlain(reason);
    SeverityIsPlain(severity);
  }

  // The fifteen members in five groups of three.

  function Ids(r: Request): Fields {
    map["schema" := Str(SCHEMA), "request_id" := Str(r.requestId), "source_peer_id" := Str(r.sourcePeerId)]
  }

  function Named(r: Request): Fields {
    Ids(r)["target_body_id" := Str(r.targetBodyId)]["reason" := Str(ReasonText(r.reason))]
          ["severity" := Str(SeverityText(r.severity))]
  }

  function Timed(r: Request): Fields {
    Named(r)["observed_at_ms" := Int(r.observedAtMs)]["expires_at_ms" := Int(r.expiresAtMs)]
            ["evidence_refs" := List(RefValues(r.evidenceRefs))]
  }

  function Summarised(r: Request): Fields {
    Timed(r)["summary" := Str(r.summary)]["canonical" := Bool(false)]["grants_authority" := Bool(false)]
  }

  lemma KeysApart(r: Request)
    ensures "target_body_id" !in Ids(r) && "reason" !in Ids(r) && "severity" !in Ids(r)
    ensures "observed_at_ms" !in Named(r) && "expires_at_ms" !in Named(r) && "evidence_refs" !in Named(r)
  {
  }

  lemma LaterKeysApart(r: Request)
    ensures "summary" !in Timed(r) && "canonical" !in Timed(r) && "grants_authority" !in Timed(r)
    ensures "grants_execution" !in Summarised(r) && "grants_actuation" !in Summarised(r)
    ensures "authority" !in Summarised(r)
  {
  }

  lemma Parts(r: Request)
    ensures RequestFields(r)
         == Summarised(r)["grants_execution" := Bool(false)]["grants_actuation" := Bool(false)]
                         ["authority" := Str("none")]
  {
  }

  lemma SchemaTextSize()
    ensures ValueSize(Str(SCHEMA)) == 39
  {
    SchemaIsPlain();
    PlainTextSize(SCHEMA);
  }

  lemma IdsSize(r: Request)
    requires r.Valid()
    ensures FieldsSize(Ids(r)) == 85 + |r.requestId| + |r.sourcePeerId|
  {
    KeysArePlain();
    SchemaTextSize();
    PlainTextSize(r.requestId);
    PlainTextSize(r.sourcePeerId);
    IdsSizeOver(Str(SCHEMA), Str(r.requestId), Str(r.sourcePeerId));
  }

  lemma IdsSizeOver(schema: Value, request: Value, source: Value)
    ensures FieldsSize(map["schema" := schema, "request_id" := request, "source_peer_id" := source])
         == 42 + ValueSize(schema) + ValueSize(request) + ValueSize(source)
  {
    KeysArePlain();
    var none: Fields := map[];
    AddsThree(none, "schema", schema, "request_id", request, "source_peer_id", source);
    assert none["schema" := schema]["request_id" := request]["source_peer_id" := source]
        == map["schema" := schema, "request_id" := request, "source_peer_id" := source];
  }

  lemma NamedSize(r: Request)
    requires r.Valid()
    ensures FieldsSize(Named(r))
         == FieldsSize(Ids(r)) + 46 + |r.targetBodyId| + |ReasonText(r.reason)| + |SeverityText(r.severity)|
  {
    KeysArePlain();
    KeysApart(r);
    NamesArePlain(r.reason, r.severity);
    AddsThree(Ids(r), "target_body_id", Str(r.targetBodyId), "reason", Str(ReasonText(r.reason)),
              "severity", Str(SeverityText(r.severity)));
    PlainTextSize(r.targetBodyId);
    PlainTextSize(ReasonText(r.reason));
    PlainTextSize(SeverityText(r.severity));
  }

  lemma TimedSize(r: Request)
    ensures FieldsSize(Timed(r))
         == FieldsSize(Named(r)) + 54 + |Decimal(r.observedAtMs)| + |Decimal(r.expiresAtMs)| + RefsLength(r.evidenceRefs)
  {
    KeysArePlain();
    KeysApart(r);
    AddsThree(Named(r), "observed_at_ms", Int(r.observedAtMs), "expires_at_ms", Int(r.expiresAtMs),
              "evidence_refs", List(RefValues(r.evidenceRefs)));
    RefListSize(r.evidenceRefs);
  }

  lemma SummarisedSize(r: Request)
    ensures FieldsSize(Summarised(r)) == FieldsSize(Timed(r)) + 56 + EscapedLength(r.summary)
  {
    KeysArePlain();
    ClaimKeysArePlain();
    LaterKeysApart(r);
    AddsThree(Timed(r), "summary", Str(r.summary), "canonical", Bool(false), "grants_authority", Bool(false));
    TextSize(r.summary);
  }

  /** The exact size of a request's canonical bytes. */
  lemma PayloadSize(r: Request)
    requires r.Valid()
    ensures |CanonicalBytes(RequestFields(r))| == PayloadLength(r)
  {
    IdsSize(r);
    NamedSize(r);
    TimedSize(r);
    SummarisedSize(r);
    ClosingSize(r);
  }

  lemma ClosingSize(r: Request)
    ensures |CanonicalBytes(RequestFields(r))| == FieldsSize(Summarised(r)) + 70
  {
    KeysArePlain();
    ClaimKeysArePlain();
    LaterKeysApart(r);
    AddsThree(Summarised(r), "grants_execution", Bool(false), "grants_actuation", Bool(false), "authority", Str("none"));
    PlainTextSize("none");
    Parts(r);
    assert "authority" in RequestFields(r);
    ObjectSize(RequestFields(r));
  }

  /** A valid request encodes exactly when its length is within the cap. */
  lemma EncodesExactly(r: Request)
    requires r.Valid()
    ensures ToPayload(r).Ok? <==> PayloadLength(r) <= MAX_PAYLOAD_BYTES
  {
    PayloadSize(r);
  }

  lemma {:induction false} RefsBound(refs: seq<string>)
    requires forall r <- refs :: ValidRef(r)
    ensures RefsLength(refs) <= 323 * |refs|
    ensures refs != [] ==> RefsLength(refs) <= 323 * |refs| - 1
  {
    if refs != [] {
      assert refs[0] in refs;
      assert EscapesWithin(refs[0], 2);
      EscapedLengthBound(refs[0], 2);
      assert forall r <- refs[1..] :: r in refs;
      RefsBound(refs[1..]);
    }
  }

  /** Every printable summary and every timestamp below 10^20 fits, however many characters need escapes. */
  lemma PrintableRequestsEncode(r: Request)
    requires r.Valid() && r.expiresAtMs < Pow10(20)
    requires forall i | 0 <= i < |r.summary| :: ' ' <= r.summary[i] <= '~' || r.summary[i] == '\t'
    ensures ToPayload(r).Ok?
  {
    PayloadSize(r);
    NamesArePlain(r.reason, r.severity);
    DigitsBound(r.observedAtMs, 20);
    DigitsBound(r.expiresAtMs, 20);
    RefsBound(r.evidenceRefs);
    assert EscapesWithin(r.summary, 2);
    EscapedLengthBound(r.summary, 2);
  }

  /** A valid request that no payload can carry: a long summary of characters beyond U+FFFF. */
  lemma AstralSummaryDoesNotEncode()
    ensures var refs := [seq(160, _ => '"'), seq(159, _ => '"'), seq(158, _ => '"')];
            var r := Request("a", "b", "c", Scheduled, Attention, 0, 1, refs, seq(256, _ => '\U{1F600}'));
            r.Valid() && ToPayload(r).Err?
  {
    var a, b, d := seq(160, _ => '"'), seq(159, _ => '"'), seq(158, _ => '"');
    var refs, summary := [a, b, d], seq(256, _ => '\U{1F600}');
    var r := Request("a", "b", "c", Scheduled, Attention, 0, 1, refs, summary);
    assert r.Valid() by {
      assert ValidRef(a) && ValidRef(b) && ValidRef(d) && |a| != |b| && |b| != |d| && |a| != |d|;
    }
    assert EscapedLength(a) == 320 && EscapedLength(b) == 318 && EscapedLength(d) == 316 by {
      UniformLength(a, 2);
      UniformLength(b, 2);
      UniformLength(d, 2);
    }
    assert EscapedLength(summary) == 3072 by {
      UniformLength(summary, 12);
    }
    ThreeRefs(a, b, d);
    PayloadSize(r);
  }

  lemma ThreeRefs(a: string, b: string, d: string)
    ensures RefsLength([a, b, d]) == 8 + EscapedLength(a) + EscapedLength(b) + EscapedLength(d)
  {
    assert [a, b, d][1..] == [b, d] && [b, d][1..] == [d] && [d][1..] == [];
    assert RefsLength([d]) == 2 + EscapedLength(d);
    assert RefsLength([b, d]) == 3 + EscapedLength(b) + RefsLength([d]);
  }
}
