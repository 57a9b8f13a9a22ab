/** Public emergency beacons: a protected carrier first, an open radio only when that is allowed. */
module Emergency {
  import opened Contracts
  import Routing
  import Text

  const BEACON_PAYLOAD_TYPE := "velvet.emergency.beacon.v1"
  const BROADCAST_DESTINATION := "broadcast.emergency"
  const MAX_PUBLIC_PAYLOAD_BYTES := 384
  const MAX_PUBLIC_TTL_MS := 5 * 60 * 1000
  const MAX_PUBLIC_HOPS := 3

  predicate OpenRadio(o: Offer) {
    o.kind in {LoraP2p, Meshtastic, Lorawan}
  }

  /** The checks on a public beacon, in the order in which they are made. */
  function ValidatePublicBeacon(e: Envelope): (r: Check)
    ensures r.Pass? <==>
            && e.payloadType == "velvet.emergency.beacon.v1" && e.destinationPeerId == "broadcast.emergency"
            && e.priority == Urgent && |e.payload| <= 384 && e.ttlMs <= 300000 && e.hopLimit <= 3
  {
    if e.payloadType != BEACON_PAYLOAD_TYPE then Fail("unexpected emergency payload type")
    else if e.destinationPeerId != BROADCAST_DESTINATION then Fail("emergency beacon must use broadcast destination")
    else if e.priority != Urgent then Fail("emergency beacon must be urgent")
    else if |e.payload| > MAX_PUBLIC_PAYLOAD_BYTES then Fail("emergency beacon exceeds public payload limit")
    else if e.ttlMs > MAX_PUBLIC_TTL_MS then Fail("emergency beacon TTL is too long")
    else Need(e.hopLimit <= MAX_PUBLIC_HOPS, "emergency beacon hop limit is too high")
  }

  function Radios(offers: seq<Offer>): seq<Offer> {
    Routing.Filtered(offers, OpenRadio)
  }

  /** The two passes of the code: the protected offers, then the open radios. */
  function Select(e: Envelope, offers: seq<Offer>, allowUnprotectedBroadcast: bool): Result<Plan> {
    var check := ValidatePublicBeacon(e);
    :- check;
    match Routing.Selection(e, offers, true)
    case Ok(plan) => Ok(plan)
    case Err(_) =>
      if !allowUnprotectedBroadcast then Err("no protected emergency transport available")
      else if Radios(offers) == [] then Err("no eligible open emergency radio transport")
      else Routing.Selection(e, Radios(offers), false)
  }

  // ---------------------------------------------------------------- the same choice in one pass

  /** What may carry the beacon at all: it is protected, or one of the three radios and that is allowed. */
  predicate Candidate(e: Envelope, allowUnprotectedBroadcast: bool, o: Offer) {
    && o.available && |e.payload| <= o.maxPayloadBytes && (e.ackRequired ==> o.supportsAck)
    && (o.protectedPath || (allowUnprotectedBroadcast && o.kind in {LoraP2p, Meshtastic, Lorawan}))
  }

  lemma CandidatesAreEligible(e: Envelope, allowUnprotectedBroadcast: bool, o: Offer)
    ensures Candidate(e, allowUnprotectedBroadcast, o)
       <==> Routing.Eligible(e, true, o) || (allowUnprotectedBroadcast && OpenRadio(o) && Routing.Eligible(e, false, o))
  {
  }

  /**
   Position `c` holds a candidate, protected if any candidate is. Among those protected alike none has a smaller
   preference, with the same preference none a smaller name by code points, and none before it the same name.
   */
  ghost predicate FirstLeast(e: Envelope, offers: seq<Offer>, allowUnprotectedBroadcast: bool, c: nat) {
    && c < |offers| && Candidate(e, allowUnprotectedBroadcast, offers[c])
    && forall j | 0 <= j < |offers| && Candidate(e, allowUnprotectedBroadcast, offers[j]) ::
         Leads(offers[c], offers[j]) && (j < c ==> !SameKey(offers[c], offers[j]))
  }

  ghost predicate Leads(o: Offer, x: Offer) {
    && (x.protectedPath ==> o.protectedPath)
    && (o.protectedPath == x.protectedPath ==>
          && o.preference <= x.preference
          && (o.preference == x.preference ==> !Text.CodePointLess(x.name, o.name)))
  }

  ghost predicate SameKey(o: Offer, x: Offer) {
    o.protectedPath == x.protectedPath && o.preference == x.preference && o.name == x.name
  }

  function RadioTest(e: Envelope): Offer -> bool {
    o => OpenRadio(o) && Routing.Eligible(e, false, o)
  }

  lemma {:induction false} FilteredTwice(e: Envelope, offers: seq<Offer>)
    ensures Routing.Filtered(Radios(offers), Routing.EligibleTest(e, false)) == Routing.Filtered(offers, RadioTest(e))
  {
    if offers != [] {
      FilteredTwice(e, offers[1..]);
    }
  }

  /** The second pass picks the first least eligible radio. */
  lemma RadioPass(e: Envelope, offers: seq<Offer>) returns (c: nat)
    requires Routing.Selection(e, Radios(offers), false).Ok?
    ensures Routing.FirstLeast(offers, RadioTest(e), c)
    ensures Routing.Selection(e, Radios(offers), false) == Ok(Routing.PlanFor(e, offers[c]))
  {
    FilteredTwice(e, offers);
    c := Routing.BestIsFirstLeast(offers, RadioTest(e));
  }

  lemma RadioPassFails(e: Envelope, offers: seq<Offer>)
    ensures Routing.Selection(e, Radios(offers), false).Err?
       <==> forall o <- offers :: !(OpenRadio(o) && Routing.Eligible(e, false, o))
  {
    FilteredTwice(e, offers);
    Routing.FilteredMembers(offers, RadioTest(e));
  }

  /** For a valid beacon the two passes fail exactly when there is no candidate. */
  lemma FailsIffNoCandidate(e: Envelope, offers: seq<Offer>, allowUnprotectedBroadcast: bool)
    ensures Select(e, offers, allowUnprotectedBroadcast).Err?
       <==> ValidatePublicBeacon(e).Fail? || forall o <- offers :: !Candidate(e, allowUnprotectedBroadcast, o)
  {
    forall o ensures Candidate(e, allowUnprotectedBroadcast, o) <==>
        Routing.Eligible(e, true, o) || (allowUnprotectedBroadcast && OpenRadio(o) && Routing.Eligible(e, false, o)) {
      CandidatesAreEligible(e, allowUnprotectedBroadcast, o);
    }
    Routing.SelectionMeans(e, offers, true);
    RadioPassFails(e, offers);
    Routing.SelectionMeans(e, Radios(offers), false);
  }

  /** Why there is no plan for a valid beacon: no consent, no radio at all, or no radio that can carry it. */
  lemma FailsBecause(e: Envelope, offers: seq<Offer>, allowUnprotectedBroadcast: bool)
    requires ValidatePublicBeacon(e).Pass? && forall o <- offers :: !Candidate(e, allowUnprotectedBroadcast, o)
    ensures Select(e, offers, allowUnprotectedBroadcast)
         == Err(if !allowUnprotectedBroadcast then "no protected emergency transport available"
                else if exists o :: o in offers && o.kind in {LoraP2p, Meshtastic, Lorawan}
                then "no eligible transport for envelope"
                else "no eligible open emergency radio transport")
  {
    FailsIffNoCandidate(e, offers, allowUnprotectedBroadcast);
    Routing.FilteredMembers(offers, OpenRadio);
    Routing.SelectionMeans(e, offers, true);
    assert forall o <- offers :: !Routing.Eligible(e, true, o);
  }

  /** The two passes choose one lexicographic minimum over all the candidates. */
  lemma SelectsLeastCandidate(e: Envelope, offers: seq<Offer>, allowUnprotectedBroadcast: bool) returns (c: nat)
    requires Select(e, offers, allowUnprotectedBroadcast).Ok?
    ensures FirstLeast(e, offers, allowUnprotectedBroadcast, c)
    ensures Select(e, offers, allowUnprotectedBroadcast) == Ok(Routing.PlanFor(e, offers[c]))
  {
    Routing.SelectionMeans(e, offers, true);
    if Routing.Selection(e, offers, true).Ok? {
      c := Routing.ChosenPosition(e, offers, true);
      assert FirstLeast(e, offers, allowUnprotectedBroadcast, c);
    } else {
      c := RadioPass(e, offers);
      assert forall o <- offers :: Candidate(e, allowUnprotectedBroadcast, o) ==> RadioTest(e)(o) && !o.protectedPath;
    }
  }

  lemma FirstLeastIsUnique(e: Envelope, offers: seq<Offer>, allowUnprotectedBroadcast: bool, c: nat, d: nat)
    requires FirstLeast(e, offers, allowUnprotectedBroadcast, c)
    requires FirstLeast(e, offers, allowUnprotectedBroadcast, d)
    ensures c == d
  {
    Text.CodePointTotal(offers[c].name, offers[d].name);
  }

  /** Both directions at once: for a valid beacon, the plan is that of position `c` if `c` is the first least candidate. */
  lemma TwoPassesAreOne(e: Envelope, offers: seq<Offer>, allowUnprotectedBroadcast: bool, c: nat)
    requires ValidatePublicBeacon(e).Pass? && FirstLeast(e, offers, allowUnprotectedBroadcast, c)
    ensures Select(e, offers, allowUnprotectedBroadcast) == Ok(Routing.PlanFor(e, offers[c]))
  {
    FailsIffNoCandidate(e, offers, allowUnprotectedBroadcast);
    assert offers[c] in offers;
    var d := SelectsLeastCandidate(e, offers, allowUnprotectedBroadcast);
    FirstLeastIsUnique(e, offers, allowUnprotectedBroadcast, c, d);
  }

  /** A beacon leaves unprotected only by consent, on a radio, with no protected carrier for it, and marked degraded. */
  lemma UnprotectedOnlyAsLastResort(e: Envelope, offers: seq<Offer>, allowUnprotectedBroadcast: bool, c: nat)
    requires ValidatePublicBeacon(e).Pass? && FirstLeast(e, offers, allowUnprotectedBroadcast, c)
    requires !offers[c].protectedPath
    ensures Select(e, offers, allowUnprotectedBroadcast).Ok?
    ensures var plan := Select(e, offers, allowUnprotectedBroadcast).value;
            allowUnprotectedBroadcast && plan.degraded && plan.transportKind in {LoraP2p, Meshtastic, Lorawan}
    ensures forall o <- offers :: !Routing.Eligible(e, true, o)
  {
    TwoPassesAreOne(e, offers, allowUnprotectedBroadcast, c);
    forall o <- offers ensures !Routing.Eligible(e, true, o) {
      var j :| 0 <= j < |offers| && offers[j] == o;
    }
  }
}
