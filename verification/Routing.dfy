/** Transport selection: filter the offers, then take the first of least (preference, name). */
module Routing {
  import opened Contracts
  import Text

  predicate Constrained(kind: TransportKind) {
    kind in {LoraP2p, Meshtastic, Lorawan}
  }

  predicate Eligible(e: Envelope, requireProtectedPath: bool, o: Offer) {
    && o.available
    && |e.payload| <= o.maxPayloadBytes
    && (requireProtectedPath ==> o.protectedPath)
    && (e.ackRequired ==> o.supportsAck)
  }

  function EligibleTest(e: Envelope, requireProtectedPath: bool): Offer -> bool {
    o => Eligible(e, requireProtectedPath, o)
  }

  /** The order on (preference, name). */
  predicate Precedes(a: Offer, b: Offer) {
    a.preference < b.preference || (a.preference == b.preference && Text.Before(a.name, b.name))
  }

  function Filtered(offers: seq<Offer>, keep: Offer -> bool): seq<Offer> {
    if offers == [] then []
    else if keep(offers[0]) then [offers[0]] + Filtered(offers[1..], keep)
    else Filtered(offers[1..], keep)
  }

  /** The minimum by key; among equals, the one met first. */
  function Best(offers: seq<Offer>): Offer
    requires offers != []
  {
    if |offers| == 1 then offers[0]
    else
      var rest := Best(offers[1..]);
      if Precedes(rest, offers[0]) then rest else offers[0]
  }

  function PlanFor(e: Envelope, o: Offer): Plan {
    Plan(e.messageId, o.name, o.kind, Constrained(o.kind))
  }

  function Selection(e: Envelope, offers: seq<Offer>, requireProtectedPath: bool): Result<Plan> {
    var eligible := Filtered(offers, EligibleTest(e, requireProtectedPath));
    if eligible == [] then Err("no eligible transport for envelope") else Ok(PlanFor(e, Best(eligible)))
  }

  /**
   Position `c` holds a wanted offer. No wanted one has a smaller preference; of those with the same preference
   none has a name smaller by code points, and none before position `c` has the same name.
   */
  ghost predicate FirstLeast(offers: seq<Offer>, keep: Offer -> bool, c: nat) {
    && c < |offers| && keep(offers[c])
    && forall j | 0 <= j < |offers| && keep(offers[j]) ::
         && offers[c].preference <= offers[j].preference
         && (offers[c].preference == offers[j].preference ==>
               !Text.CodePointLess(offers[j].name, offers[c].name) && (j < c ==> offers[j].name != offers[c].name))
  }

  /** The same by the order. */
  ghost predicate FirstByOrder(offers: seq<Offer>, keep: Offer -> bool, c: nat) {
    && c < |offers| && keep(offers[c])
    && forall j | 0 <= j < |offers| && keep(offers[j]) ::
         !Precedes(offers[j], offers[c]) && (j < c ==> Precedes(offers[c], offers[j]))
  }

  lemma FirstLeastByOrder(offers: seq<Offer>, keep: Offer -> bool, c: nat)
    ensures FirstLeast(offers, keep, c) <==> FirstByOrder(offers, keep, c)
  {
    if c < |offers| {
      forall j | 0 <= j < |offers| && keep(offers[j])
        ensures offers[c].preference == offers[j].preference ==>
                  (Text.Before(offers[j].name, offers[c].name) <==> Text.CodePointLess(offers[j].name, offers[c].name))
        ensures Text.Before(offers[c].name, offers[j].name) || offers[j].name == offers[c].name
                || Text.Before(offers[j].name, offers[c].name)
        ensures !(Text.Before(offers[c].name, offers[j].name) && Text.Before(offers[j].name, offers[c].name))
      {
        Text.BeforeExactly(offers[j].name, offers[c].name);
        Text.BeforeTotal(offers[j].name, offers[c].name);
      }
    }
  }

  ghost predicate PlansFirstLeast(e: Envelope, offers: seq<Offer>, requireProtectedPath: bool, plan: Plan) {
    exists c: nat :: FirstLeast(offers, EligibleTest(e, requireProtectedPath), c) && plan == PlanFor(e, offers[c])
  }

  /** An eligible offer of least preference, and of a least name by code points among those. */
  ghost predicate Least(e: Envelope, offers: seq<Offer>, requireProtectedPath: bool, o: Offer) {
    && o in offers && Eligible(e, requireProtectedPath, o)
    && forall x <- offers :: Eligible(e, requireProtectedPath, x) ==>
         && o.preference <= x.preference
         && (o.preference == x.preference ==> !Text.CodePointLess(x.name, o.name))
  }

  ghost predicate PlansLeast(e: Envelope, offers: seq<Offer>, requireProtectedPath: bool, plan: Plan) {
    exists o :: Least(e, offers, requireProtectedPath, o)
                && plan.messageId == e.messageId && plan.transportName == o.name && plan.transportKind == o.kind
  }

  method Select(e: Envelope, offers: seq<Offer>, requireProtectedPath: bool) returns (r: Result<Plan>)
    ensures r == Selection(e, offers, requireProtectedPath)
    ensures r.Err? <==> forall o <- offers :: !Eligible(e, requireProtectedPath, o)
    ensures r.Ok? ==> PlansFirstLeast(e, offers, requireProtectedPath, r.value)
    ensures r.Ok? ==> PlansLeast(e, offers, requireProtectedPath, r.value)
    ensures r.Ok? ==> (r.value.degraded <==> r.value.transportKind in {LoraP2p, Meshtastic, Lorawan})
  {
    SelectionMeans(e, offers, requireProtectedPath);
    if Selection(e, offers, requireProtectedPath).Ok? {
      PlansALeast(e, offers, requireProtectedPath);
    }
    var eligible := [];
    for i := 0 to |offers|
      invariant eligible + Filtered(offers[i..], EligibleTest(e, requireProtectedPath))
             == Filtered(offers, EligibleTest(e, requireProtectedPath))
    {
      var offer := offers[i];
      FilteredNext(offers, EligibleTest(e, requireProtectedPath), eligible, i);
      if !offer.available {
        continue;
      }
      if |e.payload| > offer.maxPayloadBytes {
        continue;
      }
      if requireProtectedPath && !offer.protectedPath {
        continue;
      }
      if e.ackRequired && !offer.supportsAck {
        continue;
      }
      eligible := eligible + [offer];
    }
    assert eligible == Filtered(offers, EligibleTest(e, requireProtectedPath));
    if eligible == [] {
      return Err("no eligible transport for envelope");
    }
    return Ok(PlanFor(e, Best(eligible)));
  }

  lemma {:induction false} FilteredMembers(offers: seq<Offer>, keep: Offer -> bool)
    ensures forall o :: o in Filtered(offers, keep) <==> o in offers && keep(o)
    ensures Filtered(offers, keep) == [] <==> forall o <- offers :: !keep(o)
  {
    if offers != [] {
      FilteredMembers(offers[1..], keep);
      assert offers == [offers[0]] + offers[1..];
    }
  }

  lemma FilteredNext(offers: seq<Offer>, keep: Offer -> bool, done: seq<Offer>, i: nat)
    requires i < |offers|
    ensures done + Filtered(offers[i..], keep)
         == (if keep(offers[i]) then done + [offers[i]] else done) + Filtered(offers[i + 1..], keep)
  {
    var later := Filtered(offers[i + 1..], keep);
    assert offers[i..][1..] == offers[i + 1..];
    assert done + ([offers[i]] + later) == (done + [offers[i]]) + later;
  }

  lemma PrecedesTransitive(a: Offer, b: Offer, c: Offer)
    requires Precedes(a, b) && !Precedes(c, b)
    ensures Precedes(a, c)
  {
    Text.BeforeTotal(b.name, c.name);
    if a.preference == b.preference == c.preference && b.name != c.name {
      Text.BeforeTransitive(a.name, b.name, c.name);
    }
  }

  lemma PrecedesIsStrict(a: Offer, b: Offer)
    ensures !(Precedes(a, b) && Precedes(b, a))
    ensures Precedes(a, b) || Precedes(b, a) || (a.preference == b.preference && a.name == b.name)
  {
    Text.BeforeTotal(a.name, b.name);
  }

  lemma BestIsFirstLeast(offers: seq<Offer>, keep: Offer -> bool) returns (c: nat)
    requires Filtered(offers, keep) != []
    ensures FirstLeast(offers, keep, c) && offers[c] == Best(Filtered(offers, keep))
  {
    c := BestIsFirst(offers, keep);
    FirstLeastByOrder(offers, keep, c);
  }

  lemma {:induction false} BestIsFirst(offers: seq<Offer>, keep: Offer -> bool) returns (c: nat)
    requires Filtered(offers, keep) != []
    ensures FirstByOrder(offers, keep, c) && offers[c] == Best(Filtered(offers, keep))
  {
    var head, tail := offers[0], offers[1..];
    FilteredMembers(tail, keep);
    PrecedesIsStrict(head, head);
    if Filtered(tail, keep) == [] {
      c := 0;
    } else {
      var d := BestIsFirst(tail, keep);
      if !keep(head) || Precedes(tail[d], head) {
        c := d + 1;
        PrecedesIsStrict(tail[d], head);
      } else {
        c := 0;
        forall j | 0 < j < |offers| && keep(offers[j]) ensures !Precedes(offers[j], head) {
          assert offers[j] == tail[j - 1];
          if Precedes(tail[j - 1], head) {
            PrecedesTransitive(tail[j - 1], head, tail[d]);
          }
        }
      }
    }
  }

  lemma FirstLeastIsUnique(offers: seq<Offer>, keep: Offer -> bool, c: nat, d: nat)
    requires FirstLeast(offers, keep, c) && FirstLeast(offers, keep, d)
    ensures c == d
  {
    FirstLeastByOrder(offers, keep, c);
    FirstLeastByOrder(offers, keep, d);
    PrecedesIsStrict(offers[c], offers[d]);
  }

  /** The selected plan is that of the first least eligible position, and there is one unless none is eligible. */
  lemma SelectsFirstLeast(e: Envelope, offers: seq<Offer>, requireProtectedPath: bool, c: nat)
    requires FirstLeast(offers, EligibleTest(e, requireProtectedPath), c)
    ensures Selection(e, offers, requireProtectedPath) == Ok(PlanFor(e, offers[c]))
  {
    var keep := EligibleTest(e, requireProtectedPath);
    FilteredMembers(offers, keep);
    var d := BestIsFirstLeast(offers, keep);
    FirstLeastIsUnique(offers, keep, c, d);
  }

  lemma ChosenPosition(e: Envelope, offers: seq<Offer>, requireProtectedPath: bool) returns (c: nat)
    requires Selection(e, offers, requireProtectedPath).Ok?
    ensures FirstLeast(offers, EligibleTest(e, requireProtectedPath), c)
    ensures Selection(e, offers, requireProtectedPath) == Ok(PlanFor(e, offers[c]))
  {
    c := BestIsFirstLeast(offers, EligibleTest(e, requireProtectedPath));
  }

  /** Selection fails exactly when no offer is eligible, and otherwise plans the first least one. */
  lemma SelectionMeans(e: Envelope, offers: seq<Offer>, requireProtectedPath: bool)
    ensures var r := Selection(e, offers, requireProtectedPath);
            && (r.Err? <==> forall o <- offers :: !Eligible(e, requireProtectedPath, o))
            && (r.Ok? ==> PlansFirstLeast(e, offers, requireProtectedPath, r.value))
  {
    FilteredMembers(offers, EligibleTest(e, requireProtectedPath));
    if Selection(e, offers, requireProtectedPath).Ok? {
      var c := ChosenPosition(e, offers, requireProtectedPath);
    }
  }

  lemma PlansALeast(e: Envelope, offers: seq<Offer>, requireProtectedPath: bool)
    requires Selection(e, offers, requireProtectedPath).Ok?
    ensures PlansLeast(e, offers, requireProtectedPath, Selection(e, offers, requireProtectedPath).value)
  {
    var c := ChosenPosition(e, offers, requireProtectedPath);
    assert Least(e, offers, requireProtectedPath, offers[c]);
  }

  // ---------------------------------------------------------------- the order of the offers

  ghost predicate Permutation(a: seq<Offer>, b: seq<Offer>) {
    multiset(a) == multiset(b)
  }

  lemma SameOffers(a: seq<Offer>, b: seq<Offer>)
    requires Permutation(a, b)
    ensures forall o :: o in a <==> o in b
  {
    assert forall o :: o in a <==> o in multiset(a);
    assert forall o :: o in b <==> o in multiset(b);
  }

  lemma SameKey(e: Envelope, a: seq<Offer>, b: seq<Offer>, requireProtectedPath: bool, c: nat, d: nat)
    requires forall o :: o in a <==> o in b
    requires FirstLeast(a, EligibleTest(e, requireProtectedPath), c)
    requires FirstLeast(b, EligibleTest(e, requireProtectedPath), d)
    ensures a[c].preference == b[d].preference && a[c].name == b[d].name
  {
    assert a[c] in b && b[d] in a;
    Text.CodePointTotal(a[c].name, b[d].name);
  }

  /** Reordering the offers never changes whether there is a plan, nor the transport it names. */
  lemma NameIsOrderFree(e: Envelope, a: seq<Offer>, b: seq<Offer>, requireProtectedPath: bool)
    requires Permutation(a, b)
    ensures var p, q := Selection(e, a, requireProtectedPath), Selection(e, b, requireProtectedPath);
            && (p.Ok? <==> q.Ok?)
            && (p.Ok? ==> p.value.transportName == q.value.transportName)
  {
    SameOffers(a, b);
    SelectionMeans(e, a, requireProtectedPath);
    SelectionMeans(e, b, requireProtectedPath);
    if Selection(e, a, requireProtectedPath).Ok? {
      var c := ChosenPosition(e, a, requireProtectedPath);
      var d := ChosenPosition(e, b, requireProtectedPath);
      SameKey(e, a, b, requireProtectedPath, c, d);
    }
  }

  /** All the least eligible offers are of one kind (in particular when no two eligible offers share a key). */
  ghost predicate KindIsSettled(e: Envelope, offers: seq<Offer>, requireProtectedPath: bool) {
    forall x, y :: Least(e, offers, requireProtectedPath, x) && Least(e, offers, requireProtectedPath, y)
                   ==> x.kind == y.kind
  }

  /** Enough for that: no two different eligible offers share a key. */
  lemma DistinctKeysSettleKind(e: Envelope, offers: seq<Offer>, requireProtectedPath: bool)
    requires forall x <- offers, y <- offers ::
               (Eligible(e, requireProtectedPath, x) && Eligible(e, requireProtectedPath, y)
                && x.preference == y.preference && x.name == y.name) ==> x == y
    ensures KindIsSettled(e, offers, requireProtectedPath)
  {
    forall x, y | Least(e, offers, requireProtectedPath, x) && Least(e, offers, requireProtectedPath, y)
      ensures x.kind == y.kind
    {
      Text.CodePointTotal(x.name, y.name);
    }
  }

  ghost predicate PlanIsOrderFree(e: Envelope, offers: seq<Offer>, requireProtectedPath: bool) {
    forall other | Permutation(offers, other) ::
      Selection(e, other, requireProtectedPath) == Selection(e, offers, requireProtectedPath)
  }

  /** The whole plan is the same for every order of the offers exactly when the key settles the kind. */
  lemma PlanIsOrderFreeIff(e: Envelope, offers: seq<Offer>, requireProtectedPath: bool)
    ensures PlanIsOrderFree(e, offers, requireProtectedPath) <==> KindIsSettled(e, offers, requireProtectedPath)
  {
    if KindIsSettled(e, offers, requireProtectedPath) {
      forall other | Permutation(offers, other)
        ensures Selection(e, other, requireProtectedPath) == Selection(e, offers, requireProtectedPath)
      {
        SettledKindSettlesPlan(e, offers, other, requireProtectedPath);
      }
    }
    if PlanIsOrderFree(e, offers, requireProtectedPath) {
      forall x, y | Least(e, offers, requireProtectedPath, x) && Least(e, offers, requireProtectedPath, y)
        ensures x.kind == y.kind
      {
        LeastCanComeFirst(e, offers, requireProtectedPath, x);
        LeastCanComeFirst(e, offers, requireProtectedPath, y);
      }
    }
  }

  lemma SettledKindSettlesPlan(e: Envelope, a: seq<Offer>, b: seq<Offer>, requireProtectedPath: bool)
    requires Permutation(a, b) && KindIsSettled(e, a, requireProtectedPath)
    ensures Selection(e, a, requireProtectedPath) == Selection(e, b, requireProtectedPath)
  {
    SameOffers(a, b);
    NameIsOrderFree(e, a, b, requireProtectedPath);
    if Selection(e, a, requireProtectedPath).Ok? {
      var c := ChosenPosition(e, a, requireProtectedPath);
      var d := ChosenPosition(e, b, requireProtectedPath);
      assert Least(e, a, requireProtectedPath, a[c]);
      assert Least(e, a, requireProtectedPath, b[d]);
    }
  }

  /** Some order of the offers makes any given least offer the chosen one. */
  lemma LeastCanComeFirst(e: Envelope, offers: seq<Offer>, requireProtectedPath: bool, o: Offer)
    requires Least(e, offers, requireProtectedPath, o)
    ensures exists other :: Permutation(offers, other)
                            && Selection(e, other, requireProtectedPath) == Ok(PlanFor(e, o))
  {
    var k: nat :| k < |offers| && offers[k] == o;
    var other := WithFirst(offers, k);
    MovingToFrontPermutes(offers, k);
    LeastAtFrontIsChosen(e, offers, other, requireProtectedPath);
  }

  function WithFirst(offers: seq<Offer>, k: nat): seq<Offer>
    requires k < |offers|
  {
    [offers[k]] + (offers[..k] + offers[k + 1..])
  }

  lemma MovingToFrontPermutes(offers: seq<Offer>, k: nat)
    requires k < |offers|
    ensures Permutation(offers, WithFirst(offers, k))
  {
    assert offers == offers[..k] + ([offers[k]] + offers[k + 1..]);
  }

  lemma LeastAtFrontIsChosen(e: Envelope, offers: seq<Offer>, other: seq<Offer>, requireProtectedPath: bool)
    requires Permutation(offers, other) && other != [] && Least(e, offers, requireProtectedPath, other[0])
    ensures Selection(e, other, requireProtectedPath) == Ok(PlanFor(e, other[0]))
  {
    SameOffers(offers, other);
    assert FirstLeast(other, EligibleTest(e, requireProtectedPath), 0);
    SelectsFirstLeast(e, other, requireProtectedPath, 0);
  }

  /** Two valid offers with the same key and different kinds: each order gives another plan, one of them degraded. */
  lemma EqualKeysGiveTwoPlans(e: Envelope)
    requires e.Valid()
    ensures var ip := Offer("x", Ip, true, |e.payload|, 1, true, true, false);
            var radio := ip.(kind := LoraP2p);
            && ip.Valid() && radio.Valid() && Permutation([ip, radio], [radio, ip])
            && Selection(e, [ip, radio], true) == Ok(Plan(e.messageId, "x", Ip, false))
            && Selection(e, [radio, ip], true) == Ok(Plan(e.messageId, "x", LoraP2p, true))
  {
    var ip := Offer("x", Ip, true, |e.payload|, 1, true, true, false);
    var radio := ip.(kind := LoraP2p);
    Text.CodePointTotal("x", "x");
    assert FirstLeast([ip, radio], EligibleTest(e, true), 0);
    assert FirstLeast([radio, ip], EligibleTest(e, true), 0);
    SelectsFirstLeast(e, [ip, radio], true, 0);
    SelectsFirstLeast(e, [radio, ip], true, 0);
  }

  /** Withdrawing any offer but the chosen one leaves the plan as it was. */
  lemma UnchosenOffersDoNotMatter(e: Envelope, offers: seq<Offer>, requireProtectedPath: bool, c: nat, k: nat)
    requires FirstLeast(offers, EligibleTest(e, requireProtectedPath), c) && k < |offers| && k != c
    ensures Selection(e, offers[..k] + offers[k + 1..], requireProtectedPath)
         == Selection(e, offers, requireProtectedPath)
  {
    var others := offers[..k] + offers[k + 1..];
    var d := if c < k then c else c - 1;
    assert forall j | 0 <= j < |others| :: others[j] == offers[if j < k then j else j + 1];
    assert FirstLeast(others, EligibleTest(e, requireProtectedPath), d);
    SelectsFirstLeast(e, others, requireProtectedPath, d);
    SelectsFirstLeast(e, offers, requireProtectedPath, c);
  }
}
