/** The bounded, time-pruned store-and-forward queue, and the idealised queue that it refines. */
module Queueing {
  import opened Contracts

  datatype Queued = Queued(envelope: Envelope, queuedAtMs: int)

  /** The items that have not expired, in order. */
  function Live(items: seq<Queued>, nowMs: int): (r: seq<Queued>)
    ensures |r| <= |items|
    ensures forall q :: q in r <==> q in items && nowMs < q.envelope.createdAtMs + q.envelope.ttlMs
  {
    if items == [] then []
    else if items[0].envelope.IsExpired(nowMs) then Live(items[1..], nowMs)
    else [items[0]] + Live(items[1..], nowMs)
  }

  datatype Limits = Limits(capacity: nat, maxPayloadBytes: nat)

  datatype Op = Enqueue(envelope: Envelope, nowMs: int) | Prune(nowMs: int) | PopNext(nowMs: int)
  datatype Output = Accepted | Refused(reason: string) | Pruned(count: nat) | Popped(envelope: Option<Envelope>)

  /** Why an envelope is refused when `held` items remain after pruning. */
  function Admission(limits: Limits, held: nat, e: Envelope, nowMs: int): Check {
    if e.IsExpired(nowMs) then Fail("cannot queue expired envelope")
    else if |e.payload| > limits.maxPayloadBytes then Fail("envelope exceeds queue payload limit")
    else Need(held < limits.capacity, "store-and-forward queue is full")
  }

  /** What the queue does: every operation prunes first. */
  function Step(limits: Limits, items: seq<Queued>, op: Op): (r: (seq<Queued>, Output)) {
    var live := Live(items, op.nowMs);
    match op
    case Prune(_) => (live, Pruned(|items| - |live|))
    case PopNext(_) => if live == [] then ([], Popped(None)) else (live[1..], Popped(Some(live[0].envelope)))
    case Enqueue(e, nowMs) =>
      match Admission(limits, |live|, e, nowMs)
      case Fail(reason) => (live, Refused(reason))
      case Pass => (live + [Queued(e, nowMs)], Accepted)
  }

  class StoreAndForwardQueue {
    const limits: Limits
    var items: seq<Queued>

    ghost predicate Valid()
      reads this
    {
      limits.capacity >= 1 && |items| <= limits.capacity
    }

    constructor (limits: Limits)
      requires limits.capacity >= 1
      ensures Valid() && this.limits == limits && items == []
    {
      this.limits := limits;
      this.items := [];
    }

    /** Construction as callers see it: limits below one are refused. */
    static method Create(capacity: int, maxPayloadBytes: int) returns (r: Result<StoreAndForwardQueue>)
      ensures r.Ok? <==> capacity >= 1 && maxPayloadBytes >= 1
      ensures r.Ok? ==> fresh(r.value) && r.value.Valid() && r.value.items == []
      ensures r.Ok? ==> r.value.limits == Limits(capacity, maxPayloadBytes)
    {
      if capacity < 1 || maxPayloadBytes < 1 {
        return Err("queue limits must be positive");
      }
      var queue := new StoreAndForwardQueue(Limits(capacity, maxPayloadBytes));
      return Ok(queue);
    }

    method Prune(nowMs: int) returns (count: nat)
      requires Valid()
      modifies this
      ensures Valid()
      ensures (items, Pruned(count)) == Step(limits, old(items), Op.Prune(nowMs))
      ensures items == Live(old(items), nowMs) && count == |old(items)| - |items|
      ensures forall q <- items :: nowMs < q.envelope.createdAtMs + q.envelope.ttlMs
    {
      var before := |items|;
      items := Live(items, nowMs);
      count := before - |items|;
    }

    method Enqueue(e: Envelope, nowMs: int) returns (r: Result<()>)
      requires Valid()
      modifies this
      ensures Valid()
      ensures (items, if r.Ok? then Accepted else Refused(r.reason)) == Step(limits, old(items), Op.Enqueue(e, nowMs))
      ensures items == Live(old(items), nowMs) + if r.Ok? then [Queued(e, nowMs)] else []
      ensures r == if nowMs >= e.createdAtMs + e.ttlMs then Err("cannot queue expired envelope")
                   else if |e.payload| > limits.maxPayloadBytes then Err("envelope exceeds queue payload limit")
                   else if |Live(old(items), nowMs)| >= limits.capacity then Err("store-and-forward queue is full")
                   else Ok(())
    {
      var _ := Prune(nowMs);
      if e.IsExpired(nowMs) {
        return Err("cannot queue expired envelope");
      }
      if |e.payload| > limits.maxPayloadBytes {
        return Err("envelope exceeds queue payload limit");
      }
      if |items| >= limits.capacity {
        return Err("store-and-forward queue is full");
      }
      items := items + [Queued(e, nowMs)];
      return Ok(());
    }

    method PopNext(nowMs: int) returns (r: Option<Envelope>)
      requires Valid()
      modifies this
      ensures Valid()
      ensures (items, Popped(r)) == Step(limits, old(items), Op.PopNext(nowMs))
      ensures var live := Live(old(items), nowMs);
              if live == [] then r == None && items == [] else r == Some(live[0].envelope) && items == live[1..]
    {
      var _ := Prune(nowMs);
      if items == [] {
        return None;
      }
      r := Some(items[0].envelope);
      items := items[1..];
    }
  }

  // ---------------------------------------------------------------- the idealised queue

  /** Keeps every accepted envelope until it is popped, and remembers the time of its last operation. */
  datatype Ideal = Ideal(items: seq<Queued>, lastMs: int)

  /** The earliest live item taken out, everything else kept, expired or not. */
  function TakeFirstLive(items: seq<Queued>, nowMs: int): (seq<Queued>, Option<Envelope>) {
    if items == [] then ([], None)
    else if !items[0].envelope.IsExpired(nowMs) then (items[1..], Some(items[0].envelope))
    else
      var (rest, taken) := TakeFirstLive(items[1..], nowMs);
      ([items[0]] + rest, taken)
  }

  function IdealStep(limits: Limits, q: Ideal, op: Op): (Ideal, Output) {
    var live := |Live(q.items, op.nowMs)|;
    match op
    case Prune(nowMs) =>
      (q.(lastMs := nowMs), Pruned(if live <= |Live(q.items, q.lastMs)| then |Live(q.items, q.lastMs)| - live else 0))
    case PopNext(nowMs) =>
      var (rest, taken) := TakeFirstLive(q.items, nowMs);
      (Ideal(rest, nowMs), Popped(taken))
    case Enqueue(e, nowMs) =>
      match Admission(limits, live, e, nowMs)
      case Fail(reason) => (q.(lastMs := nowMs), Refused(reason))
      case Pass => (Ideal(q.items + [Queued(e, nowMs)], nowMs), Accepted)
  }

  function Outputs(limits: Limits, items: seq<Queued>, ops: seq<Op>): seq<Output>
    decreases |ops|
  {
    if ops == [] then []
    else
      var (next, output) := Step(limits, items, ops[0]);
      [output] + Outputs(limits, next, ops[1..])
  }

  function IdealOutputs(limits: Limits, q: Ideal, ops: seq<Op>): seq<Output>
    decreases |ops|
  {
    if ops == [] then []
    else
      var (next, output) := IdealStep(limits, q, ops[0]);
      [output] + IdealOutputs(limits, next, ops[1..])
  }

  ghost predicate ClockRuns(fromMs: int, ops: seq<Op>)
    decreases |ops|
  {
    ops != [] ==> fromMs <= ops[0].nowMs && ClockRuns(ops[0].nowMs, ops[1..])
  }

  lemma {:induction false} LiveLater(items: seq<Queued>, earlierMs: int, laterMs: int)
    requires earlierMs <= laterMs
    ensures Live(Live(items, earlierMs), laterMs) == Live(items, laterMs)
  {
    if items != [] {
      LiveLater(items[1..], earlierMs, laterMs);
    }
  }

  lemma {:induction false} LiveAppend(items: seq<Queued>, more: seq<Queued>, nowMs: int)
    ensures Live(items + more, nowMs) == Live(items, nowMs) + Live(more, nowMs)
  {
    if items == [] {
      assert items + more == more;
    } else {
      assert (items + more)[1..] == items[1..] + more;
      LiveAppend(items[1..], more, nowMs);
    }
  }

  lemma {:induction false} TakesFirstLive(items: seq<Queued>, nowMs: int)
    ensures var (rest, taken) := TakeFirstLive(items, nowMs);
            var live := Live(items, nowMs);
            && (taken.None? <==> live == [])
            && (live == [] ==> rest == items)
            && (live != [] ==> taken == Some(live[0].envelope) && Live(rest, nowMs) == live[1..])
  {
    if items != [] && items[0].envelope.IsExpired(nowMs) {
      TakesFirstLive(items[1..], nowMs);
    }
  }

  /** Position `k` holds the earliest item that has not expired. */
  ghost predicate EarliestLive(items: seq<Queued>, nowMs: int, k: nat) {
    k < |items| && !items[k].envelope.IsExpired(nowMs)
    && forall j | 0 <= j < k :: items[j].envelope.IsExpired(nowMs)
  }

  /** The ideal queue gives the earliest unexpired envelope and keeps all the others, expired or not. */
  lemma {:induction false} TakesEarliest(items: seq<Queued>, nowMs: int, k: nat)
    requires EarliestLive(items, nowMs, k)
    ensures TakeFirstLive(items, nowMs) == (items[..k] + items[k + 1..], Some(items[k].envelope))
    decreases |items|
  {
    if k > 0 {
      var rest := items[1..];
      TakesEarliest(rest, nowMs, k - 1);
      assert rest[k - 1 + 1..] == items[k + 1..];
      assert [items[0]] + (rest[..k - 1] + items[k + 1..]) == items[..k] + items[k + 1..];
    } else {
      assert items[..0] + items[1..] == items[1..];
    }
  }

  lemma {:induction false} TakesNoneIfAllExpired(items: seq<Queued>, nowMs: int)
    requires forall i | 0 <= i < |items| :: items[i].envelope.IsExpired(nowMs)
    ensures TakeFirstLive(items, nowMs) == (items, None)
  {
    if items != [] {
      TakesNoneIfAllExpired(items[1..], nowMs);
      assert [items[0]] + items[1..] == items;
    }
  }

  /** One operation on the pruned queue and on the ideal one: same output, and still in step. */
  lemma StepsAgree(limits: Limits, q: Ideal, op: Op)
    requires q.lastMs <= op.nowMs
    ensures var (next, output) := Step(limits, Live(q.items, q.lastMs), op);
            var (ideal, expected) := IdealStep(limits, q, op);
            output == expected && next == Live(ideal.items, ideal.lastMs) && ideal.lastMs == op.nowMs
  {
    LiveLater(q.items, q.lastMs, op.nowMs);
    match op
    case Prune(_) =>
    case PopNext(nowMs) => TakesFirstLive(q.items, nowMs);
    case Enqueue(e, nowMs) => LiveAppend(q.items, [Queued(e, nowMs)], nowMs);
  }

  /** With a clock that never goes back, pruning cannot be observed. */
  lemma {:induction false} RefinesIdeal(limits: Limits, q: Ideal, ops: seq<Op>)
    requires ClockRuns(q.lastMs, ops)
    ensures Outputs(limits, Live(q.items, q.lastMs), ops) == IdealOutputs(limits, q, ops)
    decreases |ops|
  {
    if ops != [] {
      StepsAgree(limits, q, ops[0]);
      RefinesIdeal(limits, IdealStep(limits, q, ops[0]).0, ops[1..]);
    }
  }

  // ---------------------------------------------------------------- conservation, whatever the clock does

  /** A held item and the number of the acceptance that put it there. */
  datatype Ticket = Ticket(number: nat, item: Queued)

  /** Everything that ever happened to the accepted envelopes, which are numbered in order. */
  datatype Ledger = Ledger(accepted: seq<Envelope>, held: seq<Ticket>, popped: seq<nat>, pruned: set<nat>)

  function Items(held: seq<Ticket>): (r: seq<Queued>)
    ensures |r| == |held|
  {
    seq(|held|, i requires 0 <= i < |held| => held[i].item)
  }

  function Numbers(held: seq<Ticket>): (r: seq<nat>)
    ensures |r| == |held|
  {
    seq(|held|, i requires 0 <= i < |held| => held[i].number)
  }

  function LiveTickets(held: seq<Ticket>, nowMs: int): seq<Ticket> {
    if held == [] then []
    else if held[0].item.envelope.IsExpired(nowMs) then LiveTickets(held[1..], nowMs)
    else [held[0]] + LiveTickets(held[1..], nowMs)
  }

  function NumberSet(held: seq<Ticket>): set<nat> {
    set t | t in held :: t.number
  }

  /** The books after one operation. */
  function Record(limits: Limits, l: Ledger, op: Op): Ledger {
    var live := LiveTickets(l.held, op.nowMs);
    var after := l.(held := live, pruned := l.pruned + (NumberSet(l.held) - NumberSet(live)));
    match op
    case Prune(_) => after
    case PopNext(_) =>
      if live == [] then after else after.(held := live[1..], popped := l.popped + [live[0].number])
    case Enqueue(e, nowMs) =>
      if Admission(limits, |live|, e, nowMs).Fail? then after
      else after.(accepted := l.accepted + [e], held := live + [Ticket(|l.accepted|, Queued(e, nowMs))])
  }

  ghost predicate Increasing(s: seq<nat>) {
    forall i, j | 0 <= i < j < |s| :: s[i] < s[j]
  }

  /**
   The books balance: accepted envelopes are popped, held or pruned, each exactly one of these;
   pops and then holdings are in order of acceptance; and the capacity is respected.
   */
  ghost predicate Balanced(limits: Limits, l: Ledger) {
    && Increasing(l.popped + Numbers(l.held))
    && (forall n: nat :: n < |l.accepted| <==> n in l.popped || n in Numbers(l.held) || n in l.pruned)
    && (forall n <- l.pruned :: n !in l.popped && n !in Numbers(l.held))
    && (forall t <- l.held :: t.number < |l.accepted| && t.item.envelope == l.accepted[t.number])
    && |l.held| <= limits.capacity
  }

  lemma {:induction false} LiveTicketsFacts(held: seq<Ticket>, nowMs: int)
    ensures Items(LiveTickets(held, nowMs)) == Live(Items(held), nowMs)
    ensures forall t :: t in LiveTickets(held, nowMs) <==> t in held && !t.item.envelope.IsExpired(nowMs)
    ensures |LiveTickets(held, nowMs)| <= |held|
  {
    if held != [] {
      LiveTicketsFacts(held[1..], nowMs);
      assert held == [held[0]] + held[1..];
      assert Items(held)[1..] == Items(held[1..]);
      var live := LiveTickets(held, nowMs);
      if !held[0].item.envelope.IsExpired(nowMs) {
        assert live[0] == held[0] && live[1..] == LiveTickets(held[1..], nowMs);
        assert Items(live) == [held[0].item] + Items(live[1..]);
      }
    }
  }

  /** Pruning keeps a subsequence: whatever was increasing stays increasing. */
  lemma {:induction false} PruningKeepsOrder(before: seq<nat>, held: seq<Ticket>, nowMs: int)
    requires Increasing(before + Numbers(held))
    ensures Increasing(before + Numbers(LiveTickets(held, nowMs)))
    decreases |held|
  {
    if held != [] {
      var rest := held[1..];
      assert Numbers(held) == [held[0].number] + Numbers(rest);
      if held[0].item.envelope.IsExpired(nowMs) {
        DropOne(before, held[0].number, Numbers(rest));
        PruningKeepsOrder(before, rest, nowMs);
      } else {
        assert before + Numbers(held) == (before + [held[0].number]) + Numbers(rest);
        PruningKeepsOrder(before + [held[0].number], rest, nowMs);
        var live := LiveTickets(rest, nowMs);
        assert Numbers([held[0]] + live) == [held[0].number] + Numbers(live);
        assert before + ([held[0].number] + Numbers(live)) == (before + [held[0].number]) + Numbers(live);
      }
    }
  }

  lemma DropOne(a: seq<nat>, x: nat, b: seq<nat>)
    requires Increasing(a + ([x] + b))
    ensures Increasing(a + b)
  {
    var s, t := a + ([x] + b), a + b;
    forall i, j | 0 <= i < j < |t| ensures t[i] < t[j] {
      assert t[i] == s[if i < |a| then i else i + 1] && t[j] == s[if j < |a| then j else j + 1];
    }
  }

  lemma NumbersMembers(held: seq<Ticket>)
    ensures forall n :: n in Numbers(held) <==> n in NumberSet(held)
  {
    forall n: nat | n in NumberSet(held) ensures n in Numbers(held) {
      var t :| t in held && t.number == n;
      var i :| 0 <= i < |held| && held[i] == t;
      assert Numbers(held)[i] == n;
    }
    forall n: nat | n in Numbers(held) ensures n in NumberSet(held) {
      var i :| 0 <= i < |held| && Numbers(held)[i] == n;
      assert held[i] in held;
    }
  }

  lemma IncreasingParts(a: seq<nat>, b: seq<nat>)
    requires Increasing(a + b)
    ensures forall n <- a :: n !in b
  {
    forall n <- a ensures n !in b {
      var i :| 0 <= i < |a| && a[i] == n;
      assert (a + b)[i] == n;
      assert forall j | 0 <= j < |b| :: b[j] == (a + b)[|a| + j];
    }
  }

  /** The pruning that opens every operation, on its own. */
  lemma PruningKeepsBalanced(limits: Limits, l: Ledger, nowMs: int)
    requires Balanced(limits, l)
    ensures Balanced(limits, Record(limits, l, Op.Prune(nowMs)))
  {
    var live := LiveTickets(l.held, nowMs);
    LiveTicketsFacts(l.held, nowMs);
    PruningKeepsOrder(l.popped, l.held, nowMs);
    NumbersMembers(l.held);
    NumbersMembers(live);
    IncreasingParts(l.popped, Numbers(l.held));
    assert NumberSet(live) <= NumberSet(l.held);
  }

  /** The earliest holding moves to the popped side. */
  lemma PoppingKeepsBalanced(limits: Limits, l: Ledger)
    requires Balanced(limits, l) && l.held != []
    ensures Balanced(limits, l.(held := l.held[1..], popped := l.popped + [l.held[0].number]))
  {
    var rest, first := l.held[1..], l.held[0].number;
    assert Numbers(l.held) == [first] + Numbers(rest);
    assert (l.popped + [first]) + Numbers(rest) == l.popped + Numbers(l.held);
    assert forall n: nat :: n in Numbers(l.held) <==> n == first || n in Numbers(rest);
  }

  /** A new acceptance takes the next number and the last place. */
  lemma AcceptingKeepsBalanced(limits: Limits, l: Ledger, item: Queued)
    requires Balanced(limits, l) && |l.held| < limits.capacity
    ensures Balanced(limits, l.(accepted := l.accepted + [item.envelope],
                                held := l.held + [Ticket(|l.accepted|, item)]))
  {
    var number := |l.accepted|;
    var held := l.held + [Ticket(number, item)];
    var known := l.popped + Numbers(l.held);
    assert Numbers(held) == Numbers(l.held) + [number];
    assert l.popped + Numbers(held) == known + [number];
    assert forall i | 0 <= i < |known| :: known[i] in known;
    assert forall n <- known :: n in l.popped || n in Numbers(l.held);
    assert forall n: nat :: n in Numbers(held) <==> n == number || n in Numbers(l.held);
    assert number !in l.popped && number !in l.pruned;
  }

  lemma RecordKeepsBalanced(limits: Limits, l: Ledger, op: Op)
    requires Balanced(limits, l)
    ensures Balanced(limits, Record(limits, l, op))
  {
    var pruned := Record(limits, l, Op.Prune(op.nowMs));
    PruningKeepsBalanced(limits, l, op.nowMs);
    match op
    case Prune(_) =>
    case PopNext(_) => if pruned.held != [] { PoppingKeepsBalanced(limits, pruned); }
    case Enqueue(e, nowMs) =>
      if Admission(limits, |pruned.held|, e, nowMs).Pass? {
        AcceptingKeepsBalanced(limits, pruned, Queued(e, nowMs));
      }
  }

  /** The books follow the queue: same holdings after the operation, and the acceptance, if it was one. */
  lemma RecordFollows(limits: Limits, l: Ledger, op: Op)
    ensures var (items, output) := Step(limits, Items(l.held), op);
            var next := Record(limits, l, op);
            && Items(next.held) == items
            && next.accepted == l.accepted + AcceptedBy(op, output)
            && l.popped <= next.popped && l.pruned <= next.pruned
  {
    LiveTicketsFacts(l.held, op.nowMs);
    var live := LiveTickets(l.held, op.nowMs);
    if live != [] {
      assert Items(live[1..]) == Items(live)[1..];
    }
    if op.Enqueue? {
      var added := [Ticket(|l.accepted|, Queued(op.envelope, op.nowMs))];
      assert Items(live + added) == Items(live) + [Queued(op.envelope, op.nowMs)];
    }
  }

  /** What is handed out is the accepted envelope whose number the books move to the popped side. */
  lemma RecordShowsPop(limits: Limits, l: Ledger, op: Op)
    requires Balanced(limits, l)
    ensures var output := Step(limits, Items(l.held), op).1;
            var next := Record(limits, l, op);
            if output.Popped? && output.envelope.Some? then
              && |next.popped| == |l.popped| + 1
              && next.popped[|l.popped|] < |l.accepted|
              && output.envelope.value == l.accepted[next.popped[|l.popped|]]
            else next.popped == l.popped
  {
    LiveTicketsFacts(l.held, op.nowMs);
    var live := LiveTickets(l.held, op.nowMs);
    if live != [] {
      assert live[0] in l.held && Items(live)[0] == live[0].item;
    }
  }

  /** An operation prunes exactly the holdings that have expired by its own time. */
  lemma PrunesTheExpired(limits: Limits, l: Ledger, op: Op)
    requires Balanced(limits, l)
    ensures forall n: nat :: n in Record(limits, l, op).pruned <==>
              n in l.pruned || (n in Numbers(l.held) && l.accepted[n].IsExpired(op.nowMs))
  {
    var live := LiveTickets(l.held, op.nowMs);
    LiveTicketsFacts(l.held, op.nowMs);
    NumbersMembers(l.held);
    forall n: nat | n in NumberSet(l.held)
      ensures n < |l.accepted| && (n in NumberSet(live) <==> !l.accepted[n].IsExpired(op.nowMs))
    {
      var t :| t in l.held && t.number == n;
    }
  }

  function Books(limits: Limits, l: Ledger, ops: seq<Op>): Ledger
    decreases |ops|
  {
    if ops == [] then l else Books(limits, Record(limits, l, ops[0]), ops[1..])
  }

  /** The queue after a run. */
  function Held(limits: Limits, items: seq<Queued>, ops: seq<Op>): seq<Queued>
    decreases |ops|
  {
    if ops == [] then items else Held(limits, Step(limits, items, ops[0]).0, ops[1..])
  }

  /** The envelopes that the callers of a run are told were accepted, in order. */
  function AcceptedIn(limits: Limits, items: seq<Queued>, ops: seq<Op>): seq<Envelope>
    decreases |ops|
  {
    if ops == [] then []
    else
      var (next, output) := Step(limits, items, ops[0]);
      AcceptedBy(ops[0], output) + AcceptedIn(limits, next, ops[1..])
  }

  function AcceptedBy(op: Op, output: Output): seq<Envelope> {
    if op.Enqueue? && output == Accepted then [op.envelope] else []
  }

  /** The envelopes that a run hands out, in order. */
  function PoppedIn(limits: Limits, items: seq<Queued>, ops: seq<Op>): seq<Envelope>
    decreases |ops|
  {
    if ops == [] then []
    else
      var (next, output) := Step(limits, items, ops[0]);
      PoppedBy(output) + PoppedIn(limits, next, ops[1..])
  }

  function PoppedBy(output: Output): seq<Envelope> {
    match output
    case Popped(Some(e)) => [e]
    case _ => []
  }

  predicate Names(accepted: seq<Envelope>, numbers: seq<nat>) {
    forall i | 0 <= i < |numbers| :: numbers[i] < |accepted|
  }

  function Named(accepted: seq<Envelope>, numbers: seq<nat>): seq<Envelope>
    requires Names(accepted, numbers)
  {
    seq(|numbers|, i requires 0 <= i < |numbers| => accepted[numbers[i]])
  }

  lemma PoppedWereAccepted(limits: Limits, l: Ledger)
    requires Balanced(limits, l)
    ensures Names(l.accepted, l.popped)
  {
    assert forall i | 0 <= i < |l.popped| :: l.popped[i] in l.popped;
  }

  /** Over any run, with any clock: balanced books for what the queue holds, and nothing that left comes back. */
  lemma {:induction false} BooksBalance(limits: Limits, l: Ledger, ops: seq<Op>)
    requires Balanced(limits, l)
    ensures var end := Books(limits, l, ops);
            && Balanced(limits, end)
            && Items(end.held) == Held(limits, Items(l.held), ops)
            && l.accepted <= end.accepted && l.popped <= end.popped && l.pruned <= end.pruned
    decreases |ops|
  {
    if ops != [] {
      RecordKeepsBalanced(limits, l, ops[0]);
      RecordFollows(limits, l, ops[0]);
      BooksBalance(limits, Record(limits, l, ops[0]), ops[1..]);
    }
  }

  lemma JoinThree(a: seq<Envelope>, b: seq<Envelope>, c: seq<Envelope>)
    ensures (a + b) + c == a + (b + c)
  {
  }

  /** The books record exactly the acceptances the callers saw. */
  lemma {:induction false} BooksShowAcceptances(limits: Limits, l: Ledger, ops: seq<Op>)
    ensures Books(limits, l, ops).accepted == l.accepted + AcceptedIn(limits, Items(l.held), ops)
    decreases |ops|
  {
    if ops != [] {
      RecordFollows(limits, l, ops[0]);
      BooksShowAcceptances(limits, Record(limits, l, ops[0]), ops[1..]);
      var (items, output) := Step(limits, Items(l.held), ops[0]);
      JoinThree(l.accepted, AcceptedBy(ops[0], output), AcceptedIn(limits, items, ops[1..]));
    }
  }

  /** The books record exactly the envelopes handed out, in the order they were handed out. */
  lemma {:induction false} BooksShowPops(limits: Limits, l: Ledger, ops: seq<Op>)
    requires Balanced(limits, l)
    ensures var end := Books(limits, l, ops);
            && |l.popped| <= |end.popped| && Names(end.accepted, end.popped[|l.popped|..])
            && Named(end.accepted, end.popped[|l.popped|..]) == PoppedIn(limits, Items(l.held), ops)
    decreases |ops|
  {
    BooksBalance(limits, l, ops);
    var end := Books(limits, l, ops);
    PoppedWereAccepted(limits, end);
    if ops != [] {
      var next := Record(limits, l, ops[0]);
      RecordKeepsBalanced(limits, l, ops[0]);
      RecordFollows(limits, l, ops[0]);
      BooksBalance(limits, next, ops[1..]);
      BooksShowPops(limits, next, ops[1..]);
      PopComesFirst(limits, l, ops[0], end);
    }
  }

  /** What one operation hands out comes before whatever is handed out later. */
  lemma PopComesFirst(limits: Limits, l: Ledger, op: Op, end: Ledger)
    requires Balanced(limits, l) && Names(end.accepted, end.popped) && l.accepted <= end.accepted
    requires Record(limits, l, op).popped <= end.popped && l.popped <= Record(limits, l, op).popped
    ensures var next := Record(limits, l, op);
            Named(end.accepted, end.popped[|l.popped|..])
            == PoppedBy(Step(limits, Items(l.held), op).1) + Named(end.accepted, end.popped[|next.popped|..])
  {
    var next := Record(limits, l, op);
    RecordShowsPop(limits, l, op);
    if |next.popped| > |l.popped| {
      NamedFirst(end.accepted, end.popped, |l.popped|);
    }
  }

  lemma NamedFirst(accepted: seq<Envelope>, numbers: seq<nat>, k: nat)
    requires Names(accepted, numbers) && k < |numbers|
    ensures Names(accepted, numbers[k..]) && Names(accepted, numbers[k + 1..])
    ensures Named(accepted, numbers[k..]) == [accepted[numbers[k]]] + Named(accepted, numbers[k + 1..])
  {
  }

  function NatElements(s: seq<nat>): set<nat> {
    set n | n in s
  }

  /** Numbers in increasing order are as many as the set of them. */
  lemma {:induction false} IncreasingSize(s: seq<nat>)
    requires Increasing(s)
    ensures |NatElements(s)| == |s|
  {
    if s != [] {
      var rest := s[1..];
      IncreasingSize(rest);
      assert s[0] !in rest;
      assert s == [s[0]] + rest;
      assert NatElements(s) == {s[0]} + NatElements(rest);
    }
  }

  function UpTo(n: nat): (r: set<nat>)
    ensures |r| == n
    ensures forall k: nat :: k in r <==> k < n
  {
    if n == 0 then {} else UpTo(n - 1) + {n - 1}
  }

  /** In numbers: everything accepted is popped, held or pruned. */
  lemma BooksAddUp(limits: Limits, l: Ledger)
    requires Balanced(limits, l)
    ensures |l.accepted| == |l.popped| + |l.held| + |l.pruned|
  {
    var known := l.popped + Numbers(l.held);
    IncreasingSize(known);
    assert forall n: nat :: n in known <==> n in l.popped || n in Numbers(l.held);
    assert UpTo(|l.accepted|) == NatElements(known) + l.pruned;
    assert NatElements(known) !! l.pruned;
  }

  /** Starting empty, over any run: accepted is popped plus held plus pruned, by number and by content. */
  lemma Conservation(limits: Limits, ops: seq<Op>)
    ensures var end := Books(limits, Ledger([], [], [], {}), ops);
            var accepted, popped, held := AcceptedIn(limits, [], ops), PoppedIn(limits, [], ops), Held(limits, [], ops);
            && Balanced(limits, end) && Names(end.accepted, end.popped)
            && end.accepted == accepted
            && Named(end.accepted, end.popped) == popped
            && Items(end.held) == held
            && |accepted| == |popped| + |held| + |end.pruned|
  {
    var empty := Ledger([], [], [], {});
    assert Items(empty.held) == [];
    BooksBalance(limits, empty, ops);
    BooksShowAcceptances(limits, empty, ops);
    BooksShowPops(limits, empty, ops);
    var end := Books(limits, empty, ops);
    assert end.popped[|empty.popped|..] == end.popped;
    BooksAddUp(limits, end);
  }
}
