/** What the log of any server says about repeated deliveries. */
module History {
  import opened Contracts
  import opened Recency
  import opened Delivery
  import opened LocalIp

  /** The ids of the touches at positions `lo` up to `hi`. */
  function TouchedBetween(log: seq<Event>, lo: nat, hi: nat): set<string>
    requires hi <= |log|
  {
    set k: nat | lo <= k < hi && log[k].Touches() :: log[k].envelope.messageId
  }

  /** The ids of the touches from position `lo` on that came before a deadline. */
  function TouchedBefore(log: seq<Event>, lo: nat, deadline: int): set<string> {
    set k: nat | lo <= k < |log| && log[k].Touches() && log[k].at < deadline :: log[k].envelope.messageId
  }

  ghost predicate TouchesId(event: Event, id: string) {
    event.Touches() && event.envelope.messageId == id
  }

  ghost predicate ClockRuns(log: seq<Event>) {
    forall i, j | 0 <= i < j < |log| :: log[i].at <= log[j].at
  }

  // ---------------------------------------------------------------- from positions to residency

  lemma {:induction false} SinceByPosition(log: seq<Event>, i: nat)
    requires i < |log| && log[i].Touches()
    ensures log[i].envelope.messageId in Touched(log)
    ensures Since(Touched(log), log[i].envelope.messageId)
         <= TouchedBetween(log, i + 1, |log|) - {log[i].envelope.messageId}
  {
    var last := |log| - 1;
    var before, touched := log[..last], Touched(log);
    if log[last].Touches() {
      assert touched[..|touched| - 1] == Touched(before);
    }
    if i < last {
      SinceByPosition(before, i);
      assert TouchedBetween(before, i + 1, last) <= TouchedBetween(log, i + 1, |log|);
      assert log[last].Touches() ==> log[last].envelope.messageId in TouchedBetween(log, i + 1, |log|);
    }
  }

  lemma TouchedBetweenGrows(log: seq<Event>, lo: nat)
    requires lo < |log|
    ensures var last := |log| - 1;
            TouchedBetween(log, lo, |log|) == TouchedBetween(log[..last], lo, last)
                                              + if log[last].Touches() then {log[last].envelope.messageId} else {}
  {
  }

  /** The last touch of an id, and what has been touched since. */
  lemma {:induction false} LastTouch(log: seq<Event>, id: string) returns (k: nat)
    requires id in Touched(log)
    ensures k < |log| && TouchesId(log[k], id)
    ensures forall m | k < m < |log| :: !TouchesId(log[m], id)
    ensures Since(Touched(log), id) == TouchedBetween(log, k + 1, |log|)
  {
    var last := |log| - 1;
    var before, touched := log[..last], Touched(log);
    if log[last].Touches() {
      assert touched[..|touched| - 1] == Touched(before);
    }
    if TouchesId(log[last], id) {
      k := last;
      assert TouchedBetween(log, last + 1, |log|) == {};
    } else {
      k := LastTouch(before, id);
      TouchedBetweenGrows(log, k + 1);
    }
  }

  // ---------------------------------------------------------------- the receiver is called once

  /** After a completed call, too few other ids before the deadline leave the id resident until then. */
  lemma ResidentUntil(cfg: ServerConfig, log: seq<Event>, i: nat, j: nat, deadline: int)
    requires ClockRuns(log) && i < j < |log| && log[i].Completed? && log[j].at < deadline
    requires |TouchedBefore(log, i + 1, deadline) - {log[i].envelope.messageId}| < cfg.replayCapacity
    ensures Resident(Touched(log[..j]), cfg.replayCapacity, log[i].envelope.messageId)
  {
    var id := log[i].envelope.messageId;
    var others := TouchedBefore(log, i + 1, deadline) - {id};
    SinceByPosition(log[..j], i);
    assert TouchedBetween(log[..j], i + 1, j) <= TouchedBefore(log, i + 1, deadline);
    SubsetSize(Since(Touched(log[..j]), id), others);
  }

  lemma {:induction false} SubsetSize(a: set<string>, b: set<string>)
    requires a <= b
    ensures |a| <= |b|
  {
    if a != {} {
      var x :| x in a;
      SubsetSize(a - {x}, b - {x});
    }
  }

  /**
   At most once: after a completed call for an envelope, the receiver is never called for it again
   if fewer than `replayCapacity` distinct other ids touch the cache before it expires.
   */
  lemma AtMostOnce(cfg: ServerConfig, log: seq<Event>, i: nat, j: nat)
    requires Chronicle(cfg, log) && ClockRuns(log) && i < j < |log| && log[i].Completed?
    requires var e := log[i].envelope;
             |TouchedBefore(log, i + 1, e.ExpiresAtMs()) - {e.messageId}| < cfg.replayCapacity
    ensures log[j].envelope == log[i].envelope ==> !log[j].CallsReceiver()
  {
    assert Admits(cfg, log[..j], log[j]);
    if log[j].envelope == log[i].envelope {
      ResidentUntil(cfg, log, i, j, log[i].envelope.ExpiresAtMs());
    }
  }

  /**
   Re-invocation distance, both ways: once an id has been touched, a delivery for it calls the
   receiver exactly when at least `replayCapacity` distinct other ids were touched since its last touch.
   */
  lemma CalledAgainIffForgotten(cfg: ServerConfig, log: seq<Event>, i: nat, j: nat) returns (k: nat)
    requires Chronicle(cfg, log) && i < j < |log| && TouchesId(log[i], log[j].envelope.messageId)
    ensures i <= k < j && TouchesId(log[k], log[j].envelope.messageId)
    ensures forall m | k < m < j :: !TouchesId(log[m], log[j].envelope.messageId)
    ensures log[j].CallsReceiver() <==> |TouchedBetween(log, k + 1, j)| >= cfg.replayCapacity
  {
    var event := log[j];
    assert Admits(cfg, log[..j], event);
    assert log[..j][i] == log[i];
    k := CallsIffForgotten(cfg, log[..j], i, event);
    SamePrefix(log, j, k);
  }

  /** Touches before position `j` are the same seen from the prefix that ends there. */
  lemma SamePrefix(log: seq<Event>, j: nat, k: nat)
    requires k < j <= |log|
    ensures TouchedBetween(log[..j], k + 1, j) == TouchedBetween(log, k + 1, j)
    ensures forall m | k <= m < j :: log[..j][m] == log[m]
  {
  }

  lemma CallsIffForgotten(cfg: ServerConfig, log: seq<Event>, i: nat, event: Event) returns (k: nat)
    requires i < |log| && TouchesId(log[i], event.envelope.messageId) && Admits(cfg, log, event)
    ensures i <= k < |log| && TouchesId(log[k], event.envelope.messageId)
    ensures forall m | k < m < |log| :: !TouchesId(log[m], event.envelope.messageId)
    ensures event.CallsReceiver() <==> |TouchedBetween(log, k + 1, |log|)| >= cfg.replayCapacity
  {
    k := LastTouchAfter(log, i, event.envelope.messageId);
  }

  lemma LastTouchAfter(log: seq<Event>, i: nat, id: string) returns (k: nat)
    requires i < |log| && TouchesId(log[i], id)
    ensures i <= k < |log| && TouchesId(log[k], id) && id in Touched(log)
    ensures forall m | k < m < |log| :: !TouchesId(log[m], id)
    ensures Since(Touched(log), id) == TouchedBetween(log, k + 1, |log|)
  {
    SinceByPosition(log, i);
    k := LastTouch(log, id);
  }

  /** An id that is not resident stays so until it is touched again. */
  lemma {:induction false} StaysForgotten(log: seq<Event>, capacity: nat, id: string, i: nat)
    requires i <= |log| && !Resident(Touched(log[..i]), capacity, id)
    requires forall k | i <= k < |log| :: !TouchesId(log[k], id)
    ensures !Resident(Touched(log), capacity, id)
  {
    var last := |log| - 1;
    if i == |log| {
      assert log[..i] == log;
    } else {
      var before := log[..last];
      assert before[..i] == log[..i];
      StaysForgotten(before, capacity, id, i);
      if log[last].Touches() {
        var y := log[last].envelope.messageId;
        assert (Touched(before) + [y])[..|Touched(before)|] == Touched(before);
        SubsetSize(Since(Touched(before), id), Since(Touched(before) + [y], id));
      }
    }
  }

  /**
   A call that fails (the receiver raises, or a request receiver returns no reply or one that is too large)
   leaves no trace: the next delivery for the id calls the receiver again.
   */
  lemma FailedCallIsRepeated(cfg: ServerConfig, log: seq<Event>, i: nat, j: nat)
    requires Chronicle(cfg, log) && i < j < |log| && log[i].CallsReceiver() && CallFails(cfg, log[i].answer)
    requires log[j].envelope.messageId == log[i].envelope.messageId
    requires forall k | i < k < j :: !TouchesId(log[k], log[i].envelope.messageId)
    ensures log[j].CallsReceiver()
  {
    var id := log[i].envelope.messageId;
    assert Admits(cfg, log[..i], log[i]);
    assert Admits(cfg, log[..j], log[j]);
    assert log[..j][..i] == log[..i];
    StaysForgotten(log[..j], cfg.replayCapacity, id, i);
  }

  // ---------------------------------------------------------------- outcomes stand

  ghost predicate CompletedFor(event: Event, id: string) {
    event.Completed? && event.envelope.messageId == id
  }

  lemma {:induction false} LatestByPosition(log: seq<Event>, i: nat)
    requires i < |log| && log[i].Completed?
    requires forall k | i < k < |log| :: !CompletedFor(log[k], log[i].envelope.messageId)
    ensures Latest(log, log[i].envelope.messageId) == Some((log[i].envelope, log[i].reply))
  {
    var last := |log| - 1;
    if i < last {
      assert !CompletedFor(log[last], log[i].envelope.messageId);
      LatestByPosition(log[..last], i);
    }
  }

  lemma {:induction false} LatestIsInLog(log: seq<Event>, id: string) returns (i: nat)
    requires Latest(log, id).Some?
    ensures i < |log| && CompletedFor(log[i], id)
    ensures Latest(log, id) == Some((log[i].envelope, log[i].reply))
    ensures forall k | i < k < |log| :: !CompletedFor(log[k], id)
  {
    i := |log| - 1;
    if !CompletedFor(log[i], id) {
      i := LatestIsInLog(log[..|log| - 1], id);
    }
  }

  /**
   Until the receiver is called for the id again, the first outcome stands: every retry with equal
   content is answered with it, every other content is a conflict, and conflicts change nothing.
   */
  lemma FirstOutcomeStands(cfg: ServerConfig, log: seq<Event>, i: nat, j: nat)
    requires Chronicle(cfg, log) && i < j < |log| && log[i].Completed?
    requires forall k | i < k <= j :: log[k].envelope.messageId == log[i].envelope.messageId ==> !log[k].CallsReceiver()
    requires log[j].envelope.messageId == log[i].envelope.messageId
    ensures log[j].envelope == log[i].envelope ==> log[j] == Replayed(log[i].envelope, log[i].reply, log[j].at)
    ensures log[j].envelope != log[i].envelope ==> log[j] == Conflicted(log[j].envelope, log[j].at)
  {
    assert Admits(cfg, log[..j], log[j]);
    assert !log[j].CallsReceiver();
    LatestByPosition(log[..j], i);
  }

  /**
   The cache knows an id, not whose it is: while the id that one peer completed stays resident, every
   envelope of another peer with that id is a conflict, and the receiver does not hear of it.
   */
  lemma OtherPeersConflict(cfg: ServerConfig, log: seq<Event>, i: nat, j: nat)
    requires Chronicle(cfg, log) && i < j < |log| && log[i].Completed?
    requires log[j].envelope.messageId == log[i].envelope.messageId
    requires log[j].envelope.sourcePeerId != log[i].envelope.sourcePeerId
    requires forall k | i < k <= j :: Resident(Touched(log[..k]), cfg.replayCapacity, log[i].envelope.messageId)
    ensures log[j] == Conflicted(log[j].envelope, log[j].at)
  {
    forall k | i < k <= j && log[k].envelope.messageId == log[i].envelope.messageId ensures !log[k].CallsReceiver() {
      assert Admits(cfg, log[..k], log[k]);
    }
    FirstOutcomeStands(cfg, log, i, j);
  }

  /** A replayed outcome is one the receiver gave for exactly this envelope, the latest for its id. */
  lemma ReplayedWasCompleted(cfg: ServerConfig, log: seq<Event>, j: nat) returns (i: nat)
    requires Chronicle(cfg, log) && j < |log| && log[j].Replayed?
    ensures i < j && log[i].Completed? && log[i].envelope == log[j].envelope && log[i].reply == log[j].reply
    ensures CompletesWith(cfg, log[i].answer, log[j].reply)
    ensures forall k | i < k < j :: !CompletedFor(log[k], log[j].envelope.messageId)
  {
    var before, event := log[..j], log[j];
    assert Admits(cfg, before, event);
    i := LatestIsInLog(before, event.envelope.messageId);
    assert forall k | 0 <= k < j :: before[k] == log[k];
    CompletedOutcome(cfg, log, i);
  }

  lemma CompletedOutcome(cfg: ServerConfig, log: seq<Event>, i: nat)
    requires Chronicle(cfg, log) && i < |log| && log[i].Completed?
    ensures CompletesWith(cfg, log[i].answer, log[i].reply)
  {
    assert Admits(cfg, log[..i], log[i]);
  }

  /** The history specification leaves no choice: it fixes what the server does with a delivery. */
  lemma HistoryDecides(cfg: ServerConfig, log: seq<Event>, a: Event, b: Event)
    requires Admits(cfg, log, a) && Admits(cfg, log, b) && a.envelope == b.envelope && a.at == b.at
    requires a.CallsReceiver() && b.CallsReceiver() ==> a.answer == b.answer
    ensures a == b
  {
  }

  /**
   Servers that have done the same do the same next, whatever hash each of them uses: the cache holds
   nothing that the log does not say.
   */
  lemma OneLogOneEvent(c: Crypto, d: Crypto, cfg: ServerConfig, cache: Cache, other: Cache, log: seq<Event>,
                       e: Envelope, at: int, answer: Answer)
    requires Consistent(c, cfg, cache, log) && Consistent(d, cfg, other, log)
    requires e.Valid() && e.destinationPeerId == cfg.localPeerId && !e.IsExpired(at)
    ensures Consult(c, cfg, cache, e, at, answer).event == Consult(d, cfg, other, e, at, answer).event
  {
    ConsultRefines(c, cfg, cache, log, e, at, answer);
    ConsultRefines(d, cfg, other, log, e, at, answer);
    CallHasAnswer(c, cfg, cache, e, at, answer);
    CallHasAnswer(d, cfg, other, e, at, answer);
    HistoryDecides(cfg, log, Consult(c, cfg, cache, e, at, answer).event, Consult(d, cfg, other, e, at, answer).event);
  }

  lemma CallHasAnswer(c: Crypto, cfg: ServerConfig, cache: Cache, e: Envelope, at: int, answer: Answer)
    ensures var event := Consult(c, cfg, cache, e, at, answer).event;
            event.CallsReceiver() ==> event.answer == answer
  {
  }
}
