/** Bounded duplicate suppression over message ids. */
module Replay {
  import opened Contracts
  import opened Recency
  import opened OrderedDicts

  class ReplayGuard {
    const capacity: nat
    const seen: OrderedDict<()>
    ghost var history: seq<string>  // every id offered so far, oldest first

    ghost predicate Valid()
      reads this, seen
    {
      capacity >= 1 && seen.Valid() && seen.keys == After(history, capacity)
    }

    constructor (capacity: nat)
      requires capacity >= 1
      ensures Valid() && fresh(seen) && this.capacity == capacity && history == []
    {
      this.capacity := capacity;
      this.seen := new OrderedDict();
      this.history := [];
    }

    /** Construction as callers see it: a capacity below one is refused. */
    static method Create(capacity: int) returns (r: Result<ReplayGuard>)
      ensures r.Ok? <==> capacity >= 1
      ensures r.Ok? ==> fresh(r.value) && fresh(r.value.seen) && r.value.Valid()
      ensures r.Ok? ==> r.value.capacity == capacity && r.value.history == []
    {
      if capacity < 1 {
        return Err("capacity must be positive");
      }
      var guard := new ReplayGuard(capacity);
      return Ok(guard);
    }

    /**
     An id is refused exactly when it was offered before and fewer than `capacity` distinct
     other ids have been offered since; an empty id is an error that changes nothing.
     */
    method Accept(messageId: string) returns (r: Result<bool>)
      requires Valid()
      modifies this, seen
      ensures Valid()
      ensures messageId == "" ==> r.Err? && history == old(history)
      ensures messageId != "" ==> history == old(history) + [messageId]
      ensures messageId != "" ==> r == Ok(!Resident(old(history), capacity, messageId))
    {
      if messageId == "" {
        return Err("message_id is required");
      }
      ResidentIffHeld(history, capacity, messageId);
      AfterAppend(history, capacity, messageId);
      history := history + [messageId];
      if messageId in seen.items {
        seen.MoveToEnd(messageId);
        return Ok(false);
      }
      seen.Put(messageId, ());
      seen.EvictDownTo(capacity);
      return Ok(true);
    }

    method Length() returns (n: nat)
      requires Valid()
      ensures n == |After(history, capacity)| <= capacity
    {
      OrderBounded(history, capacity);
      n := |seen.keys|;
    }
  }

  /** What a fresh guard answers to each id of a trace. */
  function Verdicts(trace: seq<string>, capacity: nat): (r: seq<bool>)
    ensures |r| == |trace|
  {
    seq(|trace|, i requires 0 <= i < |trace| => trace[i] !in After(trace[..i], capacity))
  }

  /** Position `k` is the last occurrence, before position `i`, of the id at `i`. */
  ghost predicate LastSeenAt(trace: seq<string>, i: nat, k: nat) {
    k < i < |trace| && trace[k] == trace[i] && trace[i] !in trace[k + 1..i]
  }

  /** Refused, at position `i` of a trace, means: last seen at some `k`, and few others since. */
  lemma RefusedByPosition(trace: seq<string>, capacity: nat, i: nat)
    requires capacity >= 1 && i < |trace|
    ensures !Verdicts(trace, capacity)[i] <==>
            exists k: nat :: LastSeenAt(trace, i, k) && |Elements(trace[k + 1..i])| < capacity
  {
    var before, x := trace[..i], trace[i];
    ResidentIffHeld(before, capacity, x);
    if x in before {
      var k := LastPosition(before, x);
      SinceAtLast(before, x, k);
      assert before[k + 1..] == trace[k + 1..i];
      assert LastSeenAt(trace, i, k);
      forall j: nat | LastSeenAt(trace, i, j) ensures j == k {
        LastSeenOnce(trace, i, j, k);
      }
    } else {
      forall j: nat ensures !LastSeenAt(trace, i, j) {
        if j < i {
          assert before[j] == trace[j];
        }
      }
    }
  }

  lemma InSlice(s: seq<string>, lo: nat, hi: nat, k: nat)
    requires lo <= k < hi <= |s|
    ensures s[k] in s[lo..hi]
  {
    assert s[lo..hi][k - lo] == s[k];
  }

  lemma LastSeenOnce(trace: seq<string>, i: nat, j: nat, k: nat)
    requires LastSeenAt(trace, i, j) && LastSeenAt(trace, i, k)
    ensures j == k
  {
    if j < k {
      InSlice(trace, j + 1, i, k);
    } else if k < j {
      InSlice(trace, k + 1, i, j);
    }
  }

  lemma {:induction false} LastPosition(s: seq<string>, x: string) returns (k: nat)
    requires x in s
    ensures k < |s| && s[k] == x && x !in s[k + 1..]
  {
    k := |s| - 1;
    if s[k] != x {
      assert s == s[..k] + [s[k]];
      var m := LastPosition(s[..k], x);
      assert s[m + 1..] == s[..k][m + 1..] + [s[k]];
      k := m;
    }
  }

  /** On a common trace, whatever a smaller guard refuses a larger one refuses too. */
  lemma LargerGuardRefusesMore(trace: seq<string>, small: nat, large: nat, i: nat)
    requires 1 <= small <= large && i < |trace|
    ensures !Verdicts(trace, small)[i] ==> !Verdicts(trace, large)[i]
  {
    ResidentIffHeld(trace[..i], small, trace[i]);
    ResidentIffHeld(trace[..i], large, trace[i]);
    StackInclusion(trace[..i], small, large);
  }
}
