/**
 The least-recently-used discipline shared by the replay guard and the two delivery caches:
 touch on hit, append on miss, drop the oldest on overflow. It is stated twice, once as the
 step that the code takes and once as a property of the whole history of touches, and the two
 are proved equal.
 */
module Recency {
  import opened Contracts

  function Elements(s: seq<string>): set<string> {
    set x | x in s
  }

  /** `s` with every occurrence of `x` removed, order kept. */
  function Without(s: seq<string>, x: string): seq<string> {
    if s == [] then []
    else if s[0] == x then Without(s[1..], x)
    else [s[0]] + Without(s[1..], x)
  }

  function LastN(s: seq<string>, n: nat): (r: seq<string>) {
    if |s| <= n then s else s[|s| - n..]
  }

  lemma LastNDropsFirst(s: seq<string>, n: nat)
    requires |s| > n
    ensures LastN(s[1..], n) == LastN(s, n)
  {
  }

  /** One touch of `x` against a bounded order, oldest first. */
  function Touch(order: seq<string>, capacity: nat, x: string): seq<string> {
    if x in order then Without(order, x) + [x] else LastN(order + [x], capacity)
  }

  /** The bounded order after a whole history of touches. */
  function After(history: seq<string>, capacity: nat): seq<string> {
    if history == [] then []
    else Touch(After(history[..|history| - 1], capacity), capacity, history[|history| - 1])
  }

  /** All ids ever touched, ordered by their last touch: an unbounded memory. */
  function ByRecency(history: seq<string>): (r: seq<string>)
    ensures forall x :: x in r <==> x in history
  {
    if history == [] then []
    else
      var prefix, x := history[..|history| - 1], history[|history| - 1];
      assert history == prefix + [x];
      WithoutMembers(ByRecency(prefix), x);
      Without(ByRecency(prefix), x) + [x]
  }

  /** The distinct ids touched after the last touch of `x` (all of them if there is none). */
  function Since(history: seq<string>, x: string): set<string> {
    if history == [] || history[|history| - 1] == x then {}
    else Since(history[..|history| - 1], x) + {history[|history| - 1]}
  }

  /** The history-based specification: touched before, and few enough others since. */
  predicate Resident(history: seq<string>, capacity: nat, x: string) {
    x in history && |Since(history, x)| < capacity
  }

  // ---------------------------------------------------------------- sequences without repeats

  lemma {:induction false} WithoutMembers(s: seq<string>, x: string)
    ensures forall y :: y in Without(s, x) <==> y in s && y != x
  {
    if s != [] {
      WithoutMembers(s[1..], x);
      assert s == [s[0]] + s[1..];
    }
  }

  lemma {:induction false} WithoutAppend(s: seq<string>, t: seq<string>, x: string)
    ensures Without(s + t, x) == Without(s, x) + Without(t, x)
  {
    if s == [] {
      assert s + t == t;
    } else {
      var u := s + t;
      assert u[0] == s[0] && u[1..] == s[1..] + t;
      WithoutAppend(s[1..], t, x);
    }
  }

  lemma {:induction false} WithoutAbsent(s: seq<string>, x: string)
    requires x !in s
    ensures Without(s, x) == s
  {
    if s != [] {
      WithoutAbsent(s[1..], x);
    }
  }

  lemma {:induction false} WithoutKeepsDistinct(s: seq<string>, x: string)
    requires Distinct(s)
    ensures Distinct(Without(s, x))
  {
    if s != [] {
      WithoutKeepsDistinct(s[1..], x);
      WithoutMembers(s[1..], x);
      assert s[0] !in s[1..];
    }
  }

  /** Removing a present element of a repeat-free sequence shortens it by exactly one. */
  lemma {:induction false} WithoutPresent(s: seq<string>, x: string)
    requires Distinct(s) && x in s
    ensures |Without(s, x)| == |s| - 1
  {
    if s[0] == x {
      assert x !in s[1..];
      WithoutAbsent(s[1..], x);
    } else {
      WithoutPresent(s[1..], x);
    }
  }

  lemma {:induction false} DistinctCount(s: seq<string>)
    requires Distinct(s)
    ensures |Elements(s)| == |s|
  {
    if s != [] {
      DistinctCount(s[1..]);
      assert s == [s[0]] + s[1..];
      assert Elements(s) == {s[0]} + Elements(s[1..]);
    }
  }

  lemma DistinctAppend(s: seq<string>, x: string)
    requires Distinct(s) && x !in s
    ensures Distinct(s + [x])
  {
    var t := s + [x];
    forall i, j | 0 <= i < j < |t| ensures t[i] != t[j] {
      assert t[i] == s[i] && (j < |s| ==> t[j] == s[j]);
    }
  }

  lemma {:induction false} ByRecencyDistinct(history: seq<string>)
    ensures Distinct(ByRecency(history))
  {
    if history != [] {
      var prefix := history[..|history| - 1];
      ByRecencyDistinct(prefix);
      WithoutKeepsDistinct(ByRecency(prefix), history[|history| - 1]);
      WithoutMembers(ByRecency(prefix), history[|history| - 1]);
      DistinctAppend(Without(ByRecency(prefix), history[|history| - 1]), history[|history| - 1]);
    }
  }

  lemma AfterAppend(history: seq<string>, capacity: nat, x: string)
    ensures After(history + [x], capacity) == Touch(After(history, capacity), capacity, x)
  {
    assert (history + [x])[..|history|] == history;
  }

  // ---------------------------------------------------------------- step form = history form

  lemma TouchLastN(recent: seq<string>, capacity: nat, x: string)
    requires capacity >= 1 && Distinct(recent)
    ensures Touch(LastN(recent, capacity), capacity, x) == LastN(Without(recent, x) + [x], capacity)
  {
    var kept := LastN(recent, capacity);
    var dropped := recent[..|recent| - |kept|];
    assert recent == dropped + kept;
    WithoutAppend(dropped, kept, x);
    if x in kept {
      TouchHeld(dropped, kept, capacity, x);
    } else {
      WithoutAbsent(kept, x);
      if x !in dropped {
        WithoutAbsent(dropped, x);
      }
      LastNAppend(Without(dropped, x), kept, capacity, x);
    }
  }

  lemma TouchHeld(dropped: seq<string>, kept: seq<string>, capacity: nat, x: string)
    requires Distinct(dropped + kept) && x in kept
    requires |kept| <= capacity && (|kept| < capacity ==> dropped == [])
    ensures Without(kept, x) + [x] == LastN(Without(dropped, x) + Without(kept, x) + [x], capacity)
  {
    NotBefore(dropped, kept, x);
    WithoutAbsent(dropped, x);
    WithoutPresent(kept, x);
    var moved := Without(kept, x) + [x];
    assert Without(dropped, x) + Without(kept, x) + [x] == dropped + moved;
    assert (dropped + moved)[|dropped|..] == moved;
  }

  lemma NotBefore(s: seq<string>, t: seq<string>, x: string)
    requires Distinct(s + t) && x in t
    ensures x !in s && Distinct(t)
  {
    var u := s + t;
    assert t == u[|s|..];
    var i :| 0 <= i < |t| && t[i] == x;
    assert u[|s| + i] == x;
    forall j | 0 <= j < |s| ensures s[j] != x {
      assert u[j] == s[j];
    }
  }

  lemma LastNAppend(s: seq<string>, t: seq<string>, n: nat, x: string)
    requires n >= 1 && |t| <= n && (|t| < n ==> s == [])
    ensures LastN(t + [x], n) == LastN(s + t + [x], n)
  {
    if |t| < n {
      assert s + t + [x] == t + [x];
    } else {
      var u := s + t + [x];
      assert u[|u| - n..] == (t + [x])[1..];
    }
  }

  /** After any history the bounded order is exactly the last `capacity` distinct ids by recency. */
  lemma {:induction false} OrderIsLastNByRecency(history: seq<string>, capacity: nat)
    requires capacity >= 1
    ensures After(history, capacity) == LastN(ByRecency(history), capacity)
  {
    if history != [] {
      var prefix := history[..|history| - 1];
      OrderIsLastNByRecency(prefix, capacity);
      ByRecencyDistinct(prefix);
      TouchLastN(ByRecency(prefix), capacity, history[|history| - 1]);
    }
  }

  /** The ids younger than `x` in the unbounded memory are the ids touched since `x`. */
  lemma {:induction false} SplitAtId(history: seq<string>, x: string) returns (older: seq<string>, younger: seq<string>)
    requires x in history
    ensures ByRecency(history) == older + [x] + younger
    ensures x !in older && x !in younger
    ensures Elements(younger) == Since(history, x)
  {
    var prefix, y := history[..|history| - 1], history[|history| - 1];
    assert history == prefix + [y];
    if y == x {
      older, younger := Without(ByRecency(prefix), x), [];
      WithoutMembers(ByRecency(prefix), x);
      assert ByRecency(history) == older + [x] + younger;
    } else {
      var o, g := SplitAtId(prefix, x);
      WithoutMembers(o, y);
      WithoutMembers(g, y);
      older, younger := Without(o, y), Without(g, y) + [y];
      WithoutAround(o, x, g, y);
      assert ByRecency(history) == Without(ByRecency(prefix), y) + [y];
      assert Elements(younger) == Elements(g) + {y};
    }
  }

  lemma WithoutAround(older: seq<string>, x: string, younger: seq<string>, y: string)
    requires x != y
    ensures Without(older + [x] + younger, y) + [y] == Without(older, y) + [x] + (Without(younger, y) + [y])
  {
    WithoutAppend(older + [x], younger, y);
    WithoutAppend(older, [x], y);
    assert Without([x], y) == [x];
  }

  /** Membership in the bounded order is the history-based residency, both ways. */
  lemma ResidentIffHeld(history: seq<string>, capacity: nat, x: string)
    requires capacity >= 1
    ensures x in After(history, capacity) <==> Resident(history, capacity, x)
  {
    OrderIsLastNByRecency(history, capacity);
    var all := ByRecency(history);
    if x in history {
      var older, younger := SplitAtId(history, x);
      ByRecencyDistinct(history);
      DistinctSuffix(older + [x], younger);
      DistinctCount(younger);
      KeptIffYoungEnough(older, x, younger, capacity);
    }
  }

  lemma DistinctSuffix(s: seq<string>, t: seq<string>)
    requires Distinct(s + t)
    ensures Distinct(t)
  {
    assert t == (s + t)[|s|..];
  }

  /** One id, absent from both sides, is among the last `n` exactly when fewer than `n` follow it. */
  lemma KeptIffYoungEnough(older: seq<string>, x: string, younger: seq<string>, n: nat)
    requires x !in younger && n >= 1
    ensures x in LastN(older + [x] + younger, n) <==> |younger| < n
  {
    var all := older + [x] + younger;
    var kept := LastN(all, n);
    if |younger| < n {
      assert kept[|kept| - |younger| - 1] == x;
    } else {
      assert kept == younger[|younger| - n..];
    }
  }

  /** The order holds no id twice and never outgrows its capacity. */
  lemma OrderBounded(history: seq<string>, capacity: nat)
    requires capacity >= 1
    ensures Distinct(After(history, capacity)) && |After(history, capacity)| <= capacity
  {
    OrderIsLastNByRecency(history, capacity);
    ByRecencyDistinct(history);
  }

  /** Stack inclusion: on a common history a smaller memory holds a suffix of a larger one. */
  lemma StackInclusion(history: seq<string>, small: nat, large: nat)
    requires 1 <= small <= large
    ensures After(history, small) == LastN(After(history, large), small)
    ensures forall x :: Resident(history, small, x) ==> Resident(history, large, x)
  {
    OrderIsLastNByRecency(history, small);
    OrderIsLastNByRecency(history, large);
  }

  /** `Since` in terms of positions: it is what follows the last occurrence. */
  lemma {:induction false} SinceAtLast(history: seq<string>, x: string, i: nat)
    requires i < |history| && history[i] == x && x !in history[i + 1..]
    ensures Since(history, x) == Elements(history[i + 1..])
  {
    var last := |history| - 1;
    if i < last {
      assert history[last] in history[i + 1..];
      var prefix := history[..last];
      assert history[i + 1..] == prefix[i + 1..] + [history[last]];
      SinceAtLast(prefix, x, i);
    }
  }
}
