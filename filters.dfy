/** Filters: the combinators `and` and `or` of achievements/achievements.go,
    which map an event history to the sequence of events a rule counts. */
module Filters {
  import opened Events
  import opened Conditions

  /** Every condition of `cs` holds of `e` (vacuously so for no conditions). */
  predicate AllHold(cs: seq<Condition>, e: HistoryEvent) {
    forall i :: 0 <= i < |cs| ==> Holds(cs[i], e)
  }

  /** The length of the longest prefix of `cs` whose conditions all hold of `e`. */
  function PrefixLen(cs: seq<Condition>, e: HistoryEvent): (k: nat)
    ensures k <= |cs|
    ensures forall i :: 0 <= i < k ==> Holds(cs[i], e)
    ensures k < |cs| ==> !Holds(cs[k], e)
  {
    if cs == [] then 0
    else if Holds(cs[0], e) then 1 + PrefixLen(cs[1..], e)
    else 0
  }

  /** `k` copies of `e`. */
  function Repeat(e: HistoryEvent, k: nat): (r: seq<HistoryEvent>)
    ensures |r| == k && forall i :: 0 <= i < k ==> r[i] == e
  {
    seq(k, _ => e)
  }

  /** `and(cs...)`: the events satisfying every condition, in history order,
      each once. Defined on the last event so that it follows the Go loop. */
  function AndSpec(cs: seq<Condition>, events: seq<HistoryEvent>): seq<HistoryEvent>
    decreases |events|
  {
    if events == [] then []
    else
      var e := events[|events| - 1];
      AndSpec(cs, events[..|events| - 1]) + (if AllHold(cs, e) then [e] else [])
  }

  /** `or(cs...)`: each event is emitted once for every condition of the
      longest prefix of `cs` it satisfies, in history order. */
  function OrSpec(cs: seq<Condition>, events: seq<HistoryEvent>): seq<HistoryEvent>
    decreases |events|
  {
    if events == [] then []
    else
      var e := events[|events| - 1];
      OrSpec(cs, events[..|events| - 1]) + Repeat(e, PrefixLen(cs, e))
  }

  /** The Go `and` closure: an outer loop over events, an inner loop over
      conditions that abandons the event at the first failing one. */
  method ApplyAnd(cs: seq<Condition>, events: seq<HistoryEvent>) returns (res: seq<HistoryEvent>)
    ensures res == AndSpec(cs, events)
  {
    res := [];
    var i := 0;
    while i < |events|
      invariant 0 <= i <= |events|
      invariant res == AndSpec(cs, events[..i])
    {
      var e := events[i];
      var j := 0;
      var keep := true;
      while j < |cs|
        invariant 0 <= j <= |cs|
        invariant keep ==> forall k :: 0 <= k < j ==> Holds(cs[k], e)
        invariant !keep ==> !AllHold(cs, e)
      {
        var ok := Check(cs[j], e);
        if !ok {
          keep := false;
          break;
        }
        j := j + 1;
      }
      assert keep == AllHold(cs, e);
      assert events[..i + 1][..i] == events[..i];
      if keep {
        res := res + [e];
      }
      i := i + 1;
    }
    assert events[..i] == events;
  }

  /** The Go `or` closure: an event is appended once per condition that holds
      and abandoned at the first condition that does not. */
  method ApplyOr(cs: seq<Condition>, events: seq<HistoryEvent>) returns (res: seq<HistoryEvent>)
    ensures res == OrSpec(cs, events)
  {
    res := [];
    var i := 0;
    while i < |events|
      invariant 0 <= i <= |events|
      invariant res == OrSpec(cs, events[..i])
    {
      var e := events[i];
      var j := 0;
      ghost var before := res;
      while j < |cs|
        invariant 0 <= j <= |cs|
        invariant forall k :: 0 <= k < j ==> Holds(cs[k], e)
        invariant res == before + Repeat(e, j)
      {
        var ok := Check(cs[j], e);
        if !ok {
          break;
        }
        RepeatSnoc(e, j);
        res := res + [e];
        j := j + 1;
      }
      assert j == PrefixLen(cs, e);
      assert events[..i + 1][..i] == events[..i];
      assert OrSpec(cs, events[..i + 1]) == OrSpec(cs, events[..i]) + Repeat(e, j);
      i := i + 1;
    }
    assert events[..i] == events;
  }

  /** `and` decides each event on its own, so it distributes over appending. */
  lemma {:induction false} AndDistributes(cs: seq<Condition>, h: seq<HistoryEvent>, x: seq<HistoryEvent>)
    ensures AndSpec(cs, h + x) == AndSpec(cs, h) + AndSpec(cs, x)
    decreases |x|
  {
    if x == [] {
      assert h + x == h;
    } else {
      var xi := x[..|x| - 1];
      assert (h + x)[..|h + x| - 1] == h + xi;
      AndDistributes(cs, h, xi);
    }
  }

  /** `or` decides each event on its own too: it distributes over appending. */
  lemma {:induction false} OrDistributes(cs: seq<Condition>, h: seq<HistoryEvent>, x: seq<HistoryEvent>)
    ensures OrSpec(cs, h + x) == OrSpec(cs, h) + OrSpec(cs, x)
    decreases |x|
  {
    if x == [] {
      assert h + x == h;
    } else {
      var xi := x[..|x| - 1];
      assert (h + x)[..|h + x| - 1] == h + xi;
      OrDistributes(cs, h, xi);
    }
  }

  /** `and()` with no conditions keeps the whole history. */
  lemma {:induction false} AndOfNothingIsIdentity(events: seq<HistoryEvent>)
    ensures AndSpec([], events) == events
  {
    AndKeepsAllMatching([], events);
  }

  /** A history whose every event satisfies all conditions is kept whole. */
  lemma {:induction false} AndKeepsAllMatching(cs: seq<Condition>, events: seq<HistoryEvent>)
    requires forall i :: 0 <= i < |events| ==> AllHold(cs, events[i])
    ensures AndSpec(cs, events) == events
    decreases |events|
  {
    if events != [] {
      AndKeepsAllMatching(cs, events[..|events| - 1]);
    }
  }

  /** `and(cs...)` keeps nothing exactly when no event satisfies every condition. */
  lemma {:induction false} AndEmptyIffNoMatch(cs: seq<Condition>, events: seq<HistoryEvent>)
    ensures AndSpec(cs, events) == [] <==> forall j :: 0 <= j < |events| ==> !AllHold(cs, events[j])
    decreases |events|
  {
    if events != [] {
      var init := events[..|events| - 1];
      AndEmptyIffNoMatch(cs, init);
      assert forall j :: 0 <= j < |init| ==> init[j] == events[j];
    }
  }

  /** The first event `and(cs...)` keeps is the earliest event satisfying
      every condition. */
  lemma {:induction false} AndFirstIsEarliestMatch(cs: seq<Condition>, events: seq<HistoryEvent>, i: nat)
    requires i < |events| && AllHold(cs, events[i])
    requires forall j :: 0 <= j < i ==> !AllHold(cs, events[j])
    ensures AndSpec(cs, events) != [] && AndSpec(cs, events)[0] == events[i]
    decreases |events|
  {
    var init := events[..|events| - 1];
    if i == |events| - 1 {
      AndEmptyIffNoMatch(cs, init);
      assert forall j :: 0 <= j < |init| ==> init[j] == events[j];
    } else {
      assert init[i] == events[i];
      assert forall j :: 0 <= j < i ==> init[j] == events[j];
      AndFirstIsEarliestMatch(cs, init, i);
    }
  }

  /** `or()` with no conditions keeps nothing. */
  lemma {:induction false} OrOfNothingIsEmpty(events: seq<HistoryEvent>)
    ensures OrSpec([], events) == []
    decreases |events|
  {
    if events != [] {
      OrOfNothingIsEmpty(events[..|events| - 1]);
    }
  }

  /** `and` keeps an event exactly as often as the history holds it when all
      conditions hold of it, and never otherwise; it cannot grow the history. */
  lemma {:induction false} AndKeepsExactly(cs: seq<Condition>, events: seq<HistoryEvent>, x: HistoryEvent)
    ensures multiset(AndSpec(cs, events))[x] == if AllHold(cs, x) then multiset(events)[x] else 0
    ensures |AndSpec(cs, events)| <= |events|
    decreases |events|
  {
    if events != [] {
      var init := events[..|events| - 1];
      AndKeepsExactly(cs, init, x);
      assert events == init + [events[|events| - 1]];
    }
  }

  /** `and` keeps the order of the events it keeps: it is a subsequence. */
  lemma {:induction false} AndIsSubsequence(cs: seq<Condition>, events: seq<HistoryEvent>)
    ensures IsSubsequence(AndSpec(cs, events), events)
    decreases |events|
  {
    if events != [] {
      var init := events[..|events| - 1];
      var e := events[|events| - 1];
      AndIsSubsequence(cs, init);
      SubsequenceExtend(AndSpec(cs, init), init, e, AllHold(cs, e));
      assert events == init + [e];
    } else {
      assert Embeds([], [], []);
    }
  }

  /** `idx` picks, in increasing order, the positions of `s` that spell `sub`. */
  ghost predicate Embeds(idx: seq<nat>, sub: seq<HistoryEvent>, s: seq<HistoryEvent>) {
    && |idx| == |sub|
    && (forall i :: 0 <= i < |idx| ==> idx[i] < |s| && s[idx[i]] == sub[i])
    && (forall i, j :: 0 <= i < j < |idx| ==> idx[i] < idx[j])
  }

  /** `sub` is obtained from `s` by deleting elements (order kept). */
  ghost predicate IsSubsequence(sub: seq<HistoryEvent>, s: seq<HistoryEvent>) {
    exists idx: seq<nat> :: Embeds(idx, sub, s)
  }

  lemma EmbedsKeep(idx: seq<nat>, sub: seq<HistoryEvent>, s: seq<HistoryEvent>, e: HistoryEvent)
    requires Embeds(idx, sub, s)
    ensures Embeds(idx + [|s|], sub + [e], s + [e])
  {
    var idx', sub', s' := idx + [|s|], sub + [e], s + [e];
    forall i | 0 <= i < |idx'| ensures idx'[i] < |s'| && s'[idx'[i]] == sub'[i] {
      if i < |idx| {
        assert idx'[i] == idx[i] && sub'[i] == sub[i] && s'[idx[i]] == s[idx[i]];
      }
    }
  }

  lemma EmbedsSkip(idx: seq<nat>, sub: seq<HistoryEvent>, s: seq<HistoryEvent>, e: HistoryEvent)
    requires Embeds(idx, sub, s)
    ensures Embeds(idx, sub, s + [e])
  {
    forall i | 0 <= i < |idx| ensures idx[i] < |s + [e]| && (s + [e])[idx[i]] == sub[i] {
      assert (s + [e])[idx[i]] == s[idx[i]];
    }
  }

  lemma SubsequenceExtend(sub: seq<HistoryEvent>, s: seq<HistoryEvent>, e: HistoryEvent, keep: bool)
    requires IsSubsequence(sub, s)
    ensures IsSubsequence(sub + (if keep then [e] else []), s + [e])
  {
    var idx :| Embeds(idx, sub, s);
    if keep {
      EmbedsKeep(idx, sub, s, e);
    } else {
      EmbedsSkip(idx, sub, s, e);
      assert sub + [] == sub;
    }
  }

  /** Every event `or` emits is in the history and satisfies the first
      condition, whatever the later ones say. */
  lemma {:induction false} OrEmitsOnlyFirstMatches(cs: seq<Condition>, events: seq<HistoryEvent>)
    ensures cs != [] ==> forall x :: x in OrSpec(cs, events) ==> x in events && Holds(cs[0], x)
    decreases |events|
  {
    if events != [] && cs != [] {
      var init := events[..|events| - 1];
      var e := events[|events| - 1];
      OrEmitsOnlyFirstMatches(cs, init);
      assert events == init + [e];
      var k := PrefixLen(cs, e);
      assert OrSpec(cs, events) == OrSpec(cs, init) + Repeat(e, k);
      forall x | x in Repeat(e, k) ensures x == e && Holds(cs[0], x) {
      }
    }
  }

  /** `or` emits at most `|cs|` copies of each event. */
  lemma {:induction false} OrLengthBound(cs: seq<Condition>, events: seq<HistoryEvent>)
    ensures |OrSpec(cs, events)| <= |cs| * |events|
    decreases |events|
  {
    if events != [] {
      var init := events[..|events| - 1];
      var e := events[|events| - 1];
      OrLengthBound(cs, init);
      assert OrSpec(cs, events) == OrSpec(cs, init) + Repeat(e, PrefixLen(cs, e));
      MulSucc(|cs|, |init|);
    }
  }

  lemma RepeatSnoc(e: HistoryEvent, k: nat)
    ensures Repeat(e, k + 1) == Repeat(e, k) + [e]
  {
  }

  lemma MulSucc(a: nat, n: nat)
    ensures a * (n + 1) == a * n + a
  {
  }
}
