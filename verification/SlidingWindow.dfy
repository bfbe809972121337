/**
 The sliding-window limiter behind message and AUTH throttling.

 The running limiter keeps, for each key, a list of event times that it prunes
 lazily. Its specification is a naive log that records every granted reservation
 forever and merely flags the ones that were given back. Instants are integers.
 */
module SlidingWindow {
  import opened Wrappers
  import Sequences

  type Key = string
  type Time = int

  /** At most `limit` events in every half-open interval of `length`. */
  datatype Window = Window(limit: nat, length: Time)
  {
    predicate Valid() {
      0 < limit && 0 < length
    }
  }

  // ---------------------------------------------------------------------------
  // The running limiter: one pruned list per key
  // ---------------------------------------------------------------------------

  type Table = map<Key, seq<Time>>

  /** A missing key reads as the empty list. */
  function Lookup(table: Table, key: Key): seq<Time> {
    if key in table then table[key] else []
  }

  predicate Ascending(events: seq<Time>) {
    forall i, j :: 0 <= i < j < |events| ==> events[i] <= events[j]
  }

  /** The events strictly later than `cutoff`, in order. */
  function Above(events: seq<Time>, cutoff: Time): seq<Time> {
    if events == [] then []
    else
      var front := Above(events[..|events| - 1], cutoff);
      var last := events[|events| - 1];
      if last > cutoff then front + [last] else front
  }

  lemma {:induction false} AboveSuffix(events: seq<Time>, cutoff: Time, first: nat)
    requires first <= |events|
    requires forall i :: 0 <= i < first ==> events[i] <= cutoff
    requires forall i :: first <= i < |events| ==> events[i] > cutoff
    ensures Above(events, cutoff) == events[first..]
  {
    if |events| != 0 {
      var front := events[..|events| - 1];
      if first == |events| {
        AboveSuffix(front, cutoff, first - 1);
      } else {
        AboveSuffix(front, cutoff, first);
        assert events[first..] == front[first..] + [events[|events| - 1]];
      }
    }
  }

  /** The events from the first one after the cutoff on. */
  function Pruned(events: seq<Time>, cutoff: Time): seq<Time> {
    if events != [] && events[0] <= cutoff then Pruned(events[1..], cutoff) else events
  }

  /** Advances an index past the expired events and keeps the rest. */
  method PruneWindow(events: seq<Time>, cutoff: Time) returns (kept: seq<Time>)
    ensures kept == Pruned(events, cutoff)
    ensures Ascending(events) ==> kept == Above(events, cutoff)
  {
    var firstKept := 0;
    while firstKept < |events| && events[firstKept] <= cutoff
      invariant firstKept <= |events|
      invariant Pruned(events, cutoff) == Pruned(events[firstKept..], cutoff)
    {
      firstKept := firstKept + 1;
    }
    if Ascending(events) {
      PrunedIsAbove(events, cutoff);
    }
    if firstKept == 0 {
      return events;
    }
    return events[firstKept..];
  }

  /** On an ascending list pruning keeps exactly the events inside the window. */
  lemma PrunedIsAbove(events: seq<Time>, cutoff: Time)
    requires Ascending(events)
    ensures Pruned(events, cutoff) == Above(events, cutoff)
  {
    var first := 0;
    while first < |events| && events[first] <= cutoff
      invariant first <= |events|
      invariant forall i :: 0 <= i < first ==> events[i] <= cutoff
      invariant Pruned(events, cutoff) == Pruned(events[first..], cutoff)
    {
      first := first + 1;
    }
    AboveSuffix(events, cutoff, first);
  }

  /** The list without its first occurrence of `at`. */
  function WithoutFirst(events: seq<Time>, at: Time): seq<Time> {
    if events == [] then []
    else if events[0] == at then events[1..]
    else [events[0]] + WithoutFirst(events[1..], at)
  }

  predicate Admits(w: Window, table: Table, key: Key, now: Time) {
    |Pruned(Lookup(table, key), now - w.length)| < w.limit
  }

  function AfterReserve(w: Window, table: Table, key: Key, now: Time): Table {
    var kept := Pruned(Lookup(table, key), now - w.length);
    if |kept| < w.limit then table[key := kept + [now]] else table[key := kept]
  }

  function AfterCancel(table: Table, key: Key, at: Time): Table {
    var kept := WithoutFirst(Lookup(table, key), at);
    if kept == [] then table - {key} else table[key := kept]
  }

  function AfterClear(table: Table, key: Key): Table {
    table - {key}
  }

  // ---------------------------------------------------------------------------
  // The specification: a log that never forgets
  // ---------------------------------------------------------------------------

  /** A granted reservation; `released` once it was cancelled or cleared. */
  datatype Entry = Entry(key: Key, at: Time, released: bool)

  type Log = seq<Entry>

  predicate Counts(e: Entry, key: Key, after: Time) {
    e.key == key && !e.released && e.at > after
  }

  /** Times of the reservations of `key` still held and made after `after`. */
  function Live(log: Log, key: Key, after: Time): seq<Time> {
    if log == [] then []
    else
      var front := Live(log[..|log| - 1], key, after);
      var last := log[|log| - 1];
      if Counts(last, key, after) then front + [last.at] else front
  }

  /** Times of the reservations of `key` still held and made in (after, upTo]. */
  function Held(log: Log, key: Key, after: Time, upTo: Time): seq<Time> {
    if log == [] then []
    else
      var front := Held(log[..|log| - 1], key, after, upTo);
      var last := log[|log| - 1];
      if Counts(last, key, after) && last.at <= upTo then front + [last.at] else front
  }

  function ReleaseOne(log: Log, id: nat): Log
    requires id < |log|
  {
    log[id := log[id].(released := true)]
  }

  function ReleaseKey(log: Log, key: Key): Log {
    seq(|log|, i requires 0 <= i < |log| =>
      if log[i].key == key then log[i].(released := true) else log[i])
  }

  // ---------------------------------------------------------------------------
  // The protocol: limiter and log side by side
  // ---------------------------------------------------------------------------

  /**
   `table` is the running limiter; the rest is bookkeeping for the specification:
   `horizon[key]` is the cutoff of the key's latest prune.
   */
  datatype State = State(table: Table, log: Log, horizon: map<Key, Time>, clock: Time)

  /**
   Every critical section of the limiter. A cancel names the reservation it
   belongs to; the code keeps that as the pair (key, reservedAt).
   */
  datatype Step =
    | Reserve(key: Key, now: Time)
    | Cancel(id: nat)
    | Clear(key: Key)

  /** The clock never runs backwards, and a reservation is given back at most once. */
  predicate Enabled(s: State, step: Step) {
    match step
    case Reserve(key, now) => s.clock <= now
    case Cancel(id) => id < |s.log| && !s.log[id].released
    case Clear(key) => true
  }

  function Next(w: Window, s: State, step: Step): State
    requires Enabled(s, step)
  {
    match step
    case Reserve(key, now) =>
      State(AfterReserve(w, s.table, key, now),
            if Admits(w, s.table, key, now) then s.log + [Entry(key, now, false)] else s.log,
            s.horizon[key := now - w.length],
            now)
    case Cancel(id) =>
      s.(table := AfterCancel(s.table, s.log[id].key, s.log[id].at), log := ReleaseOne(s.log, id))
    case Clear(key) =>
      s.(table := AfterClear(s.table, key), log := ReleaseKey(s.log, key))
  }

  function Initial(start: Time): State {
    State(map[], [], map[], start)
  }

  /** The state after the steps, or None if one of them was not enabled. */
  function Run(w: Window, start: Time, steps: seq<Step>): Option<State> {
    if steps == [] then Some(Initial(start))
    else
      match Run(w, start, steps[..|steps| - 1])
      case None => None
      case Some(s) =>
        var step := steps[|steps| - 1];
        if Enabled(s, step) then Some(Next(w, s, step)) else None
  }

  // ---------------------------------------------------------------------------
  // The invariant
  // ---------------------------------------------------------------------------

  predicate Timely(log: Log, clock: Time) {
    && (forall i :: 0 <= i < |log| ==> log[i].at <= clock)
    && (forall i, j :: 0 <= i < j < |log| ==> log[i].at <= log[j].at)
  }

  ghost predicate Refines(w: Window, s: State) {
    forall key :: RefinesAt(w, s, key)
  }

  /** A key's list is the live part of the log as of the key's latest prune. */
  predicate RefinesAt(w: Window, s: State, key: Key) {
    if key in s.horizon then
      s.horizon[key] <= s.clock - w.length &&
      Lookup(s.table, key) == Live(s.log, key, s.horizon[key])
    else
      key !in s.table && forall i :: 0 <= i < |s.log| ==> s.log[i].key != key
  }

  /** When an entry was granted, it and the live entries before it fitted the limit. */
  predicate Fitted(w: Window, log: Log) {
    log == [] ||
    (var last := log[|log| - 1];
     Fitted(w, log[..|log| - 1]) && |Live(log, last.key, last.at - w.length)| <= w.limit)
  }

  ghost predicate Inv(w: Window, s: State) {
    Timely(s.log, s.clock) && Refines(w, s) && Fitted(w, s.log)
  }

  // ---------------------------------------------------------------------------
  // Facts about live entries
  // ---------------------------------------------------------------------------

  lemma {:induction false} LiveBounds(log: Log, clock: Time, key: Key, after: Time)
    requires Timely(log, clock)
    ensures var live := Live(log, key, after);
            && Ascending(live)
            && (forall i :: 0 <= i < |live| ==> after < live[i] <= clock)
  {
    if log != [] {
      var last := log[|log| - 1];
      LiveBounds(log[..|log| - 1], last.at, key, after);
    }
  }

  lemma {:induction false} AboveLive(log: Log, clock: Time, key: Key, after: Time, later: Time)
    requires Timely(log, clock)
    requires after <= later
    ensures Above(Live(log, key, after), later) == Live(log, key, later)
  {
    if log != [] {
      var front := log[..|log| - 1];
      AboveLive(front, clock, key, after, later);
      var last := log[|log| - 1];
      if Counts(last, key, after) {
        var live := Live(front, key, after) + [last.at];
        assert live[..|live| - 1] == Live(front, key, after);
      }
    }
  }

  lemma {:induction false} LiveConcat(a: Log, b: Log, key: Key, after: Time)
    ensures Live(a + b, key, after) == Live(a, key, after) + Live(b, key, after)
  {
    if b == [] {
      assert a + b == a;
    } else {
      LiveConcat(a, b[..|b| - 1], key, after);
      assert (a + b)[..|a + b| - 1] == a + b[..|b| - 1];
    }
  }

  lemma LiveOne(e: Entry, key: Key, after: Time)
    ensures Live([e], key, after) == if Counts(e, key, after) then [e.at] else []
  {
    assert [e][..0] == [];
  }

  lemma LiveAround(before: Log, e: Entry, later: Log, key: Key, after: Time)
    ensures Live(before + ([e] + later), key, after) ==
            Live(before, key, after) + ((if Counts(e, key, after) then [e.at] else []) + Live(later, key, after))
  {
    LiveConcat(before, [e] + later, key, after);
    LiveConcat([e], later, key, after);
    LiveOne(e, key, after);
  }

  /** Releasing takes out exactly the released entry, for the keys and times that saw it. */
  lemma LiveAfterReleaseOne(log: Log, id: nat, key: Key, after: Time)
    requires id < |log|
    ensures Live(ReleaseOne(log, id), key, after) ==
            Live(log[..id], key, after) + Live(log[id + 1..], key, after)
    ensures Live(log, key, after) ==
            Live(log[..id], key, after)
            + (if Counts(log[id], key, after) then [log[id].at] else [])
            + Live(log[id + 1..], key, after)
  {
    var e, gone := log[id], log[id].(released := true);
    assert ReleaseOne(log, id) == log[..id] + ([gone] + log[id + 1..]);
    assert log == log[..id] + ([e] + log[id + 1..]);
    LiveAround(log[..id], gone, log[id + 1..], key, after);
    LiveAround(log[..id], e, log[id + 1..], key, after);
    assert [] + Live(log[id + 1..], key, after) == Live(log[id + 1..], key, after);
    var own := if Counts(e, key, after) then [e.at] else [];
    Sequences.Assoc(Live(log[..id], key, after), own, Live(log[id + 1..], key, after));
  }

  lemma {:induction false} LiveAfterReleaseKey(log: Log, gone: Key, key: Key, after: Time)
    ensures Live(ReleaseKey(log, gone), key, after) ==
            if key == gone then [] else Live(log, key, after)
  {
    if log != [] {
      LiveAfterReleaseKey(log[..|log| - 1], gone, key, after);
      assert ReleaseKey(log, gone)[..|log| - 1] == ReleaseKey(log[..|log| - 1], gone);
    }
  }

  /**
   Removing the first of several equal times from an ascending list leaves the
   same list as removing the reservation's own entry.
   */
  lemma {:induction false} WithoutFirstIsOwn(before: seq<Time>, at: Time, later: seq<Time>)
    requires Ascending(before)
    requires forall i :: 0 <= i < |before| ==> before[i] <= at
    ensures WithoutFirst(before + [at] + later, at) == before + later
  {
    var whole := before + [at] + later;
    if before == [] {
      assert whole[1..] == later;
    } else if before[0] == at {
      assert whole[1..] == before[1..] + [at] + later;
      assert before[1..] + [at] == before;
    } else {
      WithoutFirstIsOwn(before[1..], at, later);
      assert whole[1..] == before[1..] + [at] + later;
    }
  }

  lemma {:induction false} WithoutFirstAbsent(events: seq<Time>, at: Time)
    requires forall i :: 0 <= i < |events| ==> events[i] != at
    ensures WithoutFirst(events, at) == events
  {
    if events != [] {
      WithoutFirstAbsent(events[1..], at);
    }
  }

  // ---------------------------------------------------------------------------
  // Every step keeps the invariant
  // ---------------------------------------------------------------------------

  lemma ReserveSeesNaiveLog(w: Window, s: State, key: Key, now: Time)
    requires Inv(w, s) && s.clock <= now
    ensures Pruned(Lookup(s.table, key), now - w.length) == Live(s.log, key, now - w.length)
  {
    assert RefinesAt(w, s, key);
    if key in s.horizon {
      LiveBounds(s.log, s.clock, key, s.horizon[key]);
      PrunedIsAbove(Lookup(s.table, key), now - w.length);
      AboveLive(s.log, s.clock, key, s.horizon[key], now - w.length);
    } else {
      NoEntriesNoLive(s.log, key, now - w.length);
    }
  }

  lemma {:induction false} NoEntriesNoLive(log: Log, key: Key, after: Time)
    requires forall i :: 0 <= i < |log| ==> log[i].key != key
    ensures Live(log, key, after) == []
  {
    if log != [] {
      NoEntriesNoLive(log[..|log| - 1], key, after);
    }
  }

  /** An entry of another key, or one already too old, does not show. */
  lemma LiveAppend(log: Log, e: Entry, key: Key, after: Time)
    ensures Live(log + [e], key, after) ==
            Live(log, key, after) + (if Counts(e, key, after) then [e.at] else [])
  {
    assert (log + [e])[..|log|] == log;
  }

  lemma ReserveKeepsOwn(w: Window, s: State, key: Key, now: Time)
    requires w.Valid() && Inv(w, s) && s.clock <= now
    ensures RefinesAt(w, Next(w, s, Reserve(key, now)), key)
  {
    ReserveSeesNaiveLog(w, s, key, now);
    LiveAppend(s.log, Entry(key, now, false), key, now - w.length);
  }

  lemma ReserveKeepsOther(w: Window, s: State, key: Key, now: Time, other: Key)
    requires w.Valid() && RefinesAt(w, s, other) && s.clock <= now && other != key
    ensures RefinesAt(w, Next(w, s, Reserve(key, now)), other)
  {
    if other in s.horizon {
      LiveAppend(s.log, Entry(key, now, false), other, s.horizon[other]);
    }
  }

  lemma ReserveKeepsRefinement(w: Window, s: State, key: Key, now: Time, other: Key)
    requires w.Valid() && Inv(w, s) && s.clock <= now
    ensures RefinesAt(w, Next(w, s, Reserve(key, now)), other)
  {
    if other == key {
      ReserveKeepsOwn(w, s, key, now);
    } else {
      assert RefinesAt(w, s, other);
      ReserveKeepsOther(w, s, key, now, other);
    }
  }

  lemma GrantFits(w: Window, log: Log, e: Entry)
    requires Fitted(w, log) && |Live(log, e.key, e.at - w.length)| < w.limit
    ensures Fitted(w, log + [e])
  {
    LiveAppend(log, e, e.key, e.at - w.length);
    assert (log + [e])[..|log|] == log;
  }

  lemma ReserveKeepsInv(w: Window, s: State, key: Key, now: Time)
    requires w.Valid() && Inv(w, s) && s.clock <= now
    ensures Inv(w, Next(w, s, Reserve(key, now)))
  {
    var t := Next(w, s, Reserve(key, now));
    forall other
      ensures RefinesAt(w, t, other)
    {
      ReserveKeepsRefinement(w, s, key, now, other);
    }
    if Admits(w, s.table, key, now) {
      ReserveSeesNaiveLog(w, s, key, now);
      GrantFits(w, s.log, Entry(key, now, false));
    }
  }

  lemma CancelAt(w: Window, s: State, id: nat)
    requires w.Valid() && Inv(w, s) && id < |s.log| && !s.log[id].released
    ensures s.log[id].key in s.horizon
    ensures var key := s.log[id].key;
            WithoutFirst(Lookup(s.table, key), s.log[id].at)
            == Live(ReleaseOne(s.log, id), key, s.horizon[key])
  {
    var e := s.log[id];
    assert RefinesAt(w, s, e.key);
    var h := s.horizon[e.key];
    LiveAfterReleaseOne(s.log, id, e.key, h);
    var before, later := Live(s.log[..id], e.key, h), Live(s.log[id + 1..], e.key, h);
    LiveBounds(s.log[..id], e.at, e.key, h);
    if e.at > h {
      WithoutFirstIsOwn(before, e.at, later);
    } else {
      LiveBounds(s.log[id + 1..], s.clock, e.key, h);
      assert Live(s.log, e.key, h) == before + [] + later == before + later;
      WithoutFirstAbsent(before + later, e.at);
    }
  }

  lemma CancelKeepsRefinement(w: Window, s: State, id: nat, key: Key)
    requires w.Valid() && Inv(w, s) && Enabled(s, Cancel(id))
    ensures RefinesAt(w, Next(w, s, Cancel(id)), key)
  {
    assert RefinesAt(w, s, key);
    CancelAt(w, s, id);
    if key in s.horizon {
      LiveAfterReleaseOne(s.log, id, key, s.horizon[key]);
    }
  }

  lemma CancelKeepsInv(w: Window, s: State, id: nat)
    requires w.Valid() && Inv(w, s) && Enabled(s, Cancel(id))
    ensures Inv(w, Next(w, s, Cancel(id)))
  {
    var t := Next(w, s, Cancel(id));
    forall key
      ensures RefinesAt(w, t, key)
    {
      CancelKeepsRefinement(w, s, id, key);
    }
    ReleaseKeepsFitted(w, s.log, t.log);
  }

  /** Giving reservations back keeps every past grant within the limit. */
  lemma {:induction false} ReleaseKeepsFitted(w: Window, log: Log, gone: Log)
    requires Fitted(w, log)
    requires |gone| == |log|
    requires forall i :: 0 <= i < |log| ==> gone[i] == log[i] || gone[i] == log[i].(released := true)
    ensures Fitted(w, gone)
  {
    if log != [] {
      var last := log[|log| - 1];
      ReleaseKeepsFitted(w, log[..|log| - 1], gone[..|gone| - 1]);
      LiveShrinks(log, gone, last.key, last.at - w.length);
    }
  }

  lemma {:induction false} LiveShrinks(log: Log, gone: Log, key: Key, after: Time)
    requires |gone| == |log|
    requires forall i :: 0 <= i < |log| ==> gone[i] == log[i] || gone[i] == log[i].(released := true)
    ensures |Live(gone, key, after)| <= |Live(log, key, after)|
  {
    if log != [] {
      LiveShrinks(log[..|log| - 1], gone[..|gone| - 1], key, after);
    }
  }

  lemma ClearKeepsInv(w: Window, s: State, key: Key)
    requires Inv(w, s)
    ensures Inv(w, Next(w, s, Clear(key)))
  {
    var t := Next(w, s, Clear(key));
    forall other
      ensures RefinesAt(w, t, other)
    {
      assert RefinesAt(w, s, other);
      if other in s.horizon {
        LiveAfterReleaseKey(s.log, key, other, s.horizon[other]);
      }
    }
    ReleaseKeepsFitted(w, s.log, t.log);
  }

  lemma StepKeepsInv(w: Window, s: State, step: Step)
    requires w.Valid() && Inv(w, s) && Enabled(s, step)
    ensures Inv(w, Next(w, s, step))
  {
    match step
    case Reserve(key, now) => ReserveKeepsInv(w, s, key, now);
    case Cancel(id) => CancelKeepsInv(w, s, id);
    case Clear(key) => ClearKeepsInv(w, s, key);
  }

  lemma {:induction false} RunKeepsInv(w: Window, start: Time, steps: seq<Step>, s: State)
    requires w.Valid() && Run(w, start, steps) == Some(s)
    ensures Inv(w, s)
  {
    if steps != [] {
      var before := Run(w, start, steps[..|steps| - 1]).value;
      RunKeepsInv(w, start, steps[..|steps| - 1], before);
      StepKeepsInv(w, before, steps[|steps| - 1]);
    }
  }

  // ---------------------------------------------------------------------------
  // Main results
  // ---------------------------------------------------------------------------

  /**
   Refinement of the naive log, for every run: the limiter admits a reservation
   exactly when fewer than `limit` reservations of the key are neither released
   nor expired, and its pruned list is then exactly those, plus the new one.
   */
  lemma DecidesLikeNaiveLog(w: Window, start: Time, steps: seq<Step>, s: State, key: Key, now: Time)
    requires w.Valid() && Run(w, start, steps) == Some(s) && s.clock <= now
    ensures Admits(w, s.table, key, now) <==> |Live(s.log, key, now - w.length)| < w.limit
    ensures var t := Next(w, s, Reserve(key, now));
            Lookup(t.table, key) == Live(t.log, key, now - w.length)
  {
    RunKeepsInv(w, start, steps, s);
    ReserveListsLive(w, s, key, now);
  }

  lemma AdmitsLikeNaiveLog(w: Window, start: Time, steps: seq<Step>, s: State, key: Key, now: Time)
    requires w.Valid() && Run(w, start, steps) == Some(s) && s.clock <= now
    ensures Admits(w, s.table, key, now) <==> |Live(s.log, key, now - w.length)| < w.limit
  {
    DecidesLikeNaiveLog(w, start, steps, s, key, now);
  }

  lemma ReserveListsLive(w: Window, s: State, key: Key, now: Time)
    requires w.Valid() && Inv(w, s) && s.clock <= now
    ensures Admits(w, s.table, key, now) <==> |Live(s.log, key, now - w.length)| < w.limit
    ensures var t := Next(w, s, Reserve(key, now));
            Lookup(t.table, key) == Live(t.log, key, now - w.length)
  {
    ReserveSeesNaiveLog(w, s, key, now);
    ReserveKeepsOwn(w, s, key, now);
  }

  lemma {:induction false} WithoutFirstCount(events: seq<Time>, at: Time)
    requires at in events
    ensures multiset(events) == multiset(WithoutFirst(events, at)) + multiset{at}
  {
    assert events == [events[0]] + events[1..];
    if events[0] != at {
      WithoutFirstCount(events[1..], at);
    }
  }

  lemma OwnEntryListed(w: Window, s: State, id: nat)
    requires w.Valid() && Inv(w, s) && Enabled(s, Cancel(id))
    ensures s.log[id].key in s.horizon
    ensures s.log[id].at > s.horizon[s.log[id].key] <==> s.log[id].at in Lookup(s.table, s.log[id].key)
  {
    var e := s.log[id];
    assert RefinesAt(w, s, e.key);
    var h := s.horizon[e.key];
    LiveAfterReleaseOne(s.log, id, e.key, h);
    LiveBounds(s.log, s.clock, e.key, h);
  }

  /**
   Cancelling removes exactly its own reservation from the key's list, even among
   equal times, and nothing at all once that reservation has been pruned. What is
   left is what the naive log still holds.
   */
  lemma CancelRemovesOwn(w: Window, start: Time, steps: seq<Step>, s: State, id: nat, t: State)
    requires w.Valid() && Run(w, start, steps) == Some(s) && Enabled(s, Cancel(id))
    requires t == Next(w, s, Cancel(id))
    ensures var own := s.log[id];
            && own.key in s.horizon
            && Lookup(t.table, own.key) == Live(t.log, own.key, s.horizon[own.key])
            && multiset(Lookup(s.table, own.key)) ==
               multiset(Lookup(t.table, own.key))
               + (if own.at > s.horizon[own.key] then multiset{own.at} else multiset{})
    ensures forall key :: key != s.log[id].key ==> Lookup(t.table, key) == Lookup(s.table, key)
  {
    RunKeepsInv(w, start, steps, s);
    var e := s.log[id];
    var listed := Lookup(s.table, e.key);
    OwnEntryListed(w, s, id);
    CancelAt(w, s, id);
    assert Lookup(t.table, e.key) == WithoutFirst(listed, e.at);
    if e.at in listed {
      WithoutFirstCount(listed, e.at);
    } else {
      WithoutFirstAbsent(listed, e.at);
    }
  }

  /** No half-open window ever holds more than `limit` reservations that stay held. */
  lemma {:induction false} FittedBoundsWindow(w: Window, log: Log, key: Key, after: Time)
    requires Fitted(w, log)
    ensures |Held(log, key, after, after + w.length)| <= w.limit
  {
    if log != [] {
      var front, last := log[..|log| - 1], log[|log| - 1];
      if Counts(last, key, after) && last.at <= after + w.length {
        HeldIsLive(log, key, after, after + w.length, last.at - w.length);
      } else {
        FittedBoundsWindow(w, front, key, after);
      }
    }
  }

  lemma {:induction false} HeldIsLive(log: Log, key: Key, after: Time, upTo: Time, cutoff: Time)
    requires cutoff <= after
    ensures |Held(log, key, after, upTo)| <= |Live(log, key, cutoff)|
  {
    if log != [] {
      HeldIsLive(log[..|log| - 1], key, after, upTo, cutoff);
    }
  }

  /**
   Safety over whole runs: however the critical sections interleave, at most
   `limit` reservations of a key made within any (after, after + length] are
   still held. Over integer instants this covers [from, from + length) as well.
   */
  lemma WindowLimit(w: Window, start: Time, steps: seq<Step>, s: State, key: Key, after: Time)
    requires w.Valid() && Run(w, start, steps) == Some(s)
    ensures |Held(s.log, key, after, after + w.length)| <= w.limit
  {
    RunKeepsInv(w, start, steps, s);
    FittedBoundsWindow(w, s.log, key, after);
  }

  // ---------------------------------------------------------------------------
  // What a cancel and a clear undo, over every continuation
  // ---------------------------------------------------------------------------

  /** The log as if reservation `id` had never been made. */
  function Without(log: Log, id: nat): Log
    requires id < |log|
  {
    log[..id] + log[id + 1..]
  }

  lemma StepKeepsReleased(w: Window, s: State, step: Step, id: nat)
    requires Enabled(s, step) && id < |s.log| && s.log[id].released
    ensures var t := Next(w, s, step); id < |t.log| && t.log[id] == s.log[id]
  {
  }

  /** What was given back stays given back. */
  lemma {:induction false} RunKeepsReleased(w: Window, start: Time, steps: seq<Step>, s: State,
                                            more: seq<Step>, t: State, id: nat)
    requires Run(w, start, steps) == Some(s) && Run(w, start, steps + more) == Some(t)
    requires id < |s.log| && s.log[id].released
    ensures id < |t.log| && t.log[id] == s.log[id]
  {
    if more == [] {
      assert steps + more == steps;
    } else {
      assert (steps + more)[..|steps + more| - 1] == steps + more[..|more| - 1];
      var u := Run(w, start, steps + more[..|more| - 1]).value;
      RunKeepsReleased(w, start, steps, s, more[..|more| - 1], u, id);
      StepKeepsReleased(w, u, more[|more| - 1], id);
    }
  }

  lemma LiveWithout(log: Log, id: nat, key: Key, after: Time)
    requires id < |log| && log[id].released
    ensures Live(log, key, after) == Live(Without(log, id), key, after)
  {
    assert ReleaseOne(log, id) == log;
    LiveAfterReleaseOne(log, id, key, after);
    LiveConcat(log[..id], log[id + 1..], key, after);
  }

  lemma RunExtends(w: Window, start: Time, steps: seq<Step>, s: State, step: Step)
    requires Run(w, start, steps) == Some(s) && Enabled(s, step)
    ensures Run(w, start, steps + [step]) == Some(Next(w, s, step))
  {
    assert (steps + [step])[..|steps|] == steps;
  }

  lemma CancelTaken(w: Window, start: Time, steps: seq<Step>, s: State, id: nat) returns (t: State)
    requires Run(w, start, steps) == Some(s) && Enabled(s, Cancel(id))
    ensures Run(w, start, steps + [Cancel(id)]) == Some(t)
    ensures id < |t.log| && t.log[id].released
  {
    t := Next(w, s, Cancel(id));
    RunExtends(w, start, steps, s, Cancel(id));
  }

  /** Decisions do not see a released entry. */
  lemma ReleasedIgnored(w: Window, start: Time, steps: seq<Step>, s: State, id: nat, key: Key, later: Time)
    requires w.Valid() && Run(w, start, steps) == Some(s) && s.clock <= later
    requires id < |s.log| && s.log[id].released
    ensures Admits(w, s.table, key, later) <==> |Live(Without(s.log, id), key, later - w.length)| < w.limit
  {
    AdmitsLikeNaiveLog(w, start, steps, s, key, later);
    LiveWithout(s.log, id, key, later - w.length);
  }

  /**
   A cancelled reservation is not read again. Whatever happened between the reservation
   and its cancel (`steps`), and whatever happens afterwards (`more`), every key is
   admitted or refused at every later instant as the naive log decides without that
   reservation. What it refused while it was held stays refused.
   */
  lemma CancelledReservationIgnored(w: Window, start: Time, steps: seq<Step>, s: State, id: nat,
                                    more: seq<Step>, t: State, key: Key, later: Time)
    requires w.Valid() && Run(w, start, steps) == Some(s) && Enabled(s, Cancel(id))
    requires Run(w, start, steps + [Cancel(id)] + more) == Some(t) && t.clock <= later
    ensures id < |t.log|
    ensures Admits(w, t.table, key, later) <==> |Live(Without(t.log, id), key, later - w.length)| < w.limit
  {
    var cancelled := CancelTaken(w, start, steps, s, id);
    RunKeepsReleased(w, start, steps + [Cancel(id)], cancelled, more, t, id);
    ReleasedIgnored(w, start, steps + [Cancel(id)] + more, t, id, key, later);
  }

  lemma {:induction false} ReleasedNotLive(log: Log, key: Key, after: Time)
    requires KeyReleased(log, key)
    ensures Live(log, key, after) == []
  {
    if log != [] {
      ReleasedNotLive(log[..|log| - 1], key, after);
    }
  }

  lemma {:induction false} RunKeepsEntries(w: Window, start: Time, steps: seq<Step>, s: State,
                                           more: seq<Step>, t: State)
    requires Run(w, start, steps) == Some(s) && Run(w, start, steps + more) == Some(t)
    ensures |s.log| <= |t.log|
    ensures forall i :: 0 <= i < |s.log| ==> t.log[i].key == s.log[i].key
  {
    if more == [] {
      assert steps + more == steps;
    } else {
      assert (steps + more)[..|steps + more| - 1] == steps + more[..|more| - 1];
      RunKeepsEntries(w, start, steps, s, more[..|more| - 1], Run(w, start, steps + more[..|more| - 1]).value);
    }
  }

  lemma LiveSince(log: Log, n: nat, key: Key, after: Time)
    requires n <= |log| && KeyReleased(log[..n], key)
    ensures Live(log, key, after) == Live(log[n..], key, after)
  {
    ReleasedNotLive(log[..n], key, after);
    assert log == log[..n] + log[n..];
    LiveConcat(log[..n], log[n..], key, after);
  }

  lemma ClearedStaysReleased(w: Window, start: Time, steps: seq<Step>, s: State, key: Key, more: seq<Step>, t: State)
    requires Run(w, start, steps) == Some(s) && Run(w, start, steps + more) == Some(t)
    requires KeyReleased(s.log, key)
    ensures |s.log| <= |t.log| && KeyReleased(t.log[..|s.log|], key)
  {
    RunKeepsEntries(w, start, steps, s, more, t);
    forall i | 0 <= i < |s.log| && t.log[i].key == key
      ensures t.log[i].released
    {
      RunKeepsReleased(w, start, steps, s, more, t, i);
    }
  }

  predicate KeyReleased(log: Log, key: Key) {
    forall i :: 0 <= i < |log| && log[i].key == key ==> log[i].released
  }

  lemma ClearTaken(w: Window, start: Time, steps: seq<Step>, s: State, key: Key) returns (t: State)
    requires Run(w, start, steps) == Some(s)
    ensures Run(w, start, steps + [Clear(key)]) == Some(t)
    ensures |t.log| == |s.log| && KeyReleased(t.log, key)
  {
    t := Next(w, s, Clear(key));
    RunExtends(w, start, steps, s, Clear(key));
  }

  lemma OnlySinceDecides(w: Window, start: Time, steps: seq<Step>, s: State, n: nat, key: Key, later: Time)
    requires w.Valid() && Run(w, start, steps) == Some(s) && s.clock <= later
    requires n <= |s.log| && KeyReleased(s.log[..n], key)
    ensures Admits(w, s.table, key, later) <==> |Live(s.log[n..], key, later - w.length)| < w.limit
  {
    LiveSince(s.log, n, key, later - w.length);
    AdmitsLikeNaiveLog(w, start, steps, s, key, later);
  }

  /**
   After a success the key starts over: from then on only the attempts made since
   decide whether it is admitted.
   */
  lemma ClearedKeyStartsOver(w: Window, start: Time, steps: seq<Step>, s: State, key: Key,
                             more: seq<Step>, t: State, later: Time)
    requires w.Valid() && Run(w, start, steps) == Some(s)
    requires Run(w, start, steps + [Clear(key)] + more) == Some(t) && t.clock <= later
    ensures |s.log| <= |t.log|
    ensures Admits(w, t.table, key, later) <==> |Live(t.log[|s.log|..], key, later - w.length)| < w.limit
  {
    var cleared := ClearTaken(w, start, steps, s, key);
    ClearedStaysReleased(w, start, steps + [Clear(key)], cleared, key, more, t);
    OnlySinceDecides(w, start, steps + [Clear(key)] + more, t, |s.log|, key, later);
  }

  // ---------------------------------------------------------------------------
  // Closed windows
  // ---------------------------------------------------------------------------

  lemma {:induction false} HeldSplits(log: Log, key: Key, after: Time, middle: Time, upTo: Time)
    requires after <= middle <= upTo
    ensures |Held(log, key, after, upTo)| == |Held(log, key, after, middle)| + |Held(log, key, middle, upTo)|
  {
    if log != [] {
      HeldSplits(log[..|log| - 1], key, after, middle, upTo);
    }
  }

  /**
   The window is half-open, so a closed one, [from, from + length], may hold more:
   up to `limit` besides the reservations exactly at its start, and equally besides
   those exactly at its end. Hence never more than twice the limit, and more than
   the limit only with reservations at both ends.
   */
  lemma ClosedWindowLimit(w: Window, start: Time, steps: seq<Step>, s: State, key: Key, from: Time)
    requires w.Valid() && Run(w, start, steps) == Some(s)
    ensures var closed := |Held(s.log, key, from - 1, from + w.length)|;
            var atStart := |Held(s.log, key, from - 1, from)|;
            var atEnd := |Held(s.log, key, from + w.length - 1, from + w.length)|;
            && closed <= w.limit + atStart
            && closed <= w.limit + atEnd
            && closed <= 2 * w.limit
            && (closed > w.limit ==> atStart > 0 && atEnd > 0)
  {
    WindowLimit(w, start, steps, s, key, from);
    WindowLimit(w, start, steps, s, key, from - 1);
    HeldSplits(s.log, key, from - 1, from, from + w.length);
    HeldSplits(s.log, key, from - 1, from, from - 1 + w.length);
    HeldSplits(s.log, key, from - 1, from + w.length - 1, from + w.length);
  }

  /** `n` reservations of one key at one instant. */
  function Burst(key: Key, at: Time, n: nat): Log {
    seq(n, _ => Entry(key, at, false))
  }

  lemma {:induction false} LiveOfBurst(key: Key, at: Time, n: nat, after: Time)
    ensures |Live(Burst(key, at, n), key, after)| == if at > after then n else 0
  {
    if n != 0 {
      LiveOfBurst(key, at, n - 1, after);
      assert Burst(key, at, n)[..n - 1] == Burst(key, at, n - 1);
    }
  }

  lemma LiveWithBurst(log: Log, key: Key, at: Time, n: nat, after: Time)
    requires at > after
    ensures |Live(log + Burst(key, at, n), key, after)| == |Live(log, key, after)| + n
  {
    LiveConcat(log, Burst(key, at, n), key, after);
    LiveOfBurst(key, at, n, after);
  }

  lemma BurstGrows(log: Log, key: Key, at: Time, n: nat)
    ensures log + Burst(key, at, n) + [Entry(key, at, false)] == log + Burst(key, at, n + 1)
  {
    assert Burst(key, at, n + 1) == Burst(key, at, n) + [Entry(key, at, false)];
  }

  lemma ReserveLogs(w: Window, s: State, key: Key, now: Time)
    requires s.clock <= now && Admits(w, s.table, key, now)
    ensures Next(w, s, Reserve(key, now)).log == s.log + [Entry(key, now, false)]
    ensures Next(w, s, Reserve(key, now)).clock == now
  {
  }

  lemma OneGranted(w: Window, start: Time, steps: seq<Step>, s: State, key: Key, at: Time) returns (t: State)
    requires w.Valid() && Run(w, start, steps) == Some(s) && s.clock <= at
    requires |Live(s.log, key, at - w.length)| < w.limit
    ensures Run(w, start, steps + [Reserve(key, at)]) == Some(t)
    ensures t.log == s.log + [Entry(key, at, false)] && t.clock == at
  {
    t := Next(w, s, Reserve(key, at));
    AdmitsLikeNaiveLog(w, start, steps, s, key, at);
    RunExtends(w, start, steps, s, Reserve(key, at));
    ReserveLogs(w, s, key, at);
  }

  lemma BurstContinues(w: Window, start: Time, steps: seq<Step>, s: State, log: Log, key: Key, at: Time, n: nat)
    returns (t: State)
    requires w.Valid() && Run(w, start, steps) == Some(s) && s.clock <= at
    requires s.log == log + Burst(key, at, n) && HasRoom(w, log, key, at, n + 1)
    ensures Run(w, start, steps + [Reserve(key, at)]) == Some(t)
    ensures t.log == log + Burst(key, at, n + 1) && t.clock == at
  {
    LiveWithBurst(log, key, at, n, at - w.length);
    t := OneGranted(w, start, steps, s, key, at);
    BurstGrows(log, key, at, n);
  }

  lemma EmptyBurst(log: Log, key: Key, at: Time)
    ensures log + Burst(key, at, 0) == log
  {
  }

  predicate HasRoom(w: Window, log: Log, key: Key, at: Time, n: nat) {
    |Live(log, key, at - w.length)| + n <= w.limit
  }

  /** While there is room, reservations at one instant are all granted. */
  lemma {:induction false} BurstGranted(w: Window, start: Time, steps: seq<Step>, s: State, key: Key, at: Time, n: nat)
    returns (longer: seq<Step>, t: State)
    requires w.Valid() && Run(w, start, steps) == Some(s) && s.clock <= at && HasRoom(w, s.log, key, at, n)
    ensures Run(w, start, longer) == Some(t)
    ensures t.log == s.log + Burst(key, at, n) && t.clock <= at
  {
    if n == 0 {
      longer, t := steps, s;
      EmptyBurst(s.log, key, at);
    } else {
      var most, u := BurstGranted(w, start, steps, s, key, at, n - 1);
      t := BurstContinues(w, start, most, u, s.log, key, at, n - 1);
      longer := most + [Reserve(key, at)];
    }
  }

  lemma {:induction false} HeldOfBursts(key: Key, first: Time, second: Time, n: nat, m: nat, after: Time, upTo: Time)
    requires after < first <= upTo && after < second <= upTo
    ensures |Held(Burst(key, first, n) + Burst(key, second, m), key, after, upTo)| == n + m
    decreases n + m
  {
    var log := Burst(key, first, n) + Burst(key, second, m);
    if m != 0 {
      HeldOfBursts(key, first, second, n, m - 1, after, upTo);
      assert log[..|log| - 1] == Burst(key, first, n) + Burst(key, second, m - 1);
    } else if n != 0 {
      HeldOfBursts(key, first, second, n - 1, 0, after, upTo);
      assert log[..|log| - 1] == Burst(key, first, n - 1) + Burst(key, second, 0);
    }
  }

  /** Twice the limit is reached, for every limit and length. */
  lemma ClosedWindowReachesTwiceLimit(w: Window, key: Key) returns (steps: seq<Step>, s: State)
    requires w.Valid()
    ensures Run(w, 0, steps) == Some(s)
    ensures |Held(s.log, key, -1, w.length)| == 2 * w.limit
  {
    var first, u := BurstGranted(w, 0, [], Initial(0), key, 0, w.limit);
    LiveOfBurst(key, 0, w.limit, 0);
    assert [] + Burst(key, 0, w.limit) == Burst(key, 0, w.limit);
    steps, s := BurstGranted(w, 0, first, u, key, w.length, w.limit);
    HeldOfBursts(key, 0, w.length, w.limit, w.limit, -1, w.length);
  }
}
