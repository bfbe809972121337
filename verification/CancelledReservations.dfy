/**
 What a reservation that is later cancelled does to others. While it is held it can
 cost a reservation of the same key its place. If it does not, the whole run is the
 run without it: same grants, same log, same decisions.
 */
module CancelledReservations {
  import opened Wrappers
  import opened SlidingWindow

  /** The same step when reservation `id` was never made: later reservations move up. */
  function Shifted(step: Step, id: nat): Step {
    if step.Cancel? && step.id > id then Cancel(step.id - 1) else step
  }

  /** The steps without the cancel of `id`. */
  function Erased(steps: seq<Step>, id: nat): seq<Step> {
    if steps == [] then []
    else
      var front, last := Erased(steps[..|steps| - 1], id), steps[|steps| - 1];
      if last == Cancel(id) then front else front + [Shifted(last, id)]
  }

  /** `v` is `u` without its reservation `id`. */
  ghost predicate Lacks(w: Window, u: State, v: State, id: nat) {
    && Inv(w, u) && Inv(w, v)
    && id < |u.log| && v.log == Without(u.log, id) && v.clock <= u.clock
  }

  /** The window is full, and reservation `id` still counts in it: without it there would be room. */
  predicate TakesLastPlace(w: Window, log: Log, id: nat, key: Key, now: Time)
    requires id < |log|
  {
    Counts(log[id], key, now - w.length) && |Live(log, key, now - w.length)| == w.limit
  }

  /** The step is not a reservation whose place `id` has taken. */
  predicate Harmless(w: Window, u: State, id: nat, step: Step) {
    step.Reserve? && id < |u.log| ==> !TakesLastPlace(w, u.log, id, step.key, step.now)
  }

  // ---------------------------------------------------------------------------
  // One step
  // ---------------------------------------------------------------------------

  lemma OneFewerWithout(log: Log, id: nat, key: Key, after: Time)
    requires id < |log|
    ensures |Live(log, key, after)| ==
            |Live(Without(log, id), key, after)| + (if Counts(log[id], key, after) then 1 else 0)
  {
    LiveAfterReleaseOne(log, id, key, after);
    LiveConcat(log[..id], log[id + 1..], key, after);
  }

  /** The two runs decide a reservation alike exactly when it is harmless; else only `v` grants it. */
  lemma AgreeIffHarmless(w: Window, u: State, v: State, id: nat, key: Key, now: Time)
    requires Lacks(w, u, v, id) && u.clock <= now
    ensures (Admits(w, u.table, key, now) <==> Admits(w, v.table, key, now)) <==>
            Harmless(w, u, id, Reserve(key, now))
    ensures !Harmless(w, u, id, Reserve(key, now)) ==>
              !Admits(w, u.table, key, now) && Admits(w, v.table, key, now)
  {
    ReserveSeesNaiveLog(w, u, key, now);
    ReserveSeesNaiveLog(w, v, key, now);
    OneFewerWithout(u.log, id, key, now - w.length);
  }

  lemma WithoutAppend(log: Log, id: nat, e: Entry)
    requires id < |log|
    ensures Without(log + [e], id) == Without(log, id) + [e]
  {
  }

  lemma ReserveLacks(w: Window, u: State, v: State, id: nat, key: Key, now: Time)
    requires w.Valid() && Lacks(w, u, v, id) && u.clock <= now && Harmless(w, u, id, Reserve(key, now))
    ensures Lacks(w, Next(w, u, Reserve(key, now)), Next(w, v, Reserve(key, now)), id)
  {
    AgreeIffHarmless(w, u, v, id, key, now);
    ReserveKeepsInv(w, u, key, now);
    ReserveKeepsInv(w, v, key, now);
    WithoutAppend(u.log, id, Entry(key, now, false));
  }

  lemma WithoutReleased(log: Log, id: nat, j: nat)
    requires id < |log| && j < |log|
    ensures j == id ==> Without(ReleaseOne(log, j), id) == Without(log, id)
    ensures j < id ==> j < |Without(log, id)| && Without(ReleaseOne(log, j), id) == ReleaseOne(Without(log, id), j)
    ensures j > id ==>
              && j - 1 < |Without(log, id)| && Without(log, id)[j - 1] == log[j]
              && Without(ReleaseOne(log, j), id) == ReleaseOne(Without(log, id), j - 1)
  {
  }

  lemma CancelLacks(w: Window, u: State, v: State, id: nat, j: nat)
    requires w.Valid() && Lacks(w, u, v, id) && Enabled(u, Cancel(j))
    ensures j == id ==> Lacks(w, Next(w, u, Cancel(j)), v, id)
    ensures j != id ==>
              && Enabled(v, Shifted(Cancel(j), id))
              && Lacks(w, Next(w, u, Cancel(j)), Next(w, v, Shifted(Cancel(j), id)), id)
  {
    WithoutReleased(u.log, id, j);
    CancelKeepsInv(w, u, j);
    if j != id {
      CancelKeepsInv(w, v, Shifted(Cancel(j), id).id);
    }
  }

  lemma ClearLacks(w: Window, u: State, v: State, id: nat, key: Key)
    requires Lacks(w, u, v, id)
    ensures Lacks(w, Next(w, u, Clear(key)), Next(w, v, Clear(key)), id)
  {
    ClearKeepsInv(w, u, key);
    ClearKeepsInv(w, v, key);
    assert Without(ReleaseKey(u.log, key), id) == ReleaseKey(Without(u.log, id), key);
  }

  lemma StepLacks(w: Window, u: State, v: State, id: nat, step: Step)
    requires w.Valid() && Lacks(w, u, v, id) && Enabled(u, step) && Harmless(w, u, id, step)
    ensures step == Cancel(id) ==> Lacks(w, Next(w, u, step), v, id)
    ensures step != Cancel(id) ==>
              && Enabled(v, Shifted(step, id))
              && Lacks(w, Next(w, u, step), Next(w, v, Shifted(step, id)), id)
  {
    match step
    case Reserve(key, now) => ReserveLacks(w, u, v, id, key, now);
    case Cancel(j) => CancelLacks(w, u, v, id, j);
    case Clear(key) => ClearLacks(w, u, v, id, key);
  }

  // ---------------------------------------------------------------------------
  // Whole runs
  // ---------------------------------------------------------------------------

  /** No reservation among the later steps is refused on account of `id`. */
  predicate AllHarmless(w: Window, start: Time, steps: seq<Step>, later: seq<Step>, id: nat) {
    later == [] ||
    (var front := later[..|later| - 1];
     && AllHarmless(w, start, steps, front, id)
     && match Run(w, start, steps + front)
        case Some(u) => Harmless(w, u, id, later[|later| - 1])
        case None => false)
  }

  lemma ReserveAddsOne(w: Window, s: State, key: Key, at: Time)
    requires w.Valid() && Inv(w, s) && s.clock <= at && Admits(w, s.table, key, at)
    ensures Lacks(w, Next(w, s, Reserve(key, at)), s, |s.log|)
  {
    ReserveKeepsInv(w, s, key, at);
    assert Without(s.log + [Entry(key, at, false)], |s.log|) == s.log;
  }

  lemma RunSplits(w: Window, start: Time, steps: seq<Step>, later: seq<Step>, u: State) returns (before: State)
    requires later != [] && Run(w, start, steps + later) == Some(u)
    ensures Run(w, start, steps + later[..|later| - 1]) == Some(before)
    ensures Enabled(before, later[|later| - 1]) && u == Next(w, before, later[|later| - 1])
  {
    assert (steps + later)[..|steps + later| - 1] == steps + later[..|later| - 1];
    before := Run(w, start, steps + later[..|later| - 1]).value;
  }

  lemma ErasedExtends(w: Window, start: Time, before: seq<Step>, later: seq<Step>, id: nat, v: State)
    requires later != [] && Run(w, start, before + Erased(later[..|later| - 1], id)) == Some(v)
    ensures later[|later| - 1] == Cancel(id) ==> Run(w, start, before + Erased(later, id)) == Some(v)
    ensures later[|later| - 1] != Cancel(id) && Enabled(v, Shifted(later[|later| - 1], id)) ==>
              Run(w, start, before + Erased(later, id)) == Some(Next(w, v, Shifted(later[|later| - 1], id)))
  {
    var front, step := Erased(later[..|later| - 1], id), Shifted(later[|later| - 1], id);
    if later[|later| - 1] != Cancel(id) && Enabled(v, step) {
      RunExtends(w, start, before + front, v, step);
      assert before + Erased(later, id) == before + front + [step];
    }
  }

  /**
   Let a reservation be granted after `before`, and let no later reservation be refused
   on account of it. Then the run without it, and without its cancel, goes through, and
   its log is the same without that entry.
   */
  lemma {:induction false} ErasedRun(w: Window, start: Time, before: seq<Step>, s: State, key: Key, at: Time,
                                     later: seq<Step>, u: State) returns (v: State)
    requires w.Valid() && Run(w, start, before) == Some(s) && s.clock <= at && Admits(w, s.table, key, at)
    requires Run(w, start, before + [Reserve(key, at)] + later) == Some(u)
    requires AllHarmless(w, start, before + [Reserve(key, at)], later, |s.log|)
    ensures Run(w, start, before + Erased(later, |s.log|)) == Some(v)
    ensures Lacks(w, u, v, |s.log|)
    decreases |later|
  {
    var steps, id := before + [Reserve(key, at)], |s.log|;
    if later == [] {
      v := s;
      assert steps + later == steps && before + Erased(later, id) == before;
      RunExtends(w, start, before, s, Reserve(key, at));
      RunKeepsInv(w, start, before, s);
      ReserveAddsOne(w, s, key, at);
    } else {
      var prior := RunSplits(w, start, steps, later, u);
      var twin := ErasedRun(w, start, before, s, key, at, later[..|later| - 1], prior);
      var step := later[|later| - 1];
      StepLacks(w, prior, twin, id, step);
      ErasedExtends(w, start, before, later, id, twin);
      v := if step == Cancel(id) then twin else Next(w, twin, Shifted(step, id));
    }
  }

  /**
   A cancelled reservation that refused nobody leaves no trace: the run without it and
   its cancel is a run, and from then on both decide alike for every key at every
   instant. The condition is exact: the first reservation that is refused on account of
   it is one that the other run grants (`AgreeIffHarmless`).
   */
  lemma CancelledReservationErased(w: Window, start: Time, before: seq<Step>, s: State, key: Key, at: Time,
                                   later: seq<Step>, u: State, other: Key, now: Time) returns (v: State)
    requires w.Valid() && Run(w, start, before) == Some(s) && s.clock <= at && Admits(w, s.table, key, at)
    requires Run(w, start, before + [Reserve(key, at)] + later) == Some(u)
    requires AllHarmless(w, start, before + [Reserve(key, at)], later, |s.log|)
    ensures Run(w, start, before + Erased(later, |s.log|)) == Some(v)
    ensures |s.log| < |u.log| && v.log == Without(u.log, |s.log|)
    ensures u.clock <= now ==>
              ((Admits(w, u.table, other, now) <==> Admits(w, v.table, other, now)) <==>
               Harmless(w, u, |s.log|, Reserve(other, now)))
    ensures u.clock <= now && u.log[|s.log|].released ==>
              (Admits(w, u.table, other, now) <==> Admits(w, v.table, other, now))
  {
    v := ErasedRun(w, start, before, s, key, at, later, u);
    if u.clock <= now {
      AgreeIffHarmless(w, u, v, |s.log|, other, now);
    }
  }

  lemma FullLog(w: Window, log: Log, key: Key, at: Time)
    requires w.Valid() && log == Burst(key, at, w.limit)
    ensures log != [] && !log[0].released && TakesLastPlace(w, log, 0, key, at)
    ensures |Live(Without(log, 0), key, at - w.length)| < w.limit
  {
    LiveOfBurst(key, at, w.limit, at - w.length);
    OneFewerWithout(log, 0, key, at - w.length);
  }

  lemma FullWindow(w: Window, start: Time, steps: seq<Step>, s: State, key: Key, at: Time)
    requires w.Valid() && Run(w, start, steps) == Some(s) && s.clock <= at && s.log != []
    requires TakesLastPlace(w, s.log, 0, key, at)
    ensures !Admits(w, s.table, key, at)
  {
    AdmitsLikeNaiveLog(w, start, steps, s, key, at);
  }

  lemma FilledWindow(w: Window, key: Key) returns (steps: seq<Step>, s: State)
    requires w.Valid()
    ensures Run(w, 0, steps) == Some(s) && s.clock <= 0 && s.log == Burst(key, 0, w.limit)
  {
    assert HasRoom(w, Initial(0).log, key, 0, w.limit);
    steps, s := BurstGranted(w, 0, [], Initial(0), key, 0, w.limit);
    assert Initial(0).log + Burst(key, 0, w.limit) == Burst(key, 0, w.limit);
  }

  /** For every limit: a full window refuses a reservation that it would grant without the first one. */
  lemma HeldReservationRefuses(w: Window, key: Key) returns (steps: seq<Step>, s: State)
    requires w.Valid()
    ensures Run(w, 0, steps) == Some(s) && s.clock <= 0 && Enabled(s, Cancel(0))
    ensures !Admits(w, s.table, key, 0) && !Harmless(w, s, 0, Reserve(key, 0))
    ensures |Live(Without(s.log, 0), key, -w.length)| < w.limit
  {
    steps, s := FilledWindow(w, key);
    FullLog(w, s.log, key, 0);
    FullWindow(w, 0, steps, s, key, 0);
  }
}
