/**
 Admission of concurrent SMTP sessions, globally and per remote host. The
 submission throttle and the forwarding limiter run the same code.
 */
module SessionCounters {
  import opened Wrappers
  import Text

  datatype Limits = Limits(total: int, perHost: int)

  datatype Refusal = ConcurrentSessionsExceeded | RemoteSessionsExceeded

  datatype Counters = Counters(active: int, byHost: map<string, int>)

  /** A blank host is counted under "unknown". */
  function KeyPart(value: string): string {
    var trimmed := Text.TrimSpace(value);
    if trimmed == "" then "unknown" else trimmed
  }

  function CountOf(byHost: map<string, int>, host: string): int {
    if host in byHost then byHost[host] else 0
  }

  function Acquire(limits: Limits, c: Counters, host: string): Result<Counters, Refusal> {
    if c.active >= limits.total then Err(ConcurrentSessionsExceeded)
    else if CountOf(c.byHost, host) >= limits.perHost then Err(RemoteSessionsExceeded)
    else Ok(Counters(c.active + 1, c.byHost[host := CountOf(c.byHost, host) + 1]))
  }

  function Release(c: Counters, host: string): Counters {
    Counters(if c.active > 0 then c.active - 1 else c.active,
             if CountOf(c.byHost, host) <= 1 then c.byHost - {host}
             else c.byHost[host := c.byHost[host] - 1])
  }

  // ---------------------------------------------------------------------------
  // Runs: `open` is the bag of hosts of the sessions that are really open
  // ---------------------------------------------------------------------------

  datatype Step = Connect(host: string) | Disconnect(host: string)

  datatype State = State(counters: Counters, open: multiset<string>)

  /** Every acquired session is released once: only an open session disconnects. */
  predicate Enabled(s: State, step: Step) {
    step.Disconnect? ==> step.host in s.open
  }

  function Next(limits: Limits, s: State, step: Step): State {
    match step
    case Connect(host) =>
      (match Acquire(limits, s.counters, host)
       case Ok(c) => State(c, s.open + multiset{host})
       case Err(_) => s)
    case Disconnect(host) => State(Release(s.counters, host), s.open - multiset{host})
  }

  function Run(limits: Limits, steps: seq<Step>): Option<State> {
    if steps == [] then Some(State(Counters(0, map[]), multiset{}))
    else
      match Run(limits, steps[..|steps| - 1])
      case None => None
      case Some(s) =>
        var step := steps[|steps| - 1];
        if Enabled(s, step) then Some(Next(limits, s, step)) else None
  }

  /** The counters are exactly the multiplicities of the open sessions; none is zero. */
  ghost predicate Tracks(s: State) {
    && s.counters.active == |s.open|
    && forall host :: CountOf(s.counters.byHost, host) == s.open[host]
                      && (host in s.counters.byHost <==> host in s.open)
  }

  ghost predicate Within(limits: Limits, s: State) {
    && |s.open| <= limits.total
    && forall host :: s.open[host] <= limits.perHost
  }

  /** The counters stand for the open sessions, and those are within the limits. */
  ghost predicate Exact(limits: Limits, s: State) {
    0 < limits.total && 0 < limits.perHost && Tracks(s) && Within(limits, s)
  }

  lemma StepTracks(limits: Limits, s: State, step: Step)
    requires 0 < limits.total && 0 < limits.perHost
    requires Tracks(s) && Within(limits, s) && Enabled(s, step)
    ensures Tracks(Next(limits, s, step)) && Within(limits, Next(limits, s, step))
  {
    var t := Next(limits, s, step);
    assert CountOf(s.counters.byHost, step.host) == s.open[step.host];
    forall host
      ensures CountOf(t.counters.byHost, host) == t.open[host]
      ensures host in t.counters.byHost <==> host in t.open
      ensures t.open[host] <= limits.perHost
    {
      assert CountOf(s.counters.byHost, host) == s.open[host];
    }
  }

  lemma AcquireExact(limits: Limits, s: State, host: string)
    ensures Exact(limits, s) ==>
              match Acquire(limits, s.counters, host)
              case Ok(c) =>
                && |s.open| < limits.total && s.open[host] < limits.perHost
                && Exact(limits, State(c, s.open + multiset{host}))
              case Err(e) =>
                && (e == ConcurrentSessionsExceeded <==> |s.open| == limits.total)
                && (|s.open| == limits.total || s.open[host] == limits.perHost)
  {
    if Exact(limits, s) {
      assert CountOf(s.counters.byHost, host) == s.open[host] <= limits.perHost;
      StepTracks(limits, s, Connect(host));
    }
  }

  lemma ReleaseExact(limits: Limits, s: State, host: string)
    ensures Exact(limits, s) && host in s.open ==>
              Exact(limits, State(Release(s.counters, host), s.open - multiset{host}))
  {
    if Exact(limits, s) && host in s.open {
      StepTracks(limits, s, Disconnect(host));
    }
  }

  lemma {:induction false} RunTracks(limits: Limits, steps: seq<Step>, s: State)
    requires 0 < limits.total && 0 < limits.perHost
    requires Run(limits, steps) == Some(s)
    ensures Tracks(s) && Within(limits, s)
  {
    if steps != [] {
      var before := Run(limits, steps[..|steps| - 1]).value;
      RunTracks(limits, steps[..|steps| - 1], before);
      StepTracks(limits, before, steps[|steps| - 1]);
    }
  }

  /**
   For every interleaving of connects and disconnects: the counters track the open
   sessions exactly, both limits hold, a refusal happens only at a limit, and a
   connect undone by its disconnect restores the counters.
   */
  lemma CountersTrackSessions(limits: Limits, steps: seq<Step>, s: State, host: string)
    requires 0 < limits.total && 0 < limits.perHost
    requires Run(limits, steps) == Some(s)
    ensures Tracks(s) && Within(limits, s)
    ensures Acquire(limits, s.counters, host).Err? <==>
            |s.open| == limits.total || s.open[host] == limits.perHost
    ensures Acquire(limits, s.counters, host).Ok? ==>
            Release(Acquire(limits, s.counters, host).value, host) == s.counters
  {
    RunTracks(limits, steps, s);
    assert CountOf(s.counters.byHost, host) == s.open[host];
    if Acquire(limits, s.counters, host).Ok? {
      var c := Acquire(limits, s.counters, host).value;
      assert Release(c, host).byHost == s.counters.byHost;
    }
  }
}
