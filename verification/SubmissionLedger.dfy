/**
 What the submission server's throttle counts, told from the steps and the replies: the
 AUTH attempts since a key's last success, and the messages answered 250.
 */
module SubmissionLedger {
  import opened Wrappers
  import opened SubmissionSession
  import opened SubmissionServer
  import DataReader
  import SC = SessionCounters
  import SW = SlidingWindow
  import Text
  import Throttle

  // ---------------------------------------------------------------------------
  // Which AUTH attempts share a limit
  // ---------------------------------------------------------------------------

  /**
   Two attempts count against each other exactly when they name the same user, up to
   case and outer space, from wherever they come, or when neither names a user and they
   come from the same host.
   */
  lemma AttemptsShareKeyIff(toLower: string -> string, host: string, user: string, otherHost: string, otherUser: string)
    ensures var name, otherName := toLower(Text.TrimSpace(user)), toLower(Text.TrimSpace(otherUser));
            Throttle.AuthKey(toLower, host, user) == Throttle.AuthKey(toLower, otherHost, otherUser) <==>
              if name != "" then name == otherName
              else otherName == "" && SC.KeyPart(host) == SC.KeyPart(otherHost)
  {
    var key, otherKey := Throttle.AuthKey(toLower, host, user), Throttle.AuthKey(toLower, otherHost, otherUser);
    var name, otherName := toLower(Text.TrimSpace(user)), toLower(Text.TrimSpace(otherUser));
    assert key[0] == (if name != "" then 'u' else 'r') && otherKey[0] == (if otherName != "" then 'u' else 'r');
    if name != "" && otherName != "" {
      SamePrefix("username:", name, otherName);
    }
    if name == "" && otherName == "" {
      SamePrefix("remote:", SC.KeyPart(host), SC.KeyPart(otherHost));
    }
  }

  lemma SamePrefix(prefix: string, a: string, b: string)
    ensures prefix + a == prefix + b <==> a == b
  {
    if prefix + a == prefix + b {
      assert a == (prefix + a)[|prefix|..] == b;
    }
  }

  /** Hosts and identities are counted together exactly when they agree up to outer space; blank is "unknown". */
  lemma CountedTogetherIff(a: string, b: string)
    ensures SC.KeyPart(a) == SC.KeyPart(b) <==>
            || Text.TrimSpace(a) == Text.TrimSpace(b)
            || (Text.TrimSpace(a) == "" && Text.TrimSpace(b) == "unknown")
            || (Text.TrimSpace(a) == "unknown" && Text.TrimSpace(b) == "")
  {
  }

  // ---------------------------------------------------------------------------
  // AUTH attempts since the last success
  // ---------------------------------------------------------------------------

  predicate StartsAttempt(cfg: Config, s: Server, step: Step, key: string) {
    && step.BeginAuth? && Enabled(cfg, s, step)
    && Throttle.AuthKey(cfg.toLower, step.remoteHost, step.username) == key
    && IsAuthenticating(Next(cfg, s, step), step.sid)
  }

  /** The attempt under this key ends with the reply 235. */
  predicate Succeeds(cfg: Config, s: Server, step: Step, key: string) {
    && step.EndAuth? && Enabled(cfg, s, step) && s.clients[step.sid].phase.key == key
    && step.login.Some?
    && Handle(cfg.settings, s.clients[step.sid].session, Auth(AuthAccepted(step.login.value))).reply == 235
  }

  /** When the attempts that went ahead under a key since its last success were started. */
  function AttemptsSince(cfg: Config, start: SW.Time, steps: seq<Step>, key: string): seq<SW.Time> {
    if steps == [] then []
    else
      var front, step := AttemptsSince(cfg, start, steps[..|steps| - 1], key), steps[|steps| - 1];
      match Run(cfg, start, steps[..|steps| - 1])
      case None => front
      case Some(s) =>
        if StartsAttempt(cfg, s, step, key) then front + [step.now]
        else if Succeeds(cfg, s, step, key) then []
        else front
  }

  /** The times of a key's entries that were not released. */
  function Unreleased(log: SW.Log, key: string): seq<SW.Time> {
    if log == [] then []
    else
      var front, last := Unreleased(log[..|log| - 1], key), log[|log| - 1];
      if last.key == key && !last.released then front + [last.at] else front
  }

  function Within(times: seq<SW.Time>, after: SW.Time, upTo: SW.Time): seq<SW.Time> {
    if times == [] then []
    else
      var front, last := Within(times[..|times| - 1], after, upTo), times[|times| - 1];
      if after < last <= upTo then front + [last] else front
  }

  lemma {:induction false} HeldIsWithin(log: SW.Log, key: string, after: SW.Time, upTo: SW.Time)
    ensures SW.Held(log, key, after, upTo) == Within(Unreleased(log, key), after, upTo)
  {
    if log != [] {
      var front, last := log[..|log| - 1], log[|log| - 1];
      HeldIsWithin(front, key, after, upTo);
      if last.key == key && !last.released {
        var times := Unreleased(front, key) + [last.at];
        assert times[..|times| - 1] == Unreleased(front, key);
      }
    }
  }

  lemma UnreleasedGrows(log: SW.Log, e: SW.Entry, key: string)
    ensures Unreleased(log + [e], key) ==
            if e.key == key && !e.released then Unreleased(log, key) + [e.at] else Unreleased(log, key)
  {
    assert (log + [e])[..|log|] == log;
  }

  lemma {:induction false} UnreleasedAfterClear(log: SW.Log, gone: string, key: string)
    ensures Unreleased(SW.ReleaseKey(log, gone), key) == if key == gone then [] else Unreleased(log, key)
  {
    if log != [] {
      UnreleasedAfterClear(log[..|log| - 1], gone, key);
      assert SW.ReleaseKey(log, gone)[..|log| - 1] == SW.ReleaseKey(log[..|log| - 1], gone);
    }
  }

  lemma OtherStepsLeaveAuth(cfg: Config, s: Server, step: Step)
    requires Enabled(cfg, s, step) && !step.BeginAuth? && !(step.EndAuth? && step.login.Some?)
    ensures Next(cfg, s, step).auth == s.auth
  {
  }

  lemma BeginAuthCounts(cfg: Config, s: Server, step: Step, key: string)
    requires Enabled(cfg, s, step) && step.BeginAuth?
    ensures Unreleased(Next(cfg, s, step).auth.log, key) ==
            if StartsAttempt(cfg, s, step, key) then Unreleased(s.auth.log, key) + [step.now]
            else Unreleased(s.auth.log, key)
  {
    var own := Throttle.AuthKey(cfg.toLower, step.remoteHost, step.username);
    UnreleasedGrows(s.auth.log, SW.Entry(own, step.now, false), key);
  }

  lemma EndAuthCounts(cfg: Config, s: Server, step: Step, key: string)
    requires AuthsAllowed(cfg, s) && Enabled(cfg, s, step) && step.EndAuth? && step.login.Some?
    ensures Unreleased(Next(cfg, s, step).auth.log, key) ==
            if Succeeds(cfg, s, step, key) then [] else Unreleased(s.auth.log, key)
  {
    UnreleasedAfterClear(s.auth.log, s.clients[step.sid].phase.key, key);
  }

  lemma StepCounts(cfg: Config, s: Server, step: Step, key: string)
    requires AuthsAllowed(cfg, s) && Enabled(cfg, s, step)
    ensures Unreleased(Next(cfg, s, step).auth.log, key) ==
            if StartsAttempt(cfg, s, step, key) then Unreleased(s.auth.log, key) + [step.now]
            else if Succeeds(cfg, s, step, key) then []
            else Unreleased(s.auth.log, key)
  {
    if step.BeginAuth? {
      BeginAuthCounts(cfg, s, step, key);
    } else if step.EndAuth? && step.login.Some? {
      EndAuthCounts(cfg, s, step, key);
    } else {
      OtherStepsLeaveAuth(cfg, s, step);
    }
  }

  lemma {:induction false} AttemptsAreUnreleased(cfg: Config, start: SW.Time, steps: seq<Step>, s: Server, key: string)
    requires cfg.Valid() && Run(cfg, start, steps) == Some(s)
    ensures AttemptsSince(cfg, start, steps, key) == Unreleased(s.auth.log, key)
  {
    if steps != [] {
      var before := Run(cfg, start, steps[..|steps| - 1]).value;
      AttemptsAreUnreleased(cfg, start, steps[..|steps| - 1], before, key);
      RunKeepsInv(cfg, start, steps[..|steps| - 1], before);
      StepCounts(cfg, before, steps[|steps| - 1], key);
    }
  }

  lemma UnreleasedWithinLimit(cfg: Config, start: SW.Time, steps: seq<Step>, s: Server, key: string, after: SW.Time)
    requires cfg.Valid() && Run(cfg, start, steps) == Some(s)
    ensures |Within(Unreleased(s.auth.log, key), after, after + cfg.authWindow.length)| <= cfg.authWindow.limit
  {
    HeldIsWithin(s.auth.log, key, after, after + cfg.authWindow.length);
    AuthAttemptsWithinLimit(cfg, start, steps, s, key, after);
  }

  /**
   However the sessions interleave: of the attempts that went ahead under a key since it
   last ended with 235, at most the limit were started within any half-open window.
   */
  lemma FailedAttemptsWithinLimit(cfg: Config, start: SW.Time, steps: seq<Step>, s: Server, key: string, after: SW.Time)
    requires cfg.Valid() && Run(cfg, start, steps) == Some(s)
    ensures |Within(AttemptsSince(cfg, start, steps, key), after, after + cfg.authWindow.length)|
            <= cfg.authWindow.limit
  {
    AttemptsAreUnreleased(cfg, start, steps, s, key);
    UnreleasedWithinLimit(cfg, start, steps, s, key, after);
  }

  // ---------------------------------------------------------------------------
  // Messages answered 250
  // ---------------------------------------------------------------------------

  /** In this step the session answers 250 to a DATA command, under this identity. */
  predicate Accepts(cfg: Config, s: Server, t: Server, sid: SessionId, key: string) {
    && sid in s.clients && sid in t.clients
    && var client, commands := s.clients[sid], t.clients[sid].commands;
    && |commands| == |client.commands| + 1
    && commands[|client.commands|].Data?
    && Handle(cfg.settings, client.session, commands[|client.commands|]).reply == 250
    && client.session.authenticated.Some? && SC.KeyPart(client.session.authenticated.value.id) == key
  }

  /** How many messages of an identity were answered 250. */
  function AcceptedReplies(cfg: Config, start: SW.Time, steps: seq<Step>, key: string): nat {
    if steps == [] then 0
    else
      var front, step := AcceptedReplies(cfg, start, steps[..|steps| - 1], key), steps[|steps| - 1];
      match Run(cfg, start, steps[..|steps| - 1])
      case None => front
      case Some(s) =>
        if Enabled(cfg, s, step) && Accepts(cfg, s, Next(cfg, s, step), step.sid, key) then front + 1 else front
  }

  predicate IsAccepted(d: Delivery, key: string) {
    d.reply == Some(250) && SC.KeyPart(d.message.identityID) == key
  }

  function AcceptedDeliveries(deliveries: seq<Delivery>, key: string): nat {
    if deliveries == [] then 0
    else
      AcceptedDeliveries(deliveries[..|deliveries| - 1], key)
      + (if IsAccepted(deliveries[|deliveries| - 1], key) then 1 else 0)
  }

  lemma AcceptedGrows(deliveries: seq<Delivery>, d: Delivery, key: string)
    ensures AcceptedDeliveries(deliveries + [d], key) ==
            AcceptedDeliveries(deliveries, key) + (if IsAccepted(d, key) then 1 else 0)
  {
    assert (deliveries + [d])[..|deliveries|] == deliveries;
  }

  lemma {:induction false} AcceptedSettled(deliveries: seq<Delivery>, id: nat, reply: nat, key: string)
    requires id < |deliveries| && deliveries[id].reply.None?
    ensures AcceptedDeliveries(Settled(deliveries, id, reply), key) ==
            AcceptedDeliveries(deliveries, key)
            + (if reply == 250 && SC.KeyPart(deliveries[id].message.identityID) == key then 1 else 0)
  {
    var n := |deliveries| - 1;
    var settled := Settled(deliveries, id, reply);
    if id < n {
      AcceptedSettled(deliveries[..n], id, reply, key);
      assert settled[..n] == Settled(deliveries[..n], id, reply) && settled[n] == deliveries[n];
    } else {
      assert settled[..n] == deliveries[..n];
    }
  }

  /** Only the end of a relay answers 250 to a DATA command. */
  lemma OtherStepsAcceptNothing(cfg: Config, s: Server, step: Step, key: string)
    requires Enabled(cfg, s, step) && !step.EndData? && !step.BeginData?
    ensures !Accepts(cfg, s, Next(cfg, s, step), step.sid, key)
    ensures Next(cfg, s, step).deliveries == s.deliveries
  {
  }

  lemma AnsweredAccepts(cfg: Config, s: Server, u: Server, sid: SessionId, command: Command, key: string)
    requires sid in s.clients && u.clients == s.clients
    requires Handle(cfg.settings, s.clients[sid].session, command).reply != 250
    ensures !Accepts(cfg, s, Answered(cfg, u, sid, command), sid, key)
  {
  }

  lemma NotAcceptedYet(cfg: Settings, session: Session, wire: string, ended: bool)
    ensures DecideData(cfg, session, DataReader.ReadLines(wire), ended).Refuse? ==>
              Handle(cfg, session, Data(wire, ended, RelayAccepted)).reply != 250
    ensures DecideData(cfg, session, DataReader.ReadLines(wire), ended).Submit? ==>
              Handle(cfg, session, Data(wire, ended, RelayThrottled)).reply != 250
  {
  }

  lemma BeginDataAcceptsNothing(cfg: Config, s: Server, step: Step, key: string)
    requires Enabled(cfg, s, step) && step.BeginData?
    ensures !Accepts(cfg, s, Next(cfg, s, step), step.sid, key)
    ensures AcceptedDeliveries(Next(cfg, s, step).deliveries, key) == AcceptedDeliveries(s.deliveries, key)
  {
    var sid, session := step.sid, s.clients[step.sid].session;
    var u := s.(messages := Next(cfg, s, step).messages);
    NotAcceptedYet(cfg.settings, session, step.wire, step.ended);
    match DecideData(cfg.settings, session, DataReader.ReadLines(step.wire), step.ended)
    case Refuse(_) => AnsweredAccepts(cfg, s, s, sid, Data(step.wire, step.ended, RelayAccepted), key);
    case Submit(message) =>
      AnsweredAccepts(cfg, s, u, sid, Data(step.wire, step.ended, RelayThrottled), key);
      AcceptedGrows(s.deliveries, Begun(sid, s.clients[sid], message), key);
  }

  /** A message carries the id its session is logged in with. */
  lemma SubmittedSender(cfg: Settings, session: Session, read: DataReader.Outcome, ended: bool, message: RawMessage)
    requires DecideData(cfg, session, read, ended) == Submit(message)
    ensures session.authenticated.Some? && session.authenticated.value.id == message.identityID
  {
  }

  lemma EndDataAnswer(cfg: Config, s: Server, sid: SessionId, status: RelayStatus, effect: Effect, key: string)
    requires IsRelaying(s, sid) && !status.RelayThrottled?
    requires var phase := s.clients[sid].phase;
             && phase.reservation < |s.deliveries|
             && Handle(cfg.settings, s.clients[sid].session, Data(phase.wire, phase.ended, status)) == effect
    requires !effect.closed && s.clients[sid].session.authenticated.Some?
    ensures var t, client := AfterEndData(cfg, s, sid, status), s.clients[sid];
            && t.deliveries == Settled(s.deliveries, client.phase.reservation, effect.reply)
            && (Accepts(cfg, s, t, sid, key) <==>
                effect.reply == 250 && SC.KeyPart(client.session.authenticated.value.id) == key)
  {
    var phase := s.clients[sid].phase;
    assert AfterEndData(cfg, s, sid, status).clients[sid].commands ==
           s.clients[sid].commands + [Data(phase.wire, phase.ended, status)];
  }

  lemma EndDataCounts(cfg: Config, s: Server, step: Step, key: string)
    requires Inv(cfg, s) && Enabled(cfg, s, step) && step.EndData?
    ensures AcceptedDeliveries(Next(cfg, s, step).deliveries, key) ==
            AcceptedDeliveries(s.deliveries, key)
            + (if Accepts(cfg, s, Next(cfg, s, step), step.sid, key) then 1 else 0)
  {
    var client := s.clients[step.sid];
    OwnedInFlight(s, step.sid);
    assert Submitted(cfg, client, s.deliveries);
    var message := s.deliveries[client.phase.reservation].message;
    SubmittedAnswers(cfg, client, s.deliveries, step.status);
    SubmittedSender(cfg.settings, client.session, DataReader.ReadLines(client.phase.wire), client.phase.ended, message);
    EndDataAnswer(cfg, s, step.sid, step.status, FinishData(client.session, message, step.status), key);
    AcceptedSettled(s.deliveries, client.phase.reservation, RelayReply(step.status), key);
  }

  /** There are as many replies 250 to an identity's DATA as deliveries that count for its limit. */
  lemma {:induction false} RepliesAreDeliveries(cfg: Config, start: SW.Time, steps: seq<Step>, s: Server, key: string)
    requires cfg.Valid() && Run(cfg, start, steps) == Some(s)
    ensures AcceptedReplies(cfg, start, steps, key) == AcceptedDeliveries(s.deliveries, key)
  {
    if steps != [] {
      var before, step := Run(cfg, start, steps[..|steps| - 1]).value, steps[|steps| - 1];
      RepliesAreDeliveries(cfg, start, steps[..|steps| - 1], before, key);
      RunKeepsInv(cfg, start, steps[..|steps| - 1], before);
      if step.EndData? {
        EndDataCounts(cfg, before, step, key);
      } else if step.BeginData? {
        BeginDataAcceptsNothing(cfg, before, step, key);
      } else {
        OtherStepsAcceptNothing(cfg, before, step, key);
      }
    }
  }
}
