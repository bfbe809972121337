/**
 The submission server on top of the identity store. An AUTH is a lookup in the store
 and a conditional update, with any steps of other sessions and of the store between
 them; the sessions then send mail under the identity it yielded.
 */
module AuthenticatedDelivery {
  import opened Wrappers
  import opened SubmissionSession
  import DataReader
  import SC = SessionCounters
  import SW = SlidingWindow
  import Server = SubmissionServer
  import Store = IdentityStore

  datatype Setting = Setting(cfg: Server.Config, env: Store.Env)

  /** A successful AUTH: who, with which password, and the tables at that moment. */
  datatype Login = Login(sid: Server.SessionId, identity: Identity, password: string, tables: Store.Tables)

  /** `logins` remembers every successful AUTH in order. */
  datatype World = World(server: Server.Server, store: Store.State, logins: seq<Login>)

  /** `Accept` is the second half of an AUTH: the update, and the server's answer by its outcome. */
  datatype Step =
    | Serve(step: Server.Step)
    | Manage(change: Store.Step)
    | Accept(sid: Server.SessionId, now: int)

  /** No session with this number ever logged in. */
  predicate IsNewNumber(logins: seq<Login>, sid: Server.SessionId) {
    forall k :: 0 <= k < |logins| ==> logins[k].sid != sid
  }

  /**
   A session looks up only while it authenticates, and then its answer waits for the
   update. Without a pending update an AUTH can only be rejected. Numbers only name the
   sessions: the number of one that has logged in names no other session later.
   */
  predicate Enabled(p: Setting, w: World, step: Step) {
    match step
    case Serve(s) =>
      && Server.Enabled(p.cfg, w.server, s)
      && (s.Connect? ==> IsNewNumber(w.logins, s.sid))
      && (s.EndAuth? ==> s.login.None? && s.sid !in w.store.attempts)
    case Manage(s) =>
      && Store.Enabled(p.env, w.store, s) && !s.Mark?
      && (s.Lookup? ==> Server.IsAuthenticating(w.server, s.attempt) && s.attempt !in w.store.attempts)
    case Accept(sid, _) => Server.IsAuthenticating(w.server, sid) && sid in w.store.attempts
  }

  /** Whom the update logs in, if it still touches the row that was looked up. */
  function LoginOf(env: Store.Env, store: Store.State, sid: Server.SessionId): Option<Identity>
    requires sid in store.attempts
  {
    var a := store.attempts[sid];
    if Store.Marks(store.tables, a.id, a.username) && env.parse(a.email).Some?
    then Some(Identity(a.id, env.parse(a.email).value, a.username))
    else None
  }

  function Next(p: Setting, w: World, step: Step): World
    requires Enabled(p, w, step)
  {
    match step
    case Serve(s) => w.(server := Server.Next(p.cfg, w.server, s))
    case Manage(s) => w.(store := Store.Next(p.env, w.store, s))
    case Accept(sid, now) =>
      var login := LoginOf(p.env, w.store, sid);
      World(Server.Next(p.cfg, w.server, Server.EndAuth(sid, login)),
            Store.Next(p.env, w.store, Store.Mark(sid, now)),
            if login.None? then w.logins
            else w.logins + [Login(sid, login.value, w.store.attempts[sid].password, w.store.tables)])
  }

  function Initial(start: int, domains: map<string, Store.SenderDomain>): World {
    World(Server.Initial(start), Store.Initial(domains), [])
  }

  function Run(p: Setting, w: World, steps: seq<Step>): Option<World> {
    if steps == [] then Some(w)
    else
      match Run(p, w, steps[..|steps| - 1])
      case None => None
      case Some(u) =>
        var step := steps[|steps| - 1];
        if Enabled(p, u, step) then Some(Next(p, u, step)) else None
  }

  // ---------------------------------------------------------------------------
  // The invariant
  // ---------------------------------------------------------------------------

  /** The identity is active in the tables, under this username, password and address. */
  predicate Presents(env: Store.Env, l: Login) {
    && l.identity.id in l.tables.identities
    && var row := l.tables.identities[l.identity.id];
    && row.status.Active? && row.username == l.identity.username
    && env.digest(row.salt, l.password) == row.digest
    && env.parse(row.email) == Some(l.identity.email)
  }

  predicate Says(commands: seq<Command>, identity: Identity) {
    Auth(AuthAccepted(identity)) in commands
  }

  predicate HasLogin(logins: seq<Login>, sid: Server.SessionId, identity: Identity) {
    exists k :: 0 <= k < |logins| && logins[k].sid == sid && logins[k].identity == identity
  }

  predicate LoginsSound(env: Store.Env, logins: seq<Login>) {
    forall k :: 0 <= k < |logins| ==> Presents(env, logins[k])
  }

  /** What a session or a delivery says about logins was recorded for that very session. */
  ghost predicate ClientsVouched(server: Server.Server, logins: seq<Login>) {
    forall sid, identity :: sid in server.clients && Says(server.clients[sid].commands, identity) ==>
      HasLogin(logins, sid, identity)
  }

  ghost predicate DeliveriesVouched(server: Server.Server, logins: seq<Login>) {
    forall i, identity :: 0 <= i < |server.deliveries| && Says(server.deliveries[i].commands, identity) ==>
      HasLogin(logins, server.deliveries[i].sid, identity)
  }

  ghost predicate Inv(p: Setting, w: World) {
    && Server.Inv(p.cfg, w.server)
    && Store.Inv(p.env, w.store)
    && LoginsSound(p.env, w.logins)
    && ClientsVouched(w.server, w.logins)
    && DeliveriesVouched(w.server, w.logins)
  }

  // ---------------------------------------------------------------------------
  // What the server's steps add to the sessions' commands
  // ---------------------------------------------------------------------------

  /** The sessions say nothing new, unless this one says `command`. */
  ghost predicate Adds(s: Server.Server, t: Server.Server, sid: Server.SessionId, command: Command) {
    forall other, identity :: other in t.clients && Says(t.clients[other].commands, identity) ==>
      || (other in s.clients && Says(s.clients[other].commands, identity))
      || (other == sid && command == Auth(AuthAccepted(identity)))
  }

  /** Each delivery was there, or repeats what its session has said so far. */
  predicate Delivers(s: Server.Server, t: Server.Server) {
    forall i :: 0 <= i < |t.deliveries| ==>
      var d := t.deliveries[i];
      || (i < |s.deliveries| && d.sid == s.deliveries[i].sid && d.commands == s.deliveries[i].commands)
      || (d.sid in s.clients && d.commands == s.clients[d.sid].commands)
  }

  lemma AnsweredAdds(cfg: Server.Config, s: Server.Server, sid: Server.SessionId, command: Command)
    requires sid in s.clients
    ensures Adds(s, Server.Answered(cfg, s, sid, command), sid, command)
    ensures Server.Answered(cfg, s, sid, command).deliveries == s.deliveries
  {
  }

  function SaidBy(step: Server.Step): Command {
    if step.EndAuth? && step.login.Some? then Auth(AuthAccepted(step.login.value)) else Noop
  }

  lemma AuthAdds(cfg: Server.Config, s: Server.Server, step: Server.Step)
    requires Server.Enabled(cfg, s, step) && (step.BeginAuth? || step.EndAuth?)
    ensures Adds(s, Server.Next(cfg, s, step), step.sid, SaidBy(step))
    ensures Server.Next(cfg, s, step).deliveries == s.deliveries
  {
    var t := Server.Next(cfg, s, step);
    var u := s.(auth := t.auth);
    AnsweredAdds(cfg, u, step.sid, Auth(AuthThrottled));
    AnsweredAdds(cfg, u, step.sid, Auth(AuthRejected));
    AnsweredAdds(cfg, u, step.sid, SaidBy(step));
  }

  lemma BeginDataAdds(cfg: Server.Config, s: Server.Server, step: Server.Step)
    requires Server.Enabled(cfg, s, step) && step.BeginData?
    ensures Adds(s, Server.Next(cfg, s, step), step.sid, SaidBy(step))
    ensures Delivers(s, Server.Next(cfg, s, step))
  {
    var u := s.(messages := Server.Next(cfg, s, step).messages);
    AnsweredAdds(cfg, s, step.sid, Data(step.wire, step.ended, RelayAccepted));
    AnsweredAdds(cfg, u, step.sid, Data(step.wire, step.ended, RelayThrottled));
  }

  lemma EndDataAdds(cfg: Server.Config, s: Server.Server, step: Server.Step)
    requires Server.Enabled(cfg, s, step) && step.EndData?
    ensures Adds(s, Server.Next(cfg, s, step), step.sid, SaidBy(step))
    ensures Delivers(s, Server.Next(cfg, s, step))
  {
    var phase := s.clients[step.sid].phase;
    AnsweredAdds(cfg, s, step.sid, Data(phase.wire, phase.ended, step.status));
  }

  lemma StepAdds(cfg: Server.Config, s: Server.Server, step: Server.Step)
    requires Server.Enabled(cfg, s, step)
    ensures Adds(s, Server.Next(cfg, s, step), step.sid, SaidBy(step))
    ensures Delivers(s, Server.Next(cfg, s, step))
  {
    if step.BeginAuth? || step.EndAuth? {
      AuthAdds(cfg, s, step);
    } else if step.BeginData? {
      BeginDataAdds(cfg, s, step);
    } else if step.EndData? {
      EndDataAdds(cfg, s, step);
    } else if step.Exchange? {
      AnsweredAdds(cfg, s, step.sid, step.command);
    }
  }

  // ---------------------------------------------------------------------------
  // Every step keeps the invariant
  // ---------------------------------------------------------------------------

  lemma HasLoginGrows(logins: seq<Login>, more: seq<Login>, sid: Server.SessionId, identity: Identity)
    requires HasLogin(logins, sid, identity) && logins <= more
    ensures HasLogin(more, sid, identity)
  {
    var k :| 0 <= k < |logins| && logins[k].sid == sid && logins[k].identity == identity;
    assert more[k] == logins[k];
  }

  /** A server step keeps everything vouched for, if what it says is. */
  lemma ServerKeepsVouched(cfg: Server.Config, s: Server.Server, step: Server.Step, logins: seq<Login>,
                           more: seq<Login>)
    requires Server.Enabled(cfg, s, step) && ClientsVouched(s, logins) && DeliveriesVouched(s, logins) && logins <= more
    requires step.EndAuth? && step.login.Some? ==> HasLogin(more, step.sid, step.login.value)
    ensures ClientsVouched(Server.Next(cfg, s, step), more) && DeliveriesVouched(Server.Next(cfg, s, step), more)
  {
    StepAdds(cfg, s, step);
    ClientsStayVouched(s, Server.Next(cfg, s, step), step.sid, SaidBy(step), logins, more);
    DeliveriesStayVouched(s, Server.Next(cfg, s, step), logins, more);
  }

  lemma ClientsStayVouched(s: Server.Server, t: Server.Server, sid: Server.SessionId, said: Command,
                           logins: seq<Login>, more: seq<Login>)
    requires Adds(s, t, sid, said) && ClientsVouched(s, logins) && logins <= more
    requires said.Auth? && said.outcome.AuthAccepted? ==> HasLogin(more, sid, said.outcome.identity)
    ensures ClientsVouched(t, more)
  {
    forall other, identity | other in t.clients && Says(t.clients[other].commands, identity)
      ensures HasLogin(more, other, identity)
    {
      if other in s.clients && Says(s.clients[other].commands, identity) {
        HasLoginGrows(logins, more, other, identity);
      }
    }
  }

  lemma DeliveriesStayVouched(s: Server.Server, t: Server.Server, logins: seq<Login>, more: seq<Login>)
    requires Delivers(s, t) && ClientsVouched(s, logins) && DeliveriesVouched(s, logins) && logins <= more
    ensures DeliveriesVouched(t, more)
  {
    forall i, identity | 0 <= i < |t.deliveries| && Says(t.deliveries[i].commands, identity)
      ensures HasLogin(more, t.deliveries[i].sid, identity)
    {
      var d := t.deliveries[i];
      assert HasLogin(logins, d.sid, identity);
      HasLoginGrows(logins, more, d.sid, identity);
    }
  }

  /** The update goes through only for the current credential of an active identity. */
  lemma LoginPresents(env: Store.Env, store: Store.State, sid: Server.SessionId)
    requires Store.Inv(env, store) && sid in store.attempts && LoginOf(env, store, sid).Some?
    ensures Presents(env, Login(sid, LoginOf(env, store, sid).value, store.attempts[sid].password, store.tables))
  {
    var a := store.attempts[sid];
    assert Store.Established(env, store.issued, a);
    assert Store.HoldsIssue(env, store.issued, a.id, store.tables.identities[a.id]);
  }

  lemma RecordKeepsSound(env: Store.Env, logins: seq<Login>, l: Login)
    requires LoginsSound(env, logins) && Presents(env, l)
    ensures LoginsSound(env, logins + [l]) && HasLogin(logins + [l], l.sid, l.identity)
  {
    assert (logins + [l])[|logins|] == l;
  }

  lemma AcceptRecords(p: Setting, w: World, sid: Server.SessionId, now: int)
    requires Store.Inv(p.env, w.store) && LoginsSound(p.env, w.logins) && Enabled(p, w, Accept(sid, now))
    ensures var login, logins := LoginOf(p.env, w.store, sid), Next(p, w, Accept(sid, now)).logins;
            && w.logins <= logins && LoginsSound(p.env, logins)
            && (login.Some? ==> HasLogin(logins, sid, login.value))
  {
    match LoginOf(p.env, w.store, sid)
    case None =>
    case Some(identity) =>
      LoginPresents(p.env, w.store, sid);
      RecordKeepsSound(p.env, w.logins, Login(sid, identity, w.store.attempts[sid].password, w.store.tables));
  }

  lemma AcceptKeepsInv(p: Setting, w: World, sid: Server.SessionId, now: int)
    requires p.cfg.Valid() && Inv(p, w) && Enabled(p, w, Accept(sid, now))
    ensures Inv(p, Next(p, w, Accept(sid, now)))
  {
    var step := Server.EndAuth(sid, LoginOf(p.env, w.store, sid));
    assert Server.Inv(p.cfg, Server.Next(p.cfg, w.server, step)) by {
      Server.StepKeepsInv(p.cfg, w.server, step);
    }
    assert Store.Inv(p.env, Store.Next(p.env, w.store, Store.Mark(sid, now))) by {
      Store.StepKeepsInv(p.env, w.store, Store.Mark(sid, now));
    }
    AcceptRecords(p, w, sid, now);
    ServerKeepsVouched(p.cfg, w.server, step, w.logins, Next(p, w, Accept(sid, now)).logins);
  }

  lemma StepKeepsInv(p: Setting, w: World, step: Step)
    requires p.cfg.Valid() && Inv(p, w) && Enabled(p, w, step)
    ensures Inv(p, Next(p, w, step))
  {
    match step
    case Serve(s) =>
      Server.StepKeepsInv(p.cfg, w.server, s);
      ServerKeepsVouched(p.cfg, w.server, s, w.logins, w.logins);
    case Manage(s) => Store.StepKeepsInv(p.env, w.store, s);
    case Accept(sid, now) => AcceptKeepsInv(p, w, sid, now);
  }

  lemma InitialInv(p: Setting, start: int, domains: map<string, Store.SenderDomain>)
    requires p.cfg.Valid()
    ensures Inv(p, Initial(start, domains))
  {
    Server.RunKeepsInv(p.cfg, start, [], Server.Initial(start));
    Store.RunKeepsInv(p.env, domains, [], Store.Initial(domains));
  }

  lemma {:induction false} RunKeepsInv(p: Setting, start: int, domains: map<string, Store.SenderDomain>,
                                       steps: seq<Step>, w: World)
    requires p.cfg.Valid() && Run(p, Initial(start, domains), steps) == Some(w)
    ensures Inv(p, w)
  {
    if steps == [] {
      InitialInv(p, start, domains);
    } else {
      var before := Run(p, Initial(start, domains), steps[..|steps| - 1]).value;
      RunKeepsInv(p, start, domains, steps[..|steps| - 1], before);
      StepKeepsInv(p, before, steps[|steps| - 1]);
    }
  }

  // ---------------------------------------------------------------------------
  // Main results
  // ---------------------------------------------------------------------------

  lemma LoginStep(cfg: Settings, prior: Transcript, command: Command)
    ensures var before, login := LastLogin(prior.events), LastLogin(Exchange(cfg, prior, command).events);
            login.Some? ==> login == before || command == Auth(AuthAccepted(login.value))
  {
    if !prior.closed {
      EventsGrow(false, prior.events, Event(command, Handle(cfg, prior.session, command).reply));
    }
  }

  /** The identity that the exchanges show as logged in was accepted by one of the commands. */
  predicate LoginSaid(login: Option<Identity>, commands: seq<Command>) {
    login.Some? ==> Says(commands, login.value)
  }

  lemma LoginSaidStep(before: Option<Identity>, front: seq<Command>, login: Option<Identity>, command: Command)
    requires LoginSaid(before, front)
    requires login.Some? ==> login == before || command == Auth(AuthAccepted(login.value))
    ensures LoginSaid(login, front + [command])
  {
    if login.Some? && login != before {
      assert (front + [command])[|front|] == command;
    }
  }

  lemma {:induction false} LoginWasSaid(cfg: Settings, implicitTls: bool, commands: seq<Command>, t: Transcript)
    requires t == Converse(cfg, implicitTls, commands)
    ensures LoginSaid(LastLogin(t.events), commands)
  {
    if commands != [] {
      var front, last := commands[..|commands| - 1], commands[|commands| - 1];
      var prior := Converse(cfg, implicitTls, front);
      LoginWasSaid(cfg, implicitTls, front, prior);
      LoginStep(cfg, prior, last);
      LoginSaidStep(LastLogin(prior.events), front, LastLogin(t.events), last);
      assert commands == front + [last];
    }
  }

  /**
   In every interleaving of sessions and of changes to the identity store: each message
   ever handed to the relay carries the identity of a recorded AUTH of the very session
   that handed it over, the one its exchanges show as logged in since its last STARTTLS,
   and at the moment of that AUTH the identity was active and the presented username and
   password were its current ones.
   */
  lemma DeliveryAuthenticated(p: Setting, start: int, domains: map<string, Store.SenderDomain>,
                              steps: seq<Step>, w: World, i: nat) returns (k: nat)
    requires p.cfg.Valid() && Run(p, Initial(start, domains), steps) == Some(w) && i < |w.server.deliveries|
    ensures k < |w.logins| && Presents(p.env, w.logins[k])
    ensures var d, login := w.server.deliveries[i], w.logins[k];
            && login.sid == d.sid
            && LastLogin(Converse(p.cfg.settings, d.implicitTls, d.commands).events) == Some(login.identity)
            && login.identity.id == d.message.identityID && login.identity.email == d.message.from
  {
    RunKeepsInv(p, start, domains, steps, w);
    k := LoginBehind(p, w, i);
  }

  lemma LoginBehind(p: Setting, w: World, i: nat) returns (k: nat)
    requires Inv(p, w) && i < |w.server.deliveries|
    ensures k < |w.logins| && Presents(p.env, w.logins[k])
    ensures var d, login := w.server.deliveries[i], w.logins[k];
            && login.sid == d.sid
            && LastLogin(Converse(p.cfg.settings, d.implicitTls, d.commands).events) == Some(login.identity)
            && login.identity.id == d.message.identityID && login.identity.email == d.message.from
  {
    var d := w.server.deliveries[i];
    assert Server.DeliverySound(p.cfg, d);
    var t := Converse(p.cfg.settings, d.implicitTls, d.commands);
    LoginWasSaid(p.cfg.settings, d.implicitTls, d.commands, t);
    var identity := LastLogin(t.events).value;
    assert HasLogin(w.logins, d.sid, identity);
    k :| 0 <= k < |w.logins| && w.logins[k].sid == d.sid && w.logins[k].identity == identity;
  }

  lemma RetiredStepLogins(p: Setting, w: World, step: Step, username: string)
    requires Enabled(p, w, step) && Store.Retired(w.store, username)
    ensures var t := Next(p, w, step);
            && Store.Retired(t.store, username)
            && NoLoginSince(w, t, username)
  {
    match step
    case Serve(_) =>
    case Manage(s) => Store.StepKeepsRetired(p.env, w.store, s, username);
    case Accept(sid, now) => Store.StepKeepsRetired(p.env, w.store, Store.Mark(sid, now), username);
  }

  lemma RunSplits(p: Setting, a: World, steps: seq<Step>, more: seq<Step>, t: World) returns (before: World)
    requires more != [] && Run(p, a, steps + more) == Some(t)
    ensures Run(p, a, steps + more[..|more| - 1]) == Some(before)
    ensures Enabled(p, before, more[|more| - 1]) && t == Next(p, before, more[|more| - 1])
  {
    assert (steps + more)[..|steps + more| - 1] == steps + more[..|more| - 1];
    before := Run(p, a, steps + more[..|more| - 1]).value;
  }

  /** From `w` to `t` nobody logged in under this username. */
  predicate NoLoginSince(w: World, t: World, username: string) {
    && w.logins <= t.logins
    && forall k :: |w.logins| <= k < |t.logins| ==> t.logins[k].identity.username != username
  }

  /** Once a credential is rotated or its identity deleted, no session logs in with it any more. */
  lemma {:induction false} RetiredLogsInNoMore(p: Setting, a: World, steps: seq<Step>, w: World,
                                               more: seq<Step>, t: World, username: string)
    requires Run(p, a, steps) == Some(w) && Store.Retired(w.store, username)
    requires Run(p, a, steps + more) == Some(t)
    ensures Store.Retired(t.store, username) && NoLoginSince(w, t, username)
  {
    if more == [] {
      assert steps + more == steps;
    } else {
      var before := RunSplits(p, a, steps, more, t);
      RetiredLogsInNoMore(p, a, steps, w, more[..|more| - 1], before, username);
      RetiredStepLogins(p, before, more[|more| - 1], username);
    }
  }

  /**
   A deletion ends no session: in every state in which a logged-in session could hand a
   message over, deleting its identity first changes nothing about that, and the message
   goes out under an identity that is then deleted.
   */
  lemma DeletedIdentityStillSends(p: Setting, w: World, change: Store.Step, sid: Server.SessionId,
                                  wire: string, ended: bool, now: int, message: RawMessage)
    requires change.Delete? && Enabled(p, w, Manage(change))
    requires Enabled(p, w, Serve(Server.BeginData(sid, wire, ended, now)))
    requires var session := w.server.clients[sid].session;
             && DecideData(p.cfg.settings, session, DataReader.ReadLines(wire), ended) == Submit(message)
             && session.authenticated.value.id == change.target
    requires SW.Admits(p.cfg.messageWindow, w.server.messages.table, SC.KeyPart(message.identityID), now)
    ensures var deleted, begin := Next(p, w, Manage(change)), Serve(Server.BeginData(sid, wire, ended, now));
            && Enabled(p, deleted, begin)
            && (var t := Next(p, deleted, begin);
                && t.server == Next(p, w, begin).server
                && |t.server.deliveries| == |w.server.deliveries| + 1
                && t.server.deliveries[|w.server.deliveries|].message == message
                && t.store.tables.identities[message.identityID].status.Deleted?)
  {
  }

  /**
   But whatever runs on, mail under a rotated or deleted credential leaves only from
   sessions whose AUTH came before: each delivery either has an AUTH recorded before the
   credential was retired, or was made under another username.
   */
  lemma RetiredMailIsFromEarlierLogins(p: Setting, start: int, domains: map<string, Store.SenderDomain>,
                                       steps: seq<Step>, w: World, more: seq<Step>, t: World, username: string, i: nat)
    returns (k: nat)
    requires p.cfg.Valid() && Run(p, Initial(start, domains), steps) == Some(w) && Store.Retired(w.store, username)
    requires Run(p, Initial(start, domains), steps + more) == Some(t) && i < |t.server.deliveries|
    ensures k < |t.logins| && Presents(p.env, t.logins[k])
    ensures var d, login := t.server.deliveries[i], t.logins[k];
            && login.sid == d.sid
            && LastLogin(Converse(p.cfg.settings, d.implicitTls, d.commands).events) == Some(login.identity)
            && login.identity.id == d.message.identityID && login.identity.email == d.message.from
            && (login.identity.username == username ==> k < |w.logins| && w.logins[k] == login)
  {
    k := DeliveryAuthenticated(p, start, domains, steps + more, t, i);
    RetiredLogsInNoMore(p, Initial(start, domains), steps, w, more, t, username);
  }
}
