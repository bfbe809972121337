/**
 A whole run in which mail leaves under a deleted identity: the identity is created, a
 session logs in, names sender and recipient, the identity is deleted, and the session
 sends.
 */
module DeletedIdentity {
  import opened Wrappers
  import opened Addresses
  import opened SubmissionSession
  import opened AuthenticatedDelivery
  import DataReader
  import SC = SessionCounters
  import SW = SlidingWindow
  import Server = SubmissionServer
  import Store = IdentityStore
  import Throttle

  const ID := "id"
  const SID: Server.SessionId := 0
  const ADMIN := Store.Scope("owner", true)

  /** Who sends what to whom, and the outside world that lets it through. */
  datatype Scene = Scene(p: Setting, start: int, email: Address, owner: Address, recipient: Address,
                         c: Store.Credential, wire: string, data: string)
  {
    ghost predicate Plays() {
      && p.cfg.Valid() && 1 <= p.cfg.settings.maxRecipients
      && Store.Parses(p.env, email) && Store.Parses(p.env, owner) && owner.value != email.value
      && p.env.decrypt(c.cipher) == Some(c.password)
      && DataReader.ReadLines(wire) == DataReader.Received(data, "")
      && |data| <= p.cfg.settings.maxMessageBytes
      && p.cfg.settings.messageFrom(data) == Some(email)
    }

    /** The sender's domain is verified and belongs to nobody. */
    function Domains(): map<string, Store.SenderDomain> {
      map[email.domain := Store.SenderDomain("", Store.Verified, "")]
    }

    function Row(): Store.Identity {
      Store.Identity(ADMIN.owner, email.value, c.username, c.salt, p.env.digest(c.salt, c.password), c.cipher,
                     Store.Active, None)
    }

    function Sender(): Identity {
      Identity(ID, email, c.username)
    }

    function Start(): World {
      Initial(start, Domains())
    }
  }

  /** The store holds the one identity, in use or not. */
  predicate StoreAt(scene: Scene, store: Store.State, attempts: map<nat, Store.Attempt>) {
    && ID in store.tables.identities
    && store.tables.identities[ID].(lastUsed := None) == scene.Row()
    && store.tables.domains == scene.Domains()
    && store.attempts == attempts
  }

  /** The server has the one session and has sent nothing yet. */
  predicate ServerAt(scene: Scene, server: Server.Server, session: Session, phase: Server.Phase) {
    && server.clients.Keys == {SID}
    && server.clients[SID].session == session && server.clients[SID].phase == phase
    && server.messages == SW.Initial(scene.start) && server.deliveries == []
  }

  lemma Extend(p: Setting, a: World, steps: seq<Step>, w: World, step: Step)
    requires Run(p, a, steps) == Some(w) && Enabled(p, w, step)
    ensures Run(p, a, steps + [step]) == Some(Next(p, w, step))
  {
    assert (steps + [step])[..|steps|] == steps;
  }

  // ---------------------------------------------------------------------------
  // Create, connect, log in
  // ---------------------------------------------------------------------------

  lemma CreateGoesThrough(scene: Scene, change: Store.Step)
    requires scene.Plays()
    requires change == Store.Create(ADMIN, scene.email, [scene.owner], None, ID, scene.c)
    ensures Store.Enabled(scene.p.env, Store.Initial(scene.Domains()), change)
    ensures StoreAt(scene, Store.Next(scene.p.env, Store.Initial(scene.Domains()), change), map[])
  {
  }

  lemma Created(scene: Scene) returns (steps: seq<Step>, w: World)
    requires scene.Plays()
    ensures Run(scene.p, scene.Start(), steps) == Some(w)
    ensures w.server == Server.Initial(scene.start) && StoreAt(scene, w.store, map[]) && w.logins == []
  {
    var change := Store.Create(ADMIN, scene.email, [scene.owner], None, ID, scene.c);
    CreateGoesThrough(scene, change);
    Extend(scene.p, scene.Start(), [], scene.Start(), Manage(change));
    steps, w := [] + [Manage(change)], Next(scene.p, scene.Start(), Manage(change));
  }

  lemma ConnectGoesThrough(scene: Scene)
    requires scene.Plays()
    ensures ServerAt(scene, Server.AfterConnect(scene.p.cfg, Server.Initial(scene.start), SID, "host", true),
                     Session(true, None, None, []), Server.Ready)
    ensures Server.AfterConnect(scene.p.cfg, Server.Initial(scene.start), SID, "host", true).auth ==
            SW.Initial(scene.start)
  {
  }

  lemma Connected(scene: Scene) returns (steps: seq<Step>, w: World)
    requires scene.Plays()
    ensures Run(scene.p, scene.Start(), steps) == Some(w)
    ensures ServerAt(scene, w.server, Session(true, None, None, []), Server.Ready)
    ensures w.server.auth == SW.Initial(scene.start) && StoreAt(scene, w.store, map[])
  {
    var before, u := Created(scene);
    var step := Serve(Server.Connect(SID, "host", true));
    ConnectGoesThrough(scene);
    Extend(scene.p, scene.Start(), before, u, step);
    steps, w := before + [step], Next(scene.p, u, step);
  }

  lemma EmptyAdmits(w: SW.Window, start: int, key: string, now: int)
    requires w.Valid()
    ensures SW.Admits(w, SW.Initial(start).table, key, now)
  {
  }

  lemma BeginAuthGoesThrough(scene: Scene, s: Server.Server, step: Server.Step) returns (key: string)
    requires scene.Plays() && ServerAt(scene, s, Session(true, None, None, []), Server.Ready)
    requires s.auth == SW.Initial(scene.start)
    requires step == Server.BeginAuth(SID, "host", scene.c.username, scene.start)
    ensures Server.Enabled(scene.p.cfg, s, step)
    ensures ServerAt(scene, Server.Next(scene.p.cfg, s, step), Session(true, None, None, []),
                     Server.Authenticating(key))
  {
    key := Throttle.AuthKey(scene.p.cfg.toLower, "host", scene.c.username);
    EmptyAdmits(scene.p.cfg.authWindow, scene.start, key, scene.start);
  }

  lemma Authenticating(scene: Scene) returns (steps: seq<Step>, w: World, key: string)
    requires scene.Plays()
    ensures Run(scene.p, scene.Start(), steps) == Some(w)
    ensures ServerAt(scene, w.server, Session(true, None, None, []), Server.Authenticating(key))
    ensures StoreAt(scene, w.store, map[])
  {
    var before, u := Connected(scene);
    var step := Server.BeginAuth(SID, "host", scene.c.username, scene.start);
    key := BeginAuthGoesThrough(scene, u.server, step);
    Extend(scene.p, scene.Start(), before, u, Serve(step));
    steps, w := before + [Serve(step)], Next(scene.p, u, Serve(step));
  }

  function Attempts(scene: Scene): map<nat, Store.Attempt> {
    map[SID := Store.Attempt(ID, scene.c.username, scene.c.password, scene.email.value)]
  }

  lemma LookupGoesThrough(scene: Scene, store: Store.State, change: Store.Step)
    requires scene.Plays() && StoreAt(scene, store, map[])
    requires change == Store.Lookup(SID, scene.c.username, scene.c.password, ID)
    ensures Store.Enabled(scene.p.env, store, change)
    ensures StoreAt(scene, Store.Next(scene.p.env, store, change), Attempts(scene))
  {
    assert store.tables.identities[ID].status == scene.Row().status;
    assert store.tables.identities[ID].username == scene.Row().username;
    assert store.tables.identities[ID].digest == scene.Row().digest;
    assert store.tables.identities[ID].email == scene.email.value;
  }

  lemma LookedUp(scene: Scene) returns (steps: seq<Step>, w: World, key: string)
    requires scene.Plays()
    ensures Run(scene.p, scene.Start(), steps) == Some(w)
    ensures ServerAt(scene, w.server, Session(true, None, None, []), Server.Authenticating(key))
    ensures StoreAt(scene, w.store, Attempts(scene))
  {
    var before, u;
    before, u, key := Authenticating(scene);
    var change := Store.Lookup(SID, scene.c.username, scene.c.password, ID);
    LookupGoesThrough(scene, u.store, change);
    Extend(scene.p, scene.Start(), before, u, Manage(change));
    steps, w := before + [Manage(change)], Next(scene.p, u, Manage(change));
  }

  lemma LoginIsSender(scene: Scene, store: Store.State)
    requires scene.Plays() && StoreAt(scene, store, Attempts(scene))
    ensures SID in store.attempts && LoginOf(scene.p.env, store, SID) == Some(scene.Sender())
    ensures StoreAt(scene, Store.Next(scene.p.env, store, Store.Mark(SID, scene.start)), map[])
  {
    assert store.tables.identities[ID].status == scene.Row().status;
    assert store.tables.identities[ID].username == scene.Row().username;
  }

  /** The session answers a command it accepts and is ready for the next. */
  lemma AnswerGoesThrough(scene: Scene, s: Server.Server, session: Session, phase: Server.Phase,
                          command: Command, reply: nat, later: Session)
    requires ServerAt(scene, s, session, phase)
    requires Handle(scene.p.cfg.settings, session, command) == Answer(later, reply)
    ensures ServerAt(scene, Server.Answered(scene.p.cfg, s, SID, command), later, Server.Ready)
  {
  }

  lemma EndAuthGoesThrough(scene: Scene, s: Server.Server, key: string)
    requires ServerAt(scene, s, Session(true, None, None, []), Server.Authenticating(key))
    ensures var step := Server.EndAuth(SID, Some(scene.Sender()));
            && Server.Enabled(scene.p.cfg, s, step)
            && ServerAt(scene, Server.Next(scene.p.cfg, s, step), Session(true, Some(scene.Sender()), None, []),
                        Server.Ready)
  {
    var t := s.(auth := SW.Next(scene.p.cfg.authWindow, s.auth, SW.Clear(key)));
    AnswerGoesThrough(scene, t, Session(true, None, None, []), Server.Authenticating(key),
                      Auth(AuthAccepted(scene.Sender())), 235, Session(true, Some(scene.Sender()), None, []));
  }

  lemma LoggedIn(scene: Scene) returns (steps: seq<Step>, w: World)
    requires scene.Plays()
    ensures Run(scene.p, scene.Start(), steps) == Some(w)
    ensures ServerAt(scene, w.server, Session(true, Some(scene.Sender()), None, []), Server.Ready)
    ensures StoreAt(scene, w.store, map[])
  {
    var before, u, key := LookedUp(scene);
    LoginIsSender(scene, u.store);
    EndAuthGoesThrough(scene, u.server, key);
    Extend(scene.p, scene.Start(), before, u, Accept(SID, scene.start));
    steps, w := before + [Accept(SID, scene.start)], Next(scene.p, u, Accept(SID, scene.start));
  }

  // ---------------------------------------------------------------------------
  // Sender, recipient, deletion, text
  // ---------------------------------------------------------------------------

  lemma ExchangeGoesThrough(scene: Scene, before: seq<Step>, u: World, session: Session, command: Command,
                            later: Session) returns (steps: seq<Step>, w: World)
    requires Run(scene.p, scene.Start(), before) == Some(u)
    requires ServerAt(scene, u.server, session, Server.Ready) && Server.IsLocal(command)
    requires Handle(scene.p.cfg.settings, session, command) == Answer(later, 250)
    ensures Run(scene.p, scene.Start(), steps) == Some(w)
    ensures ServerAt(scene, w.server, later, Server.Ready) && w.store == u.store
  {
    var step := Serve(Server.Exchange(SID, command));
    AnswerGoesThrough(scene, u.server, session, Server.Ready, command, 250, later);
    Extend(scene.p, scene.Start(), before, u, step);
    steps, w := before + [step], Next(scene.p, u, step);
  }

  function Composed(scene: Scene): Session {
    Session(true, Some(scene.Sender()), Some(scene.email), [scene.recipient])
  }

  lemma Addressed(scene: Scene) returns (steps: seq<Step>, w: World)
    requires scene.Plays()
    ensures Run(scene.p, scene.Start(), steps) == Some(w)
    ensures ServerAt(scene, w.server, Composed(scene), Server.Ready) && StoreAt(scene, w.store, map[])
  {
    var before, u := LoggedIn(scene);
    var named := Session(true, Some(scene.Sender()), Some(scene.email), []);
    before, u := ExchangeGoesThrough(scene, before, u, named.(mailFrom := None), Mail(Some(scene.email)), named);
    assert [] + [scene.recipient] == [scene.recipient];
    steps, w := ExchangeGoesThrough(scene, before, u, named, Rcpt(Some(scene.recipient)), Composed(scene));
  }

  lemma DeleteGoesThrough(scene: Scene, store: Store.State)
    requires StoreAt(scene, store, map[])
    ensures var change := Store.Delete(ADMIN, ID, ID);
            && Store.Enabled(scene.p.env, store, change)
            && ID in Store.Next(scene.p.env, store, change).tables.identities
            && Store.Next(scene.p.env, store, change).tables.identities[ID].status.Deleted?
  {
    assert store.tables.identities[ID].status == scene.Row().status;
  }

  lemma Deleted(scene: Scene) returns (steps: seq<Step>, w: World)
    requires scene.Plays()
    ensures Run(scene.p, scene.Start(), steps) == Some(w)
    ensures ServerAt(scene, w.server, Composed(scene), Server.Ready)
    ensures ID in w.store.tables.identities && w.store.tables.identities[ID].status.Deleted?
  {
    var before, u := Addressed(scene);
    var step := Manage(Store.Delete(ADMIN, ID, ID));
    DeleteGoesThrough(scene, u.store);
    Extend(scene.p, scene.Start(), before, u, step);
    steps, w := before + [step], Next(scene.p, u, step);
  }

  function Sent(scene: Scene): RawMessage {
    RawMessage(ID, scene.email, [scene.recipient], scene.data)
  }

  lemma DataGoesThrough(scene: Scene, s: Server.Server)
    requires scene.Plays() && ServerAt(scene, s, Composed(scene), Server.Ready)
    ensures var step := Server.BeginData(SID, scene.wire, true, scene.start);
            && Server.Enabled(scene.p.cfg, s, step)
            && |Server.Next(scene.p.cfg, s, step).deliveries| == 1
            && Server.Next(scene.p.cfg, s, step).deliveries[0].message == Sent(scene)
  {
    EmptyAdmits(scene.p.cfg.messageWindow, scene.start, SC.KeyPart(ID), scene.start);
  }

  /** In every such scene there is a run that ends with mail under a deleted identity. */
  lemma MailAfterDeletion(scene: Scene) returns (steps: seq<Step>, w: World)
    requires scene.Plays()
    ensures Run(scene.p, scene.Start(), steps) == Some(w)
    ensures |w.server.deliveries| == 1 && w.server.deliveries[0].message == Sent(scene)
    ensures ID in w.store.tables.identities && w.store.tables.identities[ID].status.Deleted?
  {
    var before, u := Deleted(scene);
    var step := Serve(Server.BeginData(SID, scene.wire, true, scene.start));
    DataGoesThrough(scene, u.server);
    Extend(scene.p, scene.Start(), before, u, step);
    steps, w := before + [step], Next(scene.p, u, step);
  }

  // ---------------------------------------------------------------------------
  // One scene in full
  // ---------------------------------------------------------------------------

  const ALICE := Address("alice@example.org", "example.org")
  const BOB := Address("bob@example.org", "example.org")

  function ExampleScene(): Scene {
    var settings := Settings(1000, 10, true, false, _ => Some(ALICE));
    var cfg := Server.Config(settings, SC.Limits(10, 5), SW.Window(5, 60), SW.Window(5, 60), text => text);
    var env := Store.Env((salt, password) => salt + password, cipher => Some(cipher),
                         text => Some(Address(text, "example.org")), text => text);
    Scene(Setting(cfg, env), 0, ALICE, BOB, BOB, Store.Credential("user", "salt", "secret", "secret"), ".\r\n", "")
  }

  lemma ExampleScenePlays()
    ensures ExampleScene().Plays()
  {
    DataReader.TerminatorReads(".\r\n", "");
    assert ".\r\n" + "" == ".\r\n";
  }

  /** One concrete run: a message of alice@example.org goes out after that identity was deleted. */
  lemma DeletedSenderSends() returns (steps: seq<Step>, w: World)
    ensures var scene := ExampleScene();
            && Run(scene.p, scene.Start(), steps) == Some(w)
            && |w.server.deliveries| == 1 && w.server.deliveries[0].message.from == ALICE
            && ID in w.store.tables.identities && w.store.tables.identities[ID].status.Deleted?
  {
    ExampleScenePlays();
    steps, w := MailAfterDeletion(ExampleScene());
  }
}
