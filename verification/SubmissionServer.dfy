/**
 The whole submission server: many sessions sharing one throttle. Every critical
 section of the throttle is one step; authentication and relaying happen between
 steps, so any number of sessions may be inside them at once.
 */
module SubmissionServer {
  import opened Wrappers
  import opened SubmissionSession
  import opened DataReader
  import SC = SessionCounters
  import SW = SlidingWindow
  import Throttle
  import DR = DirectRelay

  datatype Config = Config(settings: Settings, limits: SC.Limits, authWindow: SW.Window,
                           messageWindow: SW.Window, toLower: string -> string)
  {
    /** What the constructor's defaults guarantee. */
    predicate Valid() {
      0 < limits.total && 0 < limits.perHost && authWindow.Valid() && messageWindow.Valid()
    }
  }

  datatype Phase =
    | Ready
    | Authenticating(key: string)
    | Relaying(reservation: nat, wire: string, ended: bool)

  /** `commands` are the commands of this session answered so far. */
  datatype Client = Client(host: string, implicitTls: bool, commands: seq<Command>, session: Session, phase: Phase)

  /**
   The message behind a granted reservation, what its own session had exchanged before
   it, and the reply that the session gave in the end, once the relay has returned.
   */
  datatype Delivery = Delivery(sid: SessionId, implicitTls: bool, commands: seq<Command>,
                               message: RawMessage, reply: Option<nat>)

  type SessionId = nat

  datatype Server = Server(clients: map<SessionId, Client>, sessions: SC.State, auth: SW.State,
                           messages: SW.State, deliveries: seq<Delivery>)

  datatype Step =
    | Connect(sid: SessionId, remoteHost: string, implicitTls: bool)
    | Exchange(sid: SessionId, command: Command)
    | BeginAuth(sid: SessionId, remoteHost: string, username: string, now: SW.Time)
    | EndAuth(sid: SessionId, login: Option<Identity>)
    | BeginData(sid: SessionId, wire: string, ended: bool, now: SW.Time)
    | EndData(sid: SessionId, status: RelayStatus)
    | Disconnect(sid: SessionId)

  predicate IsReady(s: Server, sid: SessionId) {
    sid in s.clients && s.clients[sid].phase.Ready?
  }

  predicate IsAuthenticating(s: Server, sid: SessionId) {
    sid in s.clients && s.clients[sid].phase.Authenticating?
  }

  predicate IsRelaying(s: Server, sid: SessionId) {
    sid in s.clients && s.clients[sid].phase.Relaying?
  }

  /** Commands that touch only their own session. */
  predicate IsLocal(command: Command) {
    !command.Data? && (command.Auth? ==> command.outcome.UnsupportedMechanism?)
  }

  predicate Enabled(cfg: Config, s: Server, step: Step) {
    match step
    case Connect(sid, _, _) => sid !in s.clients
    case Exchange(sid, command) => IsReady(s, sid) && IsLocal(command)
    case BeginAuth(sid, _, _, now) =>
      IsReady(s, sid) && AuthRefusal(cfg.settings, s.clients[sid].session).None? &&
      s.auth.clock <= now
    case EndAuth(sid, _) => IsAuthenticating(s, sid)
    case BeginData(sid, _, _, now) => IsReady(s, sid) && s.messages.clock <= now
    case EndData(sid, status) => IsRelaying(s, sid) && !status.RelayThrottled?
    case Disconnect(sid) => IsReady(s, sid)
  }

  function WithClient(s: Server, sid: SessionId, client: Client): Server {
    s.(clients := s.clients[sid := client])
  }

  function Leave(cfg: Config, s: Server, sid: SessionId): Server
    requires sid in s.clients
  {
    s.(clients := s.clients - {sid},
       sessions := SC.Next(cfg.limits, s.sessions, SC.Disconnect(s.clients[sid].host)))
  }

  /** The client after its session answered a command without closing. */
  function Continued(cfg: Config, client: Client, command: Command): Client {
    client.(session := Handle(cfg.settings, client.session, command).session,
            commands := client.commands + [command], phase := Ready)
  }

  function Answered(cfg: Config, s: Server, sid: SessionId, command: Command): Server
    requires sid in s.clients
  {
    if Handle(cfg.settings, s.clients[sid].session, command).closed then Leave(cfg, s, sid)
    else WithClient(s, sid, Continued(cfg, s.clients[sid], command))
  }

  function Next(cfg: Config, s: Server, step: Step): Server
    requires Enabled(cfg, s, step)
  {
    match step
    case Connect(sid, remoteHost, implicitTls) => AfterConnect(cfg, s, sid, remoteHost, implicitTls)
    case Exchange(sid, command) => Answered(cfg, s, sid, command)
    case BeginAuth(sid, remoteHost, username, now) => AfterBeginAuth(cfg, s, sid, remoteHost, username, now)
    case EndAuth(sid, login) => AfterEndAuth(cfg, s, sid, login)
    case BeginData(sid, wire, ended, now) => AfterBeginData(cfg, s, sid, wire, ended, now)
    case EndData(sid, status) => AfterEndData(cfg, s, sid, status)
    case Disconnect(sid) => Leave(cfg, s, sid)
  }

  function NewClient(host: string, implicitTls: bool): Client {
    Client(host, implicitTls, [], Session(implicitTls, None, None, []), Ready)
  }

  function AfterConnect(cfg: Config, s: Server, sid: SessionId, remoteHost: string, implicitTls: bool): Server {
    var host := SC.KeyPart(remoteHost);
    var t := s.(sessions := SC.Next(cfg.limits, s.sessions, SC.Connect(host)));
    if SC.Acquire(cfg.limits, s.sessions.counters, host).Err? then t
    else WithClient(t, sid, NewClient(host, implicitTls))
  }

  /** Reserves the attempt; the password check follows outside the lock. */
  function AfterBeginAuth(cfg: Config, s: Server, sid: SessionId, remoteHost: string, username: string,
                          now: SW.Time): Server
    requires Enabled(cfg, s, BeginAuth(sid, remoteHost, username, now))
  {
    var key := Throttle.AuthKey(cfg.toLower, remoteHost, username);
    var t := s.(auth := SW.Next(cfg.authWindow, s.auth, SW.Reserve(key, now)));
    if SW.Admits(cfg.authWindow, s.auth.table, key, now)
    then WithClient(t, sid, s.clients[sid].(phase := Authenticating(key)))
    else Answered(cfg, t, sid, Auth(AuthThrottled))
  }

  function AfterEndAuth(cfg: Config, s: Server, sid: SessionId, login: Option<Identity>): Server
    requires Enabled(cfg, s, EndAuth(sid, login))
  {
    match login
    case None => Answered(cfg, s, sid, Auth(AuthRejected))
    case Some(identity) =>
      var t := s.(auth := SW.Next(cfg.authWindow, s.auth, SW.Clear(s.clients[sid].phase.key)));
      Answered(cfg, t, sid, Auth(AuthAccepted(identity)))
  }

  /**
   Reads and checks the text, then reserves; the relay call follows outside the lock.
   A refused text is answered the same whatever the relay would have said.
   */
  function AfterBeginData(cfg: Config, s: Server, sid: SessionId, wire: string, ended: bool, now: SW.Time): Server
    requires Enabled(cfg, s, BeginData(sid, wire, ended, now))
  {
    var client := s.clients[sid];
    match DecideData(cfg.settings, client.session, ReadLines(wire), ended)
    case Refuse(_) => Answered(cfg, s, sid, Data(wire, ended, RelayAccepted))
    case Submit(message) =>
      var key := SC.KeyPart(message.identityID);
      var t := s.(messages := SW.Next(cfg.messageWindow, s.messages, SW.Reserve(key, now)));
      if SW.Admits(cfg.messageWindow, s.messages.table, key, now)
      then
        WithClient(t.(deliveries := s.deliveries + [Begun(sid, client, message)]), sid,
                   client.(phase := Relaying(|s.deliveries|, wire, ended)))
      else Answered(cfg, t, sid, Data(wire, ended, RelayThrottled))
  }

  function Begun(sid: SessionId, client: Client, message: RawMessage): Delivery {
    Delivery(sid, client.implicitTls, client.commands, message, None)
  }

  function Settled(deliveries: seq<Delivery>, id: nat, reply: nat): seq<Delivery>
    requires id < |deliveries|
  {
    deliveries[id := deliveries[id].(reply := Some(reply))]
  }

  /**
   The relay returned: keep the reservation if it accepted, else give it back. The
   guards only make the function total: `RelaysOwned` rules the other cases out.
   */
  function AfterEndData(cfg: Config, s: Server, sid: SessionId, status: RelayStatus): Server
    requires Enabled(cfg, s, EndData(sid, status))
  {
    var phase := s.clients[sid].phase;
    var command := Data(phase.wire, phase.ended, status);
    var t := Answered(cfg, s, sid, command);
    var id := phase.reservation;
    if id >= |s.deliveries| then t
    else
      t.(deliveries := Settled(s.deliveries, id, Handle(cfg.settings, s.clients[sid].session, command).reply),
         messages := if status.RelayAccepted? || !SW.Enabled(s.messages, SW.Cancel(id)) then s.messages
                     else SW.Next(cfg.messageWindow, s.messages, SW.Cancel(id)))
  }

  function Initial(start: SW.Time): Server {
    Server(map[], SC.State(SC.Counters(0, map[]), multiset{}), SW.Initial(start), SW.Initial(start), [])
  }

  function Run(cfg: Config, start: SW.Time, steps: seq<Step>): Option<Server> {
    if steps == [] then Some(Initial(start))
    else
      match Run(cfg, start, steps[..|steps| - 1])
      case None => None
      case Some(s) =>
        var step := steps[|steps| - 1];
        if Enabled(cfg, s, step) then Some(Next(cfg, s, step)) else None
  }

  // ---------------------------------------------------------------------------
  // The two protocols on the throttle object, with nothing in between
  // ---------------------------------------------------------------------------

  function RelayStatusOf(failure: Option<DR.RelayError>): RelayStatus {
    match failure
    case None => RelayAccepted
    case Some(Permanent) => RelayRejectedPermanent
    case Some(Temporary) => RelayRejectedTemporary
  }

  /** Reserve, relay, and give the reservation back if the relay failed. */
  method RelayAcceptedMessage(throttle: Throttle.SmtpThrottle, message: RawMessage, now: SW.Time,
                              relay: RawMessage -> Option<DR.RelayError>)
    returns (status: RelayStatus)
    modifies throttle`acceptedMessagesByKey
    ensures var w, key := throttle.messageWindow, SC.KeyPart(message.identityID);
            var before := old(throttle.acceptedMessagesByKey);
            var reserved := SW.AfterReserve(w, before, key, now);
            if !SW.Admits(w, before, key, now) then
              status == RelayThrottled && throttle.acceptedMessagesByKey == reserved
            else
              && status == RelayStatusOf(relay(message))
              && (status == RelayAccepted <==> relay(message).None?)
              && (status == RelayRejectedPermanent <==> relay(message) == Some(DR.Permanent))
              && throttle.acceptedMessagesByKey ==
                 (if relay(message).None? then reserved else SW.AfterCancel(reserved, key, now))
  {
    var key, allowed := throttle.ReserveAcceptedMessage(message.identityID, now);
    if !allowed {
      return RelayThrottled;
    }
    var failure := relay(message);
    if failure.None? {
      return RelayAccepted;
    }
    throttle.CancelMessageReservation(key, now);
    if failure.value.Permanent? {
      return RelayRejectedPermanent;
    }
    return RelayRejectedTemporary;
  }

  /** Reserve an attempt, check the password, and clear the key's failures on success. */
  method CompleteAuthAttempt(throttle: Throttle.SmtpThrottle, remoteHost: string, username: string, now: SW.Time,
                             parsed: bool, login: Option<Identity>)
    returns (outcome: AuthOutcome)
    modifies throttle`authFailuresByKey
    ensures var w, before := throttle.authWindow, old(throttle.authFailuresByKey);
            var key := Throttle.AuthKey(throttle.toLower, remoteHost, username);
            var reserved := SW.AfterReserve(w, before, key, now);
            if !SW.Admits(w, before, key, now) then
              outcome == AuthThrottled && throttle.authFailuresByKey == reserved
            else if parsed && login.Some? then
              outcome == AuthAccepted(login.value) && throttle.authFailuresByKey == SW.AfterClear(reserved, key)
            else
              outcome == AuthRejected && throttle.authFailuresByKey == reserved
  {
    var key, allowed := throttle.ReserveAuthAttempt(remoteHost, username, now);
    if !allowed {
      return AuthThrottled;
    }
    if !parsed {
      return AuthRejected;
    }
    if login.None? {
      return AuthRejected;
    }
    throttle.AcceptAuth(key);
    return AuthAccepted(login.value);
  }

  // ---------------------------------------------------------------------------
  // The invariant, component by component
  // ---------------------------------------------------------------------------

  function FromHost(clients: map<SessionId, Client>, host: string): set<SessionId> {
    set sid | sid in clients && clients[sid].host == host
  }

  /** The counters stand for the connected clients. */
  ghost predicate SessionsCounted(cfg: Config, s: Server) {
    && SC.Tracks(s.sessions)
    && SC.Within(cfg.limits, s.sessions)
    && |s.clients| == |s.sessions.open|
    && forall host :: |FromHost(s.clients, host)| == s.sessions.open[host]
  }

  ghost predicate Throttled(cfg: Config, s: Server) {
    SW.Inv(cfg.authWindow, s.auth) && SW.Inv(cfg.messageWindow, s.messages)
  }

  /** The session was told something else than that its message was accepted. */
  predicate Refused(d: Delivery) {
    d.reply.Some? && d.reply.value != 250
  }

  /** Reservation i of the throttle is delivery i, given back exactly when its reply was not 250. */
  predicate DeliveriesLogged(s: Server) {
    && |s.deliveries| == |s.messages.log|
    && forall i :: 0 <= i < |s.deliveries| ==>
         && s.messages.log[i].key == SC.KeyPart(s.deliveries[i].message.identityID)
         && (s.messages.log[i].released <==> Refused(s.deliveries[i]))
  }

  /** Each relaying session owns its own delivery in flight. */
  predicate RelaysOwned(s: Server) {
    && (forall sid :: sid in s.clients && s.clients[sid].phase.Relaying? ==>
          var id := s.clients[sid].phase.reservation;
          id < |s.deliveries| && s.deliveries[id].reply.None?)
    && (forall a, b :: a in s.clients && b in s.clients && a != b &&
                       s.clients[a].phase.Relaying? && s.clients[b].phase.Relaying? ==>
          s.clients[a].phase.reservation != s.clients[b].phase.reservation)
  }

  /** What a relaying session handed over is the message of its delivery. */
  predicate RelaysSubmitted(cfg: Config, s: Server) {
    forall sid :: sid in s.clients && s.clients[sid].phase.Relaying? ==>
      Submitted(cfg, s.clients[sid], s.deliveries)
  }

  predicate Submitted(cfg: Config, client: Client, deliveries: seq<Delivery>)
    requires client.phase.Relaying?
  {
    && client.phase.reservation < |deliveries|
    && DecideData(cfg.settings, client.session, ReadLines(client.phase.wire), client.phase.ended)
       == Submit(deliveries[client.phase.reservation].message)
  }

  /** A session that is being authenticated may be. */
  predicate AuthsAllowed(cfg: Config, s: Server) {
    forall sid :: sid in s.clients && s.clients[sid].phase.Authenticating? ==>
      AuthRefusal(cfg.settings, s.clients[sid].session).None?
  }

  /** A client's session is where its own commands lead. */
  predicate ClientSound(cfg: Config, client: Client) {
    var t := Converse(cfg.settings, client.implicitTls, client.commands);
    t.session == client.session && !t.closed
  }

  predicate SessionsSound(cfg: Config, s: Server) {
    forall sid :: sid in s.clients ==> ClientSound(cfg, s.clients[sid])
  }

  /** The exchanges of its own session authorize the message. */
  predicate DeliverySound(cfg: Config, d: Delivery) {
    Authorized(cfg.settings, d.implicitTls, Converse(cfg.settings, d.implicitTls, d.commands).events, d.message)
  }

  predicate DeliveriesSound(cfg: Config, s: Server) {
    forall i :: 0 <= i < |s.deliveries| ==> DeliverySound(cfg, s.deliveries[i])
  }

  ghost predicate Inv(cfg: Config, s: Server) {
    && SessionsCounted(cfg, s)
    && Throttled(cfg, s)
    && DeliveriesLogged(s)
    && RelaysOwned(s)
    && RelaysSubmitted(cfg, s)
    && AuthsAllowed(cfg, s)
    && SessionsSound(cfg, s)
    && DeliveriesSound(cfg, s)
  }

  // ---------------------------------------------------------------------------
  // Moves shared by several steps
  // ---------------------------------------------------------------------------

  lemma WithClientKeepsInv(cfg: Config, s: Server, sid: SessionId, client: Client)
    requires Inv(cfg, s) && sid in s.clients && client.host == s.clients[sid].host
    requires ClientSound(cfg, client) && !client.phase.Relaying?
    requires client.phase.Authenticating? ==> AuthRefusal(cfg.settings, client.session).None?
    ensures Inv(cfg, WithClient(s, sid, client))
  {
    var t := WithClient(s, sid, client);
    RephaseCounted(cfg, s, t, sid);
    IdleOwnsNothing(cfg, s, t, sid);
  }

  lemma IdleOwnsNothing(cfg: Config, s: Server, t: Server, sid: SessionId)
    requires RelaysOwned(s) && RelaysSubmitted(cfg, s) && t.deliveries == s.deliveries && sid in t.clients
    requires !t.clients[sid].phase.Relaying? && t.clients == s.clients[sid := t.clients[sid]]
    ensures RelaysOwned(t) && RelaysSubmitted(cfg, t)
  {
  }

  lemma LeaveKeepsInv(cfg: Config, s: Server, sid: SessionId)
    requires cfg.Valid() && Inv(cfg, s) && sid in s.clients
    ensures Inv(cfg, Leave(cfg, s, sid))
  {
    var t := Leave(cfg, s, sid);
    LeaveCounted(cfg, s, sid);
    assert SessionsCounted(cfg, t);
    assert forall other :: other in t.clients ==> other in s.clients && t.clients[other] == s.clients[other];
  }

  lemma HostsAfterLeave(clients: map<SessionId, Client>, sid: SessionId, other: string)
    requires sid in clients
    ensures |clients - {sid}| == |clients| - 1
    ensures |FromHost(clients - {sid}, other)| ==
            |FromHost(clients, other)| - (if other == clients[sid].host then 1 else 0)
    ensures |FromHost(clients, clients[sid].host)| > 0
  {
    var fewer := clients - {sid};
    assert fewer.Keys == clients.Keys - {sid};
    assert |fewer| == |fewer.Keys|;
    assert sid in FromHost(clients, clients[sid].host);
    if other == clients[sid].host {
      assert FromHost(fewer, other) == FromHost(clients, other) - {sid};
    } else {
      assert FromHost(fewer, other) == FromHost(clients, other);
    }
  }

  lemma LeaveCounted(cfg: Config, s: Server, sid: SessionId)
    requires cfg.Valid() && SessionsCounted(cfg, s) && sid in s.clients
    ensures SessionsCounted(cfg, Leave(cfg, s, sid))
  {
    var host := s.clients[sid].host;
    HostsAfterLeave(s.clients, sid, host);
    assert s.sessions.open[host] > 0;
    SC.StepTracks(cfg.limits, s.sessions, SC.Disconnect(host));
    var open := SC.Next(cfg.limits, s.sessions, SC.Disconnect(host)).open;
    assert open == s.sessions.open - multiset{host};
    forall other
      ensures |FromHost(s.clients - {sid}, other)| == open[other]
    {
      HostsAfterLeave(s.clients, sid, other);
    }
  }

  lemma ContinuedSound(cfg: Config, client: Client, command: Command)
    requires ClientSound(cfg, client) && !Handle(cfg.settings, client.session, command).closed
    ensures ClientSound(cfg, Continued(cfg, client, command))
  {
    assert (client.commands + [command])[..|client.commands|] == client.commands;
  }

  lemma AnsweredKeepsInv(cfg: Config, s: Server, sid: SessionId, command: Command)
    requires cfg.Valid() && Inv(cfg, s) && sid in s.clients
    ensures Inv(cfg, Answered(cfg, s, sid, command))
  {
    if Handle(cfg.settings, s.clients[sid].session, command).closed {
      LeaveKeepsInv(cfg, s, sid);
    } else {
      assert ClientSound(cfg, s.clients[sid]);
      ContinuedSound(cfg, s.clients[sid], command);
      WithClientKeepsInv(cfg, s, sid, Continued(cfg, s.clients[sid], command));
    }
  }

  // ---------------------------------------------------------------------------
  // Each step keeps the invariant
  // ---------------------------------------------------------------------------

  lemma HostsAfterJoin(clients: map<SessionId, Client>, sid: SessionId, client: Client, other: string)
    requires sid !in clients
    ensures |clients[sid := client]| == |clients| + 1
    ensures |FromHost(clients[sid := client], other)| ==
            |FromHost(clients, other)| + (if other == client.host then 1 else 0)
  {
    var more := clients[sid := client];
    assert more - {sid} == clients;
    HostsAfterLeave(more, sid, other);
  }

  lemma JoinCounted(cfg: Config, s: Server, sid: SessionId, client: Client)
    requires cfg.Valid() && SessionsCounted(cfg, s) && sid !in s.clients
    requires SC.Acquire(cfg.limits, s.sessions.counters, client.host).Ok?
    ensures SessionsCounted(cfg, s.(clients := s.clients[sid := client],
                                    sessions := SC.Next(cfg.limits, s.sessions, SC.Connect(client.host))))
  {
    SC.StepTracks(cfg.limits, s.sessions, SC.Connect(client.host));
    var open := SC.Next(cfg.limits, s.sessions, SC.Connect(client.host)).open;
    assert open == s.sessions.open + multiset{client.host};
    forall other
      ensures |FromHost(s.clients[sid := client], other)| == open[other]
    {
      HostsAfterJoin(s.clients, sid, client, other);
    }
    HostsAfterJoin(s.clients, sid, client, client.host);
  }

  lemma JoinSound(cfg: Config, s: Server, t: Server, sid: SessionId)
    requires SessionsSound(cfg, s) && AuthsAllowed(cfg, s)
    requires sid in t.clients && t.clients == s.clients[sid := t.clients[sid]]
    requires ClientSound(cfg, t.clients[sid]) && t.clients[sid].phase.Ready?
    ensures SessionsSound(cfg, t) && AuthsAllowed(cfg, t)
  {
  }

  lemma ConnectKeepsInv(cfg: Config, s: Server, sid: SessionId, remoteHost: string, implicitTls: bool)
    requires cfg.Valid() && Inv(cfg, s) && sid !in s.clients
    ensures Inv(cfg, AfterConnect(cfg, s, sid, remoteHost, implicitTls))
  {
    var t := AfterConnect(cfg, s, sid, remoteHost, implicitTls);
    var host := SC.KeyPart(remoteHost);
    var client := NewClient(host, implicitTls);
    if SC.Acquire(cfg.limits, s.sessions.counters, host).Ok? {
      assert SessionsCounted(cfg, t) by {
        JoinCounted(cfg, s, sid, client);
        CountedOnly(cfg, s.(clients := t.clients, sessions := t.sessions), t);
      }
      assert ClientSound(cfg, client);
      IdleOwnsNothing(cfg, s, t, sid);
      JoinSound(cfg, s, t, sid);
    } else {
      assert t == s;
    }
  }

  lemma CountedOnly(cfg: Config, s: Server, t: Server)
    requires SessionsCounted(cfg, s) && t.clients == s.clients && t.sessions == s.sessions
    ensures SessionsCounted(cfg, t)
  {
    assert forall host :: FromHost(t.clients, host) == FromHost(s.clients, host);
  }

  lemma BeginAuthKeepsInv(cfg: Config, s: Server, sid: SessionId, remoteHost: string, username: string, now: SW.Time)
    requires cfg.Valid() && Inv(cfg, s) && Enabled(cfg, s, BeginAuth(sid, remoteHost, username, now))
    ensures Inv(cfg, AfterBeginAuth(cfg, s, sid, remoteHost, username, now))
  {
    var key := Throttle.AuthKey(cfg.toLower, remoteHost, username);
    var t := s.(auth := SW.Next(cfg.authWindow, s.auth, SW.Reserve(key, now)));
    SW.StepKeepsInv(cfg.authWindow, s.auth, SW.Reserve(key, now));
    AuthOnly(cfg, s, t);
    if SW.Admits(cfg.authWindow, s.auth.table, key, now) {
      assert ClientSound(cfg, s.clients[sid]);
      WithClientKeepsInv(cfg, t, sid, s.clients[sid].(phase := Authenticating(key)));
    } else {
      AnsweredKeepsInv(cfg, t, sid, Auth(AuthThrottled));
    }
  }

  lemma AuthOnly(cfg: Config, s: Server, t: Server)
    requires Inv(cfg, s) && t == s.(auth := t.auth) && SW.Inv(cfg.authWindow, t.auth)
    ensures Inv(cfg, t)
  {
    CountedOnly(cfg, s, t);
  }

  lemma EndAuthKeepsInv(cfg: Config, s: Server, sid: SessionId, login: Option<Identity>)
    requires cfg.Valid() && Inv(cfg, s) && Enabled(cfg, s, EndAuth(sid, login))
    ensures Inv(cfg, AfterEndAuth(cfg, s, sid, login))
  {
    match login
    case None => AnsweredKeepsInv(cfg, s, sid, Auth(AuthRejected));
    case Some(identity) =>
      var t := s.(auth := SW.Next(cfg.authWindow, s.auth, SW.Clear(s.clients[sid].phase.key)));
      SW.StepKeepsInv(cfg.authWindow, s.auth, SW.Clear(s.clients[sid].phase.key));
      AuthOnly(cfg, s, t);
      AnsweredKeepsInv(cfg, t, sid, Auth(AuthAccepted(identity)));
  }

  lemma SubmittedIsSound(cfg: Config, sid: SessionId, client: Client, wire: string, ended: bool, message: RawMessage)
    requires ClientSound(cfg, client)
    requires DecideData(cfg.settings, client.session, ReadLines(wire), ended) == Submit(message)
    ensures DeliverySound(cfg, Begun(sid, client, message))
  {
    var t := Converse(cfg.settings, client.implicitTls, client.commands);
    HandoffsAuthorized(cfg.settings, client.implicitTls, client.commands, t);
    SubmittedIsAuthorized(cfg.settings, client.implicitTls, t.events, t.session, ReadLines(wire), ended);
  }

  lemma SameHostsCounted(cfg: Config, s: Server, t: Server)
    requires SessionsCounted(cfg, s)
    requires t.sessions == s.sessions && t.clients.Keys == s.clients.Keys
    requires forall sid :: sid in s.clients ==> t.clients[sid].host == s.clients[sid].host
    ensures SessionsCounted(cfg, t)
  {
    assert |t.clients| == |t.clients.Keys| == |s.clients|;
    forall host
      ensures |FromHost(t.clients, host)| == t.sessions.open[host]
    {
      assert FromHost(t.clients, host) == FromHost(s.clients, host);
    }
  }

  lemma SubmitKeepsInv(cfg: Config, s: Server, sid: SessionId, wire: string, ended: bool, message: RawMessage,
                       now: SW.Time, t: Server)
    requires cfg.Valid() && Inv(cfg, s) && IsReady(s, sid) && s.messages.clock <= now
    requires DecideData(cfg.settings, s.clients[sid].session, ReadLines(wire), ended) == Submit(message)
    requires SW.Admits(cfg.messageWindow, s.messages.table, SC.KeyPart(message.identityID), now)
    requires t.messages == SW.Next(cfg.messageWindow, s.messages, SW.Reserve(SC.KeyPart(message.identityID), now))
    requires t.deliveries == s.deliveries + [Begun(sid, s.clients[sid], message)]
    requires t.clients == s.clients[sid := s.clients[sid].(phase := Relaying(|s.deliveries|, wire, ended))]
    requires t.sessions == s.sessions && t.auth == s.auth
    ensures Inv(cfg, t)
  {
    assert Throttled(cfg, t) by {
      SW.StepKeepsInv(cfg.messageWindow, s.messages, SW.Reserve(SC.KeyPart(message.identityID), now));
    }
    assert SessionsCounted(cfg, t) by {
      RephaseCounted(cfg, s, t, sid);
    }
    SW.ReserveLogs(cfg.messageWindow, s.messages, SC.KeyPart(message.identityID), now);
    assert ClientSound(cfg, s.clients[sid]);
    SubmittedIsSound(cfg, sid, s.clients[sid], wire, ended, message);
    SubmitLogged(s, Begun(sid, s.clients[sid], message), now, t);
    SubmitOwned(s, sid, Begun(sid, s.clients[sid], message), wire, ended, t);
    SubmitSound(cfg, s, sid, Begun(sid, s.clients[sid], message), wire, ended, t);
  }

  lemma RephaseCounted(cfg: Config, s: Server, t: Server, sid: SessionId)
    requires SessionsCounted(cfg, s) && sid in s.clients && sid in t.clients && t.sessions == s.sessions
    requires t.clients == s.clients[sid := t.clients[sid]] && t.clients[sid].host == s.clients[sid].host
    ensures SessionsCounted(cfg, t)
  {
    SameHostsCounted(cfg, s, t);
  }

  lemma SubmitLogged(s: Server, begun: Delivery, now: SW.Time, t: Server)
    requires DeliveriesLogged(s) && begun.reply.None?
    requires t.messages.log == s.messages.log + [SW.Entry(SC.KeyPart(begun.message.identityID), now, false)]
    requires t.deliveries == s.deliveries + [begun]
    ensures DeliveriesLogged(t)
  {
  }

  lemma SubmitOwned(s: Server, sid: SessionId, begun: Delivery, wire: string, ended: bool, t: Server)
    requires RelaysOwned(s) && sid in s.clients && begun.reply.None?
    requires t.clients == s.clients[sid := s.clients[sid].(phase := Relaying(|s.deliveries|, wire, ended))]
    requires t.deliveries == s.deliveries + [begun]
    ensures RelaysOwned(t)
  {
    assert t.deliveries[|s.deliveries|] == begun;
    assert forall i :: 0 <= i < |s.deliveries| ==> t.deliveries[i] == s.deliveries[i];
  }

  lemma SubmitSound(cfg: Config, s: Server, sid: SessionId, begun: Delivery, wire: string, ended: bool, t: Server)
    requires RelaysSubmitted(cfg, s) && SessionsSound(cfg, s) && DeliveriesSound(cfg, s)
    requires sid in s.clients && DeliverySound(cfg, begun)
    requires DecideData(cfg.settings, s.clients[sid].session, ReadLines(wire), ended) == Submit(begun.message)
    requires t.clients == s.clients[sid := s.clients[sid].(phase := Relaying(|s.deliveries|, wire, ended))]
    requires t.deliveries == s.deliveries + [begun]
    ensures RelaysSubmitted(cfg, t) && SessionsSound(cfg, t) && DeliveriesSound(cfg, t)
  {
    assert t.deliveries[|s.deliveries|] == begun;
    assert forall i :: 0 <= i < |s.deliveries| ==> t.deliveries[i] == s.deliveries[i];
    assert Submitted(cfg, t.clients[sid], t.deliveries);
    forall other | other in t.clients && other != sid && t.clients[other].phase.Relaying?
      ensures Submitted(cfg, t.clients[other], t.deliveries)
    {
      assert Submitted(cfg, s.clients[other], s.deliveries);
    }
    forall other | other in t.clients
      ensures ClientSound(cfg, t.clients[other])
    {
      assert ClientSound(cfg, s.clients[other]);
    }
  }

  lemma ThrottledKeepsInv(cfg: Config, s: Server, sid: SessionId, message: RawMessage, now: SW.Time, command: Command)
    requires cfg.Valid() && Inv(cfg, s) && sid in s.clients && s.messages.clock <= now
    requires !SW.Admits(cfg.messageWindow, s.messages.table, SC.KeyPart(message.identityID), now)
    ensures var reserve := SW.Reserve(SC.KeyPart(message.identityID), now);
            var t := s.(messages := SW.Next(cfg.messageWindow, s.messages, reserve));
            Inv(cfg, Answered(cfg, t, sid, command))
  {
    var key := SC.KeyPart(message.identityID);
    var t := s.(messages := SW.Next(cfg.messageWindow, s.messages, SW.Reserve(key, now)));
    SW.StepKeepsInv(cfg.messageWindow, s.messages, SW.Reserve(key, now));
    assert t.messages.log == s.messages.log;
    CountedOnly(cfg, s, t);
    AnsweredKeepsInv(cfg, t, sid, command);
  }

  lemma BeginDataKeepsInv(cfg: Config, s: Server, sid: SessionId, wire: string, ended: bool, now: SW.Time)
    requires cfg.Valid() && Inv(cfg, s) && Enabled(cfg, s, BeginData(sid, wire, ended, now))
    ensures Inv(cfg, AfterBeginData(cfg, s, sid, wire, ended, now))
  {
    match DecideData(cfg.settings, s.clients[sid].session, ReadLines(wire), ended)
    case Refuse(_) => AnsweredKeepsInv(cfg, s, sid, Data(wire, ended, RelayAccepted));
    case Submit(message) =>
      if SW.Admits(cfg.messageWindow, s.messages.table, SC.KeyPart(message.identityID), now) {
        SubmitKeepsInv(cfg, s, sid, wire, ended, message, now, AfterBeginData(cfg, s, sid, wire, ended, now));
      } else {
        ThrottledKeepsInv(cfg, s, sid, message, now, Data(wire, ended, RelayThrottled));
      }
  }

  lemma SettleOwned(cfg: Config, s: Server, t: Server, id: nat, reply: nat)
    requires DeliveriesLogged(s) && RelaysOwned(s) && RelaysSubmitted(cfg, s) && DeliveriesSound(cfg, s)
    requires id < |s.deliveries| && s.deliveries[id].reply.None?
    requires forall sid :: sid in s.clients && s.clients[sid].phase.Relaying? ==> s.clients[sid].phase.reservation != id
    requires t.clients == s.clients
    requires t.deliveries == Settled(s.deliveries, id, reply)
    requires t.messages.log == if reply == 250 then s.messages.log else SW.ReleaseOne(s.messages.log, id)
    ensures DeliveriesLogged(t) && RelaysOwned(t) && RelaysSubmitted(cfg, t) && DeliveriesSound(cfg, t)
  {
    forall sid | sid in t.clients && t.clients[sid].phase.Relaying?
      ensures Submitted(cfg, t.clients[sid], t.deliveries)
    {
      assert Submitted(cfg, s.clients[sid], s.deliveries);
    }
    assert DeliverySound(cfg, s.deliveries[id]);
    assert DeliverySound(cfg, t.deliveries[id]);
  }

  /** Settling a delivery that no session owns any more. */
  lemma SettleKeepsInv(cfg: Config, s: Server, id: nat, reply: nat, t: Server)
    requires cfg.Valid() && Inv(cfg, s) && id < |s.deliveries| && s.deliveries[id].reply.None?
    requires forall sid :: sid in s.clients && s.clients[sid].phase.Relaying? ==> s.clients[sid].phase.reservation != id
    requires SW.Enabled(s.messages, SW.Cancel(id))
    requires t == s.(deliveries := Settled(s.deliveries, id, reply),
                     messages := if reply == 250 then s.messages
                                 else SW.Next(cfg.messageWindow, s.messages, SW.Cancel(id)))
    ensures Inv(cfg, t)
  {
    SettleOwned(cfg, s, t, id, reply);
    CountedOnly(cfg, s, t);
    if reply != 250 {
      SW.StepKeepsInv(cfg.messageWindow, s.messages, SW.Cancel(id));
    }
  }

  /** Once answered, a session owns no delivery. */
  lemma AnsweredFrees(cfg: Config, s: Server, sid: SessionId, command: Command)
    requires RelaysOwned(s) && IsRelaying(s, sid)
    ensures var u := Answered(cfg, s, sid, command);
            && u.deliveries == s.deliveries && u.messages == s.messages
            && forall other :: other in u.clients && u.clients[other].phase.Relaying? ==>
                 u.clients[other].phase.reservation != s.clients[sid].phase.reservation
  {
  }

  lemma OwnedInFlight(s: Server, sid: SessionId)
    requires RelaysOwned(s) && DeliveriesLogged(s) && IsRelaying(s, sid)
    ensures var id := s.clients[sid].phase.reservation;
            id < |s.deliveries| && s.deliveries[id].reply.None? && SW.Enabled(s.messages, SW.Cancel(id))
  {
  }

  lemma SubmittedAnswers(cfg: Config, client: Client, deliveries: seq<Delivery>, status: RelayStatus)
    requires client.phase.Relaying? && Submitted(cfg, client, deliveries)
    ensures Handle(cfg.settings, client.session, Data(client.phase.wire, client.phase.ended, status))
            == FinishData(client.session, deliveries[client.phase.reservation].message, status)
  {
  }

  lemma EndDataKeepsInv(cfg: Config, s: Server, sid: SessionId, status: RelayStatus)
    requires cfg.Valid() && Inv(cfg, s) && Enabled(cfg, s, EndData(sid, status))
    ensures Inv(cfg, AfterEndData(cfg, s, sid, status))
  {
    var client := s.clients[sid];
    var command := Data(client.phase.wire, client.phase.ended, status);
    // Leave the phase first, so that no session owns the delivery when it is settled.
    OwnedInFlight(s, sid);
    assert Submitted(cfg, client, s.deliveries);
    SubmittedAnswers(cfg, client, s.deliveries, status);
    AnsweredFrees(cfg, s, sid, command);
    AnsweredKeepsInv(cfg, s, sid, command);
    SettleKeepsInv(cfg, Answered(cfg, s, sid, command), client.phase.reservation, RelayReply(status),
                   AfterEndData(cfg, s, sid, status));
  }

  lemma StepKeepsInv(cfg: Config, s: Server, step: Step)
    requires cfg.Valid() && Inv(cfg, s) && Enabled(cfg, s, step)
    ensures Inv(cfg, Next(cfg, s, step))
  {
    match step
    case Connect(sid, remoteHost, implicitTls) => ConnectKeepsInv(cfg, s, sid, remoteHost, implicitTls);
    case Exchange(sid, command) => AnsweredKeepsInv(cfg, s, sid, command);
    case BeginAuth(sid, remoteHost, username, now) => BeginAuthKeepsInv(cfg, s, sid, remoteHost, username, now);
    case EndAuth(sid, login) => EndAuthKeepsInv(cfg, s, sid, login);
    case BeginData(sid, wire, ended, now) => BeginDataKeepsInv(cfg, s, sid, wire, ended, now);
    case EndData(sid, status) => EndDataKeepsInv(cfg, s, sid, status);
    case Disconnect(sid) => LeaveKeepsInv(cfg, s, sid);
  }

  lemma {:induction false} RunKeepsInv(cfg: Config, start: SW.Time, steps: seq<Step>, s: Server)
    requires cfg.Valid() && Run(cfg, start, steps) == Some(s)
    ensures Inv(cfg, s)
  {
    if steps == [] {
      assert forall host :: FromHost(s.clients, host) == {};
    } else {
      var before := Run(cfg, start, steps[..|steps| - 1]).value;
      RunKeepsInv(cfg, start, steps[..|steps| - 1], before);
      StepKeepsInv(cfg, before, steps[|steps| - 1]);
    }
  }

  // ---------------------------------------------------------------------------
  // Main results
  // ---------------------------------------------------------------------------

  /** Reservation times of the identity's deliveries in (after, upTo] that were answered 250. */
  function AcceptedTimes(log: SW.Log, deliveries: seq<Delivery>, key: string, after: SW.Time,
                         upTo: SW.Time): seq<SW.Time>
    requires |log| == |deliveries|
  {
    if log == [] then []
    else
      var n := |log| - 1;
      var front := AcceptedTimes(log[..n], deliveries[..n], key, after, upTo);
      if deliveries[n].reply == Some(250) && SC.KeyPart(deliveries[n].message.identityID) == key &&
         after < log[n].at <= upTo
      then front + [log[n].at] else front
  }

  lemma {:induction false} AcceptedAreHeld(log: SW.Log, deliveries: seq<Delivery>, key: string, after: SW.Time,
                                           upTo: SW.Time)
    requires |log| == |deliveries|
    requires forall i :: 0 <= i < |log| ==>
               && log[i].key == SC.KeyPart(deliveries[i].message.identityID)
               && (log[i].released <==> Refused(deliveries[i]))
    ensures |AcceptedTimes(log, deliveries, key, after, upTo)| <= |SW.Held(log, key, after, upTo)|
  {
    if log != [] {
      AcceptedAreHeld(log[..|log| - 1], deliveries[..|log| - 1], key, after, upTo);
    }
  }

  lemma InvBoundsAccepted(cfg: Config, s: Server, key: string, after: SW.Time)
    requires DeliveriesLogged(s) && SW.Fitted(cfg.messageWindow, s.messages.log)
    ensures |s.messages.log| == |s.deliveries|
    ensures |AcceptedTimes(s.messages.log, s.deliveries, key, after, after + cfg.messageWindow.length)|
            <= cfg.messageWindow.limit
  {
    AcceptedAreHeld(s.messages.log, s.deliveries, key, after, after + cfg.messageWindow.length);
    SW.FittedBoundsWindow(cfg.messageWindow, s.messages.log, key, after);
  }

  /**
   However the sessions interleave, within any half-open window at most
   `messageLimit` of an identity's submissions are answered "250 Message accepted",
   even while other relays are still in flight.
   */
  lemma AcceptedWithinLimit(cfg: Config, start: SW.Time, steps: seq<Step>, s: Server, identityID: string,
                            after: SW.Time)
    requires cfg.Valid() && Run(cfg, start, steps) == Some(s)
    ensures |s.messages.log| == |s.deliveries|
    ensures var key, upTo := SC.KeyPart(identityID), after + cfg.messageWindow.length;
            |AcceptedTimes(s.messages.log, s.deliveries, key, after, upTo)| <= cfg.messageWindow.limit
  {
    RunKeepsInv(cfg, start, steps, s);
    InvBoundsAccepted(cfg, s, SC.KeyPart(identityID), after);
  }

  /**
   The reply that ends a relay is the verdict on the session's own delivery and decides
   about its reservation: 250 if and only if the relay accepted it, and then the
   reservation is kept; else 554 or 451, and it is given back.
   */
  lemma RelayAnswersOwnDelivery(cfg: Config, start: SW.Time, steps: seq<Step>, s: Server, sid: SessionId,
                                status: RelayStatus)
    requires cfg.Valid() && Run(cfg, start, steps) == Some(s) && Enabled(cfg, s, EndData(sid, status))
    ensures var client, t := s.clients[sid], Next(cfg, s, EndData(sid, status));
            var id := client.phase.reservation;
            var effect := Handle(cfg.settings, client.session, Data(client.phase.wire, client.phase.ended, status));
            && id < |s.deliveries| == |t.deliveries| == |t.messages.log|
            && s.deliveries[id].reply.None? && t.deliveries[id].reply == Some(effect.reply)
            && effect == FinishData(client.session, s.deliveries[id].message, status)
            && effect.relayed == Some(s.deliveries[id].message)
            && (effect.reply == 250 <==> status.RelayAccepted?)
            && (effect.reply == 554 <==> status.RelayRejectedPermanent?)
            && (effect.reply == 451 <==> status.RelayRejectedTemporary?)
            && (effect.reply == 250 <==> !t.messages.log[id].released)
  {
    RunKeepsInv(cfg, start, steps, s);
    OwnedInFlight(s, sid);
    assert Submitted(cfg, s.clients[sid], s.deliveries);
    SubmittedAnswers(cfg, s.clients[sid], s.deliveries, status);
    EndDataLogged(cfg, s, sid, status);
  }

  lemma EndDataLogged(cfg: Config, s: Server, sid: SessionId, status: RelayStatus)
    requires cfg.Valid() && Inv(cfg, s) && Enabled(cfg, s, EndData(sid, status))
    ensures DeliveriesLogged(Next(cfg, s, EndData(sid, status)))
  {
    EndDataKeepsInv(cfg, s, sid, status);
  }

  /**
   In every reachable state, however the sessions interleave: each message ever handed
   to the relay is authorized by the exchanges of the session that handed it over (the
   identity that session logged in with since its own last STARTTLS, in envelope and
   header alike, its own open transaction, and the limits), the session of each client
   is where its own commands alone lead, and the clients respect both session limits.
   */
  lemma DeliveriesAuthentic(cfg: Config, start: SW.Time, steps: seq<Step>, s: Server, host: string)
    requires cfg.Valid() && Run(cfg, start, steps) == Some(s)
    ensures DeliveriesSound(cfg, s) && SessionsSound(cfg, s)
    ensures |s.clients| <= cfg.limits.total
    ensures |FromHost(s.clients, host)| <= cfg.limits.perHost
  {
    RunKeepsInv(cfg, start, steps, s);
    assert s.sessions.open[host] <= cfg.limits.perHost;
  }

  lemma InvBoundsAttempts(cfg: Config, s: Server, key: string, after: SW.Time)
    requires Inv(cfg, s)
    ensures |SW.Held(s.auth.log, key, after, after + cfg.authWindow.length)| <= cfg.authWindow.limit
  {
    SW.FittedBoundsWindow(cfg.authWindow, s.auth.log, key, after);
  }

  /** Attempts admitted for one AUTH key since its last success never exceed the limit in a window. */
  lemma AuthAttemptsWithinLimit(cfg: Config, start: SW.Time, steps: seq<Step>, s: Server, key: string, after: SW.Time)
    requires cfg.Valid() && Run(cfg, start, steps) == Some(s)
    ensures |SW.Held(s.auth.log, key, after, after + cfg.authWindow.length)| <= cfg.authWindow.limit
  {
    RunKeepsInv(cfg, start, steps, s);
    InvBoundsAttempts(cfg, s, key, after);
  }
}
