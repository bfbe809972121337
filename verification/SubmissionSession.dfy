/**
 One SMTP submission session: the command loop of the submission server over the
 commands a client sends. What the outside world decides (a parsed path, the
 outcome of authentication or of the relay) arrives with the command.
 */
module SubmissionSession {
  import opened Wrappers
  import opened Addresses
  import opened DataReader

  datatype Identity = Identity(id: string, email: Address, username: string)

  datatype Session = Session(secure: bool, authenticated: Option<Identity>,
                             mailFrom: Option<Address>, recipients: seq<Address>)

  /** `messageFrom` is the single mailbox of a message's From header, if it parses. */
  datatype Settings = Settings(maxMessageBytes: nat, maxRecipients: nat, tlsAvailable: bool,
                               allowInsecureAuth: bool, messageFrom: string -> Option<Address>)

  datatype RawMessage = RawMessage(identityID: string, from: Address, recipients: seq<Address>, data: string)

  datatype AuthOutcome = UnsupportedMechanism | AuthThrottled | AuthRejected | AuthAccepted(identity: Identity)

  datatype RelayStatus = RelayAccepted | RelayThrottled | RelayRejectedPermanent | RelayRejectedTemporary

  /** Text that breaks off either ends the stream (`ended`) or merely timed out. */
  datatype Command =
    | Hello
    | StartTls(handshake: bool)
    | Auth(outcome: AuthOutcome)
    | Mail(path: Option<Address>)
    | Rcpt(path: Option<Address>)
    | Data(wire: string, ended: bool, status: RelayStatus)
    | Reset
    | Noop
    | Quit
    | Unknown

  /** The reply code (0 when the text breaks off and none is sent) and what was handed to the relay. */
  datatype Effect = Effect(session: Session, reply: nat, relayed: Option<RawMessage>, closed: bool)

  const NO_REPLY := 0

  function Answer(s: Session, reply: nat): Effect {
    Effect(s, reply, None, false)
  }

  function Cleared(s: Session): Session {
    s.(mailFrom := None, recipients := [])
  }

  function HandleStartTls(cfg: Settings, s: Session, handshake: bool): Effect {
    if s.secure then Answer(s, 503)
    else if !cfg.tlsAvailable then Answer(s, 454)
    else if !handshake then Effect(s, 220, None, true)
    else Answer(Session(true, None, None, []), 220)
  }

  /** AUTH is refused before the mechanism is looked at. */
  function AuthRefusal(cfg: Settings, s: Session): Option<nat> {
    if s.authenticated.Some? then Some(503)
    else if !s.secure && !cfg.allowInsecureAuth then Some(530)
    else None
  }

  function HandleAuth(cfg: Settings, s: Session, outcome: AuthOutcome): Effect {
    match AuthRefusal(cfg, s)
    case Some(code) => Answer(s, code)
    case None =>
      match outcome
      case UnsupportedMechanism => Answer(s, 504)
      case AuthThrottled => Answer(s, 454)
      case AuthRejected => Answer(s, 535)
      case AuthAccepted(identity) => Answer(s.(authenticated := Some(identity)), 235)
  }

  function HandleMail(s: Session, path: Option<Address>): Effect {
    if s.authenticated.None? then Answer(s, 530)
    else if path.None? then Answer(s, 501)
    else if !path.value.Equals(s.authenticated.value.email) then Answer(s, 553)
    else Answer(s.(mailFrom := path, recipients := []), 250)
  }

  function HandleRecipient(cfg: Settings, s: Session, path: Option<Address>): Effect {
    if s.mailFrom.None? then Answer(s, 503)
    else if |s.recipients| >= cfg.maxRecipients then Answer(s, 452)
    else if path.None? then Answer(s, 501)
    else Answer(s.(recipients := s.recipients + [path.value]), 250)
  }

  /** DATA up to the point where the message would be handed to the relay. */
  datatype DataDecision =
    | Refuse(effect: Effect)
    | Submit(message: RawMessage)

  function DecideData(cfg: Settings, s: Session, read: Outcome, ended: bool): DataDecision {
    if s.authenticated.None? || s.mailFrom.None? || s.recipients == [] then Refuse(Answer(s, 503))
    else
      match read
      case Truncated => Refuse(Effect(s, NO_REPLY, None, ended))
      case Received(data, _) =>
        var email := s.authenticated.value.email;
        if |data| > cfg.maxMessageBytes then Refuse(Answer(Cleared(s), 552))
        else
          match cfg.messageFrom(data)
          case None => Refuse(Answer(Cleared(s), 553))
          case Some(from) =>
            if from.Equals(email)
            then Submit(RawMessage(s.authenticated.value.id, email, s.recipients, data))
            else Refuse(Answer(Cleared(s), 553))
  }

  function RelayReply(status: RelayStatus): nat {
    match status
    case RelayAccepted => 250
    case RelayThrottled => 452
    case RelayRejectedPermanent => 554
    case RelayRejectedTemporary => 451
  }

  /** A throttled message never reaches the relay. */
  function FinishData(s: Session, message: RawMessage, status: RelayStatus): Effect {
    Effect(Cleared(s), RelayReply(status), if status.RelayThrottled? then None else Some(message), false)
  }

  function HandleData(cfg: Settings, s: Session, wire: string, ended: bool, status: RelayStatus): Effect {
    match DecideData(cfg, s, ReadLines(wire), ended)
    case Refuse(effect) => effect
    case Submit(message) => FinishData(s, message, status)
  }

  function Handle(cfg: Settings, s: Session, command: Command): Effect {
    match command
    case Hello => Answer(s, 250)
    case StartTls(handshake) => HandleStartTls(cfg, s, handshake)
    case Auth(outcome) => HandleAuth(cfg, s, outcome)
    case Mail(path) => HandleMail(s, path)
    case Rcpt(path) => HandleRecipient(cfg, s, path)
    case Data(wire, ended, status) => HandleData(cfg, s, wire, ended, status)
    case Reset => Answer(Cleared(s), 250)
    case Noop => Answer(s, 250)
    case Quit => Effect(s, 221, None, true)
    case Unknown => Answer(s, 502)
  }

  // ---------------------------------------------------------------------------
  // The session object
  // ---------------------------------------------------------------------------

  class Connection {
    var secure: bool
    var authenticated: Option<Identity>
    var mailFrom: Option<Address>
    var recipients: seq<Address>
    const cfg: Settings

    constructor (cfg: Settings, implicitTls: bool)
      ensures View() == Session(implicitTls, None, None, []) && this.cfg == cfg
    {
      secure, authenticated, mailFrom, recipients := implicitTls, None, None, [];
      this.cfg := cfg;
    }

    function View(): Session
      reads this
    {
      Session(secure, authenticated, mailFrom, recipients)
    }

    method ResetTransaction()
      modifies this
      ensures View() == Cleared(old(View()))
    {
      mailFrom := None;
      recipients := [];
    }

    /** Returns the reply and whether the connection ends. */
    method StartTls(handshake: bool) returns (reply: nat, closed: bool)
      modifies this
      ensures Effect(View(), reply, None, closed) == HandleStartTls(cfg, old(View()), handshake)
    {
      if secure {
        return 503, false;
      }
      if !cfg.tlsAvailable {
        return 454, false;
      }
      if !handshake {
        return 220, true;
      }
      secure, authenticated, mailFrom, recipients := true, None, None, [];
      return 220, false;
    }

    method Auth(outcome: AuthOutcome) returns (reply: nat)
      modifies this
      ensures Answer(View(), reply) == HandleAuth(cfg, old(View()), outcome)
    {
      if authenticated.Some? {
        return 503;
      }
      if !secure && !cfg.allowInsecureAuth {
        return 530;
      }
      match outcome
      case UnsupportedMechanism => return 504;
      case AuthThrottled => return 454;
      case AuthRejected => return 535;
      case AuthAccepted(identity) =>
        authenticated := Some(identity);
        return 235;
    }

    method Mail(path: Option<Address>) returns (reply: nat)
      modifies this
      ensures Answer(View(), reply) == HandleMail(old(View()), path)
    {
      if authenticated.None? {
        return 530;
      }
      if path.None? {
        return 501;
      }
      if !path.value.Equals(authenticated.value.email) {
        return 553;
      }
      mailFrom := path;
      recipients := [];
      return 250;
    }

    method Recipient(path: Option<Address>) returns (reply: nat)
      modifies this
      ensures Answer(View(), reply) == HandleRecipient(cfg, old(View()), path)
    {
      if mailFrom.None? {
        return 503;
      }
      if |recipients| >= cfg.maxRecipients {
        return 452;
      }
      if path.None? {
        return 501;
      }
      recipients := recipients + [path.value];
      return 250;
    }

    /**
     DATA up to the relay: reads the text from the connection, checks it, and either
     answers or yields the message to hand over. Bytes after the text stay unread. If
     the text breaks off, nothing is answered and the transaction stays open; whether
     the connection is over only shows at the next read.
     */
    method BeginData(reader: BufferedReader, ended: bool) returns (decision: DataDecision)
      requires reader.size >= 3
      modifies this, reader
      ensures decision == DecideData(cfg, old(View()), ReadLines(old(reader.pending)), ended)
      ensures View() == if decision.Refuse? then decision.effect.session else old(View())
      ensures if old(View().authenticated.None? || View().mailFrom.None? || View().recipients == [])
              then reader.pending == old(reader.pending)
              else ReadLines(old(reader.pending)).Received? ==> reader.pending == ReadLines(old(reader.pending)).rest
    {
      if authenticated.None? || mailFrom.None? || |recipients| == 0 {
        return Refuse(Answer(View(), 503));
      }
      var read := ReadData(reader, cfg.maxMessageBytes);
      if read.Err? {
        return Refuse(Effect(View(), NO_REPLY, None, ended));
      }
      if read.value.tooLarge {
        ResetTransaction();
        return Refuse(Answer(View(), 552));
      }
      var from := cfg.messageFrom(read.value.data);
      if from.None? || !from.value.Equals(authenticated.value.email) {
        ResetTransaction();
        return Refuse(Answer(View(), 553));
      }
      return Submit(RawMessage(authenticated.value.id, authenticated.value.email, recipients, read.value.data));
    }

    method EndData(ghost message: RawMessage, status: RelayStatus) returns (reply: nat)
      modifies this
      ensures View() == FinishData(old(View()), message, status).session
      ensures reply == FinishData(old(View()), message, status).reply
    {
      ResetTransaction();
      match status
      case RelayThrottled => return 452;
      case RelayRejectedPermanent => return 554;
      case RelayRejectedTemporary => return 451;
      case RelayAccepted => return 250;
    }

    method Data(wire: string, ended: bool, status: RelayStatus, bufferSize: nat)
      returns (reply: nat, relayed: Option<RawMessage>, closed: bool)
      requires bufferSize >= 3
      modifies this
      ensures Effect(View(), reply, relayed, closed) == HandleData(cfg, old(View()), wire, ended, status)
    {
      var reader := new BufferedReader(wire, bufferSize);
      var decision := BeginData(reader, ended);
      match decision
      case Refuse(effect) => return effect.reply, effect.relayed, effect.closed;
      case Submit(message) =>
        reply := EndData(message, status);
        return reply, if status.RelayThrottled? then None else Some(message), false;
    }

    /** One round of the command loop. */
    method Dispatch(command: Command, bufferSize: nat)
      returns (reply: nat, relayed: Option<RawMessage>, closed: bool)
      requires bufferSize >= 3
      modifies this
      ensures Effect(View(), reply, relayed, closed) == Handle(cfg, old(View()), command)
    {
      reply, relayed, closed := 250, None, false;
      match command
      case Hello =>
      case Noop =>
      case StartTls(handshake) => reply, closed := StartTls(handshake);
      case Auth(outcome) => reply := Auth(outcome);
      case Mail(path) => reply := Mail(path);
      case Rcpt(path) => reply := Recipient(path);
      case Data(wire, ended, status) => reply, relayed, closed := Data(wire, ended, status, bufferSize);
      case Reset => ResetTransaction();
      case Quit => reply, closed := 221, true;
      case Unknown => reply := 502;
    }
  }

  // ---------------------------------------------------------------------------
  // Whole sessions: what the exchanged commands and replies say
  // ---------------------------------------------------------------------------

  datatype Event = Event(command: Command, reply: nat)

  /** A message given to the relay after `at` exchanges. */
  datatype Handoff = Handoff(at: nat, message: RawMessage)

  datatype Transcript = Transcript(session: Session, events: seq<Event>, handoffs: seq<Handoff>, closed: bool)

  /** Commands sent after the connection ended are not read. */
  function Exchange(cfg: Settings, t: Transcript, command: Command): Transcript {
    if t.closed then t
    else
      var effect := Handle(cfg, t.session, command);
      Transcript(effect.session,
                 t.events + [Event(command, effect.reply)],
                 if effect.relayed.Some? then t.handoffs + [Handoff(|t.events|, effect.relayed.value)]
                 else t.handoffs,
                 effect.closed)
  }

  function Converse(cfg: Settings, implicitTls: bool, commands: seq<Command>): Transcript {
    if commands == [] then Transcript(Session(implicitTls, None, None, []), [], [], false)
    else Exchange(cfg, Converse(cfg, implicitTls, commands[..|commands| - 1]), commands[|commands| - 1])
  }

  predicate StartsTls(e: Event) {
    e.command.StartTls? && e.command.handshake && e.reply == 220
  }

  function LoginAfter(login: Option<Identity>, e: Event): Option<Identity> {
    if StartsTls(e) then None
    else if e.command.Auth? && e.command.outcome.AuthAccepted? && e.reply == 235 then Some(e.command.outcome.identity)
    else login
  }

  /** The identity of the last successful AUTH since the last STARTTLS, from the exchanges alone. */
  function LastLogin(events: seq<Event>): Option<Identity> {
    if events == [] then None else LoginAfter(LastLogin(events[..|events| - 1]), events[|events| - 1])
  }

  /** TLS is on from the start or since an answered STARTTLS. */
  predicate Encrypted(implicitTls: bool, events: seq<Event>) {
    implicitTls || exists i :: 0 <= i < |events| && StartsTls(events[i])
  }

  /** DATA ends the transaction unless it was out of sequence or the text broke off. */
  predicate EndsTransaction(e: Event) {
    || e.command.Reset?
    || StartsTls(e)
    || (e.command.Data? && e.reply != 503 && e.reply != NO_REPLY)
  }

  function TransactionAfter(open: Option<(Address, seq<Address>)>, e: Event): Option<(Address, seq<Address>)> {
    if EndsTransaction(e) then None
    else if e.command.Mail? && e.reply == 250 && e.command.path.Some? then Some((e.command.path.value, []))
    else if e.command.Rcpt? && e.reply == 250 && e.command.path.Some? && open.Some?
    then Some((open.value.0, open.value.1 + [e.command.path.value]))
    else open
  }

  /** The open transaction: the last accepted sender and the recipients accepted for it. */
  function OpenTransaction(events: seq<Event>): Option<(Address, seq<Address>)> {
    if events == [] then None
    else TransactionAfter(OpenTransaction(events[..|events| - 1]), events[|events| - 1])
  }

  predicate Consistent(cfg: Settings, s: Session) {
    && (s.authenticated.Some? ==> s.secure || cfg.allowInsecureAuth)
    && (s.mailFrom.Some? ==> s.authenticated.Some? && s.mailFrom.value.Equals(s.authenticated.value.email))
    && (s.recipients != [] ==> s.mailFrom.Some?)
    && |s.recipients| <= cfg.maxRecipients
  }

  function TransactionOf(s: Session): Option<(Address, seq<Address>)> {
    if s.mailFrom.None? then None else Some((s.mailFrom.value, s.recipients))
  }

  predicate Describes(implicitTls: bool, events: seq<Event>, s: Session) {
    && s.authenticated == LastLogin(events)
    && s.secure == Encrypted(implicitTls, events)
    && TransactionOf(s) == OpenTransaction(events)
  }

  lemma EventsGrow(implicitTls: bool, events: seq<Event>, e: Event)
    ensures LastLogin(events + [e]) == LoginAfter(LastLogin(events), e)
    ensures OpenTransaction(events + [e]) == TransactionAfter(OpenTransaction(events), e)
    ensures Encrypted(implicitTls, events + [e]) <==> Encrypted(implicitTls, events) || StartsTls(e)
  {
    var more := events + [e];
    assert more[..|events|] == events && more[|events|] == e;
    if i :| 0 <= i < |events| && StartsTls(events[i]) {
      assert more[i] == events[i];
    }
  }

  lemma HandleKeepsConsistent(cfg: Settings, s: Session, command: Command)
    requires Consistent(cfg, s)
    ensures Consistent(cfg, Handle(cfg, s, command).session)
  {
  }

  /** The session fields change exactly as the exchange, seen from outside, says. */
  lemma HandleMatchesEvent(cfg: Settings, s: Session, command: Command)
    ensures var effect := Handle(cfg, s, command);
            var e := Event(command, effect.reply);
            && (!effect.closed ==> effect.session.secure == (s.secure || StartsTls(e)))
            && (!effect.closed ==> effect.session.authenticated == LoginAfter(s.authenticated, e))
            && (!effect.closed ==> TransactionOf(effect.session) == TransactionAfter(TransactionOf(s), e))
  {
  }

  /**
   A message may be handed over after these exchanges only if it carries the
   identity logged in since the last STARTTLS as envelope sender and, by its own
   header, as author, over TLS unless that was waived, with between one and the
   maximum number of recipients, exactly those accepted for the open sender, and
   within the size limit.
   */
  predicate Authorized(cfg: Settings, implicitTls: bool, events: seq<Event>, m: RawMessage) {
    && LastLogin(events).Some?
    && (var login := LastLogin(events).value;
        && m.identityID == login.id
        && m.from == login.email
        && cfg.messageFrom(m.data).Some? && cfg.messageFrom(m.data).value.Equals(login.email)
        && OpenTransaction(events).Some?
        && OpenTransaction(events).value.0.Equals(login.email)
        && OpenTransaction(events).value.1 == m.recipients)
    && (Encrypted(implicitTls, events) || cfg.allowInsecureAuth)
    && 1 <= |m.recipients| <= cfg.maxRecipients
    && |m.data| <= cfg.maxMessageBytes
  }

  lemma SubmittedIsAuthorized(cfg: Settings, implicitTls: bool, events: seq<Event>, s: Session, read: Outcome,
                              ended: bool)
    requires Consistent(cfg, s) && Describes(implicitTls, events, s)
    requires DecideData(cfg, s, read, ended).Submit?
    ensures Authorized(cfg, implicitTls, events, DecideData(cfg, s, read, ended).message)
  {
  }

  lemma RelayedIsAuthorized(cfg: Settings, implicitTls: bool, events: seq<Event>, s: Session, command: Command)
    requires Consistent(cfg, s) && Describes(implicitTls, events, s)
    requires Handle(cfg, s, command).relayed.Some?
    ensures Authorized(cfg, implicitTls, events, Handle(cfg, s, command).relayed.value)
  {
    SubmittedIsAuthorized(cfg, implicitTls, events, s, ReadLines(command.wire), command.ended);
  }

  ghost predicate AllAuthorized(cfg: Settings, implicitTls: bool, t: Transcript) {
    forall i :: 0 <= i < |t.handoffs| ==>
      && t.handoffs[i].at < |t.events|
      && Authorized(cfg, implicitTls, t.events[..t.handoffs[i].at], t.handoffs[i].message)
  }

  lemma ExchangeKeepsAuthorized(cfg: Settings, implicitTls: bool, t: Transcript, command: Command)
    requires !t.closed && AllAuthorized(cfg, implicitTls, t)
    requires Consistent(cfg, t.session) && Describes(implicitTls, t.events, t.session)
    ensures AllAuthorized(cfg, implicitTls, Exchange(cfg, t, command))
  {
    var u := Exchange(cfg, t, command);
    forall i | 0 <= i < |u.handoffs|
      ensures u.handoffs[i].at < |u.events|
      ensures Authorized(cfg, implicitTls, u.events[..u.handoffs[i].at], u.handoffs[i].message)
    {
      if i < |t.handoffs| {
        assert u.handoffs[i] == t.handoffs[i];
        assert u.events[..t.handoffs[i].at] == t.events[..t.handoffs[i].at];
      } else {
        RelayedIsAuthorized(cfg, implicitTls, t.events, t.session, command);
        assert u.events[..u.handoffs[i].at] == t.events;
      }
    }
  }

  /**
   For every command sequence, every message handed to the relay was authorized by
   the exchanges before it, and the session fields say what the exchanges say.
   */
  lemma {:induction false} HandoffsAuthorized(cfg: Settings, implicitTls: bool, commands: seq<Command>, t: Transcript)
    requires t == Converse(cfg, implicitTls, commands)
    ensures AllAuthorized(cfg, implicitTls, t)
    ensures Consistent(cfg, t.session)
    ensures !t.closed ==> Describes(implicitTls, t.events, t.session)
  {
    if commands != [] {
      var command, before := commands[|commands| - 1], commands[..|commands| - 1];
      var prior := Converse(cfg, implicitTls, before);
      HandoffsAuthorized(cfg, implicitTls, before, prior);
      if !prior.closed {
        HandleKeepsConsistent(cfg, prior.session, command);
        HandleMatchesEvent(cfg, prior.session, command);
        EventsGrow(implicitTls, prior.events, Event(command, Handle(cfg, prior.session, command).reply));
        ExchangeKeepsAuthorized(cfg, implicitTls, prior, command);
      }
    }
  }

  // ---------------------------------------------------------------------------
  // What each reply says
  // ---------------------------------------------------------------------------

  /** The reply to DATA inside a transaction of this login. */
  function TextReply(cfg: Settings, login: Identity, wire: string, status: RelayStatus): nat {
    match ReadLines(wire)
    case Truncated => 0
    case Received(data, _) =>
      if |data| > cfg.maxMessageBytes then 552
      else if cfg.messageFrom(data).None? || !cfg.messageFrom(data).value.Equals(login.email) then 553
      else
        match status
        case RelayAccepted => 250
        case RelayThrottled => 452
        case RelayRejectedPermanent => 554
        case RelayRejectedTemporary => 451
  }

  /** The reply that the exchanges before it call for, from what they say alone. */
  function ReplyAfter(cfg: Settings, implicitTls: bool, events: seq<Event>, command: Command): nat {
    var login, encrypted, open := LastLogin(events), Encrypted(implicitTls, events), OpenTransaction(events);
    match command
    case Hello => 250
    case Noop => 250
    case Reset => 250
    case Quit => 221
    case Unknown => 502
    case StartTls(_) => if encrypted then 503 else if !cfg.tlsAvailable then 454 else 220
    case Auth(outcome) =>
      if login.Some? then 503
      else if !encrypted && !cfg.allowInsecureAuth then 530
      else
        (match outcome
         case UnsupportedMechanism => 504
         case AuthThrottled => 454
         case AuthRejected => 535
         case AuthAccepted(_) => 235)
    case Mail(path) =>
      if login.None? then 530
      else if path.None? then 501
      else if !path.value.Equals(login.value.email) then 553
      else 250
    case Rcpt(path) =>
      if open.None? then 503
      else if |open.value.1| >= cfg.maxRecipients then 452
      else if path.None? then 501
      else 250
    case Data(wire, _, status) =>
      if login.None? || open.None? || open.value.1 == [] then 503 else TextReply(cfg, login.value, wire, status)
  }

  /** The connection ends with this exchange. */
  predicate EndsConnection(e: Event) {
    || e.command.Quit?
    || (e.command.StartTls? && !e.command.handshake && e.reply == 220)
    || (e.command.Data? && e.command.ended && e.reply == 0)
  }

  predicate HandsOver(e: Event) {
    e.command.Data? && (e.reply == 250 || e.reply == 554 || e.reply == 451)
  }

  lemma HandleExplained(cfg: Settings, implicitTls: bool, events: seq<Event>, s: Session, command: Command)
    requires Consistent(cfg, s) && Describes(implicitTls, events, s)
    ensures var effect := Handle(cfg, s, command);
            var e := Event(command, effect.reply);
            && effect.reply == ReplyAfter(cfg, implicitTls, events, command)
            && (effect.closed <==> EndsConnection(e))
            && (effect.relayed.Some? <==> HandsOver(e))
            && (effect.relayed.Some? ==>
                  ReadLines(command.wire).Received? && effect.relayed.value.data == ReadLines(command.wire).data)
  {
  }

  predicate HandedOver(t: Transcript, i: nat) {
    exists k :: 0 <= k < |t.handoffs| && t.handoffs[k].at == i
  }

  predicate Explained(cfg: Settings, implicitTls: bool, t: Transcript, i: nat)
    requires i < |t.events|
  {
    && t.events[i].reply == ReplyAfter(cfg, implicitTls, t.events[..i], t.events[i].command)
    && (HandedOver(t, i) <==> HandsOver(t.events[i]))
  }

  /** Every reply is the one called for, exactly the right ones hand over, and each handoff carries the text read. */
  predicate AllExplained(cfg: Settings, implicitTls: bool, t: Transcript) {
    && (forall i :: 0 <= i < |t.events| ==> Explained(cfg, implicitTls, t, i))
    && (forall k :: 0 <= k < |t.handoffs| ==> CarriesText(t, t.handoffs[k]))
    && (t.closed <==> t.events != [] && EndsConnection(t.events[|t.events| - 1]))
  }

  predicate CarriesText(t: Transcript, h: Handoff) {
    && h.at < |t.events| && t.events[h.at].command.Data?
    && ReadLines(t.events[h.at].command.wire).Received?
    && h.message.data == ReadLines(t.events[h.at].command.wire).data
  }

  lemma ExplainedStays(cfg: Settings, implicitTls: bool, t: Transcript, command: Command, i: nat)
    requires !t.closed && i < |t.events| && Explained(cfg, implicitTls, t, i)
    requires forall k :: 0 <= k < |t.handoffs| ==> t.handoffs[k].at < |t.events|
    ensures Explained(cfg, implicitTls, Exchange(cfg, t, command), i)
  {
    var u := Exchange(cfg, t, command);
    assert u.events[..i] == t.events[..i] && u.events[i] == t.events[i];
    if k :| 0 <= k < |t.handoffs| && t.handoffs[k].at == i {
      assert u.handoffs[k].at == i;
    }
    if k :| 0 <= k < |u.handoffs| && u.handoffs[k].at == i {
      assert k < |t.handoffs| && t.handoffs[k].at == i;
    }
  }

  lemma NewExplained(cfg: Settings, implicitTls: bool, t: Transcript, command: Command)
    requires !t.closed && Consistent(cfg, t.session) && Describes(implicitTls, t.events, t.session)
    requires forall k :: 0 <= k < |t.handoffs| ==> t.handoffs[k].at < |t.events|
    ensures Explained(cfg, implicitTls, Exchange(cfg, t, command), |t.events|)
  {
    var u, effect := Exchange(cfg, t, command), Handle(cfg, t.session, command);
    HandleExplained(cfg, implicitTls, t.events, t.session, command);
    assert u.events[..|t.events|] == t.events && u.events[|t.events|] == Event(command, effect.reply);
    if effect.relayed.Some? {
      assert u.handoffs[|t.handoffs|].at == |t.events|;
    } else {
      assert u.handoffs == t.handoffs;
    }
  }

  lemma ExchangeKeepsExplained(cfg: Settings, implicitTls: bool, t: Transcript, command: Command)
    requires !t.closed && AllExplained(cfg, implicitTls, t)
    requires Consistent(cfg, t.session) && Describes(implicitTls, t.events, t.session)
    ensures AllExplained(cfg, implicitTls, Exchange(cfg, t, command))
  {
    var u := Exchange(cfg, t, command);
    forall i | 0 <= i < |u.events|
      ensures Explained(cfg, implicitTls, u, i)
    {
      if i < |t.events| {
        ExplainedStays(cfg, implicitTls, t, command, i);
      } else {
        NewExplained(cfg, implicitTls, t, command);
      }
    }
    HandleExplained(cfg, implicitTls, t.events, t.session, command);
    forall k | 0 <= k < |u.handoffs|
      ensures CarriesText(u, u.handoffs[k])
    {
      if k < |t.handoffs| {
        assert CarriesText(t, t.handoffs[k]) && u.handoffs[k] == t.handoffs[k];
      }
    }
  }

  /**
   For every command sequence, each reply is exactly the one that the exchanges before it
   call for, and a message is handed over exactly at the DATA exchanges answered 250, 554
   or 451, carrying the text that was read.
   */
  lemma {:induction false} RepliesExplained(cfg: Settings, implicitTls: bool, commands: seq<Command>, t: Transcript)
    requires t == Converse(cfg, implicitTls, commands)
    ensures AllExplained(cfg, implicitTls, t)
  {
    if commands != [] {
      var before := commands[..|commands| - 1];
      var prior := Converse(cfg, implicitTls, before);
      RepliesExplained(cfg, implicitTls, before, prior);
      if !prior.closed {
        HandoffsAuthorized(cfg, implicitTls, before, prior);
        ExchangeKeepsExplained(cfg, implicitTls, prior, commands[|commands| - 1]);
      }
    }
  }

  /**
   The verdict on a submission: 250 if and only if it was handed over and the relay
   accepted it, 554 iff handed over and rejected for good, 451 iff handed over and
   rejected for now; a throttled one is answered 452 and not handed over.
   */
  lemma SubmissionVerdict(cfg: Settings, implicitTls: bool, commands: seq<Command>, t: Transcript, i: nat)
    requires t == Converse(cfg, implicitTls, commands) && i < |t.events| && t.events[i].command.Data?
    ensures var reply, status := t.events[i].reply, t.events[i].command.status;
            && (reply == 250 <==> HandedOver(t, i) && status.RelayAccepted?)
            && (reply == 554 <==> HandedOver(t, i) && status.RelayRejectedPermanent?)
            && (reply == 451 <==> HandedOver(t, i) && status.RelayRejectedTemporary?)
            && (reply == 452 ==> !HandedOver(t, i) && status.RelayThrottled?)
            && (HandedOver(t, i) ==> reply == 250 || reply == 554 || reply == 451)
  {
    RepliesExplained(cfg, implicitTls, commands, t);
    assert Explained(cfg, implicitTls, t, i);
  }

  /**
   The command loop on the session object. What it exchanges and hands to the relay is
   the conversation of the specification, so every handoff is authorized, and every reply
   called for, by the exchanges before it.
   */
  method Serve(cfg: Settings, implicitTls: bool, commands: seq<Command>, bufferSize: nat) returns (t: Transcript)
    requires bufferSize >= 3
    ensures t == Converse(cfg, implicitTls, commands)
    ensures AllAuthorized(cfg, implicitTls, t) && AllExplained(cfg, implicitTls, t)
    ensures !t.closed ==> |t.events| == |commands| && Describes(implicitTls, t.events, t.session)
  {
    var conn := new Connection(cfg, implicitTls);
    t := Transcript(conn.View(), [], [], false);
    var i := 0;
    while i < |commands| && !t.closed
      invariant i <= |commands|
      invariant conn.cfg == cfg && conn.View() == t.session
      invariant t == Converse(cfg, implicitTls, commands[..i]) && (!t.closed ==> |t.events| == i)
    {
      assert commands[..i + 1][..i] == commands[..i];
      var reply, relayed, closed := conn.Dispatch(commands[i], bufferSize);
      var handoffs := if relayed.Some? then t.handoffs + [Handoff(|t.events|, relayed.value)] else t.handoffs;
      t := Transcript(conn.View(), t.events + [Event(commands[i], reply)], handoffs, closed);
      i := i + 1;
    }
    if t.closed {
      ConverseAfterClose(cfg, implicitTls, commands, i);
    } else {
      assert commands[..i] == commands;
    }
    HandoffsAuthorized(cfg, implicitTls, commands, t);
    RepliesExplained(cfg, implicitTls, commands, t);
  }

  lemma {:induction false} ConverseAfterClose(cfg: Settings, implicitTls: bool, commands: seq<Command>, n: nat)
    requires n <= |commands| && Converse(cfg, implicitTls, commands[..n]).closed
    ensures Converse(cfg, implicitTls, commands) == Converse(cfg, implicitTls, commands[..n])
  {
    if n < |commands| {
      var front := commands[..|commands| - 1];
      assert front[..n] == commands[..n];
      ConverseAfterClose(cfg, implicitTls, front, n);
    } else {
      assert commands[..n] == commands;
    }
  }
}
