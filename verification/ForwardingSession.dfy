/**
 One inbound forwarding session. A recipient is accepted when it resolves to a
 route; at the end of DATA the message goes out once per distinct route address,
 in ascending order, stopping at the first failure.
 */
module ForwardingSession {
  import opened Wrappers
  import opened Addresses
  import opened DataReader
  import opened Routes

  datatype Settings = Settings(maxMessageBytes: nat, maxRecipients: nat)

  /** A sender mailbox, or the null path. */
  datatype ReversePath = NullPath | Sender(address: Address)

  datatype Session = Session(mailFrom: Option<ReversePath>, recipients: seq<Address>, routes: map<string, Route>)

  datatype Message = Message(from: ReversePath, recipients: seq<Address>, data: string)

  datatype Resolution = Resolved(route: Route) | NoRoute | LookupFailed

  /**
   `delivers` says for which routes the forwarder succeeds this time. Text that breaks
   off either ends the stream (`ended`) or merely timed out.
   */
  datatype Command =
    | Hello
    | Mail(sender: Option<ReversePath>)
    | Rcpt(path: Option<Address>, resolution: Resolution)
    | Data(wire: string, ended: bool, delivers: Route -> bool)
    | Reset
    | Noop
    | Quit
    | Unknown

  /** The reply (0 when the text breaks off and none is sent), and what was sent to which routes. */
  datatype Effect = Effect(session: Session, reply: nat, sent: Option<Message>, tried: seq<Route>, closed: bool)

  const NO_REPLY := 0
  const EMPTY := Session(None, [], map[])

  // ---------------------------------------------------------------------------
  // Forwarding to the routes of a transaction
  // ---------------------------------------------------------------------------

  /** The routes of a transaction by ascending address. */
  ghost predicate IsOrdered(routes: map<string, Route>, list: seq<Route>) {
    exists keys :: Ascending(keys) && Members(keys) == routes.Keys && Picked(routes, keys, list)
  }

  predicate Picked(routes: map<string, Route>, keys: seq<string>, list: seq<Route>) {
    && |list| == |keys|
    && forall i :: 0 <= i < |keys| ==> keys[i] in routes && list[i] == routes[keys[i]]
  }

  lemma OrderedUnique(routes: map<string, Route>, a: seq<Route>, b: seq<Route>)
    requires IsOrdered(routes, a) && IsOrdered(routes, b)
    ensures a == b
  {
    var ka :| Ascending(ka) && Members(ka) == routes.Keys && Picked(routes, ka, a);
    var kb :| Ascending(kb) && Members(kb) == routes.Keys && Picked(routes, kb, b);
    AscendingUnique(ka, kb);
  }

  method OrderedRoutes(routes: map<string, Route>) returns (list: seq<Route>)
    ensures IsOrdered(routes, list)
  {
    var keys := Sort(routes.Keys);
    list := [];
    var i := 0;
    while i < |keys|
      invariant i <= |keys|
      invariant Picked(routes, keys[..i], list)
    {
      assert keys[i] in Members(keys);
      list := list + [routes[keys[i]]];
      i := i + 1;
    }
    assert keys[..i] == keys;
  }

  /** The routes tried: all of them, or up to and including the first that fails. */
  function Tried(list: seq<Route>, delivers: Route -> bool): seq<Route> {
    if list == [] then []
    else if delivers(list[0]) then [list[0]] + Tried(list[1..], delivers)
    else [list[0]]
  }

  predicate AllDelivered(list: seq<Route>, delivers: Route -> bool) {
    forall i :: 0 <= i < |list| ==> delivers(list[i])
  }

  lemma DeliveredStep(list: seq<Route>, delivers: Route -> bool)
    requires list != [] && delivers(list[0])
    ensures AllDelivered(list, delivers) <==> AllDelivered(list[1..], delivers)
  {
    if AllDelivered(list[1..], delivers) {
      forall i | 0 <= i < |list|
        ensures delivers(list[i])
      {
        assert i > 0 ==> list[i] == list[1..][i - 1];
      }
    }
  }

  /** Either everything was delivered, or the tried routes are a prefix that fails only at its end. */
  lemma {:induction false} TriedMeaning(list: seq<Route>, delivers: Route -> bool)
    ensures var tried := Tried(list, delivers);
            && tried <= list
            && (AllDelivered(list, delivers) ==> tried == list)
            && (!AllDelivered(list, delivers) ==>
                  && tried != [] && !delivers(tried[|tried| - 1])
                  && AllDelivered(tried[..|tried| - 1], delivers))
  {
    if list != [] {
      TriedMeaning(list[1..], delivers);
      assert list == [list[0]] + list[1..];
      if delivers(list[0]) {
        DeliveredStep(list, delivers);
        var later := Tried(list[1..], delivers);
        if later != [] {
          assert Tried(list, delivers)[..|later|] == [list[0]] + later[..|later| - 1];
          DeliveredStep([list[0]] + later[..|later| - 1], delivers);
        }
      }
    }
  }

  method ForwardRoutes(list: seq<Route>, delivers: Route -> bool) returns (ok: bool, tried: seq<Route>)
    ensures ok <==> AllDelivered(list, delivers)
    ensures tried == Tried(list, delivers)
  {
    tried := [];
    var i := 0;
    while i < |list|
      invariant i <= |list|
      invariant AllDelivered(list[..i], delivers)
      invariant tried + Tried(list[i..], delivers) == Tried(list, delivers)
    {
      assert list[i..][1..] == list[i + 1..];
      tried := tried + [list[i]];
      if !delivers(list[i]) {
        return false, tried;
      }
      i := i + 1;
    }
    assert list[..i] == list;
    assert tried + [] == tried;
    return true, tried;
  }

  // ---------------------------------------------------------------------------
  // Commands
  // ---------------------------------------------------------------------------

  function Answer(s: Session, reply: nat): Effect {
    Effect(s, reply, None, [], false)
  }

  function HandleMail(s: Session, path: Option<ReversePath>): Effect {
    if path.None? then Answer(s, 501) else Answer(Session(path, [], map[]), 250)
  }

  function HandleRecipient(cfg: Settings, s: Session, path: Option<Address>, resolution: Resolution): Effect {
    if s.mailFrom.None? then Answer(s, 503)
    else if |s.recipients| >= cfg.maxRecipients then Answer(s, 452)
    else if path.None? then Answer(s, 501)
    else
      match resolution
      case LookupFailed => Answer(s, 451)
      case NoRoute => Answer(s, 550)
      case Resolved(route) =>
        Answer(s.(recipients := s.recipients + [path.value], routes := s.routes[route.address.value := route]), 250)
  }

  datatype DataDecision = Refuse(effect: Effect) | Forward(message: Message)

  /** DATA up to the point where forwarding starts. */
  function DecideData(cfg: Settings, s: Session, read: Outcome, ended: bool): DataDecision {
    if s.mailFrom.None? || s.recipients == [] then Refuse(Answer(s, 503))
    else
      match read
      case Truncated => Refuse(Effect(s, NO_REPLY, None, [], ended))
      case Received(data, _) =>
        if |data| > cfg.maxMessageBytes then Refuse(Answer(EMPTY, 552))
        else Forward(Message(s.mailFrom.value, s.recipients, data))
  }

  /** `list` is the transaction's routes in the order the server forwards to them. */
  function FinishData(message: Message, list: seq<Route>, delivers: Route -> bool): Effect {
    Effect(EMPTY, if AllDelivered(list, delivers) then 250 else 451, Some(message), Tried(list, delivers), false)
  }

  ghost predicate HandlesData(cfg: Settings, s: Session, read: Outcome, ended: bool, delivers: Route -> bool,
                              effect: Effect) {
    match DecideData(cfg, s, read, ended)
    case Refuse(refusal) => effect == refusal
    case Forward(message) => exists list :: IsOrdered(s.routes, list) && effect == FinishData(message, list, delivers)
  }

  ghost predicate Handles(cfg: Settings, s: Session, command: Command, effect: Effect) {
    match command
    case Hello => effect == Answer(s, 250)
    case Mail(path) => effect == HandleMail(s, path)
    case Rcpt(path, resolution) => effect == HandleRecipient(cfg, s, path, resolution)
    case Data(wire, ended, delivers) => HandlesData(cfg, s, ReadLines(wire), ended, delivers, effect)
    case Reset => effect == Answer(EMPTY, 250)
    case Noop => effect == Answer(s, 250)
    case Quit => effect == Effect(s, 221, None, [], true)
    case Unknown => effect == Answer(s, 502)
  }

  class Connection {
    var mailFrom: Option<ReversePath>
    var recipients: seq<Address>
    var routesByAddress: map<string, Route>
    const cfg: Settings

    constructor (cfg: Settings)
      ensures View() == EMPTY && this.cfg == cfg
    {
      mailFrom, recipients, routesByAddress := None, [], map[];
      this.cfg := cfg;
    }

    function View(): Session
      reads this
    {
      Session(mailFrom, recipients, routesByAddress)
    }

    method ResetSession()
      modifies this
      ensures View() == EMPTY
    {
      mailFrom := None;
      recipients := [];
      routesByAddress := map[];
    }

    method Mail(path: Option<ReversePath>) returns (reply: nat)
      modifies this
      ensures Answer(View(), reply) == HandleMail(old(View()), path)
    {
      if path.None? {
        return 501;
      }
      mailFrom := path;
      recipients := [];
      routesByAddress := map[];
      return 250;
    }

    method Recipient(path: Option<Address>, resolution: Resolution) returns (reply: nat)
      modifies this
      ensures Answer(View(), reply) == HandleRecipient(cfg, old(View()), path, resolution)
    {
      if mailFrom.None? {
        return 503;
      }
      if |recipients| >= cfg.maxRecipients {
        return 452;
      }
      if path.None? {
        return 501;
      }
      match resolution
      case LookupFailed => return 451;
      case NoRoute => return 550;
      case Resolved(route) =>
        recipients := recipients + [path.value];
        routesByAddress := routesByAddress[route.address.value := route];
        return 250;
    }

    /**
     Reads and checks the text; either refuses it or yields the message to forward. Bytes
     after the text stay unread.
     */
    method BeginData(reader: BufferedReader, ended: bool) returns (decision: DataDecision)
      requires reader.size >= 3
      modifies this, reader
      ensures decision == DecideData(cfg, old(View()), ReadLines(old(reader.pending)), ended)
      ensures View() == if decision.Refuse? then decision.effect.session else old(View())
      ensures if old(View().mailFrom.None? || View().recipients == [])
              then reader.pending == old(reader.pending)
              else ReadLines(old(reader.pending)).Received? ==> reader.pending == ReadLines(old(reader.pending)).rest
    {
      if mailFrom.None? || |recipients| == 0 {
        return Refuse(Answer(View(), 503));
      }
      var read := ReadData(reader, cfg.maxMessageBytes);
      if read.Err? {
        return Refuse(Effect(View(), NO_REPLY, None, [], ended));
      }
      if read.value.tooLarge {
        ResetSession();
        return Refuse(Answer(View(), 552));
      }
      return Forward(Message(mailFrom.value, recipients, read.value.data));
    }

    /** Forwards to the routes in order and ends the transaction either way. */
    method ForwardMessage(message: Message, delivers: Route -> bool) returns (effect: Effect)
      modifies this
      ensures exists list :: IsOrdered(old(routesByAddress), list) && effect == FinishData(message, list, delivers)
      ensures View() == effect.session
    {
      var list := OrderedRoutes(routesByAddress);
      var ok, tried := ForwardRoutes(list, delivers);
      ResetSession();
      effect := Effect(View(), if ok then 250 else 451, Some(message), tried, false);
      assert effect == FinishData(message, list, delivers);
    }

    method ReceiveData(reader: BufferedReader, ended: bool, delivers: Route -> bool) returns (effect: Effect)
      requires reader.size >= 3
      modifies this, reader
      ensures Handles(cfg, old(View()), Command.Data(old(reader.pending), ended, delivers), effect)
      ensures View() == effect.session
    {
      var decision := BeginData(reader, ended);
      match decision
      case Refuse(refusal) => return refusal;
      case Forward(message) => effect := ForwardMessage(message, delivers);
    }

    /** One round of the command loop. */
    method Dispatch(command: Command, bufferSize: nat) returns (effect: Effect)
      requires bufferSize >= 3
      modifies this
      ensures Handles(cfg, old(View()), command, effect)
      ensures View() == effect.session
    {
      match command
      case Hello => return Answer(View(), 250);
      case Noop => return Answer(View(), 250);
      case Mail(sender) =>
        var reply := Mail(sender);
        return Answer(View(), reply);
      case Rcpt(path, resolution) =>
        var reply := Recipient(path, resolution);
        return Answer(View(), reply);
      case Data(wire, ended, delivers) =>
        var reader := new BufferedReader(wire, bufferSize);
        effect := ReceiveData(reader, ended, delivers);
      case Reset =>
        ResetSession();
        return Answer(View(), 250);
      case Quit => return Effect(View(), 221, None, [], true);
      case Unknown => return Answer(View(), 502);
    }
  }

  // ---------------------------------------------------------------------------
  // Whole sessions
  // ---------------------------------------------------------------------------

  datatype Event = Event(command: Command, reply: nat, sent: Option<Message>, tried: seq<Route>)

  /** The event is how the command was handled. */
  ghost predicate Leads(cfg: Settings, before: Session, e: Event, s: Session) {
    || Handles(cfg, before, e.command, Effect(s, e.reply, e.sent, e.tried, false))
    || Handles(cfg, before, e.command, Effect(s, e.reply, e.sent, e.tried, true))
  }

  /**
   A session's exchanges, each handled from the state the ones before it left. That
   nothing is read once the connection ended is not used and not required.
   */
  ghost predicate IsConversation(cfg: Settings, events: seq<Event>, s: Session) {
    if events == [] then s == EMPTY
    else
      var front, e := events[..|events| - 1], events[|events| - 1];
      exists before :: IsConversation(cfg, front, before) && Leads(cfg, before, e, s)
  }

  /** A mail transaction, from the exchanges alone: its sender, recipients and their routes. */
  datatype Transaction = Transaction(sender: ReversePath, recipients: seq<Address>, accepted: seq<Route>)

  predicate EndsTransaction(e: Event) {
    e.command.Reset? || (e.command.Data? && e.reply != 503 && e.reply != NO_REPLY)
  }

  function TransactionAfter(open: Option<Transaction>, e: Event): Option<Transaction> {
    if EndsTransaction(e) then None
    else if e.command.Mail? && e.command.sender.Some? && e.reply == 250 then
      Some(Transaction(e.command.sender.value, [], []))
    else if open.Some? && e.command.Rcpt? && e.reply == 250 &&
            e.command.path.Some? && e.command.resolution.Resolved? then
      Some(Transaction(open.value.sender, open.value.recipients + [e.command.path.value],
                       open.value.accepted + [e.command.resolution.route]))
    else open
  }

  function OpenTransaction(events: seq<Event>): Option<Transaction> {
    if events == [] then None else TransactionAfter(OpenTransaction(events[..|events| - 1]), events[|events| - 1])
  }

  /** One entry per distinct address; the route resolved last wins. */
  function ByAddress(list: seq<Route>): map<string, Route> {
    if list == [] then map[]
    else
      var last := list[|list| - 1];
      ByAddress(list[..|list| - 1])[last.address.value := last]
  }

  predicate Described(cfg: Settings, open: Option<Transaction>, s: Session) {
    match open
    case None => s == EMPTY
    case Some(t) =>
      && s == Session(Some(t.sender), t.recipients, ByAddress(t.accepted))
      && |t.recipients| == |t.accepted| <= cfg.maxRecipients
  }

  lemma ByAddressGrows(list: seq<Route>, route: Route)
    ensures ByAddress(list + [route]) == ByAddress(list)[route.address.value := route]
  {
    assert (list + [route])[..|list|] == list;
  }

  lemma DataDescribed(cfg: Settings, open: Option<Transaction>, before: Session, e: Event, s: Session)
    requires e.command.Data? && Described(cfg, open, before) && Leads(cfg, before, e, s)
    ensures Described(cfg, TransactionAfter(open, e), s)
  {
    match DecideData(cfg, before, ReadLines(e.command.wire), e.command.ended)
    case Refuse(_) =>
    case Forward(_) => assert s == EMPTY && (e.reply == 250 || e.reply == 451);
  }

  lemma RecipientDescribed(cfg: Settings, open: Option<Transaction>, before: Session, e: Event, s: Session)
    requires e.command.Rcpt? && Described(cfg, open, before) && Leads(cfg, before, e, s)
    ensures Described(cfg, TransactionAfter(open, e), s)
  {
    if open.Some? && e.command.resolution.Resolved? {
      ByAddressGrows(open.value.accepted, e.command.resolution.route);
    }
  }

  lemma EffectDescribed(cfg: Settings, open: Option<Transaction>, before: Session, e: Event, s: Session)
    requires Described(cfg, open, before) && Leads(cfg, before, e, s)
    ensures Described(cfg, TransactionAfter(open, e), s)
  {
    if e.command.Data? {
      DataDescribed(cfg, open, before, e, s);
    } else if e.command.Rcpt? {
      RecipientDescribed(cfg, open, before, e, s);
    }
  }

  lemma {:induction false} ConversationDescribed(cfg: Settings, events: seq<Event>, s: Session)
    requires IsConversation(cfg, events, s)
    ensures Described(cfg, OpenTransaction(events), s)
  {
    if events != [] {
      var e, front := events[|events| - 1], events[..|events| - 1];
      var before :| IsConversation(cfg, front, before) && Leads(cfg, before, e, s);
      ConversationDescribed(cfg, front, before);
      EffectDescribed(cfg, OpenTransaction(front), before, e, s);
    }
  }

  /**
   What a reply to DATA says. 250: the message read from the wire reached each
   distinct address accepted for the open transaction exactly once, in ascending
   order. 451: the routes tried are a prefix of that order that failed exactly at its
   end. Anything else: nothing was sent.
   */
  ghost predicate Verdict(cfg: Settings, open: Option<Transaction>, e: Event)
    requires e.command.Data?
  {
    if e.reply == 250 || e.reply == 451 then
      && open.Some? && open.value.recipients != []
      && (var read := ReadLines(e.command.wire);
          && read.Received? && |read.data| <= cfg.maxMessageBytes
          && e.sent == Some(Message(open.value.sender, open.value.recipients, read.data)))
      && Reached(ByAddress(open.value.accepted), e)
    else e.sent == None && e.tried == []
  }

  ghost predicate Reached(routes: map<string, Route>, e: Event)
    requires e.command.Data?
  {
    if e.reply == 250 then
      routes != map[] && IsOrdered(routes, e.tried) && AllDelivered(e.tried, e.command.delivers)
    else
      && (exists list :: IsOrdered(routes, list) && e.tried <= list)
      && e.tried != [] && !e.command.delivers(e.tried[|e.tried| - 1])
      && AllDelivered(e.tried[..|e.tried| - 1], e.command.delivers)
  }

  lemma ForwardReached(routes: map<string, Route>, message: Message, e: Event)
    requires e.command.Data? && routes != map[]
    requires exists list ::
               IsOrdered(routes, list) &&
               Effect(EMPTY, e.reply, Some(message), e.tried, false) == FinishData(message, list, e.command.delivers)
    ensures Reached(routes, e)
  {
    var list :| IsOrdered(routes, list) &&
                Effect(EMPTY, e.reply, Some(message), e.tried, false) == FinishData(message, list, e.command.delivers);
    TriedMeaning(list, e.command.delivers);
  }

  lemma AcceptedHaveRoutes(accepted: seq<Route>)
    ensures accepted != [] ==> ByAddress(accepted) != map[]
  {
    if accepted != [] {
      assert accepted[|accepted| - 1].address.value in ByAddress(accepted);
    }
  }

  lemma DataVerdictAt(cfg: Settings, open: Option<Transaction>, before: Session, e: Event, s: Session)
    requires e.command.Data? && Described(cfg, open, before) && Leads(cfg, before, e, s)
    ensures Verdict(cfg, open, e)
    ensures e.reply in {250, 451, 552} ==> s == EMPTY
  {
    match DecideData(cfg, before, ReadLines(e.command.wire), e.command.ended)
    case Refuse(_) =>
    case Forward(message) =>
      AcceptedHaveRoutes(open.value.accepted);
      ForwardReached(before.routes, message, e);
  }

  /** For every session and every DATA in it the reply is a true verdict, and ends the transaction. */
  lemma DataVerdict(cfg: Settings, events: seq<Event>, s: Session)
    requires IsConversation(cfg, events, s) && events != []
    requires events[|events| - 1].command.Data?
    ensures Verdict(cfg, OpenTransaction(events[..|events| - 1]), events[|events| - 1])
    ensures events[|events| - 1].reply in {250, 451, 552} ==> s == EMPTY
  {
    var e, front := events[|events| - 1], events[..|events| - 1];
    var before :| IsConversation(cfg, front, before) && Leads(cfg, before, e, s);
    ConversationDescribed(cfg, front, before);
    DataVerdictAt(cfg, OpenTransaction(front), before, e, s);
  }

  // ---------------------------------------------------------------------------
  // What each reply says
  // ---------------------------------------------------------------------------

  /** The forwarder succeeds for the route kept for each accepted address. */
  predicate DeliversAll(routes: map<string, Route>, delivers: Route -> bool) {
    forall key :: key in routes ==> delivers(routes[key])
  }

  predicate RecipientReply(cfg: Settings, open: Option<Transaction>, path: Option<Address>, resolution: Resolution,
                           reply: nat) {
    reply ==
    if open.None? then 503
    else if |open.value.recipients| >= cfg.maxRecipients then 452
    else if path.None? then 501
    else if resolution.LookupFailed? then 451
    else if resolution.NoRoute? then 550
    else 250
  }

  predicate TextReply(cfg: Settings, open: Option<Transaction>, wire: string, delivers: Route -> bool, reply: nat) {
    reply ==
    if open.None? || open.value.recipients == [] then 503
    else
      match ReadLines(wire)
      case Truncated => 0
      case Received(data, _) =>
        if |data| > cfg.maxMessageBytes then 552
        else if DeliversAll(ByAddress(open.value.accepted), delivers) then 250
        else 451
  }

  /** The reply is the one that the exchanges before it call for. */
  predicate CalledFor(cfg: Settings, open: Option<Transaction>, e: Event) {
    match e.command
    case Hello => e.reply == 250
    case Noop => e.reply == 250
    case Reset => e.reply == 250
    case Quit => e.reply == 221
    case Unknown => e.reply == 502
    case Mail(sender) => e.reply == if sender.Some? then 250 else 501
    case Rcpt(path, resolution) => RecipientReply(cfg, open, path, resolution, e.reply)
    case Data(wire, _, delivers) => TextReply(cfg, open, wire, delivers, e.reply)
  }

  lemma OrderedDelivered(routes: map<string, Route>, list: seq<Route>, delivers: Route -> bool)
    requires IsOrdered(routes, list)
    ensures AllDelivered(list, delivers) <==> DeliversAll(routes, delivers)
  {
    var keys :| Ascending(keys) && Members(keys) == routes.Keys && Picked(routes, keys, list);
    if AllDelivered(list, delivers) {
      forall key | key in routes
        ensures delivers(routes[key])
      {
        assert key in Members(keys);
        var i :| 0 <= i < |keys| && keys[i] == key;
        assert list[i] == routes[key];
      }
    }
    if DeliversAll(routes, delivers) {
      forall i | 0 <= i < |list|
        ensures delivers(list[i])
      {
        assert keys[i] in Members(keys);
      }
    }
  }

  lemma DataCalledFor(cfg: Settings, open: Option<Transaction>, before: Session, e: Event, s: Session)
    requires e.command.Data? && Described(cfg, open, before) && Leads(cfg, before, e, s)
    ensures CalledFor(cfg, open, e)
  {
    match DecideData(cfg, before, ReadLines(e.command.wire), e.command.ended)
    case Refuse(_) =>
    case Forward(message) =>
      var list :| IsOrdered(before.routes, list) &&
                  Effect(s, e.reply, e.sent, e.tried, false) == FinishData(message, list, e.command.delivers);
      OrderedDelivered(before.routes, list, e.command.delivers);
  }

  lemma ReplyCalledFor(cfg: Settings, events: seq<Event>, s: Session)
    requires IsConversation(cfg, events, s) && events != []
    ensures CalledFor(cfg, OpenTransaction(events[..|events| - 1]), events[|events| - 1])
  {
    var e, front := events[|events| - 1], events[..|events| - 1];
    var before :| IsConversation(cfg, front, before) && Leads(cfg, before, e, s);
    ConversationDescribed(cfg, front, before);
    if e.command.Data? {
      DataCalledFor(cfg, OpenTransaction(front), before, e, s);
    }
  }

  /** Every reply is the one called for, and every DATA among the exchanges has a true verdict. */
  ghost predicate AllVerdicts(cfg: Settings, events: seq<Event>) {
    forall i :: 0 <= i < |events| ==> IsVerdict(cfg, events[..i], events[i])
  }

  ghost predicate IsVerdict(cfg: Settings, before: seq<Event>, e: Event) {
    && CalledFor(cfg, OpenTransaction(before), e)
    && (e.command.Data? ==> Verdict(cfg, OpenTransaction(before), e))
  }

  ghost predicate Answers(events: seq<Event>, commands: seq<Command>) {
    |events| == |commands| && forall i :: 0 <= i < |events| ==> events[i].command == commands[i]
  }

  lemma ConversationGrows(cfg: Settings, events: seq<Event>, before: Session, e: Event, effect: Effect)
    requires IsConversation(cfg, events, before) && AllVerdicts(cfg, events)
    requires Handles(cfg, before, e.command, effect) && e == Event(e.command, effect.reply, effect.sent, effect.tried)
    ensures IsConversation(cfg, events + [e], effect.session) && AllVerdicts(cfg, events + [e])
  {
    var more := events + [e];
    assert more[..|events|] == events;
    assert Effect(effect.session, e.reply, e.sent, e.tried, effect.closed) == effect;
    assert Leads(cfg, before, e, effect.session);
    forall i | 0 <= i < |more|
      ensures IsVerdict(cfg, more[..i], more[i])
    {
      if i < |events| {
        assert more[..i] == events[..i] && more[i] == events[i];
        assert IsVerdict(cfg, events[..i], events[i]);
      } else {
        ReplyCalledFor(cfg, more, effect.session);
        if e.command.Data? {
          DataVerdict(cfg, more, effect.session);
        }
      }
    }
  }

  /** The connection ends with this exchange. */
  predicate EndsConnection(e: Event) {
    e.command.Quit? || (e.command.Data? && e.command.ended && e.reply == 0)
  }

  lemma ClosesIff(cfg: Settings, s: Session, command: Command, effect: Effect)
    requires Handles(cfg, s, command, effect)
    ensures effect.closed <==> EndsConnection(Event(command, effect.reply, effect.sent, effect.tried))
  {
  }

  /**
   The command loop on the session object: its exchanges are a conversation that
   answers the commands up to the one that ended the connection, every reply is the one
   the exchanges before it call for, and every reply to a DATA is a true verdict.
   */
  method Serve(cfg: Settings, commands: seq<Command>, bufferSize: nat)
    returns (events: seq<Event>, s: Session, closed: bool)
    requires bufferSize >= 3
    ensures IsConversation(cfg, events, s) && AllVerdicts(cfg, events)
    ensures |events| <= |commands| && Answers(events, commands[..|events|])
    ensures closed || |events| == |commands|
    ensures closed <==> events != [] && EndsConnection(events[|events| - 1])
  {
    var conn := new Connection(cfg);
    events, s, closed := [], conn.View(), false;
    while |events| < |commands| && !closed
      invariant |events| <= |commands| && Answers(events, commands[..|events|])
      invariant conn.cfg == cfg && conn.View() == s
      invariant IsConversation(cfg, events, s) && AllVerdicts(cfg, events)
      invariant closed <==> events != [] && EndsConnection(events[|events| - 1])
      decreases |commands| - |events|
    {
      var command := commands[|events|];
      var effect := conn.Dispatch(command, bufferSize);
      var e := Event(command, effect.reply, effect.sent, effect.tried);
      ConversationGrows(cfg, events, s, e, effect);
      ClosesIff(cfg, s, command, effect);
      events, s, closed := events + [e], conn.View(), effect.closed;
    }
  }
}
