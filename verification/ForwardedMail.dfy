/**
 Inbound mail end to end: an inbound session and the identity store side by side. The
 recipients of a transaction resolve against the store as it is at that moment, and the
 text that was read goes out, rewritten, once per route.
 */
module ForwardedMail {
  import opened Wrappers
  import opened Addresses
  import opened DataReader
  import opened ForwardingSession
  import opened Routes
  import Repository = IdentityRepository
  import Rewriting = ForwardRewrite
  import Store = IdentityStore

  /** What the outbound relay is asked to send. */
  datatype Copy = Copy(from: string, to: seq<string>, text: string)

  function Values(list: seq<Address>): seq<string> {
    seq(|list|, i requires 0 <= i < |list| => list[i].value)
  }

  /** The rewritten text, or the text as it came when it does not parse. */
  function Outgoing(lib: Rewriting.MailLibrary, route: Route, data: string): Copy {
    Copy(route.address.value, Values(route.forwardTo),
         match Rewriting.Rewrite(lib, route.address.value, data)
         case Ok(text) => text
         case Err(_) => data)
  }

  method ForwardRecipientStrings(list: seq<Address>) returns (to: seq<string>)
    ensures to == Values(list)
  {
    to := [];
    var i := 0;
    while i < |list|
      invariant i <= |list| && to == Values(list[..i])
    {
      to := to + [list[i].value];
      i := i + 1;
    }
    assert list[..i] == list;
  }

  /** Rewrites, or falls back to the original, and sends one mail to all recipients of the route. */
  method Forward(lib: Rewriting.MailLibrary, route: Route, data: string, accepts: Copy -> bool) returns (ok: bool)
    ensures ok <==> accepts(Outgoing(lib, route, data))
  {
    var text := data;
    var parsed := Rewriting.Parse(data);
    if parsed.Ok? {
      text := Rewriting.RewriteParsedMessage(lib, route.address.value, parsed.value);
    }
    var to := ForwardRecipientStrings(route.forwardTo);
    ok := accepts(Copy(route.address.value, to, text));
  }

  // ---------------------------------------------------------------------------
  // An inbound session and the identity store, side by side
  // ---------------------------------------------------------------------------

  datatype Setting = Setting(cfg: Settings, env: Store.Env, domains: map<string, Store.SenderDomain>,
                             lib: Rewriting.MailLibrary)

  /** `stores[i]` is the store at the moment of exchange i. */
  datatype World = World(store: Store.State, session: Session, events: seq<Event>, stores: seq<Store.State>)

  /** A change to the store, or one exchange; `accepts` is what the relay answers to copies sent by it. */
  datatype Step =
    | Manage(change: Store.Step)
    | Exchange(command: Command, effect: Effect, accepts: Copy -> bool)

  /** What the resolver may answer from this store; a lookup may also fail. */
  ghost predicate AnswersFrom(store: Store.State, command: Command) {
    command.Rcpt? && command.path.Some? ==>
      match command.resolution
      case Resolved(route) => Repository.IsRouteFor(store, command.path.value, route)
      case NoRoute => forall id :: !Repository.Resolves(store.tables, command.path.value, id)
      case LookupFailed => true
  }

  /** The forwarder succeeds for a route exactly when the relay accepts the route's copy. */
  ghost predicate SendsThrough(lib: Rewriting.MailLibrary, accepts: Copy -> bool, command: Command) {
    command.Data? && ReadLines(command.wire).Received? ==>
      forall route :: command.delivers(route) <==> accepts(Outgoing(lib, route, ReadLines(command.wire).data))
  }

  ghost predicate Enabled(p: Setting, w: World, step: Step) {
    match step
    case Manage(change) => Store.Enabled(p.env, w.store, change)
    case Exchange(command, effect, accepts) =>
      && Handles(p.cfg, w.session, command, effect)
      && AnswersFrom(w.store, command)
      && SendsThrough(p.lib, accepts, command)
  }

  function EventOf(command: Command, effect: Effect): Event {
    Event(command, effect.reply, effect.sent, effect.tried)
  }

  ghost function Next(p: Setting, w: World, step: Step): World
    requires Enabled(p, w, step)
  {
    match step
    case Manage(change) => w.(store := Store.Next(p.env, w.store, change))
    case Exchange(command, effect, _) =>
      w.(session := effect.session, events := w.events + [EventOf(command, effect)], stores := w.stores + [w.store])
  }

  ghost function Run(p: Setting, steps: seq<Step>): Option<World> {
    if steps == [] then Some(World(Store.Initial(p.domains), EMPTY, [], []))
    else
      match Run(p, steps[..|steps| - 1])
      case None => None
      case Some(w) =>
        var step := steps[|steps| - 1];
        if Enabled(p, w, step) then Some(Next(p, w, step)) else None
  }

  ghost predicate AllAnswered(w: World) {
    && |w.stores| == |w.events|
    && forall i :: 0 <= i < |w.events| ==> AnswersFrom(w.stores[i], w.events[i].command)
  }

  ghost predicate Inv(p: Setting, w: World) {
    && IsConversation(p.cfg, w.events, w.session)
    && AllVerdicts(p.cfg, w.events)
    && AllAnswered(w)
  }

  lemma StepKeepsInv(p: Setting, w: World, step: Step)
    requires Inv(p, w) && Enabled(p, w, step)
    ensures Inv(p, Next(p, w, step))
  {
    match step
    case Manage(_) =>
    case Exchange(command, effect, _) =>
      ConversationGrows(p.cfg, w.events, w.session, EventOf(command, effect), effect);
  }

  lemma {:induction false} RunKeepsInv(p: Setting, steps: seq<Step>, w: World)
    requires Run(p, steps) == Some(w)
    ensures Inv(p, w)
  {
    if steps != [] {
      var before := Run(p, steps[..|steps| - 1]).value;
      RunKeepsInv(p, steps[..|steps| - 1], before);
      StepKeepsInv(p, before, steps[|steps| - 1]);
    }
  }

  // ---------------------------------------------------------------------------
  // Which exchanges accepted the recipients of a transaction
  // ---------------------------------------------------------------------------

  predicate AcceptsRecipient(e: Event) {
    e.command.Rcpt? && e.command.path.Some? && e.command.resolution.Resolved? && e.reply == 250
  }

  /** The exchanges that accepted the recipients of the open transaction, in order. */
  function Accepting(events: seq<Event>): seq<nat> {
    if events == [] then []
    else
      var n := |events| - 1;
      var front, e := events[..n], events[n];
      if EndsTransaction(e) || (e.command.Mail? && e.command.sender.Some? && e.reply == 250) then []
      else if OpenTransaction(front).Some? && AcceptsRecipient(e) then Accepting(front) + [n]
      else Accepting(front)
  }

  /** Recipient and route i of the transaction are those of exchange `at[i]`. */
  ghost predicate AcceptedBy(events: seq<Event>, at: seq<nat>, t: Transaction) {
    && |at| == |t.recipients| == |t.accepted|
    && forall i :: 0 <= i < |at| ==>
         && at[i] < |events| && AcceptsRecipient(events[at[i]])
         && events[at[i]].command == Rcpt(Some(t.recipients[i]), Resolved(t.accepted[i]))
  }

  lemma {:induction false} AcceptingMeaning(events: seq<Event>)
    ensures OpenTransaction(events).Some? ==> AcceptedBy(events, Accepting(events), OpenTransaction(events).value)
  {
    if events != [] {
      AcceptingMeaning(events[..|events| - 1]);
    }
  }

  /** The route kept for an accepted address is the one accepted last for it. */
  lemma {:induction false} ByAddressLast(accepted: seq<Route>, i: nat) returns (j: nat)
    requires i < |accepted|
    ensures j < |accepted| && accepted[i].address.value in ByAddress(accepted)
    ensures ByAddress(accepted)[accepted[i].address.value] == accepted[j]
    ensures accepted[j].address.value == accepted[i].address.value
    ensures forall k :: j < k < |accepted| ==> accepted[k].address.value != accepted[i].address.value
    decreases |accepted|
  {
    var n := |accepted| - 1;
    if accepted[n].address.value == accepted[i].address.value {
      j := n;
    } else {
      j := ByAddressLast(accepted[..n], i);
    }
  }

  lemma TriedInOrder(routes: map<string, Route>, list: seq<Route>, key: string) returns (k: nat)
    requires IsOrdered(routes, list) && key in routes
    ensures k < |list| && list[k] == routes[key]
  {
    var keys :| Ascending(keys) && Members(keys) == routes.Keys && Picked(routes, keys, list);
    assert key in Members(keys);
    k :| 0 <= k < |keys| && keys[k] == key;
  }

  // ---------------------------------------------------------------------------
  // What 250 means end to end
  // ---------------------------------------------------------------------------

  lemma RouteDelivered(open: Transaction, e: Event, i: nat) returns (j: nat)
    requires e.command.Data? && e.reply == 250 && Reached(ByAddress(open.accepted), e) && i < |open.accepted|
    ensures j < |open.accepted| && e.command.delivers(open.accepted[j])
    ensures open.accepted[j].address.value == open.accepted[i].address.value
    ensures forall k :: j < k < |open.accepted| ==>
              open.accepted[k].address.value != open.accepted[i].address.value
  {
    j := ByAddressLast(open.accepted, i);
    var k := TriedInOrder(ByAddress(open.accepted), e.tried, open.accepted[i].address.value);
    assert e.tried[k] == open.accepted[j] && e.command.delivers(e.tried[k]);
  }

  lemma VerdictOf(p: Setting, w: World, command: Command, effect: Effect)
    requires Inv(p, w) && Handles(p.cfg, w.session, command, effect) && command.Data?
    ensures Verdict(p.cfg, OpenTransaction(w.events), EventOf(command, effect))
  {
    var e := EventOf(command, effect);
    ConversationGrows(p.cfg, w.events, w.session, e, effect);
    assert (w.events + [e])[..|w.events|] == w.events && (w.events + [e])[|w.events|] == e;
  }

  /**
   The copy comes from the route's address and goes to each of its mailboxes, in order.
   It has the intended headers and the identical body if the text parses, and is the text
   itself otherwise.
   */
  predicate IsCopy(lib: Rewriting.MailLibrary, route: Route, data: string, copy: Copy) {
    && copy.from == route.address.value
    && |copy.to| == |route.forwardTo|
    && (forall k :: 0 <= k < |copy.to| ==> copy.to[k] == route.forwardTo[k].value)
    && match Rewriting.Parse(data)
       case Err(_) => copy.text == data
       case Ok(m) =>
         Rewriting.Parse(copy.text) ==
         Ok(Rewriting.Message(Rewriting.Forwarded(lib, route.address.value, m.headers), m.body))
  }

  lemma OutgoingIsCopy(lib: Rewriting.MailLibrary, route: Route, data: string)
    ensures IsCopy(lib, route, data, Outgoing(lib, route, data))
  {
    match Rewriting.Parse(data)
    case Err(_) =>
    case Ok(m) => Rewriting.RewriteParses(lib, route.address.value, data, m);
  }

  /**
   However the store changes during an inbound session: when DATA is answered 250, then
   for each recipient of the transaction the relay accepted a copy of the text that was
   read, sent to exactly the mailboxes that the store had for that address when the
   transaction last accepted it, at exchange `Accepting(events)[j]`.
   */
  lemma AcceptedMailReachesOwners(p: Setting, steps: seq<Step>, w: World, last: Step, i: nat)
    returns (route: Route, j: nat)
    requires Run(p, steps) == Some(w) && Enabled(p, w, last)
    requires last.Exchange? && last.command.Data? && last.effect.reply == 250
    requires OpenTransaction(w.events).Some? ==> i < |OpenTransaction(w.events).value.recipients|
    ensures OpenTransaction(w.events).Some?
    ensures var open, at := OpenTransaction(w.events).value, Accepting(w.events);
            && |w.stores| == |w.events| && AcceptedBy(w.events, at, open)
            && j < |at| && route == open.accepted[j] && route.address.value == open.recipients[i].value
            && (forall k :: j < k < |at| ==> open.recipients[k].value != open.recipients[i].value)
            && Repository.IsRouteFor(w.stores[at[j]], open.recipients[j], route)
    ensures var read := ReadLines(last.command.wire);
            && read.Received? && last.accepts(Outgoing(p.lib, route, read.data))
            && IsCopy(p.lib, route, read.data, Outgoing(p.lib, route, read.data))
  {
    RunKeepsInv(p, steps, w);
    VerdictOf(p, w, last.command, last.effect);
    AcceptingMeaning(w.events);
    var open, at := OpenTransaction(w.events).value, Accepting(w.events);
    AcceptedAddresses(w, at, open);
    j := RouteDelivered(open, EventOf(last.command, last.effect), i);
    route := open.accepted[j];
    OutgoingIsCopy(p.lib, route, ReadLines(last.command.wire).data);
  }

  lemma AcceptedAddresses(w: World, at: seq<nat>, t: Transaction)
    requires AllAnswered(w) && AcceptedBy(w.events, at, t)
    ensures forall i :: 0 <= i < |at| ==>
              && t.accepted[i].address == t.recipients[i]
              && Repository.IsRouteFor(w.stores[at[i]], t.recipients[i], t.accepted[i])
  {
    forall i | 0 <= i < |at|
      ensures Repository.IsRouteFor(w.stores[at[i]], t.recipients[i], t.accepted[i])
    {
      assert AnswersFrom(w.stores[at[i]], w.events[at[i]].command);
    }
  }
}
