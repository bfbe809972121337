/**
 The life of SMTP identities: registering sender domains, creating, reactivating,
 rotating and deleting identities, and authenticating against them. Each change is
 one atomic step; authentication is two, a lookup and a conditional update, with any
 other steps in between.
 */
module IdentityStore {
  import opened Wrappers
  import opened Addresses
  import Routes
  import Text

  type Id = string

  /** Library functions: the keyed digest, decryption, address parsing and lower-casing. */
  datatype Env = Env(digest: (string, string) -> string, decrypt: string -> Option<string>,
                     parse: string -> Option<Address>, lower: string -> string)

  datatype Status = Active | Deleted

  datatype Identity = Identity(owner: string, email: string, username: string, salt: string,
                               digest: string, cipher: string, status: Status, lastUsed: Option<int>)

  /** `Legacy` is the empty status of rows seeded before domain verification existed. */
  datatype DomainStatus = Legacy | Pending | Verified

  datatype SenderDomain = SenderDomain(owner: string, status: DomainStatus, token: string)

  /** One mailbox that receives copies of an identity's inbound mail. */
  datatype Forward = Forward(identity: Id, email: string)

  datatype Tables = Tables(identities: map<Id, Identity>, forwards: set<Forward>, domains: map<string, SenderDomain>)

  /** Who asks; `owner` is already normalised. */
  datatype Scope = Scope(owner: string, admin: bool)

  /** What one call to the credential generator yields. */
  datatype Credential = Credential(username: string, salt: string, password: string, cipher: string)

  // ---------------------------------------------------------------------------
  // Conditions
  // ---------------------------------------------------------------------------

  /** A normalised address parses to itself. */
  predicate Parses(env: Env, a: Address) {
    a.value != "" && env.parse(a.value) == Some(a)
  }

  /** The domain may be used for sending: verified by this owner, or unowned and asked for by an admin. */
  predicate Allowed(t: Tables, scope: Scope, domain: string) {
    domain in t.domains &&
    var d := t.domains[domain];
    || (d.owner == scope.owner && d.status.Verified?)
    || (scope.admin && d.owner == "" && (d.status.Verified? || d.status.Legacy?))
  }

  /** Nonempty, without blanks or repetitions, and not the identity itself. */
  predicate ValidRecipients(address: string, forwardTo: seq<Address>) {
    && forwardTo != []
    && Routes.NoneBlank(forwardTo)
    && Routes.Distinct(forwardTo)
    && forall i :: 0 <= i < |forwardTo| ==> forwardTo[i].value != address
  }

  /** The row an id-and-scope query may return; an empty id does not constrain the query. */
  predicate Finds(t: Tables, scope: Scope, id: Id, target: Id) {
    && target in t.identities
    && t.identities[target].status.Active?
    && (id == "" || target == id)
    && (scope.admin || t.identities[target].owner == scope.owner)
  }

  /** The row holding an address, if any. */
  predicate FindsEmail(t: Tables, email: string, found: Option<Id>) {
    match found
    case Some(id) => id in t.identities && t.identities[id].email == email
    case None => forall id :: id in t.identities ==> t.identities[id].email != email
  }

  // ---------------------------------------------------------------------------
  // Changes to the tables
  // ---------------------------------------------------------------------------

  function Values(forwardTo: seq<Address>): set<string> {
    set a | a in forwardTo :: a.value
  }

  function Rows(id: Id, forwardTo: seq<Address>): set<Forward> {
    set a | a in forwardTo :: Forward(id, a.value)
  }

  /** Deletes an identity's forwarding rows and writes the new ones. */
  function Replaced(forwards: set<Forward>, id: Id, forwardTo: seq<Address>): set<Forward> {
    (set f | f in forwards && f.identity != id) + Rows(id, forwardTo)
  }

  function Issued(env: Env, row: Identity, c: Credential): Identity {
    row.(username := c.username, salt := c.salt, digest := env.digest(c.salt, c.password), cipher := c.cipher)
  }

  function AfterCreate(env: Env, t: Tables, scope: Scope, address: Address, forwardTo: seq<Address>,
                       found: Option<Id>, freshId: Id, c: Credential): Tables
    requires found.Some? ==> found.value in t.identities
  {
    var id := if found.Some? then found.value else freshId;
    var row := if found.Some?
               then Issued(env, t.identities[id], c).(owner := scope.owner, status := Active, lastUsed := None)
               else Issued(env, Identity(scope.owner, address.value, "", "", "", "", Active, None), c);
    t.(identities := t.identities[id := row], forwards := Replaced(t.forwards, id, forwardTo))
  }

  function AfterForwarding(t: Tables, target: Id, forwardTo: seq<Address>): Tables {
    t.(forwards := Replaced(t.forwards, target, forwardTo))
  }

  function AfterRotate(env: Env, t: Tables, target: Id, c: Credential): Tables
    requires target in t.identities
  {
    t.(identities := t.identities[target := Issued(env, t.identities[target], c)])
  }

  function AfterDelete(t: Tables, target: Id): Tables
    requires target in t.identities
  {
    t.(identities := t.identities[target := t.identities[target].(status := Deleted)])
  }

  /** A new domain is pending; a known one only gets a token if its own is blank. */
  function AfterRegister(t: Tables, scope: Scope, domain: string, token: string): Tables {
    var d := if domain !in t.domains then SenderDomain(scope.owner, Pending, token)
             else if Text.TrimSpace(t.domains[domain].token) == "" then t.domains[domain].(token := token)
             else t.domains[domain];
    t.(domains := t.domains[domain := d])
  }

  /** Stores the outcome of a DNS check, and a token if the row's is blank. */
  function AfterDomainCheck(t: Tables, domain: string, verified: bool, token: string): Tables
    requires domain in t.domains
  {
    var d := t.domains[domain];
    t.(domains := t.domains[domain := SenderDomain(d.owner, if verified then Verified else Pending,
                                                   if Text.TrimSpace(d.token) == "" then token else d.token)])
  }

  /** The rows with one status and last use changed. */
  function Touched(rows: map<Id, Identity>, id: Id, status: Status, lastUsed: Option<int>): map<Id, Identity>
    requires id in rows
  {
    rows[id := rows[id].(status := status, lastUsed := lastUsed)]
  }

  /** The row the conditional update of an authentication would touch. */
  predicate Marks(t: Tables, id: Id, username: string) {
    id in t.identities && t.identities[id].status.Active? && t.identities[id].username == username
  }

  function AfterMark(t: Tables, id: Id, username: string, now: int): Tables {
    if Marks(t, id, username) then t.(identities := t.identities[id := t.identities[id].(lastUsed := Some(now))]) else t
  }

  /** The lookup half of authentication: an active row, the right password, an allowed domain. */
  predicate Verifies(env: Env, t: Tables, username: string, password: string, target: Id) {
    && target in t.identities
    && var row := t.identities[target];
    && row.status.Active? && row.username == username
    && env.digest(row.salt, password) == row.digest
    && env.parse(row.email).Some?
    && Allowed(t, Scope(row.owner, true), env.parse(row.email).value.domain)
  }

  // ---------------------------------------------------------------------------
  // Runs
  // ---------------------------------------------------------------------------

  /** What was handed out under a username. */
  datatype Issue = Issue(id: Id, salt: string, password: string, cipher: string)

  /** An authentication between its two halves. */
  datatype Attempt = Attempt(id: Id, username: string, password: string, email: string)

  /**
   The tables, and what the claims speak about: the recipient lists last accepted,
   every credential ever issued, and authentications under way.
   */
  datatype State = State(tables: Tables, accepted: map<Id, seq<Address>>, issued: map<string, Issue>,
                         attempts: map<nat, Attempt>)

  datatype Step =
    | RegisterDomain(scope: Scope, domain: string, token: string)
    | CheckDomain(domain: string, verified: bool, token: string)
    | Create(scope: Scope, address: Address, forwardTo: seq<Address>, found: Option<Id>, freshId: Id, c: Credential)
    | UpdateForwarding(scope: Scope, id: Id, target: Id, forwardTo: seq<Address>)
    | Rotate(scope: Scope, id: Id, target: Id, c: Credential)
    | Delete(scope: Scope, id: Id, target: Id)
    | Lookup(attempt: nat, username: string, password: string, target: Id)
    | Mark(attempt: nat, now: int)

  predicate AllParse(env: Env, forwardTo: seq<Address>) {
    forall i :: 0 <= i < |forwardTo| ==> Parses(env, forwardTo[i])
  }

  /** Usernames are never issued twice, and the cipher hides the password it was made from. */
  predicate Fresh(env: Env, s: State, c: Credential) {
    c.username !in s.issued && env.decrypt(c.cipher) == Some(c.password)
  }

  /** The requests that go through; a refused one leaves everything as it was. */
  predicate Enabled(env: Env, s: State, step: Step) {
    match step
    case RegisterDomain(scope, domain, _) =>
      domain !in s.tables.domains || scope.admin || s.tables.domains[domain].owner == scope.owner
    case CheckDomain(domain, _, _) => domain in s.tables.domains
    case Create(scope, address, forwardTo, found, freshId, c) =>
      && Parses(env, address) && AllParse(env, forwardTo)
      && Allowed(s.tables, scope, address.domain)
      && ValidRecipients(address.value, forwardTo)
      && FindsEmail(s.tables, address.value, found)
      && (found.Some? ==> s.tables.identities[found.value].status.Deleted?)
      && freshId !in s.tables.identities
      && Fresh(env, s, c)
    case UpdateForwarding(scope, id, target, forwardTo) =>
      && Finds(s.tables, scope, id, target) && AllParse(env, forwardTo)
      && ValidRecipients(s.tables.identities[target].email, forwardTo)
    case Rotate(scope, id, target, c) => Finds(s.tables, scope, id, target) && Fresh(env, s, c)
    case Delete(scope, id, target) => Finds(s.tables, scope, id, target)
    case Lookup(attempt, username, password, target) => Verifies(env, s.tables, username, password, target)
    case Mark(attempt, _) => attempt in s.attempts
  }

  function Next(env: Env, s: State, step: Step): State
    requires Enabled(env, s, step)
  {
    match step
    case RegisterDomain(scope, domain, token) => s.(tables := AfterRegister(s.tables, scope, domain, token))
    case CheckDomain(domain, verified, token) => s.(tables := AfterDomainCheck(s.tables, domain, verified, token))
    case Create(scope, address, forwardTo, found, freshId, c) =>
      var id := if found.Some? then found.value else freshId;
      s.(tables := AfterCreate(env, s.tables, scope, address, forwardTo, found, freshId, c),
         accepted := s.accepted[id := forwardTo],
         issued := s.issued[c.username := Issue(id, c.salt, c.password, c.cipher)])
    case UpdateForwarding(_, _, target, forwardTo) =>
      s.(tables := AfterForwarding(s.tables, target, forwardTo), accepted := s.accepted[target := forwardTo])
    case Rotate(_, _, target, c) =>
      s.(tables := AfterRotate(env, s.tables, target, c),
         issued := s.issued[c.username := Issue(target, c.salt, c.password, c.cipher)])
    case Delete(_, _, target) => s.(tables := AfterDelete(s.tables, target))
    case Lookup(attempt, username, password, target) =>
      s.(attempts := s.attempts[attempt := Attempt(target, username, password, s.tables.identities[target].email)])
    case Mark(attempt, now) =>
      var a := s.attempts[attempt];
      s.(tables := AfterMark(s.tables, a.id, a.username, now), attempts := s.attempts - {attempt})
  }

  /** No identities yet; whatever domains were seeded. */
  function Initial(domains: map<string, SenderDomain>): State {
    State(Tables(map[], {}, domains), map[], map[], map[])
  }

  function Run(env: Env, domains: map<string, SenderDomain>, steps: seq<Step>): Option<State> {
    if steps == [] then Some(Initial(domains))
    else
      match Run(env, domains, steps[..|steps| - 1])
      case None => None
      case Some(s) =>
        var step := steps[|steps| - 1];
        if Enabled(env, s, step) then Some(Next(env, s, step)) else None
  }

  // ---------------------------------------------------------------------------
  // The invariant
  // ---------------------------------------------------------------------------

  predicate UsernamesUnique(t: Tables) {
    var rows := t.identities;
    forall a, b :: a in rows && b in rows && rows[a].username == rows[b].username ==> a == b
  }

  predicate EmailsUnique(t: Tables) {
    forall a, b :: a in t.identities && b in t.identities && t.identities[a].email == t.identities[b].email ==> a == b
  }

  /** The address is well formed and its domain is registered to the same owner or to nobody. */
  predicate RowSound(env: Env, t: Tables, row: Identity) {
    && row.email != "" && env.parse(row.email).Some? && env.parse(row.email).value.value == row.email
    && var domain := env.parse(row.email).value.domain;
    && domain in t.domains && (t.domains[domain].owner == row.owner || t.domains[domain].owner == "")
  }

  predicate RowsSound(env: Env, t: Tables) {
    forall id :: id in t.identities ==> RowSound(env, t, t.identities[id])
  }

  /** The stored recipients of an identity. */
  function Recipients(t: Tables, id: Id): set<string> {
    set f | f in t.forwards && f.identity == id :: f.email
  }

  predicate ForwardsSound(env: Env, s: State) {
    forall id :: id in s.tables.identities ==>
      && id in s.accepted
      && AllParse(env, s.accepted[id])
      && ValidRecipients(s.tables.identities[id].email, s.accepted[id])
      && Recipients(s.tables, id) == Values(s.accepted[id])
  }

  /** The row holds a credential that was issued for it. */
  predicate HoldsIssue(env: Env, issued: map<string, Issue>, id: Id, row: Identity) {
    && row.username in issued
    && var issue := issued[row.username];
    && issue.id == id && issue.salt == row.salt && issue.cipher == row.cipher
    && row.digest == env.digest(issue.salt, issue.password)
  }

  predicate CredentialsSound(env: Env, s: State) {
    && (forall id :: id in s.tables.identities ==> HoldsIssue(env, s.issued, id, s.tables.identities[id]))
    && (forall u :: u in s.issued ==> env.decrypt(s.issued[u].cipher) == Some(s.issued[u].password))
  }

  /** The password fits what was issued under the username, to the row that was found. */
  predicate Established(env: Env, issued: map<string, Issue>, a: Attempt) {
    && a.username in issued
    && var issue := issued[a.username];
    && issue.id == a.id
    && env.digest(issue.salt, a.password) == env.digest(issue.salt, issue.password)
  }

  predicate AttemptsSound(env: Env, s: State) {
    forall n :: n in s.attempts ==>
      && Established(env, s.issued, s.attempts[n])
      && s.attempts[n].id in s.tables.identities
      && s.tables.identities[s.attempts[n].id].email == s.attempts[n].email
  }

  predicate Inv(env: Env, s: State) {
    && EmailsUnique(s.tables)
    && RowsSound(env, s.tables)
    && ForwardsSound(env, s)
    && CredentialsSound(env, s)
    && AttemptsSound(env, s)
  }

  // ---------------------------------------------------------------------------
  // Every step keeps it
  // ---------------------------------------------------------------------------

  lemma ReplacedRecipients(t: Tables, id: Id, forwardTo: seq<Address>, other: Id)
    ensures Recipients(t.(forwards := Replaced(t.forwards, id, forwardTo)), other) ==
            if other == id then Values(forwardTo) else Recipients(t, other)
  {
    var u := t.(forwards := Replaced(t.forwards, id, forwardTo));
    if other == id {
      forall v | v in Values(forwardTo)
        ensures v in Recipients(u, id)
      {
        var a :| a in forwardTo && a.value == v;
        assert Forward(id, v) in u.forwards;
      }
    } else {
      forall v | v in Recipients(t, other)
        ensures v in Recipients(u, other)
      {
        assert Forward(other, v) in t.forwards && Forward(other, v) in u.forwards;
      }
    }
  }

  lemma CreateKeepsRows(env: Env, s: State, step: Step)
    requires Inv(env, s) && step.Create? && Enabled(env, s, step)
    ensures var t := Next(env, s, step); EmailsUnique(t.tables) && RowsSound(env, t.tables)
  {
  }

  lemma CreateKeepsForwards(env: Env, s: State, step: Step)
    requires Inv(env, s) && step.Create? && Enabled(env, s, step)
    ensures ForwardsSound(env, Next(env, s, step))
  {
    var t := Next(env, s, step);
    var id := if step.found.Some? then step.found.value else step.freshId;
    var mid := s.tables.(identities := t.tables.identities);
    assert t.tables == mid.(forwards := Replaced(mid.forwards, id, step.forwardTo));
    forall other | other in t.tables.identities
      ensures Recipients(t.tables, other) == Values(t.accepted[other])
    {
      ReplacedRecipients(mid, id, step.forwardTo, other);
      assert Recipients(mid, other) == Recipients(s.tables, other);
    }
  }

  /** Handing out a fresh credential: the common part of creating, reactivating and rotating. */
  lemma IssueKeepsCredentials(env: Env, s: State, t: State, id: Id, row: Identity, c: Credential)
    requires CredentialsSound(env, s) && AttemptsSound(env, s) && Fresh(env, s, c)
    requires t.tables.identities == s.tables.identities[id := row] && t.attempts == s.attempts
    requires t.issued == s.issued[c.username := Issue(id, c.salt, c.password, c.cipher)]
    requires row.username == c.username && row.salt == c.salt && row.cipher == c.cipher
    requires row.digest == env.digest(c.salt, c.password)
    requires id in s.tables.identities ==> row.email == s.tables.identities[id].email
    ensures CredentialsSound(env, t) && AttemptsSound(env, t)
  {
    forall other | other in t.tables.identities
      ensures HoldsIssue(env, t.issued, other, t.tables.identities[other])
    {
      if other != id {
        assert HoldsIssue(env, s.issued, other, s.tables.identities[other]);
      }
    }
    forall n | n in t.attempts
      ensures Established(env, t.issued, t.attempts[n])
    {
      assert Established(env, s.issued, s.attempts[n]);
    }
  }

  lemma CreateKeepsCredentials(env: Env, s: State, step: Step)
    requires Inv(env, s) && step.Create? && Enabled(env, s, step)
    ensures var t := Next(env, s, step); CredentialsSound(env, t) && AttemptsSound(env, t)
  {
    var t := Next(env, s, step);
    var id := if step.found.Some? then step.found.value else step.freshId;
    IssueKeepsCredentials(env, s, t, id, t.tables.identities[id], step.c);
  }

  lemma RotateKeepsInv(env: Env, s: State, step: Step)
    requires Inv(env, s) && step.Rotate? && Enabled(env, s, step)
    ensures Inv(env, Next(env, s, step))
  {
    var t := Next(env, s, step);
    IssueKeepsCredentials(env, s, t, step.target, t.tables.identities[step.target], step.c);
    SameForwardsSound(env, s, t);
  }

  lemma ForwardingKeepsInv(env: Env, s: State, step: Step)
    requires Inv(env, s) && step.UpdateForwarding? && Enabled(env, s, step)
    ensures Inv(env, Next(env, s, step))
  {
    var t := Next(env, s, step);
    forall other | other in t.tables.identities
      ensures Recipients(t.tables, other) == Values(t.accepted[other])
    {
      ReplacedRecipients(s.tables, step.target, step.forwardTo, other);
    }
  }

  lemma SameForwardsSound(env: Env, s: State, t: State)
    requires ForwardsSound(env, s)
    requires t.accepted == s.accepted && t.tables.forwards == s.tables.forwards
    requires t.tables.identities.Keys == s.tables.identities.Keys
    requires forall id :: id in s.tables.identities ==> t.tables.identities[id].email == s.tables.identities[id].email
    ensures ForwardsSound(env, t)
  {
    forall id | id in t.tables.identities
      ensures Recipients(t.tables, id) == Recipients(s.tables, id)
    {
    }
  }

  /** Status and last use are all these steps change on a row. */
  lemma TouchKeepsInv(env: Env, s: State, t: State, id: Id, status: Status, lastUsed: Option<int>)
    requires Inv(env, s) && id in s.tables.identities
    requires t.tables == s.tables.(identities := Touched(s.tables.identities, id, status, lastUsed))
    requires t.accepted == s.accepted && t.issued == s.issued
    requires forall n :: n in t.attempts ==> n in s.attempts && t.attempts[n] == s.attempts[n]
    ensures Inv(env, t)
  {
    TouchKeepsRows(env, s, t, id, status, lastUsed);
    SameForwardsSound(env, s, t);
  }

  lemma TouchKeepsRows(env: Env, s: State, t: State, id: Id, status: Status, lastUsed: Option<int>)
    requires RowsSound(env, s.tables) && CredentialsSound(env, s) && id in s.tables.identities && t.issued == s.issued
    requires t.tables == s.tables.(identities := Touched(s.tables.identities, id, status, lastUsed))
    ensures RowsSound(env, t.tables) && CredentialsSound(env, t)
  {
    forall other | other in t.tables.identities
      ensures RowSound(env, t.tables, t.tables.identities[other])
      ensures HoldsIssue(env, t.issued, other, t.tables.identities[other])
    {
      assert RowSound(env, s.tables, s.tables.identities[other]);
      assert HoldsIssue(env, s.issued, other, s.tables.identities[other]);
    }
  }

  lemma DomainKeepsInv(env: Env, s: State, t: State)
    requires Inv(env, s) && t == s.(tables := s.tables.(domains := t.tables.domains))
    requires forall d :: d in s.tables.domains ==>
               d in t.tables.domains && t.tables.domains[d].owner == s.tables.domains[d].owner
    ensures Inv(env, t)
  {
    forall id | id in t.tables.identities
      ensures RowSound(env, t.tables, t.tables.identities[id])
    {
      assert RowSound(env, s.tables, s.tables.identities[id]);
    }
    SameForwardsSound(env, s, t);
  }

  lemma LookupKeepsInv(env: Env, s: State, step: Step)
    requires Inv(env, s) && step.Lookup? && Enabled(env, s, step)
    ensures Inv(env, Next(env, s, step))
  {
    assert HoldsIssue(env, s.issued, step.target, s.tables.identities[step.target]);
  }

  lemma StepKeepsInv(env: Env, s: State, step: Step)
    requires Inv(env, s) && Enabled(env, s, step)
    ensures Inv(env, Next(env, s, step))
  {
    var t := Next(env, s, step);
    match step
    case RegisterDomain(_, _, _) => DomainKeepsInv(env, s, t);
    case CheckDomain(_, _, _) => DomainKeepsInv(env, s, t);
    case Create(_, _, _, _, _, _) =>
      CreateKeepsRows(env, s, step);
      CreateKeepsForwards(env, s, step);
      CreateKeepsCredentials(env, s, step);
    case UpdateForwarding(_, _, _, _) => ForwardingKeepsInv(env, s, step);
    case Rotate(_, _, _, _) => RotateKeepsInv(env, s, step);
    case Delete(_, _, target) => DeleteKeepsInv(env, s, step);
    case Lookup(_, _, _, _) => LookupKeepsInv(env, s, step);
    case Mark(_, _) => MarkKeepsInv(env, s, step);
  }

  lemma DeleteKeepsInv(env: Env, s: State, step: Step)
    requires Inv(env, s) && step.Delete? && Enabled(env, s, step)
    ensures Inv(env, Next(env, s, step))
  {
    var row := s.tables.identities[step.target];
    TouchKeepsInv(env, s, Next(env, s, step), step.target, Deleted, row.lastUsed);
  }

  lemma MarkKeepsInv(env: Env, s: State, step: Step)
    requires Inv(env, s) && step.Mark? && Enabled(env, s, step)
    ensures Inv(env, Next(env, s, step))
  {
    var a := s.attempts[step.attempt];
    var row := s.tables.identities[a.id];
    var lastUsed := if Marks(s.tables, a.id, a.username) then Some(step.now) else row.lastUsed;
    assert Next(env, s, step).tables.identities ==
           s.tables.identities[a.id := row.(status := row.status, lastUsed := lastUsed)];
    TouchKeepsInv(env, s, Next(env, s, step), a.id, row.status, lastUsed);
  }

  lemma {:induction false} RunKeepsInv(env: Env, domains: map<string, SenderDomain>, steps: seq<Step>, s: State)
    requires Run(env, domains, steps) == Some(s)
    ensures Inv(env, s)
  {
    if steps != [] {
      var before := Run(env, domains, steps[..|steps| - 1]).value;
      RunKeepsInv(env, domains, steps[..|steps| - 1], before);
      StepKeepsInv(env, before, steps[|steps| - 1]);
    }
  }

  // ---------------------------------------------------------------------------
  // Main results
  // ---------------------------------------------------------------------------

  /** In every reachable state a username belongs to one identity at most, as authentication needs. */
  lemma UsernamesStayUnique(env: Env, domains: map<string, SenderDomain>, steps: seq<Step>, s: State)
    requires Run(env, domains, steps) == Some(s)
    ensures UsernamesUnique(s.tables)
  {
    RunKeepsInv(env, domains, steps, s);
    var rows := s.tables.identities;
    forall a, b | a in rows && b in rows && rows[a].username == rows[b].username
      ensures a == b
    {
      assert HoldsIssue(env, s.issued, a, rows[a]) && HoldsIssue(env, s.issued, b, rows[b]);
    }
  }

  /**
   Authentication is sound for every run. Whatever happened between lookup and update
   (rotations, deletions, reactivations), if the update goes through then at that moment
   the presented username and password are the current ones of an active identity, the
   one whose address is returned; and the update changes no status and no credential.
   */
  lemma AuthenticationSound(env: Env, domains: map<string, SenderDomain>, steps: seq<Step>, s: State, attempt: nat,
                            now: int)
    requires Run(env, domains, steps) == Some(s) && attempt in s.attempts
    requires Marks(s.tables, s.attempts[attempt].id, s.attempts[attempt].username)
    ensures var a := s.attempts[attempt];
            var row := s.tables.identities[a.id];
            && row.status.Active? && row.username == a.username && row.email == a.email
            && env.digest(row.salt, a.password) == row.digest
    ensures var t := Next(env, s, Mark(attempt, now)).tables;
            && t.identities.Keys == s.tables.identities.Keys
            && t.forwards == s.tables.forwards && t.domains == s.tables.domains
            && forall id :: id in t.identities ==>
                 t.identities[id].(lastUsed := None) == s.tables.identities[id].(lastUsed := None)
  {
    RunKeepsInv(env, domains, steps, s);
    var a := s.attempts[attempt];
    assert Established(env, s.issued, a);
    assert HoldsIssue(env, s.issued, a.id, s.tables.identities[a.id]);
  }

  /**
   If the digest has no collisions for a salt, the accepted password is the very one
   handed out when the current credential was issued, and the one shown to the owner.
   */
  lemma OnlyIssuedPasswordAccepted(env: Env, domains: map<string, SenderDomain>, steps: seq<Step>, s: State,
                                   attempt: nat)
    requires Run(env, domains, steps) == Some(s) && attempt in s.attempts
    requires Marks(s.tables, s.attempts[attempt].id, s.attempts[attempt].username)
    requires forall salt, p, q :: env.digest(salt, p) == env.digest(salt, q) ==> p == q
    ensures var a := s.attempts[attempt];
            && a.username in s.issued && a.password == s.issued[a.username].password
            && env.decrypt(s.tables.identities[a.id].cipher) == Some(a.password)
  {
    RunKeepsInv(env, domains, steps, s);
    var a := s.attempts[attempt];
    assert Established(env, s.issued, a);
    assert HoldsIssue(env, s.issued, a.id, s.tables.identities[a.id]);
  }

  /** In every reachable state the password an owner is shown passes verification for that identity. */
  lemma ShownPasswordVerifies(env: Env, domains: map<string, SenderDomain>, steps: seq<Step>, s: State, id: Id)
    requires Run(env, domains, steps) == Some(s) && id in s.tables.identities
    requires s.tables.identities[id].status.Active?
    ensures var row := s.tables.identities[id];
            && env.decrypt(row.cipher).Some? && env.parse(row.email).Some?
            && (Allowed(s.tables, Scope(row.owner, true), env.parse(row.email).value.domain) <==>
                Verifies(env, s.tables, row.username, env.decrypt(row.cipher).value, id))
  {
    RunKeepsInv(env, domains, steps, s);
    assert HoldsIssue(env, s.issued, id, s.tables.identities[id]);
    assert RowSound(env, s.tables, s.tables.identities[id]);
  }

  /** A username that was issued and is no longer an active identity's. */
  predicate Retired(s: State, username: string) {
    && username in s.issued
    && forall id :: id in s.tables.identities && s.tables.identities[id].status.Active? ==>
         s.tables.identities[id].username != username
  }

  lemma StepKeepsRetired(env: Env, s: State, step: Step, username: string)
    requires Enabled(env, s, step) && Retired(s, username)
    ensures Retired(Next(env, s, step), username)
  {
  }

  /** The state after further steps. */
  function Continue(env: Env, s: State, steps: seq<Step>): Option<State> {
    if steps == [] then Some(s)
    else
      match Continue(env, s, steps[..|steps| - 1])
      case None => None
      case Some(t) =>
        var step := steps[|steps| - 1];
        if Enabled(env, t, step) then Some(Next(env, t, step)) else None
  }

  /**
   Rotation and deletion are final: once a credential was replaced or its identity
   deleted, no authentication with it ever goes through again, not even one that had
   passed its lookup before, and not after the identity is reactivated.
   */
  lemma {:induction false} RetiredForever(env: Env, s: State, steps: seq<Step>, t: State, username: string)
    requires Continue(env, s, steps) == Some(t) && Retired(s, username)
    ensures Retired(t, username)
    ensures forall id :: !Marks(t.tables, id, username)
    ensures forall id, password :: !Verifies(env, t.tables, username, password, id)
  {
    if steps != [] {
      var before := Continue(env, s, steps[..|steps| - 1]).value;
      RetiredForever(env, s, steps[..|steps| - 1], before, username);
      StepKeepsRetired(env, before, steps[|steps| - 1], username);
    }
  }

  /** Rotating or deleting an identity retires the credential it had. */
  lemma RotateAndDeleteRetire(env: Env, domains: map<string, SenderDomain>, steps: seq<Step>, s: State, step: Step)
    requires Run(env, domains, steps) == Some(s) && (step.Rotate? || step.Delete?) && Enabled(env, s, step)
    ensures Retired(Next(env, s, step), s.tables.identities[step.target].username)
  {
    RunKeepsInv(env, domains, steps, s);
    assert HoldsIssue(env, s.issued, step.target, s.tables.identities[step.target]);
    forall id | id in s.tables.identities &&
                s.tables.identities[id].username == s.tables.identities[step.target].username
      ensures id == step.target
    {
      assert HoldsIssue(env, s.issued, id, s.tables.identities[id]);
    }
  }

  /** The stored recipients in ascending order, as they are read back. */
  ghost predicate IsForwarding(env: Env, t: Tables, id: Id, list: seq<Address>) {
    exists values ::
      Routes.Ascending(values) && Routes.Members(values) == Recipients(t, id) && ParsedTo(env, values, list)
  }

  predicate ParsedTo(env: Env, values: seq<string>, list: seq<Address>) {
    && |list| == |values|
    && forall i :: 0 <= i < |values| ==> env.parse(values[i]) == Some(list[i])
  }

  /**
   In every reachable state addresses are unique, every identity's stored recipients are
   exactly the list last accepted for it, its domain is registered to its owner or to
   nobody, and a route built from them is never refused.
   */
  lemma RoutesNeverFail(env: Env, domains: map<string, SenderDomain>, steps: seq<Step>, s: State, id: Id,
                        list: seq<Address>)
    requires Run(env, domains, steps) == Some(s) && id in s.tables.identities
    requires IsForwarding(env, s.tables, id, list)
    ensures EmailsUnique(s.tables) && RowSound(env, s.tables, s.tables.identities[id])
    ensures id in s.accepted && multiset(list) == multiset(s.accepted[id])
    ensures s.tables.identities[id].email != "" && ValidRecipients(s.tables.identities[id].email, list)
  {
    RunKeepsInv(env, domains, steps, s);
    var values :| Routes.Ascending(values) && Routes.Members(values) == Recipients(s.tables, id) &&
                  ParsedTo(env, values, list);
    ReadBack(env, values, list, s.accepted[id], s.tables.identities[id].email);
  }

  lemma ReadBack(env: Env, values: seq<string>, list: seq<Address>, accepted: seq<Address>, email: string)
    requires Routes.Ascending(values) && Routes.Members(values) == Values(accepted) && ParsedTo(env, values, list)
    requires AllParse(env, accepted) && ValidRecipients(email, accepted)
    ensures multiset(list) == multiset(accepted) && ValidRecipients(email, list)
  {
    forall i | 0 <= i < |list|
      ensures list[i] in accepted && list[i].value == values[i]
    {
      assert values[i] in Routes.Members(values);
      var a :| a in accepted && a.value == values[i];
      assert exists j :: 0 <= j < |accepted| && accepted[j] == a;
    }
    forall j | 0 <= j < |accepted|
      ensures accepted[j] in list
    {
      assert accepted[j].value in Values(accepted);
      var i :| 0 <= i < |values| && values[i] == accepted[j].value;
      assert Parses(env, accepted[j]);
      assert list[i] == accepted[j];
    }
    assert accepted[0] in list;
    Routes.AscendingDistinct(values);
    assert Routes.Distinct(list);
    SameElements(list, accepted);
  }

  lemma SameElements(a: seq<Address>, b: seq<Address>)
    requires Routes.Distinct(a) && Routes.Distinct(b)
    requires forall i :: 0 <= i < |a| ==> a[i] in b
    requires forall i :: 0 <= i < |b| ==> b[i] in a
    ensures multiset(a) == multiset(b)
  {
    forall x
      ensures multiset(a)[x] == multiset(b)[x]
    {
      CountDistinct(a, x);
      CountDistinct(b, x);
    }
  }

  lemma {:induction false} CountDistinct(a: seq<Address>, x: Address)
    requires Routes.Distinct(a)
    ensures multiset(a)[x] == if x in a then 1 else 0
  {
    if a != [] {
      CountDistinct(a[1..], x);
      assert a == [a[0]] + a[1..];
      assert forall i :: 0 <= i < |a[1..]| ==> a[1..][i] == a[i + 1];
    }
  }
}
