/**
 The identity repository over its tables. Every method states the outcome of each
 check in the order the code makes them, and the new tables through the functions of
 `IdentityStore`.
 */
module IdentityRepository {
  import opened Wrappers
  import opened Addresses
  import opened IdentityStore
  import Routes
  import SenderDomains
  import Text

  datatype Error =
    | SenderDomainNotAllowed
    | IdentityExists
    | IdentityNotFound
    | RecipientsRequired
    | RecipientDuplicate
    | RecipientSelf
    | StoredAddressInvalid
    | AuthenticationFailed
    | SenderDomainExists
    | SenderDomainInvalid

  datatype AuthenticatedIdentity = AuthenticatedIdentity(id: Id, email: Address, username: string)

  /** The recipient list is nonempty and has neither blanks nor repetitions. */
  predicate ListValid(forwardTo: seq<Address>) {
    forwardTo != [] && Routes.NoneBlank(forwardTo) && Routes.Distinct(forwardTo)
  }

  method ValidateForwardRecipients(forwardTo: seq<Address>) returns (r: Option<Error>)
    ensures r.None? <==> ListValid(forwardTo)
    ensures r.Some? ==> r.value.RecipientsRequired? || r.value.RecipientDuplicate?
    ensures r == Some(RecipientDuplicate) ==> !Routes.Distinct(forwardTo)
    ensures r == Some(RecipientsRequired) ==> forwardTo == [] || !Routes.NoneBlank(forwardTo)
  {
    if |forwardTo| == 0 {
      return Some(RecipientsRequired);
    }
    var seen: set<string> := {};
    var i := 0;
    while i < |forwardTo|
      invariant i <= |forwardTo|
      invariant Routes.NoneBlank(forwardTo[..i]) && Routes.Distinct(forwardTo[..i])
      invariant forall v :: v in seen <==> exists j :: 0 <= j < i && forwardTo[j].value == v
    {
      var key := forwardTo[i].value;
      if key == "" {
        return Some(RecipientsRequired);
      }
      if key in seen {
        return Some(RecipientDuplicate);
      }
      seen := seen + {key};
      i := i + 1;
    }
    assert forwardTo[..i] == forwardTo;
    return None;
  }

  predicate TargetsSelf(address: string, forwardTo: seq<Address>) {
    exists i :: 0 <= i < |forwardTo| && forwardTo[i].value == address
  }

  method ValidateForwardRecipientTarget(address: Address, forwardTo: seq<Address>) returns (r: Option<Error>)
    ensures r == if TargetsSelf(address.value, forwardTo) then Some(RecipientSelf) else None
  {
    var i := 0;
    while i < |forwardTo|
      invariant i <= |forwardTo|
      invariant forall j :: 0 <= j < i ==> forwardTo[j].value != address.value
    {
      if forwardTo[i].Equals(address) {
        return Some(RecipientSelf);
      }
      i := i + 1;
    }
    return None;
  }

  /** The identity serves mail for the address. */
  predicate Resolves(t: Tables, address: Address, id: Id) {
    && id in t.identities && t.identities[id].email == address.value && t.identities[id].status.Active?
    && Recipients(t, id) != {}
    && Allowed(t, Scope(t.identities[id].owner, true), address.domain)
  }

  /** A route to exactly the recipients last accepted for an identity that serves the address. */
  ghost predicate IsRouteFor(s: State, address: Address, route: Routes.Route) {
    && route.address == address
    && exists id :: Resolves(s.tables, address, id) && id in s.accepted &&
                    multiset(route.forwardTo) == multiset(s.accepted[id])
  }

  class Repository {
    var identities: map<Id, Identity>
    var forwards: set<Forward>
    var domains: map<string, SenderDomain>
    const env: Env

    constructor (env: Env, domains: map<string, SenderDomain>)
      ensures View() == Initial(domains).tables && this.env == env
    {
      identities, forwards, this.domains := map[], {}, domains;
      this.env := env;
    }

    function View(): Tables
      reads this
    {
      Tables(identities, forwards, domains)
    }

    method SetForwards(id: Id, forwardTo: seq<Address>)
      modifies this`forwards
      ensures forwards == Replaced(old(forwards), id, forwardTo)
    {
      forwards := set f | f in forwards && f.identity != id;
      var rows: set<Forward> := {};
      var i := 0;
      while i < |forwardTo|
        invariant i <= |forwardTo|
        invariant forwards == set f | f in old(forwards) && f.identity != id
        invariant rows == Rows(id, forwardTo[..i])
      {
        assert forwardTo[..i + 1] == forwardTo[..i] + [forwardTo[i]];
        rows := rows + {Forward(id, forwardTo[i].value)};
        i := i + 1;
      }
      assert forwardTo[..i] == forwardTo;
      forwards := forwards + rows;
    }

    /**
     Creates an identity or reactivates a deleted one. Succeeds exactly when the domain
     is allowed, the recipients are valid and no active identity has the address.
     */
    method CreateForScope(scope: Scope, address: Address, forwardTo: seq<Address>, freshId: Id, c: Credential)
      returns (r: Result<Id, Error>, ghost found: Option<Id>)
      requires freshId !in identities
      modifies this
      ensures FindsEmail(old(View()), address.value, found)
      ensures r.Ok? <==>
                && Allowed(old(View()), scope, address.domain)
                && ValidRecipients(address.value, forwardTo)
                && (found.Some? ==> old(identities)[found.value].status.Deleted?)
      ensures r.Ok? ==>
                && r.value == (if found.Some? then found.value else freshId)
                && View() == AfterCreate(env, old(View()), scope, address, forwardTo, found, freshId, c)
      ensures r.Err? ==> View() == old(View())
      ensures !Allowed(old(View()), scope, address.domain) ==> r == Err(SenderDomainNotAllowed)
      ensures r == Err(IdentityExists) ==> found.Some? && old(identities)[found.value].status.Active?
    {
      var existing := FindByEmail(address.value);
      found := existing;
      if !Allowed(View(), scope, address.domain) {
        return Err(SenderDomainNotAllowed), found;
      }
      var listError := ValidateForwardRecipients(forwardTo);
      if listError.Some? {
        return Err(listError.value), found;
      }
      var targetError := ValidateForwardRecipientTarget(address, forwardTo);
      if targetError.Some? {
        return Err(targetError.value), found;
      }
      assert ValidRecipients(address.value, forwardTo);
      if existing.Some? && identities[existing.value].status.Active? {
        return Err(IdentityExists), found;
      }
      var digest := env.digest(c.salt, c.password);
      if existing.Some? {
        var id := existing.value;
        var row := identities[id];
        identities :=
          identities[id := Identity(scope.owner, row.email, c.username, c.salt, digest, c.cipher, Active, None)];
        SetForwards(id, forwardTo);
        return Ok(id), found;
      }
      identities :=
        identities[freshId := Identity(scope.owner, address.value, c.username, c.salt, digest, c.cipher, Active, None)];
      SetForwards(freshId, forwardTo);
      return Ok(freshId), found;
    }

    method FindByEmail(email: string) returns (found: Option<Id>)
      ensures FindsEmail(View(), email, found)
    {
      if id :| id in identities && identities[id].email == email {
        return Some(id);
      }
      return None;
    }

    /** Any row the query may return, or none when there is no such row. */
    method RequireIdentity(scope: Scope, id: Id) returns (r: Result<Id, Error>)
      ensures r.Ok? ==> Finds(View(), scope, Text.TrimSpace(id), r.value)
      ensures r.Err? ==>
                r == Err(IdentityNotFound) && forall target :: !Finds(View(), scope, Text.TrimSpace(id), target)
    {
      var normalized := Text.TrimSpace(id);
      var t := View();
      if target :| target in identities && Finds(t, scope, normalized, target) {
        return Ok(target);
      }
      return Err(IdentityNotFound);
    }

    method UpdateForwardingForScope(scope: Scope, id: Id, forwardTo: seq<Address>) returns (r: Result<Id, Error>)
      modifies this
      ensures r.Ok? ==>
                && Finds(old(View()), scope, Text.TrimSpace(id), r.value)
                && env.parse(old(identities)[r.value].email).Some?
                && ValidRecipients(env.parse(old(identities)[r.value].email).value.value, forwardTo)
                && View() == AfterForwarding(old(View()), r.value, forwardTo)
      ensures r.Err? ==> View() == old(View())
      ensures r == Err(IdentityNotFound) ==> forall target :: !Finds(old(View()), scope, Text.TrimSpace(id), target)
      ensures r == Err(RecipientSelf) ==>
                exists target :: Finds(old(View()), scope, Text.TrimSpace(id), target) &&
                                 env.parse(old(identities)[target].email).Some? &&
                                 TargetsSelf(env.parse(old(identities)[target].email).value.value, forwardTo)
      ensures r == Err(StoredAddressInvalid) ==>
                exists target ::
                  && Finds(old(View()), scope, Text.TrimSpace(id), target)
                  && env.parse(old(identities)[target].email).None?
      ensures r.Err? ==>
                || r.error in {IdentityNotFound, RecipientSelf, StoredAddressInvalid}
                || (r.error in {RecipientsRequired, RecipientDuplicate} && !ListValid(forwardTo))
      ensures !ListValid(forwardTo) ==> r.Err? && r.error in {RecipientsRequired, RecipientDuplicate}
    {
      var listError := ValidateForwardRecipients(forwardTo);
      if listError.Some? {
        return Err(listError.value);
      }
      var record := RequireIdentity(scope, id);
      if record.Err? {
        return record;
      }
      var address := env.parse(identities[record.value].email);
      if address.None? {
        return Err(StoredAddressInvalid);
      }
      var targetError := ValidateForwardRecipientTarget(address.value, forwardTo);
      if targetError.Some? {
        return Err(targetError.value);
      }
      SetForwards(record.value, forwardTo);
      return record;
    }

    method RotateForScope(scope: Scope, id: Id, c: Credential) returns (r: Result<Id, Error>)
      modifies this
      ensures r.Ok? ==>
                && Finds(old(View()), scope, Text.TrimSpace(id), r.value)
                && View() == AfterRotate(env, old(View()), r.value, c)
      ensures r.Err? ==>
                View() == old(View()) && forall target :: !Finds(old(View()), scope, Text.TrimSpace(id), target)
    {
      r := RequireIdentity(scope, id);
      if r.Ok? {
        var row := identities[r.value];
        identities := identities[r.value := row.(username := c.username, salt := c.salt,
                                                 digest := env.digest(c.salt, c.password), cipher := c.cipher)];
      }
    }

    method DeleteForScope(scope: Scope, id: Id) returns (r: Result<Id, Error>)
      modifies this
      ensures r.Ok? ==>
                Finds(old(View()), scope, Text.TrimSpace(id), r.value) && View() == AfterDelete(old(View()), r.value)
      ensures r.Err? ==>
                View() == old(View()) && forall target :: !Finds(old(View()), scope, Text.TrimSpace(id), target)
    {
      r := RequireIdentity(scope, id);
      if r.Ok? {
        identities := identities[r.value := identities[r.value].(status := Deleted)];
      }
    }

    /** The first half of authentication. Usernames are unique, so at most one row can match. */
    method LookupCredential(username: string, password: string) returns (r: Result<Id, Error>)
      requires UsernamesUnique(View())
      ensures r.Ok? ==> Verifies(env, View(), Text.TrimSpace(username), password, r.value)
      ensures r.Err? ==>
                || Text.TrimSpace(username) == "" || Text.TrimSpace(password) == ""
                || forall target :: !Verifies(env, View(), Text.TrimSpace(username), password, target)
      ensures Text.TrimSpace(username) == "" || Text.TrimSpace(password) == "" ==> r == Err(AuthenticationFailed)
    {
      var normalized := Text.TrimSpace(username);
      if normalized == "" || Text.TrimSpace(password) == "" {
        return Err(AuthenticationFailed);
      }
      if id :| id in identities && identities[id].username == normalized && identities[id].status.Active? {
        var row := identities[id];
        if env.digest(row.salt, password) != row.digest {
          return Err(AuthenticationFailed);
        }
        var address := env.parse(row.email);
        if address.None? {
          return Err(StoredAddressInvalid);
        }
        if !Allowed(View(), Scope(row.owner, true), address.value.domain) {
          return Err(AuthenticationFailed);
        }
        return Ok(id);
      }
      return Err(AuthenticationFailed);
    }

    /** The second half: the update that touches a row only if it still has the credential. */
    method MarkUsed(id: Id, username: string, now: int) returns (ok: bool)
      modifies this
      ensures ok <==> Marks(old(View()), id, username)
      ensures View() == AfterMark(old(View()), id, username, now)
    {
      ok := id in identities && identities[id].status.Active? && identities[id].username == username;
      if ok {
        identities := identities[id := identities[id].(lastUsed := Some(now))];
      }
    }

    /**
     Authentication with nothing between its halves: it succeeds exactly when some row
     checks out, yields that row's identity, and changes nothing but its last use.
     */
    method Authenticate(username: string, password: string, now: int) returns (r: Result<AuthenticatedIdentity, Error>)
      requires UsernamesUnique(View())
      modifies this
      ensures r.Ok? <==>
                && Text.TrimSpace(username) != "" && Text.TrimSpace(password) != ""
                && exists target :: Verifies(env, old(View()), Text.TrimSpace(username), password, target)
      ensures r.Ok? ==>
                && Verifies(env, old(View()), Text.TrimSpace(username), password, r.value.id)
                && r.value.username == Text.TrimSpace(username)
                && env.parse(old(identities)[r.value.id].email) == Some(r.value.email)
                && View() == AfterMark(old(View()), r.value.id, r.value.username, now)
                && r.value.id in identities && identities[r.value.id].lastUsed == Some(now)
      ensures r.Err? ==> View() == old(View())
    {
      var found := LookupCredential(username, password);
      assert View() == old(View());
      match found
      case Err(e) => return Err(e);
      case Ok(id) =>
        var row := identities[id];
        var address := env.parse(row.email);
        var marked := MarkUsed(id, row.username, now);
        if !marked {
          return Err(AuthenticationFailed);
        }
        return Ok(AuthenticatedIdentity(id, address.value, row.username));
    }

    /**
     Registers a domain under its normalised name. A blank or malformed domain is
     refused, and so is a domain of another owner to anyone but an admin.
     */
    method CreateSenderDomain(scope: Scope, domain: string, token: string) returns (r: Result<(), Error>)
      modifies this
      ensures var name := SenderDomains.Normalized(env.lower, domain);
              if name.None? || name == Some("") then r == Err(SenderDomainInvalid)
              else
                && r != Err(SenderDomainInvalid)
                && (r.Ok? <==>
                    name.value !in old(domains) || scope.admin || old(domains)[name.value].owner == scope.owner)
                && (r.Ok? ==> View() == AfterRegister(old(View()), scope, name.value, token))
      ensures r.Err? ==> View() == old(View())
    {
      var normalized := SenderDomains.NormalizeSenderDomain(env.lower, domain);
      if normalized.None? || normalized.value == "" {
        return Err(SenderDomainInvalid);
      }
      var name := normalized.value;
      if name in domains {
        var existing := domains[name];
        if existing.owner == scope.owner || scope.admin {
          if Text.TrimSpace(existing.token) == "" {
            domains := domains[name := existing.(token := token)];
          }
          assert domains == AfterRegister(old(View()), scope, name, token).domains;
          return Ok(());
        }
        return Err(SenderDomainExists);
      }
      domains := domains[name := SenderDomain(scope.owner, Pending, token)];
      return Ok(());
    }

    /**
     The forwarding route of an address: present exactly when an active identity has the
     address, has recipients, and may use its domain.
     */
    method ResolveForwarding(address: Address) returns (r: Result<Option<seq<Address>>, Error>)
      requires EmailsUnique(View())
      ensures r.Ok? && r.value.Some? ==>
                exists id :: Resolves(View(), address, id) && IsForwarding(env, View(), id, r.value.value)
      ensures r.Ok? && r.value.None? ==> forall id :: !Resolves(View(), address, id)
      ensures r.Err? ==> exists id, v :: id in identities && v in Recipients(View(), id) && env.parse(v).None?
    {
      if id :| id in identities && identities[id].email == address.value && identities[id].status.Active? {
        var emails := set f | f in forwards && f.identity == id :: f.email;
        assert emails == Recipients(View(), id);
        if emails == {} {
          return Ok(None);
        }
        if !Allowed(View(), Scope(identities[id].owner, true), address.domain) {
          return Ok(None);
        }
        var values := Routes.Sort(emails);
        var list := ParseAll(values);
        if list.None? {
          ghost var v :| v in Routes.Members(values) && env.parse(v).None?;
          assert id in identities && v in Recipients(View(), id);
          return Err(StoredAddressInvalid);
        }
        assert Resolves(View(), address, id) && IsForwarding(env, View(), id, list.value);
        return Ok(Some(list.value));
      }
      return Ok(None);
    }

    method ParseAll(values: seq<string>) returns (list: Option<seq<Address>>)
      ensures list.Some? ==> ParsedTo(env, values, list.value)
      ensures list.None? ==> exists v :: v in Routes.Members(values) && env.parse(v).None?
    {
      var parsed: seq<Address> := [];
      var i := 0;
      while i < |values|
        invariant i <= |values|
        invariant ParsedTo(env, values[..i], parsed)
      {
        var a := env.parse(values[i]);
        if a.None? {
          assert values[i] in Routes.Members(values);
          return None;
        }
        parsed := parsed + [a.value];
        i := i + 1;
      }
      assert values[..i] == values;
      return Some(parsed);
    }
  }

  datatype RouteFailure = LookupError(error: Error) | InvalidRoute(reason: Routes.RouteError)

  /**
   The route resolver of the inbound server. Over the tables of any reachable state it
   never fails: it yields the route to exactly the recipients last accepted for the
   address, or none when no identity serves it.
   */
  method ResolveRoute(repo: Repository, address: Address,
                      ghost domains: map<string, SenderDomain>, ghost steps: seq<Step>, ghost s: State)
    returns (r: Result<Option<Routes.Route>, RouteFailure>)
    requires Run(repo.env, domains, steps) == Some(s) && repo.View() == s.tables && address.value != ""
    ensures r.Ok?
    ensures r.value.None? <==> forall id :: !Resolves(s.tables, address, id)
    ensures r.value.Some? ==> IsRouteFor(s, address, r.value.value)
  {
    assert EmailsUnique(s.tables) by {
      RunKeepsInv(repo.env, domains, steps, s);
    }
    var found := repo.ResolveForwarding(address);
    assert repo.View() == s.tables;
    match found
    case Err(e) =>
      RunKeepsInv(repo.env, domains, steps, s);
      StoredRecipientsParse(repo.env, s);
      return Err(LookupError(e));
    case Ok(None) =>
      assert forall id :: !Resolves(s.tables, address, id);
      return Ok(None);
    case Ok(Some(list)) =>
      ghost var id :| Resolves(s.tables, address, id) && IsForwarding(repo.env, s.tables, id, list);
      RoutesNeverFail(repo.env, domains, steps, s, id, list);
      var route := Routes.NewRoute(address, list);
      match route {
        case Err(reason) => return Err(InvalidRoute(reason));
        case Ok(built) => return Ok(Some(built));
      }
  }

  lemma StoredRecipientsParse(env: Env, s: State)
    requires Inv(env, s)
    ensures forall id, v :: id in s.tables.identities && v in Recipients(s.tables, id) ==> env.parse(v).Some?
  {
    forall id, v | id in s.tables.identities && v in Recipients(s.tables, id)
      ensures env.parse(v).Some?
    {
      assert v in Values(s.accepted[id]);
      var a :| a in s.accepted[id] && a.value == v;
      var i :| 0 <= i < |s.accepted[id]| && s.accepted[id][i] == a;
      assert Parses(env, s.accepted[id][i]);
    }
  }
}
