/**
 Who may send from a domain and who may change an identity, told from the history of
 requests: the owner of a domain is the first who registered it, and it counts as
 verified as long as its last DNS check said so.
 */
module SenderAuthority {
  import opened Wrappers
  import opened Addresses
  import opened IdentityStore

  /** `legacy` marks a seeded domain from before verification existed, until it is checked. */
  datatype Standing = Standing(owner: string, verified: bool, legacy: bool)

  function Seeded(domains: map<string, SenderDomain>, domain: string): Option<Standing> {
    if domain in domains
    then Some(Standing(domains[domain].owner, domains[domain].status.Verified?, domains[domain].status.Legacy?))
    else None
  }

  function StandingAfter(before: Option<Standing>, step: Step, domain: string): Option<Standing> {
    if step.RegisterDomain? && step.domain == domain && before.None? then
      Some(Standing(step.scope.owner, false, false))
    else if step.CheckDomain? && step.domain == domain && before.Some? then
      Some(Standing(before.value.owner, step.verified, false))
    else before
  }

  /** What the requests so far amount to for a domain. */
  function StandingOf(domains: map<string, SenderDomain>, steps: seq<Step>, domain: string): Option<Standing> {
    if steps == [] then Seeded(domains, domain)
    else StandingAfter(StandingOf(domains, steps[..|steps| - 1], domain), steps[|steps| - 1], domain)
  }

  predicate Stands(t: Tables, domain: string, standing: Option<Standing>) {
    && (domain in t.domains <==> standing.Some?)
    && (domain in t.domains ==>
          && t.domains[domain].owner == standing.value.owner
          && (t.domains[domain].status.Verified? <==> standing.value.verified)
          && (t.domains[domain].status.Legacy? <==> standing.value.legacy))
  }

  lemma StepStanding(env: Env, s: State, step: Step, domain: string, before: Option<Standing>)
    requires Enabled(env, s, step) && Stands(s.tables, domain, before)
    ensures Stands(Next(env, s, step).tables, domain, StandingAfter(before, step, domain))
  {
  }

  /** In every run the stored domains are exactly what the requests amount to. */
  lemma {:induction false} StoredStanding(env: Env, domains: map<string, SenderDomain>, steps: seq<Step>, s: State,
                                          domain: string)
    requires Run(env, domains, steps) == Some(s)
    ensures Stands(s.tables, domain, StandingOf(domains, steps, domain))
  {
    if steps != [] {
      var before := Run(env, domains, steps[..|steps| - 1]).value;
      StoredStanding(env, domains, steps[..|steps| - 1], before, domain);
      StepStanding(env, before, steps[|steps| - 1], domain, StandingOf(domains, steps[..|steps| - 1], domain));
    }
  }

  /** The owner of a verified domain, or an admin for one that belongs to nobody and is verified or legacy. */
  predicate MaySend(standing: Option<Standing>, owner: string, admin: bool) {
    && standing.Some?
    && (|| (standing.value.owner == owner && standing.value.verified)
        || (admin && standing.value.owner == "" && (standing.value.verified || standing.value.legacy)))
  }

  lemma AllowedIff(env: Env, domains: map<string, SenderDomain>, steps: seq<Step>, s: State, scope: Scope,
                   domain: string)
    requires Run(env, domains, steps) == Some(s)
    ensures Allowed(s.tables, scope, domain) <==> MaySend(StandingOf(domains, steps, domain), scope.owner, scope.admin)
  {
    StoredStanding(env, domains, steps, s, domain);
  }

  /**
   An identity is created only for an address whose domain the requester may send from by
   then, and a credential is accepted only while the identity's owner may.
   */
  lemma SendersMaySend(env: Env, domains: map<string, SenderDomain>, steps: seq<Step>, s: State, step: Step)
    requires Run(env, domains, steps) == Some(s) && Enabled(env, s, step)
    ensures step.Create? ==>
              MaySend(StandingOf(domains, steps, step.address.domain), step.scope.owner, step.scope.admin)
    ensures step.Lookup? ==>
              && step.target in s.tables.identities
              && (var row := s.tables.identities[step.target];
                  && env.parse(row.email).Some?
                  && MaySend(StandingOf(domains, steps, env.parse(row.email).value.domain), row.owner, true))
  {
    if step.Create? {
      AllowedIff(env, domains, steps, s, step.scope, step.address.domain);
    } else if step.Lookup? {
      var row := s.tables.identities[step.target];
      AllowedIff(env, domains, steps, s, Scope(row.owner, true), env.parse(row.email).value.domain);
    }
  }

  // ---------------------------------------------------------------------------
  // Whose identities a request can change
  // ---------------------------------------------------------------------------

  function Requester(step: Step): Option<Scope> {
    match step
    case RegisterDomain(scope, _, _) => Some(scope)
    case Create(scope, _, _, _, _, _) => Some(scope)
    case UpdateForwarding(scope, _, _, _) => Some(scope)
    case Rotate(scope, _, _, _) => Some(scope)
    case Delete(scope, _, _) => Some(scope)
    case _ => None
  }

  predicate SameIdentity(s: Tables, t: Tables, id: Id)
    requires id in s.identities
  {
    id in t.identities && t.identities[id] == s.identities[id] && Recipients(t, id) == Recipients(s, id)
  }

  /**
   Nobody but an admin changes an active identity or a domain of another owner, and a
   deleted identity changes only by being created again.
   */
  lemma OwnersAreIsolated(env: Env, s: State, step: Step, id: Id, domain: string)
    requires Enabled(env, s, step)
    ensures var t := Next(env, s, step).tables;
            && (id in s.tables.identities && Requester(step).Some? ==>
                  var row, scope := s.tables.identities[id], Requester(step).value;
                  && (!scope.admin && row.owner != scope.owner && row.status.Active? ==> SameIdentity(s.tables, t, id))
                  && (!step.Create? && row.status.Deleted? ==> SameIdentity(s.tables, t, id)))
            && (domain in s.tables.domains && step.RegisterDomain? ==>
                  domain in t.domains && t.domains[domain].owner == s.tables.domains[domain].owner)
  {
    if step.UpdateForwarding? {
      ReplacedRecipients(s.tables, step.target, step.forwardTo, id);
    } else if step.Create? {
      var created := if step.found.Some? then step.found.value else step.freshId;
      ReplacedRecipients(s.tables, created, step.forwardTo, id);
      assert Recipients(Next(env, s, step).tables, id) ==
             Recipients(s.tables.(forwards := Replaced(s.tables.forwards, created, step.forwardTo)), id);
    } else {
      assert Recipients(Next(env, s, step).tables, id) == Recipients(s.tables, id);
    }
  }

  // ---------------------------------------------------------------------------
  // What is handed out works
  // ---------------------------------------------------------------------------

  /** A new identity belongs to its requester and address, and the credential handed out verifies at once. */
  lemma NewCredentialVerifies(env: Env, s: State, step: Step) returns (id: Id)
    requires Enabled(env, s, step) && step.Create?
    ensures var t := Next(env, s, step).tables;
            && Verifies(env, t, step.c.username, step.c.password, id)
            && t.identities[id].owner == step.scope.owner && t.identities[id].email == step.address.value
            && Recipients(t, id) == Values(step.forwardTo)
  {
    id := if step.found.Some? then step.found.value else step.freshId;
    ReplacedRecipients(s.tables, id, step.forwardTo, id);
    assert Recipients(Next(env, s, step).tables, id) ==
           Recipients(s.tables.(forwards := Replaced(s.tables.forwards, id, step.forwardTo)), id);
  }

  /** After a rotation the new credential verifies exactly if the identity's owner may still send. */
  lemma RotatedCredentialVerifies(env: Env, s: State, step: Step)
    requires Inv(env, s) && Enabled(env, s, step) && step.Rotate?
    ensures var t := Next(env, s, step).tables;
            && step.target in t.identities
            && (var row := t.identities[step.target];
                && env.parse(row.email).Some?
                && (Verifies(env, t, step.c.username, step.c.password, step.target) <==>
                    Allowed(s.tables, Scope(row.owner, true), env.parse(row.email).value.domain)))
  {
    assert RowSound(env, s.tables, s.tables.identities[step.target]);
  }
}
