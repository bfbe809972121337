/**
 Tenant resolution through two caches, host to tenant and tenant to runtime
 configuration, kept consistent with the tables by clearing them on every bootstrap.
 */
module TenantCache {
  import opened Wrappers
  import opened TenantTables
  import TenantBootstrap
  import Text

  datatype EmailCredentials = EmailCredentials(host: string, port: int, username: string, password: string,
                                               from: string)

  datatype SmsCredentials = SmsCredentials(account: string, token: string, from: string)

  datatype Config = Config(id: Id, tenant: Tenant, email: EmailCredentials, sms: Option<SmsCredentials>)

  datatype LoadError = EmptyHost | EmptyId | DomainNotFound | TenantNotFound | EmailProfileMissing | DecryptFailed

  /**
   Which of several matching rows the database returns first, and what it returns when
   an empty id leaves a query unconstrained.
   */
  datatype Selection = Selection(firstEmail: set<EmailRow> -> EmailRow, firstSms: set<SmsRow> -> SmsRow,
                                 unconstrained: Tables -> Result<Config, LoadError>)

  ghost predicate Lawful(env: Env, sel: Selection) {
    && (forall rows :: rows != {} ==> sel.firstEmail(rows) in rows)
    && (forall rows :: rows != {} ==> sel.firstSms(rows) in rows)
    && (forall nonce, text :: env.decrypt(env.encrypt(nonce, text)) == Some(text))
  }

  // ---------------------------------------------------------------------------
  // Resolution straight from the tables
  // ---------------------------------------------------------------------------

  function EmailRows(t: Tables, id: Id): set<EmailRow> {
    set r | r in t.emails && r.tenant == id && r.isDefault
  }

  function SmsRows(t: Tables, id: Id): set<SmsRow> {
    set r | r in t.sms && r.tenant == id && r.isDefault
  }

  function LoadSms(env: Env, sel: Selection, t: Tables, id: Id): Result<Option<SmsCredentials>, LoadError> {
    if SmsRows(t, id) == {} then Ok(None)
    else
      var row := sel.firstSms(SmsRows(t, id));
      match (env.decrypt(row.accountCipher), env.decrypt(row.tokenCipher))
      case (Some(account), Some(token)) => Ok(Some(SmsCredentials(account, token, row.from)))
      case _ => Err(DecryptFailed)
  }

  function LoadEmail(env: Env, sel: Selection, t: Tables, id: Id): Result<EmailCredentials, LoadError>
    requires EmailRows(t, id) != {}
  {
    var row := sel.firstEmail(EmailRows(t, id));
    match (env.decrypt(row.usernameCipher), env.decrypt(row.passwordCipher))
    case (Some(username), Some(password)) => Ok(EmailCredentials(row.host, row.port, username, password, row.from))
    case _ => Err(DecryptFailed)
  }

  function Load(env: Env, sel: Selection, t: Tables, id: Id): Result<Config, LoadError> {
    if id == "" then sel.unconstrained(t)
    else if id !in t.tenants then Err(TenantNotFound)
    else if EmailRows(t, id) == {} then Err(EmailProfileMissing)
    else
      match (LoadSms(env, sel, t, id), LoadEmail(env, sel, t, id))
      case (Ok(sms), Ok(email)) => Ok(Config(id, t.tenants[id], email, sms))
      case (Err(e), _) => Err(e)
      case (_, Err(e)) => Err(e)
  }

  /** Lower case, trimmed, without a port. */
  function NormalizeHost(env: Env, host: string): string {
    var h := env.lower(Text.TrimSpace(host));
    h[..Text.Position(h, ':')]
  }

  function LoadByHost(env: Env, sel: Selection, t: Tables, host: string): Result<Config, LoadError> {
    var h := NormalizeHost(env, host);
    if h == "" then Err(EmptyHost)
    else if h !in t.domains then Err(DomainNotFound)
    else Load(env, sel, t, t.domains[h].tenant)
  }

  function LoadById(env: Env, sel: Selection, t: Tables, id: Id): Result<Config, LoadError> {
    if Text.TrimSpace(id) == "" then Err(EmptyId) else Load(env, sel, t, Text.TrimSpace(id))
  }

  // ---------------------------------------------------------------------------
  // Resolution through the caches
  // ---------------------------------------------------------------------------

  datatype Cache = Cache(runtime: map<Id, Config>, hosts: map<string, Id>)

  const EMPTY := Cache(map[], map[])

  datatype Resolution = Resolution(result: Result<Config, LoadError>, cache: Cache)

  function Runtime(env: Env, sel: Selection, t: Tables, c: Cache, id: Id): Resolution {
    if id in c.runtime then Resolution(Ok(c.runtime[id]), c)
    else
      match Load(env, sel, t, id)
      case Err(e) => Resolution(Err(e), c)
      case Ok(config) => Resolution(Ok(config), if id == "" then c else c.(runtime := c.runtime[id := config]))
  }

  function ResolveByHost(env: Env, sel: Selection, t: Tables, c: Cache, host: string): Resolution {
    var h := NormalizeHost(env, host);
    if h == "" then Resolution(Err(EmptyHost), c)
    else if h in c.hosts then Runtime(env, sel, t, c, c.hosts[h])
    else if h !in t.domains then Resolution(Err(DomainNotFound), c)
    else
      var id := t.domains[h].tenant;
      var r := Runtime(env, sel, t, c, id);
      if r.result.Err? || id == "" then r else r.(cache := r.cache.(hosts := r.cache.hosts[h := id]))
  }

  function ResolveById(env: Env, sel: Selection, t: Tables, c: Cache, id: Id): Resolution {
    if Text.TrimSpace(id) == "" then Resolution(Err(EmptyId), c) else Runtime(env, sel, t, c, Text.TrimSpace(id))
  }

  predicate Agrees(env: Env, sel: Selection, t: Tables, c: Cache) {
    && (forall id :: id in c.runtime ==> Load(env, sel, t, id) == Ok(c.runtime[id]))
    && (forall h :: h in c.hosts ==> h in t.domains && t.domains[h].tenant == c.hosts[h])
  }

  lemma RuntimeAgrees(env: Env, sel: Selection, t: Tables, c: Cache, id: Id)
    requires Agrees(env, sel, t, c)
    ensures Runtime(env, sel, t, c, id).result == Load(env, sel, t, id)
    ensures Agrees(env, sel, t, Runtime(env, sel, t, c, id).cache)
  {
  }

  lemma HostRemembered(env: Env, sel: Selection, t: Tables, c: Cache, host: string)
    requires Agrees(env, sel, t, c) && host in t.domains
    ensures Agrees(env, sel, t, c.(hosts := c.hosts[host := t.domains[host].tenant]))
  {
  }

  lemma CachedResolution(env: Env, sel: Selection, t: Tables, c: Cache, host: string, id: Id)
    requires Agrees(env, sel, t, c)
    ensures ResolveByHost(env, sel, t, c, host).result == LoadByHost(env, sel, t, host)
    ensures ResolveById(env, sel, t, c, id).result == LoadById(env, sel, t, id)
    ensures Agrees(env, sel, t, ResolveByHost(env, sel, t, c, host).cache)
    ensures Agrees(env, sel, t, ResolveById(env, sel, t, c, id).cache)
  {
    RuntimeAgrees(env, sel, t, c, Text.TrimSpace(id));
    var h := NormalizeHost(env, host);
    if h in t.domains {
      RuntimeAgrees(env, sel, t, c, t.domains[h].tenant);
      HostRemembered(env, sel, t, Runtime(env, sel, t, c, t.domains[h].tenant).cache, h);
    }
  }

  // ---------------------------------------------------------------------------
  // Runs: several repositories over one database
  // ---------------------------------------------------------------------------

  datatype State = State(tables: Tables, caches: seq<Cache>)

  /** `stored` is false when the transaction fails to commit for any other reason. */
  datatype Step =
    | NewRepository
    | ByHost(repo: nat, host: string)
    | ById(repo: nat, id: Id)
    | Bootstrap(cfg: seq<Spec>, nonce: nat, stored: bool)

  /** A committed bootstrap clears every registered repository; a failed one changes nothing. */
  function Next(env: Env, sel: Selection, s: State, step: Step): State {
    match step
    case NewRepository => s.(caches := s.caches + [EMPTY])
    case ByHost(repo, host) =>
      if repo < |s.caches|
      then s.(caches := s.caches[repo := ResolveByHost(env, sel, s.tables, s.caches[repo], host).cache]) else s
    case ById(repo, id) =>
      if repo < |s.caches|
      then s.(caches := s.caches[repo := ResolveById(env, sel, s.tables, s.caches[repo], id).cache]) else s
    case Bootstrap(cfg, nonce, stored) =>
      var r := Bootstrapped(env, s.tables, cfg, nonce);
      if r.Ok? && stored then State(r.value, seq(|s.caches|, _ => EMPTY)) else s
  }

  function Run(env: Env, sel: Selection, start: Tables, steps: seq<Step>): State {
    if steps == [] then State(start, [])
    else Next(env, sel, Run(env, sel, start, steps[..|steps| - 1]), steps[|steps| - 1])
  }

  predicate AllAgree(env: Env, sel: Selection, s: State) {
    forall i :: 0 <= i < |s.caches| ==> Agrees(env, sel, s.tables, s.caches[i])
  }

  lemma StepKeepsAgreement(env: Env, sel: Selection, s: State, step: Step)
    requires AllAgree(env, sel, s)
    ensures AllAgree(env, sel, Next(env, sel, s, step))
  {
    if step.ByHost? && step.repo < |s.caches| {
      CachedResolution(env, sel, s.tables, s.caches[step.repo], step.host, "");
    }
    if step.ById? && step.repo < |s.caches| {
      CachedResolution(env, sel, s.tables, s.caches[step.repo], "", step.id);
    }
  }

  lemma {:induction false} RunKeepsAgreement(env: Env, sel: Selection, start: Tables, steps: seq<Step>)
    ensures AllAgree(env, sel, Run(env, sel, start, steps))
  {
    if steps != [] {
      RunKeepsAgreement(env, sel, start, steps[..|steps| - 1]);
      StepKeepsAgreement(env, sel, Run(env, sel, start, steps[..|steps| - 1]), steps[|steps| - 1]);
    }
  }

  /** In every reachable state, through any repository, resolution answers as the tables would. */
  lemma CachesTransparent(env: Env, sel: Selection, start: Tables, steps: seq<Step>, repo: nat, host: string, id: Id)
    requires repo < |Run(env, sel, start, steps).caches|
    ensures var s := Run(env, sel, start, steps);
            && ResolveByHost(env, sel, s.tables, s.caches[repo], host).result == LoadByHost(env, sel, s.tables, host)
            && ResolveById(env, sel, s.tables, s.caches[repo], id).result == LoadById(env, sel, s.tables, id)
  {
    RunKeepsAgreement(env, sel, start, steps);
    var s := Run(env, sel, start, steps);
    CachedResolution(env, sel, s.tables, s.caches[repo], host, id);
  }

  // ---------------------------------------------------------------------------
  // From configuration to resolution
  // ---------------------------------------------------------------------------

  /** The runtime configuration a tenant's entry in the configuration stands for. */
  function Configured(spec: Spec): Config {
    Config(spec.id, TenantOf(spec),
           EmailCredentials(spec.email.host, spec.email.port, spec.email.username, spec.email.password,
                            spec.email.from),
           match spec.sms case None => None case Some(s) => Some(SmsCredentials(s.account, s.token, s.from)))
  }

  lemma ConfiguredEmail(env: Env, sel: Selection, specs: seq<Spec>, nonce: nat, u: Tables, i: nat)
    requires Lawful(env, sel) && TenantBootstrap.DistinctIds(specs) && i < |specs|
    requires TenantBootstrap.EmailsExact(env, specs, nonce, u.emails)
    ensures EmailRows(u, specs[i].id) == {EmailOf(env, specs[i], nonce, i)}
    ensures LoadEmail(env, sel, u, specs[i].id) == Ok(Configured(specs[i]).email)
  {
    var mine := EmailOf(env, specs[i], nonce, i);
    assert mine in EmailRows(u, specs[i].id);
    forall r | r in EmailRows(u, specs[i].id)
      ensures r == mine
    {
      var k :| 0 <= k < |specs| && r == EmailOf(env, specs[k], nonce, k);
      assert specs[k].id == specs[i].id;
    }
    assert sel.firstEmail(EmailRows(u, specs[i].id)) == mine;
  }

  lemma ConfiguredSms(env: Env, sel: Selection, specs: seq<Spec>, nonce: nat, u: Tables, i: nat)
    requires Lawful(env, sel) && TenantBootstrap.DistinctIds(specs) && i < |specs|
    requires TenantBootstrap.SmsExact(env, specs, nonce, u.sms)
    ensures LoadSms(env, sel, u, specs[i].id) == Ok(Configured(specs[i]).sms)
  {
    var mine := SmsOf(env, specs[i], nonce, i);
    forall r | r in SmsRows(u, specs[i].id)
      ensures r in mine
    {
      var k :| 0 <= k < |specs| && r in SmsOf(env, specs[k], nonce, k);
      assert specs[k].id == specs[i].id;
    }
    assert SmsRows(u, specs[i].id) == mine;
    if mine != {} {
      assert sel.firstSms(mine) in mine;
    }
  }

  /**
   Provisioning round trip: after a successful bootstrap with distinct ids, resolving a
   configured tenant yields the very credentials of the configuration, decrypted.
   */
  lemma ConfigurationRoundTrip(env: Env, sel: Selection, t: Tables, cfg: seq<Spec>, nonce: nat, i: nat)
    requires Lawful(env, sel) && TenantBootstrap.DistinctIds(Prepared(env, cfg, nonce))
    requires i < |cfg| && Prepared(env, cfg, nonce)[i].id != ""
    ensures Bootstrapped(env, t, cfg, nonce).Ok? ==>
              Load(env, sel, Bootstrapped(env, t, cfg, nonce).value, Prepared(env, cfg, nonce)[i].id)
              == Ok(Configured(Prepared(env, cfg, nonce)[i]))
  {
    if Bootstrapped(env, t, cfg, nonce).Ok? {
      TenantBootstrap.BootstrapExact(env, t, cfg, nonce);
      ExactLoads(env, sel, Prepared(env, cfg, nonce), nonce, Bootstrapped(env, t, cfg, nonce).value, i);
    }
  }

  /**
   Field by field, against the configuration as it was given: a provisioned tenant loads
   with its names, is active unless it was disabled, and has its own credentials.
   */
  lemma LoadsConfiguredValues(env: Env, sel: Selection, t: Tables, cfg: seq<Spec>, nonce: nat, i: nat)
    returns (loaded: Config)
    requires Lawful(env, sel) && TenantBootstrap.DistinctIds(Prepared(env, cfg, nonce))
    requires i < |cfg| && Prepared(env, cfg, nonce)[i].id != "" && Bootstrapped(env, t, cfg, nonce).Ok?
    ensures Load(env, sel, Bootstrapped(env, t, cfg, nonce).value, Prepared(env, cfg, nonce)[i].id) == Ok(loaded)
    ensures Text.TrimSpace(cfg[i].id) != "" ==> loaded.id == Text.TrimSpace(cfg[i].id)
    ensures loaded.tenant.displayName == cfg[i].displayName && loaded.tenant.supportEmail == cfg[i].supportEmail
    ensures loaded.tenant.status == Suspended <==> cfg[i].enabled == Some(false)
    ensures loaded.email.host == cfg[i].email.host && loaded.email.port == cfg[i].email.port
    ensures loaded.email.username == cfg[i].email.username && loaded.email.password == cfg[i].email.password
    ensures loaded.email.from == cfg[i].email.from
    ensures loaded.sms.Some? <==> cfg[i].sms.Some?
    ensures loaded.sms.Some? ==>
              && loaded.sms.value.account == cfg[i].sms.value.account
              && loaded.sms.value.token == cfg[i].sms.value.token && loaded.sms.value.from == cfg[i].sms.value.from
  {
    ConfigurationRoundTrip(env, sel, t, cfg, nonce, i);
    loaded := Configured(Prepared(env, cfg, nonce)[i]);
  }

  lemma ExactLoads(env: Env, sel: Selection, specs: seq<Spec>, nonce: nat, u: Tables, i: nat)
    requires Lawful(env, sel) && TenantBootstrap.DistinctIds(specs) && i < |specs| && specs[i].id != ""
    requires TenantBootstrap.Exact(env, specs, nonce, u, {})
    ensures Load(env, sel, u, specs[i].id) == Ok(Configured(specs[i]))
  {
    ConfiguredEmail(env, sel, specs, nonce, u, i);
    ConfiguredSms(env, sel, specs, nonce, u, i);
  }

  lemma {:induction false} NoBlankHost(env: Env, entries: seq<string>)
    ensures "" !in NonBlank(env, entries)
  {
    if entries != [] {
      NoBlankHost(env, entries[..|entries| - 1]);
    }
  }

  predicate IdsGiven(specs: seq<Spec>) {
    forall k :: 0 <= k < |specs| ==> specs[k].id != ""
  }

  lemma {:induction false} HostAmongAll(env: Env, specs: seq<Spec>, i: nat, host: string)
    requires i < |specs| && host in Hosts(env, specs[i])
    ensures host in AllHosts(env, specs)
    decreases |specs|
  {
    if i < |specs| - 1 {
      HostAmongAll(env, specs[..|specs| - 1], i, host);
    }
  }

  lemma KnownName(env: Env, specs: seq<Spec>, domains: map<string, Domain>, name: string)
    requires domains.Keys == TenantBootstrap.Elements(AllHosts(env, specs))
    ensures name in domains <==> name in AllHosts(env, specs)
    ensures name in domains ==> name != ""
  {
    if name in AllHosts(env, specs) {
      var k, j := TenantBootstrap.HostBelongs(env, specs, name);
      NoBlankHost(env, specs[k].domains);
    }
  }

  /** A name that resolution looks up belongs to at most one tenant, and loads that tenant. */
  lemma OwnedNameLoads(env: Env, sel: Selection, specs: seq<Spec>, nonce: nat, u: Tables, i: nat, name: string)
    requires Lawful(env, sel) && TenantBootstrap.DistinctIds(specs) && IdsGiven(specs) && i < |specs|
    requires TenantBootstrap.Exact(env, specs, nonce, u, {}) && name in u.domains
    ensures Load(env, sel, u, u.domains[name].tenant).Ok?
    ensures Load(env, sel, u, u.domains[name].tenant) == Ok(Configured(specs[i])) <==> name in Hosts(env, specs[i])
  {
    assert name in AllHosts(env, specs);
    var k, j := TenantBootstrap.HostBelongs(env, specs, name);
    HostOwner(env, specs, u.domains, k, j);
    ExactLoads(env, sel, specs, nonce, u, k);
    if name in Hosts(env, specs[i]) {
      var m :| 0 <= m < |Hosts(env, specs[i])| && Hosts(env, specs[i])[m] == name;
      HostOwner(env, specs, u.domains, i, m);
    }
  }

  lemma ExactHostResolves(env: Env, sel: Selection, specs: seq<Spec>, nonce: nat, u: Tables, i: nat, host: string)
    requires Lawful(env, sel) && TenantBootstrap.DistinctIds(specs) && IdsGiven(specs) && i < |specs|
    requires TenantBootstrap.Exact(env, specs, nonce, u, {})
    ensures LoadByHost(env, sel, u, host) == Ok(Configured(specs[i])) <==>
              NormalizeHost(env, host) in Hosts(env, specs[i])
    ensures LoadByHost(env, sel, u, host).Err? <==> NormalizeHost(env, host) !in AllHosts(env, specs)
  {
    var name := NormalizeHost(env, host);
    KnownName(env, specs, u.domains, name);
    if name in Hosts(env, specs[i]) {
      HostAmongAll(env, specs, i, name);
    }
    if name in u.domains {
      OwnedNameLoads(env, sel, specs, nonce, u, i, name);
    }
  }

  /**
   After a successful bootstrap with distinct nonempty ids, a host resolves to a
   tenant's configuration if and only if its name without the port is one of the hosts
   configured for that tenant, and fails if and only if it is nobody's. So a host that
   is configured with a port resolves to its tenant exactly when the tenant configures
   the bare name too: resolution cuts the port off and provisioning does not.
   */
  lemma ConfiguredHostResolves(env: Env, sel: Selection, t: Tables, cfg: seq<Spec>, nonce: nat, i: nat, host: string)
    requires Lawful(env, sel) && i < |cfg|
    requires TenantBootstrap.DistinctIds(Prepared(env, cfg, nonce)) && IdsGiven(Prepared(env, cfg, nonce))
    ensures Bootstrapped(env, t, cfg, nonce).Ok? ==>
              var specs, u := Prepared(env, cfg, nonce), Bootstrapped(env, t, cfg, nonce).value;
              && (LoadByHost(env, sel, u, host) == Ok(Configured(specs[i])) <==>
                  NormalizeHost(env, host) in Hosts(env, specs[i]))
              && (LoadByHost(env, sel, u, host).Err? <==> NormalizeHost(env, host) !in AllHosts(env, specs))
  {
    if Bootstrapped(env, t, cfg, nonce).Ok? {
      TenantBootstrap.BootstrapExact(env, t, cfg, nonce);
      ExactHostResolves(env, sel, Prepared(env, cfg, nonce), nonce, Bootstrapped(env, t, cfg, nonce).value, i, host);
    }
  }

  lemma OneHost(env: Env, spec: Spec, host: string)
    requires spec.domains == [host] && NormalizeEntry(env, host) == host != ""
    ensures Hosts(env, spec) == [host] && AllHosts(env, [spec]) == [host]
  {
    assert [host][..0] == [] && [spec][..0] == [];
    assert NonBlank(env, [host][..0]) == [];
  }

  const PORT_HOST := "app" + ":8443"

  lemma CutAtColon(name: string, port: string)
    requires ':' !in name && port != "" && port[0] == ':'
    ensures Text.Position(name + port, ':') == |name| && (name + port)[..|name|] == name
  {
    var h := name + port;
    assert h[|name|] == ':';
    assert forall j :: 0 <= j < |name| ==> h[j] == name[j] && name[j] in name;
  }

  lemma PortHostNormalized(env: Env)
    requires env.lower(PORT_HOST) == PORT_HOST
    ensures NormalizeEntry(env, PORT_HOST) == PORT_HOST
    ensures NormalizeHost(env, PORT_HOST) == "app"
  {
    assert Text.Trimmed(PORT_HOST);
    Text.TrimmedUnchanged(PORT_HOST);
    CutAtColon("app", ":8443");
  }

  /** A tenant whose only host is configured with a port is provisioned and cannot be reached by it. */
  lemma PortHostUnresolved(env: Env, sel: Selection, t: Tables, spec: Spec, nonce: nat)
    requires env.lower(PORT_HOST) == PORT_HOST && spec.domains == [PORT_HOST]
    requires IsEnabled(spec) && TenantBootstrap.StatusesBlank([spec])
    ensures Bootstrapped(env, t, [spec], nonce).Ok?
    ensures PORT_HOST in Bootstrapped(env, t, [spec], nonce).value.domains
    ensures LoadByHost(env, sel, Bootstrapped(env, t, [spec], nonce).value, PORT_HOST) == Err(DomainNotFound)
  {
    var specs := Prepared(env, [spec], nonce);
    PortHostNormalized(env);
    assert |specs| == 1 && specs == [specs[0]];
    OneHost(env, specs[0], PORT_HOST);
    assert IsEnabled(specs[0]);
    TenantBootstrap.BootstrapSucceedsIff(env, t, [spec], nonce);
    TenantBootstrap.BootstrapExact(env, t, [spec], nonce);
    assert PORT_HOST in AllHosts(env, specs) && "app" !in AllHosts(env, specs);
  }

  lemma HostOwner(env: Env, specs: seq<Spec>, domains: map<string, Domain>, i: nat, j: nat)
    requires TenantBootstrap.DomainsExact(env, specs, domains) && i < |specs| && j < |Hosts(env, specs[i])|
    ensures Hosts(env, specs[i])[j] in domains && domains[Hosts(env, specs[i])[j]].tenant == specs[i].id
  {
  }

  /** Resolution and provisioning normalise a host alike iff it has no port. */
  lemma PortCutOff(env: Env, host: string)
    ensures NormalizeHost(env, host) == NormalizeEntry(env, host) <==> ':' !in NormalizeEntry(env, host)
  {
    var h := NormalizeEntry(env, host);
    var p := Text.Position(h, ':');
    assert p < |h| ==> h[p] in h;
    assert p == |h| ==> h[..p] == h;
    if ':' in h {
      var k :| 0 <= k < |h| && h[k] == ':';
      assert p <= k;
    }
  }

  /** So a host that is configured without a port always resolves to its tenant. */
  lemma PlainHostResolves(env: Env, sel: Selection, t: Tables, cfg: seq<Spec>, nonce: nat, i: nat, host: string)
    requires Lawful(env, sel) && i < |cfg|
    requires TenantBootstrap.DistinctIds(Prepared(env, cfg, nonce)) && IdsGiven(Prepared(env, cfg, nonce))
    requires NormalizeEntry(env, host) in Hosts(env, Prepared(env, cfg, nonce)[i])
    requires ':' !in NormalizeEntry(env, host)
    ensures Bootstrapped(env, t, cfg, nonce).Ok? ==>
              LoadByHost(env, sel, Bootstrapped(env, t, cfg, nonce).value, host) ==
              Ok(Configured(Prepared(env, cfg, nonce)[i]))
  {
    PortCutOff(env, host);
    ConfiguredHostResolves(env, sel, t, cfg, nonce, i, host);
  }

  /** A text resolves to a tenant as an id exactly when, without outer space, it is that tenant's id. */
  lemma ConfiguredIdResolves(env: Env, sel: Selection, t: Tables, cfg: seq<Spec>, nonce: nat, i: nat, id: string)
    requires Lawful(env, sel) && i < |cfg|
    requires TenantBootstrap.DistinctIds(Prepared(env, cfg, nonce)) && IdsGiven(Prepared(env, cfg, nonce))
    ensures Bootstrapped(env, t, cfg, nonce).Ok? ==>
              var specs, u := Prepared(env, cfg, nonce), Bootstrapped(env, t, cfg, nonce).value;
              && (LoadById(env, sel, u, id) == Ok(Configured(specs[i])) <==> Text.TrimSpace(id) == specs[i].id)
              && (LoadById(env, sel, u, id).Err? <==>
                  forall k :: 0 <= k < |specs| ==> specs[k].id != Text.TrimSpace(id))
  {
    if Bootstrapped(env, t, cfg, nonce).Ok? {
      TenantBootstrap.BootstrapExact(env, t, cfg, nonce);
      ExactIdResolves(env, sel, Prepared(env, cfg, nonce), nonce, Bootstrapped(env, t, cfg, nonce).value, i, id);
    }
  }

  predicate NobodyHas(specs: seq<Spec>, id: string) {
    forall k :: 0 <= k < |specs| ==> specs[k].id != id
  }

  lemma ExactIdResolves(env: Env, sel: Selection, specs: seq<Spec>, nonce: nat, u: Tables, i: nat, id: string)
    requires Lawful(env, sel) && TenantBootstrap.DistinctIds(specs) && IdsGiven(specs) && i < |specs|
    requires TenantBootstrap.Exact(env, specs, nonce, u, {})
    ensures LoadById(env, sel, u, id) == Ok(Configured(specs[i])) <==> Text.TrimSpace(id) == specs[i].id
    ensures LoadById(env, sel, u, id).Err? <==> NobodyHas(specs, Text.TrimSpace(id))
  {
    AllLoaded(env, sel, specs, nonce, u);
    ExactIds(env, specs, nonce, u);
    IdResolves(env, sel, specs, u, i, id);
  }

  lemma ExactIds(env: Env, specs: seq<Spec>, nonce: nat, u: Tables)
    requires TenantBootstrap.Exact(env, specs, nonce, u, {})
    ensures u.tenants.Keys == Ids(specs)
  {
  }

  predicate AllLoad(env: Env, sel: Selection, specs: seq<Spec>, u: Tables) {
    forall k :: 0 <= k < |specs| ==> Load(env, sel, u, specs[k].id) == Ok(Configured(specs[k]))
  }

  lemma AllLoaded(env: Env, sel: Selection, specs: seq<Spec>, nonce: nat, u: Tables)
    requires Lawful(env, sel) && TenantBootstrap.DistinctIds(specs) && IdsGiven(specs)
    requires TenantBootstrap.Exact(env, specs, nonce, u, {})
    ensures AllLoad(env, sel, specs, u)
  {
    forall k | 0 <= k < |specs|
      ensures Load(env, sel, u, specs[k].id) == Ok(Configured(specs[k]))
    {
      ExactLoads(env, sel, specs, nonce, u, k);
    }
  }

  lemma IdResolves(env: Env, sel: Selection, specs: seq<Spec>, u: Tables, i: nat, id: string)
    requires TenantBootstrap.DistinctIds(specs) && IdsGiven(specs) && i < |specs|
    requires u.tenants.Keys == Ids(specs) && AllLoad(env, sel, specs, u)
    ensures LoadById(env, sel, u, id) == Ok(Configured(specs[i])) <==> Text.TrimSpace(id) == specs[i].id
    ensures LoadById(env, sel, u, id).Err? <==> NobodyHas(specs, Text.TrimSpace(id))
  {
    if k :| 0 <= k < |specs| && specs[k].id == Text.TrimSpace(id) {
      assert LoadById(env, sel, u, id) == Ok(Configured(specs[k]));
      assert k != i ==> specs[k].id != specs[i].id;
    } else {
      NobodysId(env, sel, specs, u, id);
    }
  }

  lemma NobodysId(env: Env, sel: Selection, specs: seq<Spec>, u: Tables, id: string)
    requires u.tenants.Keys == Ids(specs)
    requires NobodyHas(specs, Text.TrimSpace(id))
    ensures LoadById(env, sel, u, id).Err?
  {
    assert Text.TrimSpace(id) !in Ids(specs);
  }
}
