/**
 The tenant repository object. Text-message credentials are mutable records shared by
 reference, so the repository hands out copies: what a caller does to a returned record
 must never show in a later resolution.
 */
module TenantRepository {
  import opened Wrappers
  import opened TenantTables
  import opened TenantCache
  import Text

  class Database {
    var tables: Tables

    constructor (tables: Tables)
      ensures this.tables == tables
    {
      this.tables := tables;
    }
  }

  class SmsRecord {
    var account: string
    var token: string
    var from: string

    constructor (c: SmsCredentials)
      ensures Value() == c
    {
      account, token, from := c.account, c.token, c.from;
    }

    function Value(): SmsCredentials
      reads this
    {
      SmsCredentials(account, token, from)
    }
  }

  /** A runtime configuration as callers see it, with its record by reference. */
  datatype RuntimeConfig = RuntimeConfig(id: Id, tenant: Tenant, email: EmailCredentials, sms: SmsRecord?)

  function ValueOf(c: RuntimeConfig): Config
    reads c.sms
  {
    Config(c.id, c.tenant, c.email, if c.sms == null then None else Some(c.sms.Value()))
  }

  /** The result carries the expected value or error. */
  predicate Carries(r: Result<RuntimeConfig, LoadError>, expected: Result<Config, LoadError>)
    reads if r.Ok? && r.value.sms != null then {r.value.sms} else {}
  {
    match expected
    case Ok(config) => r.Ok? && ValueOf(r.value) == config
    case Err(e) => r == Err(e)
  }

  method Materialize(c: Config) returns (r: RuntimeConfig)
    ensures ValueOf(r) == c
    ensures r.sms != null ==> fresh(r.sms)
  {
    var record: SmsRecord? := null;
    if c.sms.Some? {
      record := new SmsRecord(c.sms.value);
    }
    r := RuntimeConfig(c.id, c.tenant, c.email, record);
  }

  /** A copy that shares no record with the original. */
  method CloneRuntimeConfig(c: RuntimeConfig) returns (r: RuntimeConfig)
    ensures ValueOf(r) == ValueOf(c)
    ensures r.sms != null ==> fresh(r.sms)
  {
    var record: SmsRecord? := null;
    if c.sms != null {
      record := new SmsRecord(c.sms.Value());
    }
    r := c.(sms := record);
  }

  class Repository {
    const db: Database
    const env: Env
    const sel: Selection
    var runtimeCache: map<Id, RuntimeConfig>
    var domainTenantCache: map<string, Id>
    ghost var owned: set<SmsRecord>

    constructor (db: Database, env: Env, sel: Selection)
      ensures this.db == db && this.env == env && this.sel == sel
      ensures Valid() && View() == EMPTY && owned == {}
    {
      this.db, this.env, this.sel := db, env, sel;
      runtimeCache, domainTenantCache, owned := map[], map[], {};
    }

    /** Cached records are the repository's own, and both caches agree with the tables. */
    ghost predicate Valid()
      reads this, db, owned
    {
      Owns() && Agrees(env, sel, db.tables, View())
    }

    ghost predicate Owns()
      reads this
    {
      forall id :: id in runtimeCache && runtimeCache[id].sms != null ==> runtimeCache[id].sms in owned
    }

    ghost function View(): Cache
      requires Owns()
      reads this, owned
    {
      Cache(map id | id in runtimeCache :: ValueOf(runtimeCache[id]), domainTenantCache)
    }

    method ClearCaches()
      modifies this
      ensures Owns() && View() == EMPTY && owned == {}
    {
      runtimeCache, domainTenantCache, owned := map[], map[], {};
    }

    method RuntimeFor(id: Id) returns (r: Result<RuntimeConfig, LoadError>)
      requires Owns()
      modifies this`runtimeCache, this`owned
      ensures Owns() && fresh(owned - old(owned))
      ensures Carries(r, Runtime(env, sel, db.tables, old(View()), id).result)
      ensures View() == Runtime(env, sel, db.tables, old(View()), id).cache
      ensures r.Ok? && r.value.sms != null ==> fresh(r.value.sms) && r.value.sms !in owned
    {
      if id in runtimeCache {
        assert View().runtime[id] == ValueOf(runtimeCache[id]);
        var copy := CloneRuntimeConfig(runtimeCache[id]);
        assert View() == old(View());
        return Ok(copy);
      }
      var loaded := Load(env, sel, db.tables, id);
      if loaded.Err? {
        return Err(loaded.error);
      }
      var config := Materialize(loaded.value);
      var copy := CloneRuntimeConfig(config);
      assert View() == old(View());
      if id != "" {
        Remember(id, config);
      }
      return Ok(copy);
    }

    method Remember(id: Id, config: RuntimeConfig)
      requires Owns()
      modifies this`runtimeCache, this`owned
      ensures Owns()
      ensures owned == old(owned) + (if config.sms == null then {} else {config.sms})
      ensures View() == old(View()).(runtime := old(View()).runtime[id := ValueOf(config)])
    {
      runtimeCache := runtimeCache[id := config];
      if config.sms != null {
        owned := owned + {config.sms};
      }
      assert View().runtime == old(View()).runtime[id := ValueOf(config)];
    }

    method ResolveByID(tenantID: string) returns (r: Result<RuntimeConfig, LoadError>)
      requires Valid()
      modifies this
      ensures Valid() && fresh(owned - old(owned))
      ensures Carries(r, LoadById(env, sel, db.tables, tenantID))
      ensures View() == ResolveById(env, sel, db.tables, old(View()), tenantID).cache
      ensures r.Ok? && r.value.sms != null ==> fresh(r.value.sms) && r.value.sms !in owned
    {
      CachedResolution(env, sel, db.tables, View(), "", tenantID);
      var normalized := Text.TrimSpace(tenantID);
      if normalized == "" {
        return Err(EmptyId);
      }
      r := RuntimeFor(normalized);
    }

    method ResolveHost(host: string) returns (r: Result<RuntimeConfig, LoadError>)
      requires Valid()
      modifies this
      ensures Valid() && fresh(owned - old(owned))
      ensures Carries(r, LoadByHost(env, sel, db.tables, host))
      ensures View() == ResolveByHost(env, sel, db.tables, old(View()), host).cache
      ensures r.Ok? && r.value.sms != null ==> fresh(r.value.sms) && r.value.sms !in owned
    {
      CachedResolution(env, sel, db.tables, View(), host, "");
      r := LookupHost(host);
    }

    method LookupHost(host: string) returns (r: Result<RuntimeConfig, LoadError>)
      requires Owns()
      modifies this
      ensures Owns() && fresh(owned - old(owned))
      ensures Carries(r, ResolveByHost(env, sel, db.tables, old(View()), host).result)
      ensures View() == ResolveByHost(env, sel, db.tables, old(View()), host).cache
      ensures r.Ok? && r.value.sms != null ==> fresh(r.value.sms) && r.value.sms !in owned
    {
      var normalized := NormalizeHost(env, host);
      if normalized == "" {
        return Err(EmptyHost);
      }
      if normalized in domainTenantCache {
        r := RuntimeFor(domainTenantCache[normalized]);
        return;
      }
      if normalized !in db.tables.domains {
        return Err(DomainNotFound);
      }
      var id := db.tables.domains[normalized].tenant;
      r := RuntimeFor(id);
      if r.Err? {
        return;
      }
      RememberHost(normalized, id);
    }

    method RememberHost(host: string, id: Id)
      requires Owns()
      modifies this`domainTenantCache
      ensures View() == if host == "" || id == "" then old(View())
                        else old(View()).(hosts := old(View()).hosts[host := id])
    {
      if host == "" || id == "" {
        return;
      }
      domainTenantCache := domainTenantCache[host := id];
    }
  }

  /** A caller overwrites a record it was given: the repository does not notice. */
  method Overwrite(repo: Repository, record: SmsRecord, c: SmsCredentials)
    requires repo.Valid() && record !in repo.owned
    modifies record
    ensures repo.Valid() && record.Value() == c
  {
    record.account, record.token, record.from := c.account, c.token, c.from;
    assert forall id :: id in repo.runtimeCache ==>
      ValueOf(repo.runtimeCache[id]) == old(ValueOf(repo.runtimeCache[id]));
    assert repo.View() == old(repo.View());
  }

  /** Whatever a caller does to a returned record, the next resolution answers the same. */
  method ResolveMutateResolve(repo: Repository, tenantID: string, c: SmsCredentials)
    returns (first: Result<Config, LoadError>, second: Result<Config, LoadError>)
    requires repo.Valid()
    modifies repo
    ensures repo.Valid()
    ensures first == second == LoadById(repo.env, repo.sel, repo.db.tables, tenantID)
  {
    var r := repo.ResolveByID(tenantID);
    first := if r.Ok? then Ok(ValueOf(r.value)) else Err(r.error);
    if r.Ok? && r.value.sms != null {
      Overwrite(repo, r.value.sms, c);
    }
    var again := repo.ResolveByID(tenantID);
    second := if again.Ok? then Ok(ValueOf(again.value)) else Err(again.error);
  }

  /**
   Provisioning: one transaction over the tables, then every registered repository drops
   its caches. A failed bootstrap changes neither tables nor caches; either way every
   repository agrees with the tables afterwards.
   */
  method Bootstrap(db: Database, env: Env, registry: set<Repository>, cfg: seq<Spec>, nonce: nat, stored: bool)
    returns (r: Option<Error>)
    requires forall repo :: repo in registry ==> repo.Valid()
    modifies db, registry
    ensures r == None <==> Bootstrapped(env, old(db.tables), cfg, nonce).Ok? && stored
    ensures r == None ==> Ok(db.tables) == Bootstrapped(env, old(db.tables), cfg, nonce)
    ensures r == None ==> forall repo :: repo in registry ==> repo.Valid() && repo.View() == EMPTY
    ensures r.Some? ==> db.tables == old(db.tables)
    ensures r.Some? ==> forall repo :: repo in registry ==> repo.Valid() && unchanged(repo)
  {
    var t := Provision(env, db.tables, cfg, nonce);
    if t.Err? {
      return Some(t.error);
    }
    if !stored {
      return Some(StorageFailed);
    }
    Install(db, registry, t.value);
    return None;
  }

  method Install(db: Database, registry: set<Repository>, t: Tables)
    modifies db, registry
    ensures db.tables == t
    ensures forall repo :: repo in registry ==> repo.Valid() && repo.View() == EMPTY
  {
    db.tables := t;
    InvalidateRegistered(registry);
  }

  method InvalidateRegistered(registry: set<Repository>)
    modifies registry
    ensures forall repo :: repo in registry ==> repo.Owns() && repo.View() == EMPTY
  {
    var left := registry;
    while left != {}
      invariant left <= registry
      invariant forall repo :: repo in registry - left ==> repo.Owns() && repo.View() == EMPTY && repo.owned == {}
      decreases left
    {
      var repo :| repo in left;
      repo.ClearCaches();
      left := left - {repo};
    }
  }
}
