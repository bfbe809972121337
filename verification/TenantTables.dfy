/**
 Tenant provisioning. A bootstrap validates the configuration, clears the dependent
 tables, removes tenants that are no longer configured and writes every configured
 tenant, all in one transaction.
 */
module TenantTables {
  import opened Wrappers
  import Text

  type Id = string

  datatype Status = Active | Suspended

  datatype Tenant = Tenant(displayName: string, supportEmail: string, status: Status)

  datatype Domain = Domain(tenant: Id, isDefault: bool)

  datatype Admin = Admin(tenant: Id, email: string)

  datatype EmailRow = EmailRow(row: string, tenant: Id, host: string, port: int,
                               usernameCipher: string, passwordCipher: string, from: string, isDefault: bool)

  datatype SmsRow = SmsRow(row: string, tenant: Id, accountCipher: string, tokenCipher: string, from: string,
                           isDefault: bool)

  /** Hosts and (tenant, email) pairs are unique by their indexes. */
  datatype Tables = Tables(tenants: map<Id, Tenant>, domains: map<string, Domain>, admins: set<Admin>,
                           emails: set<EmailRow>, sms: set<SmsRow>)

  datatype EmailSpec = EmailSpec(host: string, port: int, username: string, password: string, from: string)

  datatype SmsSpec = SmsSpec(account: string, token: string, from: string)

  datatype Spec = Spec(id: Id, displayName: string, supportEmail: string, enabled: Option<bool>, status: string,
                       domains: seq<string>, admins: seq<string>, email: EmailSpec, sms: Option<SmsSpec>)

  /** Lower-casing, and the secret keeper; `nonce` stands for the randomness of one bootstrap. */
  datatype Env = Env(lower: string -> string, encrypt: (nat, string) -> string, decrypt: string -> Option<string>,
                     rowId: (nat, nat) -> string, freshId: (nat, nat) -> string)

  datatype Error =
    | NoTenants
    | NoEnabledTenants
    | DuplicateDomain
    | MissingDomain
    | StatusUnsupported
    | DomainConflict
    | AdminExists
    | StorageFailed

  // ---------------------------------------------------------------------------
  // Normalising the configuration
  // ---------------------------------------------------------------------------

  function NormalizeEntry(env: Env, text: string): string {
    env.lower(Text.TrimSpace(text))
  }

  /** The normalised entries that are not blank, in order. */
  function NonBlank(env: Env, entries: seq<string>): seq<string> {
    if entries == [] then []
    else
      var front, last := NonBlank(env, entries[..|entries| - 1]), NormalizeEntry(env, entries[|entries| - 1]);
      if last == "" then front else front + [last]
  }

  /** As before, each entry only the first time. */
  function NonBlankOnce(env: Env, entries: seq<string>): seq<string> {
    if entries == [] then []
    else
      var front, last := NonBlankOnce(env, entries[..|entries| - 1]), NormalizeEntry(env, entries[|entries| - 1]);
      if last == "" || last in front then front else front + [last]
  }

  function Hosts(env: Env, spec: Spec): seq<string> {
    NonBlank(env, spec.domains)
  }

  function AdminEmails(env: Env, spec: Spec): seq<string> {
    NonBlankOnce(env, spec.admins)
  }

  method NormalizeDomainHosts(env: Env, domains: seq<string>) returns (hosts: seq<string>)
    ensures hosts == NonBlank(env, domains)
  {
    hosts := [];
    var i := 0;
    while i < |domains|
      invariant i <= |domains|
      invariant hosts == NonBlank(env, domains[..i])
    {
      assert domains[..i + 1][..i] == domains[..i];
      var host := NormalizeEntry(env, domains[i]);
      i := i + 1;
      if host == "" {
        continue;
      }
      hosts := hosts + [host];
    }
    assert domains[..i] == domains;
  }

  method NormalizeAdminEmails(env: Env, emails: seq<string>) returns (normalized: seq<string>)
    ensures normalized == NonBlankOnce(env, emails)
  {
    normalized := [];
    var seen: set<string> := {};
    var i := 0;
    while i < |emails|
      invariant i <= |emails|
      invariant normalized == NonBlankOnce(env, emails[..i])
      invariant forall e :: e in seen <==> e in normalized
    {
      assert emails[..i + 1][..i] == emails[..i];
      var email := NormalizeEntry(env, emails[i]);
      i := i + 1;
      if email == "" {
        continue;
      }
      if email in seen {
        continue;
      }
      seen := seen + {email};
      normalized := normalized + [email];
    }
    assert emails[..i] == emails;
  }

  lemma {:induction false} NonBlankOnceDistinct(env: Env, entries: seq<string>)
    ensures Distinct(NonBlankOnce(env, entries))
  {
    if entries != [] {
      var front := NonBlankOnce(env, entries[..|entries| - 1]);
      NonBlankOnceDistinct(env, entries[..|entries| - 1]);
      assert forall i :: 0 <= i < |front| ==> front[i] in front;
    }
  }

  /** Trimmed ids; a blank one is replaced by a generated one. */
  function Prepared(env: Env, specs: seq<Spec>, nonce: nat): (r: seq<Spec>)
    ensures |r| == |specs|
  {
    seq(|specs|, i requires 0 <= i < |specs| =>
      var id := Text.TrimSpace(specs[i].id);
      specs[i].(id := if id == "" then env.freshId(nonce, i) else id))
  }

  predicate IsEnabled(spec: Spec) {
    spec.enabled != Some(false)
  }

  // ---------------------------------------------------------------------------
  // Validation: all hosts of all tenants are different, and every tenant has one
  // ---------------------------------------------------------------------------

  /** The hosts of all tenants in configuration order. */
  function AllHosts(env: Env, specs: seq<Spec>): seq<string> {
    if specs == [] then [] else AllHosts(env, specs[..|specs| - 1]) + Hosts(env, specs[|specs| - 1])
  }

  predicate Distinct(list: seq<string>) {
    forall i, j :: 0 <= i < j < |list| ==> list[i] != list[j]
  }

  predicate EachHasHost(env: Env, specs: seq<Spec>) {
    forall i :: 0 <= i < |specs| ==> Hosts(env, specs[i]) != []
  }

  predicate Validated(env: Env, specs: seq<Spec>) {
    Distinct(AllHosts(env, specs)) && EachHasHost(env, specs)
  }

  /** The inner loop of the validation, over one tenant's domains. */
  method ValidateTenant(env: Env, domains: seq<string>, known: set<string>, ghost before: seq<string>)
    returns (r: Option<Error>, hosts: set<string>)
    requires known == set h | h in before
    requires Distinct(before)
    ensures r == None ==> NonBlank(env, domains) != [] && Distinct(before + NonBlank(env, domains))
    ensures r == None ==> hosts == set h | h in before + NonBlank(env, domains)
    ensures r == Some(DuplicateDomain) ==> !Distinct(before + NonBlank(env, domains))
    ensures r == Some(MissingDomain) ==> NonBlank(env, domains) == [] && Distinct(before + NonBlank(env, domains))
    ensures r.Some? ==> r.value.DuplicateDomain? || r.value.MissingDomain?
  {
    hosts := known;
    var domainCount := 0;
    var i := 0;
    assert before + [] == before;
    while i < |domains|
      invariant i <= |domains|
      invariant domainCount == |NonBlank(env, domains[..i])|
      invariant Distinct(before + NonBlank(env, domains[..i]))
      invariant hosts == set h | h in before + NonBlank(env, domains[..i])
    {
      assert domains[..i + 1][..i] == domains[..i];
      ghost var seen := before + NonBlank(env, domains[..i]);
      var host := NormalizeEntry(env, domains[i]);
      i := i + 1;
      if host == "" {
        continue;
      }
      assert before + NonBlank(env, domains[..i]) == seen + [host];
      domainCount := domainCount + 1;
      if host in hosts {
        NonBlankPrefix(env, domains, i);
        ghost var k :| 0 <= k < |seen| && seen[k] == host;
        DuplicateStays(seen + [host], k, |seen|, before + NonBlank(env, domains));
        return Some(DuplicateDomain), hosts;
      }
      hosts := hosts + {host};
    }
    assert domains[..i] == domains;
    if domainCount == 0 {
      return Some(MissingDomain), hosts;
    }
    return None, hosts;
  }

  lemma {:induction false} NonBlankPrefix(env: Env, entries: seq<string>, n: nat)
    requires n <= |entries|
    ensures NonBlank(env, entries[..n]) <= NonBlank(env, entries)
    decreases |entries| - n
  {
    if n < |entries| {
      NonBlankPrefix(env, entries, n + 1);
      assert entries[..n + 1][..n] == entries[..n];
    } else {
      assert entries[..n] == entries;
    }
  }

  lemma DuplicateStays(part: seq<string>, i: nat, j: nat, whole: seq<string>)
    requires i < j < |part| && part[i] == part[j] && part <= whole
    ensures !Distinct(whole)
  {
    assert whole[i] == whole[j];
  }

  lemma {:induction false} AllHostsPrefix(env: Env, specs: seq<Spec>, n: nat)
    requires n <= |specs|
    ensures AllHosts(env, specs[..n]) <= AllHosts(env, specs)
    decreases |specs| - n
  {
    if n < |specs| {
      AllHostsPrefix(env, specs, n + 1);
      assert specs[..n + 1][..n] == specs[..n];
    } else {
      assert specs[..n] == specs;
    }
  }

  lemma PrefixNotDistinct(part: seq<string>, whole: seq<string>)
    requires !Distinct(part) && part <= whole
    ensures !Distinct(whole)
  {
    var i, j :| 0 <= i < j < |part| && part[i] == part[j];
    DuplicateStays(part, i, j, whole);
  }

  /** The complaint about the first offending tenant, in configuration order. */
  function DomainError(env: Env, specs: seq<Spec>): Option<Error> {
    if specs == [] then None
    else
      match DomainError(env, specs[..|specs| - 1])
      case Some(e) => Some(e)
      case None =>
        if !Distinct(AllHosts(env, specs)) then Some(DuplicateDomain)
        else if Hosts(env, specs[|specs| - 1]) == [] then Some(MissingDomain)
        else None
  }

  lemma {:induction false} DomainErrorMeaning(env: Env, specs: seq<Spec>)
    ensures DomainError(env, specs) == None <==> Validated(env, specs)
  {
    if specs != [] {
      var front := specs[..|specs| - 1];
      DomainErrorMeaning(env, front);
      AllHostsPrefix(env, specs, |specs| - 1);
      if !Distinct(AllHosts(env, front)) {
        PrefixNotDistinct(AllHosts(env, front), AllHosts(env, specs));
      }
    }
  }

  lemma {:induction false} DomainErrorStays(env: Env, specs: seq<Spec>, n: nat)
    requires n <= |specs| && DomainError(env, specs[..n]).Some?
    ensures DomainError(env, specs) == DomainError(env, specs[..n])
    decreases |specs| - n
  {
    if n < |specs| {
      assert specs[..n + 1][..n] == specs[..n];
      DomainErrorStays(env, specs, n + 1);
    } else {
      assert specs[..n] == specs;
    }
  }

  /** Accepts exactly the configurations in which every tenant has hosts and no host repeats. */
  method ValidateBootstrapDomains(env: Env, specs: seq<Spec>) returns (r: Option<Error>)
    ensures r == None <==> Validated(env, specs)
    ensures r == DomainError(env, specs)
  {
    var known: set<string> := {};
    var i := 0;
    while i < |specs|
      invariant i <= |specs|
      invariant DomainError(env, specs[..i]) == None
      invariant Distinct(AllHosts(env, specs[..i]))
      invariant known == set h | h in AllHosts(env, specs[..i])
    {
      assert specs[..i + 1][..i] == specs[..i];
      r, known := ValidateTenant(env, specs[i].domains, known, AllHosts(env, specs[..i]));
      if r.Some? {
        DomainErrorStays(env, specs, i + 1);
        DomainErrorMeaning(env, specs);
        return r;
      }
      i := i + 1;
    }
    assert specs[..i] == specs;
    DomainErrorMeaning(env, specs);
    return None;
  }

  // ---------------------------------------------------------------------------
  // Writing one tenant
  // ---------------------------------------------------------------------------

  /** Inserts hosts not yet there; None when a host is already someone else's. */
  function AddDomains(domains: map<string, Domain>, id: Id, hosts: seq<string>): Option<map<string, Domain>> {
    if hosts == [] then Some(domains)
    else
      match AddDomains(domains, id, hosts[..|hosts| - 1])
      case None => None
      case Some(front) =>
        var host, wanted := hosts[|hosts| - 1], Domain(id, |hosts| == 1);
        var stored := if host in front then front else front[host := wanted];
        if stored[host] == wanted then Some(stored) else None
  }

  /** None when the pair is already there. */
  function AddAdmins(admins: set<Admin>, id: Id, emails: seq<string>): Option<set<Admin>> {
    if emails == [] then Some(admins)
    else
      match AddAdmins(admins, id, emails[..|emails| - 1])
      case None => None
      case Some(front) =>
        var admin := Admin(id, emails[|emails| - 1]);
        if admin in front then None else Some(front + {admin})
  }

  function TenantOf(spec: Spec): Tenant {
    Tenant(spec.displayName, spec.supportEmail, if IsEnabled(spec) then Active else Suspended)
  }

  function EmailOf(env: Env, spec: Spec, nonce: nat, i: nat): EmailRow {
    EmailRow(env.rowId(nonce, 2 * i), spec.id, spec.email.host, spec.email.port,
             env.encrypt(nonce, spec.email.username), env.encrypt(nonce, spec.email.password), spec.email.from, true)
  }

  function SmsOf(env: Env, spec: Spec, nonce: nat, i: nat): set<SmsRow> {
    match spec.sms
    case None => {}
    case Some(sms) =>
      {SmsRow(env.rowId(nonce, 2 * i + 1), spec.id, env.encrypt(nonce, sms.account), env.encrypt(nonce, sms.token),
              sms.from, true)}
  }

  function Upsert(env: Env, t: Tables, spec: Spec, nonce: nat, i: nat): Result<Tables, Error> {
    if Text.TrimSpace(spec.status) != "" then Err(StatusUnsupported)
    else
      match AddDomains(t.domains, spec.id, Hosts(env, spec))
      case None => Err(DomainConflict)
      case Some(domains) =>
        match AddAdmins(t.admins, spec.id, AdminEmails(env, spec))
        case None => Err(AdminExists)
        case Some(admins) =>
          Ok(Tables(t.tenants[spec.id := TenantOf(spec)], domains, admins,
                    t.emails + {EmailOf(env, spec, nonce, i)}, t.sms + SmsOf(env, spec, nonce, i)))
  }

  function UpsertAll(env: Env, t: Tables, specs: seq<Spec>, nonce: nat): Result<Tables, Error> {
    if specs == [] then Ok(t)
    else
      match UpsertAll(env, t, specs[..|specs| - 1], nonce)
      case Err(e) => Err(e)
      case Ok(front) => Upsert(env, front, specs[|specs| - 1], nonce, |specs| - 1)
  }

  function Ids(specs: seq<Spec>): set<Id> {
    set i | 0 <= i < |specs| :: specs[i].id
  }

  /** Dependent tables emptied, tenants no longer configured removed. */
  function Reset(t: Tables, ids: set<Id>): Tables {
    Tables(map id | id in t.tenants && id in ids :: t.tenants[id], map[], {}, {}, {})
  }

  function Bootstrapped(env: Env, t: Tables, cfg: seq<Spec>, nonce: nat): Result<Tables, Error> {
    var specs := Prepared(env, cfg, nonce);
    if cfg == [] then Err(NoTenants)
    else if forall i :: 0 <= i < |specs| ==> !IsEnabled(specs[i]) then Err(NoEnabledTenants)
    else if DomainError(env, specs).Some? then Err(DomainError(env, specs).value)
    else UpsertAll(env, Reset(t, Ids(specs)), specs, nonce)
  }

  // ---------------------------------------------------------------------------
  // The transaction, imperatively
  // ---------------------------------------------------------------------------

  class Transaction {
    var tenants: map<Id, Tenant>
    var domains: map<string, Domain>
    var admins: set<Admin>
    var emails: set<EmailRow>
    var sms: set<SmsRow>
    const env: Env

    constructor (env: Env, t: Tables)
      ensures View() == t && this.env == env
    {
      tenants, domains, admins, emails, sms := t.tenants, t.domains, t.admins, t.emails, t.sms;
      this.env := env;
    }

    function View(): Tables
      reads this
    {
      Tables(tenants, domains, admins, emails, sms)
    }

    method ClearStale(ids: set<Id>)
      modifies this
      ensures View() == Reset(old(View()), ids)
    {
      domains, admins, emails, sms := map[], {}, {}, {};
      tenants := map id | id in tenants && id in ids :: tenants[id];
    }

    method UpsertDomains(id: Id, hosts: seq<string>) returns (ok: bool)
      modifies this`domains
      ensures ok <==> AddDomains(old(domains), id, hosts).Some?
      ensures ok ==> AddDomains(old(domains), id, hosts) == Some(domains)
    {
      var i := 0;
      while i < |hosts|
        invariant i <= |hosts|
        invariant AddDomains(old(domains), id, hosts[..i]) == Some(domains)
      {
        assert hosts[..i + 1][..i] == hosts[..i];
        var host, wanted := hosts[i], Domain(id, i == 0);
        if host !in domains {
          domains := domains[host := wanted];
        }
        if domains[host] != wanted {
          DomainsStayRefused(old(domains), id, hosts, i + 1);
          return false;
        }
        i := i + 1;
      }
      assert hosts[..i] == hosts;
      return true;
    }

    method UpsertAdmins(id: Id, list: seq<string>) returns (ok: bool)
      modifies this`admins
      ensures ok <==> AddAdmins(old(admins), id, list).Some?
      ensures ok ==> AddAdmins(old(admins), id, list) == Some(admins)
    {
      var i := 0;
      while i < |list|
        invariant i <= |list|
        invariant AddAdmins(old(admins), id, list[..i]) == Some(admins)
      {
        assert list[..i + 1][..i] == list[..i];
        var admin := Admin(id, list[i]);
        if admin in admins {
          AdminsStayRefused(old(admins), id, list, i + 1);
          return false;
        }
        admins := admins + {admin};
        i := i + 1;
      }
      assert list[..i] == list;
      return true;
    }

    method UpsertTenant(spec: Spec, nonce: nat, i: nat) returns (r: Option<Error>)
      modifies this
      ensures match Upsert(env, old(View()), spec, nonce, i)
              case Ok(t) => r == None && View() == t
              case Err(e) => r == Some(e)
    {
      if Text.TrimSpace(spec.status) != "" {
        return Some(StatusUnsupported);
      }
      tenants := tenants[spec.id := TenantOf(spec)];
      var hosts := NormalizeDomainHosts(env, spec.domains);
      var ok := UpsertDomains(spec.id, hosts);
      if !ok {
        return Some(DomainConflict);
      }
      var list := NormalizeAdminEmails(env, spec.admins);
      ok := UpsertAdmins(spec.id, list);
      if !ok {
        return Some(AdminExists);
      }
      emails := emails + {EmailOf(env, spec, nonce, i)};
      if spec.sms.Some? {
        sms := sms + SmsOf(env, spec, nonce, i);
      } else {
        assert sms + {} == sms;
      }
      return None;
    }

    method UpsertTenants(specs: seq<Spec>, nonce: nat) returns (r: Option<Error>)
      modifies this
      ensures match UpsertAll(env, old(View()), specs, nonce)
              case Ok(t) => r == None && View() == t
              case Err(e) => r == Some(e)
    {
      var i := 0;
      while i < |specs|
        invariant i <= |specs|
        invariant UpsertAll(env, old(View()), specs[..i], nonce) == Ok(View())
      {
        assert specs[..i + 1][..i] == specs[..i];
        r := UpsertTenant(specs[i], nonce, i);
        if r.Some? {
          UpsertStaysRefused(env, old(View()), specs, nonce, i + 1);
          return r;
        }
        i := i + 1;
      }
      assert specs[..i] == specs;
      return None;
    }
  }

  method CountEnabled(specs: seq<Spec>) returns (n: nat)
    ensures n == 0 <==> forall i :: 0 <= i < |specs| ==> !IsEnabled(specs[i])
  {
    n := 0;
    var i := 0;
    while i < |specs|
      invariant i <= |specs|
      invariant n == 0 <==> forall j :: 0 <= j < i ==> !IsEnabled(specs[j])
    {
      if IsEnabled(specs[i]) {
        n := n + 1;
      }
      i := i + 1;
    }
  }

  /** The checks and the transaction, on a working copy of the tables. */
  method Provision(env: Env, t: Tables, cfg: seq<Spec>, nonce: nat) returns (r: Result<Tables, Error>)
    ensures r == Bootstrapped(env, t, cfg, nonce)
  {
    if |cfg| == 0 {
      return Err(NoTenants);
    }
    var specs := Prepared(env, cfg, nonce);
    var enabled := CountEnabled(specs);
    if enabled == 0 {
      return Err(NoEnabledTenants);
    }
    var invalid := ValidateBootstrapDomains(env, specs);
    if invalid.Some? {
      return Err(invalid.value);
    }
    var tx := new Transaction(env, t);
    tx.ClearStale(Ids(specs));
    var failed := tx.UpsertTenants(specs, nonce);
    if failed.Some? {
      return Err(failed.value);
    }
    return Ok(tx.View());
  }

  lemma {:induction false} DomainsStayRefused(domains: map<string, Domain>, id: Id, hosts: seq<string>, n: nat)
    requires n <= |hosts| && AddDomains(domains, id, hosts[..n]).None?
    ensures AddDomains(domains, id, hosts).None?
    decreases |hosts| - n
  {
    if n < |hosts| {
      assert hosts[..n + 1][..n] == hosts[..n];
      DomainsStayRefused(domains, id, hosts, n + 1);
    } else {
      assert hosts[..n] == hosts;
    }
  }

  lemma {:induction false} AdminsStayRefused(admins: set<Admin>, id: Id, emails: seq<string>, n: nat)
    requires n <= |emails| && AddAdmins(admins, id, emails[..n]).None?
    ensures AddAdmins(admins, id, emails).None?
    decreases |emails| - n
  {
    if n < |emails| {
      assert emails[..n + 1][..n] == emails[..n];
      AdminsStayRefused(admins, id, emails, n + 1);
    } else {
      assert emails[..n] == emails;
    }
  }

  lemma {:induction false} UpsertStaysRefused(env: Env, t: Tables, specs: seq<Spec>, nonce: nat, n: nat)
    requires n <= |specs| && UpsertAll(env, t, specs[..n], nonce).Err?
    ensures UpsertAll(env, t, specs, nonce) == UpsertAll(env, t, specs[..n], nonce)
    decreases |specs| - n
  {
    if n < |specs| {
      assert specs[..n + 1][..n] == specs[..n];
      UpsertStaysRefused(env, t, specs, nonce, n + 1);
    } else {
      assert specs[..n] == specs;
    }
  }
}
