/** What a bootstrap leaves behind, whatever the tables held before. */
module TenantBootstrap {
  import opened Wrappers
  import opened TenantTables
  import Text

  predicate DistinctIds(specs: seq<Spec>) {
    forall i, j :: 0 <= i < j < |specs| ==> specs[i].id != specs[j].id
  }

  function Elements(list: seq<string>): set<string> {
    set x | x in list
  }

  // ---------------------------------------------------------------------------
  // Domains
  // ---------------------------------------------------------------------------

  /** Free hosts are all inserted, the first one as the default. */
  lemma {:induction false} AddFreeDomains(domains: map<string, Domain>, id: Id, hosts: seq<string>)
    requires Distinct(hosts) && forall h :: h in hosts ==> h !in domains
    ensures AddDomains(domains, id, hosts).Some?
    ensures var u := AddDomains(domains, id, hosts).value;
            && u.Keys == domains.Keys + Elements(hosts)
            && (forall h :: h in domains ==> u[h] == domains[h])
            && (forall j :: 0 <= j < |hosts| ==> u[hosts[j]] == Domain(id, j == 0))
  {
    if hosts != [] {
      var front, host := hosts[..|hosts| - 1], hosts[|hosts| - 1];
      assert hosts == front + [host];
      AddFreeDomains(domains, id, front);
      assert host !in front;
    }
  }

  /** The domain table holds exactly the configured hosts, each for its tenant. */
  predicate DomainsExact(env: Env, specs: seq<Spec>, domains: map<string, Domain>) {
    && domains.Keys == Elements(AllHosts(env, specs))
    && forall i, j :: 0 <= i < |specs| && 0 <= j < |Hosts(env, specs[i])| ==>
         Hosts(env, specs[i])[j] in domains && domains[Hosts(env, specs[i])[j]] == Domain(specs[i].id, j == 0)
  }

  lemma DistinctParts(a: seq<string>, b: seq<string>)
    requires Distinct(a + b)
    ensures Distinct(a) && Distinct(b)
    ensures forall x :: x in b ==> x !in a
  {
    var whole := a + b;
    forall i, j | 0 <= i < j < |a|
      ensures a[i] != a[j]
    {
      assert whole[i] == a[i] && whole[j] == a[j];
    }
    forall i, j | 0 <= i < j < |b|
      ensures b[i] != b[j]
    {
      assert whole[|a| + i] == b[i] && whole[|a| + j] == b[j];
    }
    forall i, j | 0 <= i < |a| && 0 <= j < |b|
      ensures a[i] != b[j]
    {
      assert whole[i] == a[i] && whole[|a| + j] == b[j];
    }
  }

  /** Writing one more tenant never meets a conflict, and extends the table exactly. */
  lemma UpsertDomainsExact(env: Env, specs: seq<Spec>, domains: map<string, Domain>)
    requires specs != [] && Distinct(AllHosts(env, specs))
    requires DomainsExact(env, specs[..|specs| - 1], domains)
    ensures var last := specs[|specs| - 1];
            && AddDomains(domains, last.id, Hosts(env, last)).Some?
            && DomainsExact(env, specs, AddDomains(domains, last.id, Hosts(env, last)).value)
  {
    var front, last := specs[..|specs| - 1], specs[|specs| - 1];
    DistinctParts(AllHosts(env, front), Hosts(env, last));
    AddFreeDomains(domains, last.id, Hosts(env, last));
    var u := AddDomains(domains, last.id, Hosts(env, last)).value;
    forall i, j | 0 <= i < |specs| && 0 <= j < |Hosts(env, specs[i])|
      ensures Hosts(env, specs[i])[j] in u && u[Hosts(env, specs[i])[j]] == Domain(specs[i].id, j == 0)
    {
      if i < |front| {
        assert front[i] == specs[i];
        assert Hosts(env, front[i])[j] in domains;
      } else {
        assert Hosts(env, last)[j] in Elements(Hosts(env, last));
      }
    }
  }

  // ---------------------------------------------------------------------------
  // Administrators
  // ---------------------------------------------------------------------------

  function AdminRows(id: Id, emails: seq<string>): set<Admin> {
    set e | e in emails :: Admin(id, e)
  }

  function AdminsOf(env: Env, spec: Spec): set<Admin> {
    AdminRows(spec.id, AdminEmails(env, spec))
  }

  predicate AdminsExact(env: Env, specs: seq<Spec>, admins: set<Admin>) {
    && (forall a :: a in admins ==> exists i :: 0 <= i < |specs| && a in AdminsOf(env, specs[i]))
    && (forall i :: 0 <= i < |specs| ==> AdminsOf(env, specs[i]) <= admins)
  }

  lemma AdminRowsGrow(id: Id, emails: seq<string>)
    requires emails != []
    ensures AdminRows(id, emails) == AdminRows(id, emails[..|emails| - 1]) + {Admin(id, emails[|emails| - 1])}
  {
    assert emails == emails[..|emails| - 1] + [emails[|emails| - 1]];
  }

  lemma {:induction false} AddFreeAdmins(admins: set<Admin>, id: Id, emails: seq<string>)
    requires Distinct(emails) && AdminRows(id, emails) !! admins
    ensures AddAdmins(admins, id, emails).Some?
  {
    if emails != [] {
      var front, last := emails[..|emails| - 1], emails[|emails| - 1];
      AdminRowsGrow(id, emails);
      AddFreeAdmins(admins, id, front);
      AddAdminsAdds(admins, id, front);
      assert Admin(id, last) !in AdminRows(id, front);
    }
  }

  lemma {:induction false} AddAdminsAdds(admins: set<Admin>, id: Id, emails: seq<string>)
    requires AddAdmins(admins, id, emails).Some?
    ensures AddAdmins(admins, id, emails).value == admins + AdminRows(id, emails)
  {
    if emails != [] {
      AdminRowsGrow(id, emails);
      AddAdminsAdds(admins, id, emails[..|emails| - 1]);
    }
  }

  lemma OtherTenantsAdmins(env: Env, specs: seq<Spec>, admins: set<Admin>)
    requires specs != [] && AdminsExact(env, specs[..|specs| - 1], admins) && DistinctIds(specs)
    ensures AdminsOf(env, specs[|specs| - 1]) !! admins
  {
    var front := specs[..|specs| - 1];
    forall a | a in admins
      ensures a.tenant != specs[|specs| - 1].id
    {
      var i :| 0 <= i < |front| && a in AdminsOf(env, front[i]);
      assert front[i] == specs[i];
    }
  }

  lemma UpsertAdminsExact(env: Env, specs: seq<Spec>, admins: set<Admin>)
    requires specs != [] && AdminsExact(env, specs[..|specs| - 1], admins)
    ensures var last := specs[|specs| - 1];
            var added := AddAdmins(admins, last.id, AdminEmails(env, last));
            && (DistinctIds(specs) ==> added.Some?)
            && (added.Some? ==> AdminsExact(env, specs, added.value))
  {
    var last := specs[|specs| - 1];
    var emails := AdminEmails(env, last);
    if DistinctIds(specs) {
      NonBlankOnceDistinct(env, last.admins);
      OtherTenantsAdmins(env, specs, admins);
      AddFreeAdmins(admins, last.id, emails);
    }
    var added := AddAdmins(admins, last.id, emails);
    if added.Some? {
      AddAdminsAdds(admins, last.id, emails);
      AdminsGrow(env, specs, admins, added.value);
    }
  }

  lemma AdminsGrow(env: Env, specs: seq<Spec>, admins: set<Admin>, more: set<Admin>)
    requires specs != [] && AdminsExact(env, specs[..|specs| - 1], admins)
    requires more == admins + AdminsOf(env, specs[|specs| - 1])
    ensures AdminsExact(env, specs, more)
  {
    var front := specs[..|specs| - 1];
    forall a | a in more
      ensures exists i :: 0 <= i < |specs| && a in AdminsOf(env, specs[i])
    {
      if a in admins {
        var i :| 0 <= i < |front| && a in AdminsOf(env, front[i]);
        assert specs[i] == front[i];
      } else {
        assert a in AdminsOf(env, specs[|specs| - 1]);
      }
    }
    forall i | 0 <= i < |specs|
      ensures AdminsOf(env, specs[i]) <= more
    {
      if i < |front| {
        assert front[i] == specs[i];
      }
    }
  }

  // ---------------------------------------------------------------------------
  // Tenants and profiles
  // ---------------------------------------------------------------------------

  predicate TenantsExact(specs: seq<Spec>, tenants: map<Id, Tenant>, before: set<Id>) {
    && tenants.Keys == before + Ids(specs)
    && forall i :: 0 <= i < |specs| && (forall j :: i < j < |specs| ==> specs[j].id != specs[i].id) ==>
         specs[i].id in tenants && tenants[specs[i].id] == TenantOf(specs[i])
  }

  /** One default email profile per configured tenant. */
  predicate EmailsExact(env: Env, specs: seq<Spec>, nonce: nat, emails: set<EmailRow>) {
    && (forall r :: r in emails ==> exists i :: 0 <= i < |specs| && r == EmailOf(env, specs[i], nonce, i))
    && (forall i :: 0 <= i < |specs| ==> EmailOf(env, specs[i], nonce, i) in emails)
  }

  /** A text-message profile where one is configured. */
  predicate SmsExact(env: Env, specs: seq<Spec>, nonce: nat, sms: set<SmsRow>) {
    && (forall r :: r in sms ==> exists i :: 0 <= i < |specs| && r in SmsOf(env, specs[i], nonce, i))
    && (forall i :: 0 <= i < |specs| ==> SmsOf(env, specs[i], nonce, i) <= sms)
  }

  predicate Exact(env: Env, specs: seq<Spec>, nonce: nat, u: Tables, before: set<Id>) {
    && TenantsExact(specs, u.tenants, before)
    && DomainsExact(env, specs, u.domains)
    && AdminsExact(env, specs, u.admins)
    && EmailsExact(env, specs, nonce, u.emails)
    && SmsExact(env, specs, nonce, u.sms)
  }

  lemma TenantsGrow(specs: seq<Spec>, tenants: map<Id, Tenant>, before: set<Id>)
    requires specs != [] && TenantsExact(specs[..|specs| - 1], tenants, before)
    ensures var last := specs[|specs| - 1]; TenantsExact(specs, tenants[last.id := TenantOf(last)], before)
  {
    var front, last := specs[..|specs| - 1], specs[|specs| - 1];
    IdsGrow(specs);
    var more := tenants[last.id := TenantOf(last)];
    forall i | 0 <= i < |specs| && (forall j :: i < j < |specs| ==> specs[j].id != specs[i].id)
      ensures specs[i].id in more && more[specs[i].id] == TenantOf(specs[i])
    {
      if i < |front| {
        assert last.id != specs[i].id;
        assert forall j :: i < j < |front| ==> front[j].id == specs[j].id;
        assert front[i] == specs[i];
      }
    }
  }

  lemma EmailsGrow(env: Env, specs: seq<Spec>, nonce: nat, emails: set<EmailRow>)
    requires specs != [] && EmailsExact(env, specs[..|specs| - 1], nonce, emails)
    ensures EmailsExact(env, specs, nonce, emails + {EmailOf(env, specs[|specs| - 1], nonce, |specs| - 1)})
  {
    var front, n := specs[..|specs| - 1], |specs| - 1;
    var more := emails + {EmailOf(env, specs[n], nonce, n)};
    forall r | r in more
      ensures exists i :: 0 <= i < |specs| && r == EmailOf(env, specs[i], nonce, i)
    {
      if r in emails {
        var i :| 0 <= i < |front| && r == EmailOf(env, front[i], nonce, i);
        assert specs[i] == front[i];
      } else {
        assert r == EmailOf(env, specs[n], nonce, n);
      }
    }
    forall i | 0 <= i < |specs|
      ensures EmailOf(env, specs[i], nonce, i) in more
    {
      if i < n {
        assert EmailOf(env, front[i], nonce, i) in emails;
      }
    }
  }

  lemma SmsGrow(env: Env, specs: seq<Spec>, nonce: nat, sms: set<SmsRow>)
    requires specs != [] && SmsExact(env, specs[..|specs| - 1], nonce, sms)
    ensures SmsExact(env, specs, nonce, sms + SmsOf(env, specs[|specs| - 1], nonce, |specs| - 1))
  {
    var front, n := specs[..|specs| - 1], |specs| - 1;
    var more := sms + SmsOf(env, specs[n], nonce, n);
    forall r | r in more
      ensures exists i :: 0 <= i < |specs| && r in SmsOf(env, specs[i], nonce, i)
    {
      if r in sms {
        var i :| 0 <= i < |front| && r in SmsOf(env, front[i], nonce, i);
        assert specs[i] == front[i];
      } else {
        assert r in SmsOf(env, specs[n], nonce, n);
      }
    }
    forall i | 0 <= i < |specs|
      ensures SmsOf(env, specs[i], nonce, i) <= more
    {
      if i < n {
        assert SmsOf(env, front[i], nonce, i) <= sms;
      }
    }
  }

  // ---------------------------------------------------------------------------
  // The whole transaction
  // ---------------------------------------------------------------------------

  predicate StatusesBlank(specs: seq<Spec>) {
    forall i :: 0 <= i < |specs| ==> Text.TrimSpace(specs[i].status) == ""
  }

  /** From cleared tables the writes yield exactly the configured rows and never a domain conflict. */
  lemma {:induction false} UpsertAllExact(env: Env, t: Tables, specs: seq<Spec>, nonce: nat)
    requires Distinct(AllHosts(env, specs))
    requires t.domains == map[] && t.admins == {} && t.emails == {} && t.sms == {}
    ensures UpsertAll(env, t, specs, nonce) != Err(DomainConflict)
    ensures DistinctIds(specs) ==> (UpsertAll(env, t, specs, nonce).Ok? <==> StatusesBlank(specs))
    ensures UpsertAll(env, t, specs, nonce).Ok? ==>
              Exact(env, specs, nonce, UpsertAll(env, t, specs, nonce).value, t.tenants.Keys)
    decreases |specs|
  {
    if specs != [] {
      var front, last := specs[..|specs| - 1], specs[|specs| - 1];
      DistinctParts(AllHosts(env, front), Hosts(env, last));
      UpsertAllExact(env, t, front, nonce);
      assert StatusesBlank(specs) <==> StatusesBlank(front) && Text.TrimSpace(last.status) == "" by {
        assert forall i :: 0 <= i < |front| ==> front[i] == specs[i];
      }
      var r := UpsertAll(env, t, front, nonce);
      if r.Ok? {
        UpsertOneExact(env, specs, nonce, r.value, t.tenants.Keys);
      }
    }
  }

  lemma UpsertOneExact(env: Env, specs: seq<Spec>, nonce: nat, u: Tables, before: set<Id>)
    requires specs != [] && Distinct(AllHosts(env, specs)) && Exact(env, specs[..|specs| - 1], nonce, u, before)
    ensures var last := specs[|specs| - 1];
            var r := Upsert(env, u, last, nonce, |specs| - 1);
            && r != Err(DomainConflict)
            && (DistinctIds(specs) ==> (r.Ok? <==> Text.TrimSpace(last.status) == ""))
            && (r.Ok? ==> Exact(env, specs, nonce, r.value, before))
  {
    var last, n := specs[|specs| - 1], |specs| - 1;
    UpsertDomainsExact(env, specs, u.domains);
    UpsertAdminsExact(env, specs, u.admins);
    if Upsert(env, u, last, nonce, n).Ok? {
      var v := Upsert(env, u, last, nonce, n).value;
      assert TenantsExact(specs, v.tenants, before) by {
        TenantsGrow(specs, u.tenants, before);
      }
      assert EmailsExact(env, specs, nonce, v.emails) by {
        EmailsGrow(env, specs, nonce, u.emails);
      }
      assert SmsExact(env, specs, nonce, v.sms) by {
        SmsGrow(env, specs, nonce, u.sms);
      }
    }
  }

  /**
   A successful bootstrap stores exactly what is configured: the configured tenants, hosts,
   administrators and profiles, and nothing else. The domain conflict of the upsert cannot
   happen after validation and reset.
   */
  lemma BootstrapExact(env: Env, t: Tables, cfg: seq<Spec>, nonce: nat)
    ensures Bootstrapped(env, t, cfg, nonce) != Err(DomainConflict)
    ensures Bootstrapped(env, t, cfg, nonce).Ok? ==>
              Exact(env, Prepared(env, cfg, nonce), nonce, Bootstrapped(env, t, cfg, nonce).value, {})
  {
    var specs := Prepared(env, cfg, nonce);
    DomainErrorIsNotConflict(env, specs);
    if DomainError(env, specs).None? {
      DomainErrorMeaning(env, specs);
      ResetExact(env, t, specs, nonce);
    }
  }

  lemma ResetExact(env: Env, t: Tables, specs: seq<Spec>, nonce: nat)
    requires Distinct(AllHosts(env, specs))
    ensures var r := UpsertAll(env, Reset(t, Ids(specs)), specs, nonce);
            r != Err(DomainConflict) && (r.Ok? ==> Exact(env, specs, nonce, r.value, {}))
  {
    var reset := Reset(t, Ids(specs));
    UpsertAllExact(env, reset, specs, nonce);
    assert reset.tenants.Keys <= Ids(specs);
    if UpsertAll(env, reset, specs, nonce).Ok? {
      ForgetKept(specs, UpsertAll(env, reset, specs, nonce).value.tenants, reset.tenants.Keys);
    }
  }

  /** Tenants kept by the reset are configured ones. */
  lemma ForgetKept(specs: seq<Spec>, tenants: map<Id, Tenant>, before: set<Id>)
    requires TenantsExact(specs, tenants, before) && before <= Ids(specs)
    ensures TenantsExact(specs, tenants, {})
  {
    assert before + Ids(specs) == {} + Ids(specs);
  }

  lemma {:induction false} DomainErrorIsNotConflict(env: Env, specs: seq<Spec>)
    ensures DomainError(env, specs) != Some(DomainConflict)
  {
    if specs != [] {
      DomainErrorIsNotConflict(env, specs[..|specs| - 1]);
    }
  }

  /** With distinct ids a bootstrap succeeds exactly on acceptable configurations. */
  lemma BootstrapSucceedsIff(env: Env, t: Tables, cfg: seq<Spec>, nonce: nat)
    requires DistinctIds(Prepared(env, cfg, nonce))
    ensures var specs := Prepared(env, cfg, nonce);
            Bootstrapped(env, t, cfg, nonce).Ok? <==>
              && (exists i :: 0 <= i < |specs| && IsEnabled(specs[i]))
              && Validated(env, specs) && StatusesBlank(specs)
  {
    var specs := Prepared(env, cfg, nonce);
    DomainErrorMeaning(env, specs);
    if Validated(env, specs) {
      UpsertAllExact(env, Reset(t, Ids(specs)), specs, nonce);
    }
  }

  lemma OneDefaultAmong(env: Env, specs: seq<Spec>, domains: map<string, Domain>, i: nat, host: string)
    requires DomainsExact(env, specs, domains) && DistinctIds(specs) && i < |specs| && Hosts(env, specs[i]) != []
    ensures (host in domains && domains[host] == Domain(specs[i].id, true)) <==> host == Hosts(env, specs[i])[0]
  {
    if host in domains && domains[host] == Domain(specs[i].id, true) {
      var k, j := HostBelongs(env, specs, host);
      assert domains[Hosts(env, specs[k])[j]] == Domain(specs[k].id, j == 0);
      assert k == i;
    }
    assert domains[Hosts(env, specs[i])[0]] == Domain(specs[i].id, true);
  }

  /** Each host maps to one tenant by the shape of the table; each tenant has exactly one default host. */
  lemma OneDefaultHost(env: Env, t: Tables, cfg: seq<Spec>, nonce: nat, i: nat, host: string)
    requires DistinctIds(Prepared(env, cfg, nonce)) && i < |cfg|
    ensures Bootstrapped(env, t, cfg, nonce).Ok? ==>
              var spec, domains := Prepared(env, cfg, nonce)[i], Bootstrapped(env, t, cfg, nonce).value.domains;
              && Hosts(env, spec) != []
              && ((host in domains && domains[host] == Domain(spec.id, true)) <==> host == Hosts(env, spec)[0])
  {
    if Bootstrapped(env, t, cfg, nonce).Ok? {
      BootstrapExact(env, t, cfg, nonce);
      DomainErrorMeaning(env, Prepared(env, cfg, nonce));
      OneDefaultAmong(env, Prepared(env, cfg, nonce), Bootstrapped(env, t, cfg, nonce).value.domains, i, host);
    }
  }

  lemma {:induction false} HostBelongs(env: Env, specs: seq<Spec>, host: string) returns (k: nat, j: nat)
    requires host in AllHosts(env, specs)
    ensures k < |specs| && j < |Hosts(env, specs[k])| && Hosts(env, specs[k])[j] == host
    decreases |specs|
  {
    var front, last := specs[..|specs| - 1], specs[|specs| - 1];
    if host in Hosts(env, last) {
      k := |specs| - 1;
      j :| 0 <= j < |Hosts(env, last)| && Hosts(env, last)[j] == host;
    } else {
      k, j := HostBelongs(env, front, host);
      assert front[k] == specs[k];
    }
  }

  // ---------------------------------------------------------------------------
  // Convergence
  // ---------------------------------------------------------------------------

  /** The writes depend on earlier rows only through tenants that are not configured. */
  lemma {:induction false} UpsertAllConverges(env: Env, a: Tables, b: Tables, specs: seq<Spec>, nonce: nat)
    requires a.(tenants := b.tenants) == b
    ensures match (UpsertAll(env, a, specs, nonce), UpsertAll(env, b, specs, nonce))
            case (Ok(u), Ok(v)) =>
              && u.(tenants := v.tenants) == v
              && u.tenants.Keys == a.tenants.Keys + Ids(specs) && v.tenants.Keys == b.tenants.Keys + Ids(specs)
              && forall id :: id in Ids(specs) ==> u.tenants[id] == v.tenants[id]
            case (Err(e), Err(f)) => e == f
            case _ => false
    decreases |specs|
  {
    if specs != [] {
      var front, last := specs[..|specs| - 1], specs[|specs| - 1];
      UpsertAllConverges(env, a, b, front, nonce);
      IdsGrow(specs);
      var u, v := UpsertAll(env, a, front, nonce), UpsertAll(env, b, front, nonce);
      if u.Ok? {
        UpsertConverges(env, u.value, v.value, last, nonce, |front|);
      }
    }
  }

  lemma IdsGrow(specs: seq<Spec>)
    requires specs != []
    ensures Ids(specs) == Ids(specs[..|specs| - 1]) + {specs[|specs| - 1].id}
  {
    var front := specs[..|specs| - 1];
    forall id
      ensures id in Ids(specs) <==> id in Ids(front) || id == specs[|specs| - 1].id
    {
      if i :| 0 <= i < |front| && front[i].id == id {
        assert specs[i].id == id;
      }
    }
  }

  /** One upsert treats tables that differ in their tenants alike. */
  lemma UpsertConverges(env: Env, u: Tables, v: Tables, spec: Spec, nonce: nat, i: nat)
    requires u.(tenants := v.tenants) == v
    ensures match (Upsert(env, u, spec, nonce, i), Upsert(env, v, spec, nonce, i))
            case (Ok(x), Ok(y)) =>
              && x.(tenants := y.tenants) == y
              && x.tenants == u.tenants[spec.id := TenantOf(spec)] && y.tenants == v.tenants[spec.id := TenantOf(spec)]
            case (Err(e), Err(f)) => e == f
            case _ => false
  {
  }

  lemma ResetConverges(env: Env, t: Tables, t': Tables, specs: seq<Spec>, nonce: nat)
    ensures UpsertAll(env, Reset(t, Ids(specs)), specs, nonce) == UpsertAll(env, Reset(t', Ids(specs)), specs, nonce)
  {
    var a, b := Reset(t, Ids(specs)), Reset(t', Ids(specs));
    UpsertAllConverges(env, a, b, specs, nonce);
    if UpsertAll(env, a, specs, nonce).Ok? {
      var u, v := UpsertAll(env, a, specs, nonce).value, UpsertAll(env, b, specs, nonce).value;
      assert a.tenants.Keys <= Ids(specs) && b.tenants.Keys <= Ids(specs);
      assert u.tenants.Keys == Ids(specs) == v.tenants.Keys;
      assert u.tenants == v.tenants;
    }
  }

  /** Whatever was there before, a bootstrap of the same configuration has the same outcome. */
  lemma BootstrapConverges(env: Env, t: Tables, t': Tables, cfg: seq<Spec>, nonce: nat)
    ensures Bootstrapped(env, t, cfg, nonce) == Bootstrapped(env, t', cfg, nonce)
  {
    ResetConverges(env, t, t', Prepared(env, cfg, nonce), nonce);
  }

  // ---------------------------------------------------------------------------
  // Hosts and administrators, from the configured entries
  // ---------------------------------------------------------------------------

  lemma {:induction false} NonBlankIff(env: Env, entries: seq<string>, value: string)
    ensures value in NonBlank(env, entries) <==>
            value != "" && exists k :: 0 <= k < |entries| && env.lower(Text.TrimSpace(entries[k])) == value
  {
    if entries != [] {
      NonBlankIff(env, entries[..|entries| - 1], value);
      assert entries == entries[..|entries| - 1] + [entries[|entries| - 1]];
    }
  }

  lemma {:induction false} NonBlankOnceIff(env: Env, entries: seq<string>, value: string)
    ensures value in NonBlankOnce(env, entries) <==> value in NonBlank(env, entries)
  {
    if entries != [] {
      NonBlankOnceIff(env, entries[..|entries| - 1], value);
    }
  }

  /** The first host is the first entry that is not blank. */
  lemma {:induction false} FirstHost(env: Env, entries: seq<string>, k: nat)
    requires k < |entries| && env.lower(Text.TrimSpace(entries[k])) != ""
    requires forall j :: 0 <= j < k ==> env.lower(Text.TrimSpace(entries[j])) == ""
    ensures NonBlank(env, entries) != [] && NonBlank(env, entries)[0] == env.lower(Text.TrimSpace(entries[k]))
    decreases |entries|
  {
    var n := |entries| - 1;
    if k < n {
      FirstHost(env, entries[..n], k);
    } else {
      NothingBefore(env, entries[..n]);
    }
  }

  lemma {:induction false} NothingBefore(env: Env, entries: seq<string>)
    requires forall j :: 0 <= j < |entries| ==> env.lower(Text.TrimSpace(entries[j])) == ""
    ensures NonBlank(env, entries) == []
  {
    if entries != [] {
      NothingBefore(env, entries[..|entries| - 1]);
    }
  }

  /** After a successful bootstrap exactly the configured administrators are stored, each for its tenant. */
  lemma ProvisionedAdmins(env: Env, t: Tables, cfg: seq<Spec>, nonce: nat, id: Id, email: string)
    requires Bootstrapped(env, t, cfg, nonce).Ok?
    ensures Admin(id, email) in Bootstrapped(env, t, cfg, nonce).value.admins <==>
            exists i :: 0 <= i < |cfg| && Prepared(env, cfg, nonce)[i].id == id && Administers(env, cfg[i], email)
  {
    var specs, admins := Prepared(env, cfg, nonce), Bootstrapped(env, t, cfg, nonce).value.admins;
    BootstrapExact(env, t, cfg, nonce);
    forall i | 0 <= i < |cfg|
      ensures Admin(id, email) in AdminsOf(env, specs[i]) <==> specs[i].id == id && Administers(env, cfg[i], email)
    {
      NonBlankOnceIff(env, cfg[i].admins, email);
      NonBlankIff(env, cfg[i].admins, email);
    }
  }

  /** The email is one of the tenant's administrators, up to case and outer space. */
  predicate Administers(env: Env, spec: Spec, email: string) {
    email != "" && exists k :: 0 <= k < |spec.admins| && env.lower(Text.TrimSpace(spec.admins[k])) == email
  }
}
