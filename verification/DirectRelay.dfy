/**
 Direct delivery of a submission to the mail exchangers of its recipients' domain:
 order the exchangers, try them in turn, stop at the first that accepts or that
 rejects for good (section 5.1 of RFC 5321, section 3 of RFC 7505).
 */
module DirectRelay {
  import opened Wrappers
  import opened Addresses
  import Text

  datatype Exchanger = Exchanger(preference: nat, host: string)

  datatype Lookup = Records(records: seq<Exchanger>) | DomainNotFound | LookupFailed

  /** How one target answered; `code` is its SMTP reply if the failure carries one. */
  datatype Attempt = Delivered | Failed(code: Option<int>)

  datatype RelayError = Permanent | Temporary

  predicate IsPermanent(a: Attempt) {
    a.Failed? && a.code.Some? && 500 <= a.code.value < 600
  }

  // ---------------------------------------------------------------------------
  // Exchangers in (preference, host) order
  // ---------------------------------------------------------------------------

  predicate Before(a: Exchanger, b: Exchanger) {
    if a.preference == b.preference then Text.Less(a.host, b.host) else a.preference < b.preference
  }

  predicate Sorted(records: seq<Exchanger>) {
    forall i, j :: 0 <= i < j < |records| ==> !Before(records[j], records[i])
  }

  lemma BeforeTransitive(a: Exchanger, b: Exchanger, c: Exchanger)
    requires !Before(b, a) && !Before(c, b)
    ensures !Before(c, a)
  {
    Text.LessTotal(a.host, b.host);
    Text.LessTotal(b.host, c.host);
    Text.LessTotal(a.host, c.host);
    if Text.Less(a.host, b.host) && Text.Less(b.host, c.host) {
      Text.LessTransitive(a.host, b.host, c.host);
    }
  }

  lemma InsertedSorted(records: seq<Exchanger>, i: nat, r: Exchanger)
    requires Sorted(records) && i <= |records|
    requires forall j :: 0 <= j < i ==> !Before(r, records[j])
    requires forall j :: i <= j < |records| ==> Before(r, records[j])
    ensures var more := records[..i] + [r] + records[i..];
            Sorted(more) && multiset(more) == multiset(records) + multiset{r}
  {
    forall j | i <= j < |records|
      ensures !Before(records[j], r)
    {
      Text.LessTotal(records[j].host, r.host);
    }
    assert records == records[..i] + records[i..];
  }

  method InsertRecord(records: seq<Exchanger>, r: Exchanger) returns (more: seq<Exchanger>)
    requires Sorted(records)
    ensures Sorted(more) && multiset(more) == multiset(records) + multiset{r}
  {
    var i := |records|;
    while i > 0 && Before(r, records[i - 1])
      invariant 0 <= i <= |records|
      invariant forall j :: i <= j < |records| ==> Before(r, records[j])
    {
      i := i - 1;
    }
    forall j | 0 <= j < i
      ensures !Before(r, records[j])
    {
      if j < i - 1 {
        BeforeTransitive(records[j], records[i - 1], r);
      }
    }
    more := records[..i] + [r] + records[i..];
    InsertedSorted(records, i, r);
  }

  method SortRecords(records: seq<Exchanger>) returns (sorted: seq<Exchanger>)
    ensures Sorted(sorted) && multiset(sorted) == multiset(records)
  {
    sorted := [];
    var i := 0;
    while i < |records|
      invariant i <= |records|
      invariant Sorted(sorted) && multiset(sorted) == multiset(records[..i])
    {
      assert records[..i + 1] == records[..i] + [records[i]];
      sorted := InsertRecord(sorted, records[i]);
      i := i + 1;
    }
    assert records[..i] == records;
  }

  lemma SameFirst(a: seq<Exchanger>, b: seq<Exchanger>)
    requires Sorted(a) && Sorted(b) && multiset(a) == multiset(b) && a != [] && b != []
    ensures a[0] == b[0]
  {
    assert a[0] in multiset(b) && b[0] in multiset(a);
    var i :| 0 <= i < |b| && b[i] == a[0];
    var j :| 0 <= j < |a| && a[j] == b[0];
    Text.LessTotal(a[0].host, b[0].host);
  }

  /** Equal exchangers are indistinguishable, so the order is unique. */
  lemma {:induction false} SortedUnique(a: seq<Exchanger>, b: seq<Exchanger>)
    requires Sorted(a) && Sorted(b) && multiset(a) == multiset(b)
    ensures a == b
    decreases |a|
  {
    assert |a| == |multiset(a)| == |multiset(b)| == |b|;
    if a != [] {
      SameFirst(a, b);
      assert a == [a[0]] + a[1..] && b == [b[0]] + b[1..];
      assert multiset(a[1..]) == multiset(a) - multiset{a[0]};
      assert multiset(b[1..]) == multiset(b) - multiset{b[0]};
      SortedUnique(a[1..], b[1..]);
    }
  }

  // ---------------------------------------------------------------------------
  // Targets
  // ---------------------------------------------------------------------------

  /** A domain that publishes a null exchanger accepts no mail at all. */
  predicate HasNull(sorted: seq<Exchanger>) {
    exists i :: 0 <= i < |sorted| && Text.TrimSpace(sorted[i].host) == "."
  }

  /** The nonblank hosts in order. */
  function Hosts(sorted: seq<Exchanger>): seq<string> {
    if sorted == [] then []
    else
      var front, host := Hosts(sorted[..|sorted| - 1]), Text.TrimSpace(sorted[|sorted| - 1].host);
      if host == "" then front else front + [host]
  }

  ghost predicate IsTargets(domain: string, lookup: Lookup, r: Result<seq<string>, RelayError>) {
    match lookup
    case LookupFailed => r == Err(Temporary)
    case DomainNotFound => r == Ok([domain])
    case Records(records) =>
      if records == [] then r == Ok([domain])
      else exists sorted :: Sorted(sorted) && multiset(sorted) == multiset(records) && r == TargetsOf(sorted)
  }

  function TargetsOf(sorted: seq<Exchanger>): Result<seq<string>, RelayError> {
    if HasNull(sorted) then Err(Permanent)
    else if Hosts(sorted) == [] then Err(Temporary)
    else Ok(Hosts(sorted))
  }

  /** Only the domain, its exchangers and their order decide the targets. */
  lemma TargetsUnique(domain: string, lookup: Lookup, a: Result<seq<string>, RelayError>,
                      b: Result<seq<string>, RelayError>)
    requires IsTargets(domain, lookup, a) && IsTargets(domain, lookup, b)
    ensures a == b
    ensures a.Ok? ==> a.value != []
  {
    if lookup.Records? && lookup.records != [] {
      var sa :| Sorted(sa) && multiset(sa) == multiset(lookup.records) && a == TargetsOf(sa);
      var sb :| Sorted(sb) && multiset(sb) == multiset(lookup.records) && b == TargetsOf(sb);
      SortedUnique(sa, sb);
    }
  }

  method LookupTargets(domain: string, lookup: Lookup) returns (r: Result<seq<string>, RelayError>)
    ensures IsTargets(domain, lookup, r)
  {
    match lookup
    case LookupFailed => return Err(Temporary);
    case DomainNotFound => return Ok([domain]);
    case Records(records) =>
      if |records| == 0 {
        return Ok([domain]);
      }
      var sorted := SortRecords(records);
      r := CollectTargets(sorted);
  }

  method CollectTargets(sorted: seq<Exchanger>) returns (r: Result<seq<string>, RelayError>)
    ensures r == TargetsOf(sorted)
  {
    var targets: seq<string> := [];
    var i := 0;
    while i < |sorted|
      invariant i <= |sorted|
      invariant !HasNull(sorted[..i])
      invariant targets == Hosts(sorted[..i])
    {
      var host := Text.TrimSpace(sorted[i].host);
      assert sorted[..i + 1][..i] == sorted[..i];
      if host == "." {
        return Err(Permanent);
      }
      if host != "" {
        targets := targets + [host];
      }
      i := i + 1;
    }
    assert sorted[..i] == sorted;
    if |targets| == 0 {
      return Err(Temporary);
    }
    return Ok(targets);
  }

  // ---------------------------------------------------------------------------
  // Trying the targets in turn
  // ---------------------------------------------------------------------------

  /** `tried` is how many targets were contacted. */
  datatype Delivery = Delivery(result: Result<(), RelayError>, tried: nat)

  /** `attempts(i)` is how target i answers when it is contacted. */
  predicate SoftFailuresBefore(attempts: nat -> Attempt, n: nat) {
    forall i: nat :: i < n ==> attempts(i).Failed? && !IsPermanent(attempts(i))
  }

  /** Exactly what the loop over `n` targets may report. */
  predicate IsDelivery(n: nat, attempts: nat -> Attempt, d: Delivery) {
    && d.tried <= n
    && match d.result
       case Ok(_) => 0 < d.tried && SoftFailuresBefore(attempts, d.tried - 1) && attempts(d.tried - 1).Delivered?
       case Err(Permanent) =>
         0 < d.tried && SoftFailuresBefore(attempts, d.tried - 1) && IsPermanent(attempts(d.tried - 1))
       case Err(Temporary) => d.tried == n && SoftFailuresBefore(attempts, n)
  }

  /** Any two reports for the same answers agree: the outcome is determined. */
  lemma DeliveryUnique(n: nat, attempts: nat -> Attempt, a: Delivery, b: Delivery)
    requires IsDelivery(n, attempts, a) && IsDelivery(n, attempts, b)
    ensures a == b
  {
    assert 0 < a.tried ==> attempts(a.tried - 1).Delivered? || attempts(a.tried - 1).Failed?;
    assert 0 < b.tried ==> attempts(b.tried - 1).Delivered? || attempts(b.tried - 1).Failed?;
    assert a.result.Ok? && b.result.Ok? ==> a.result.value == () == b.result.value;
  }

  method TryTargets(targets: seq<string>, attempts: nat -> Attempt) returns (d: Delivery)
    ensures IsDelivery(|targets|, attempts, d)
  {
    var i := 0;
    while i < |targets|
      invariant i <= |targets|
      invariant SoftFailuresBefore(attempts, i)
    {
      var attempt := attempts(i);
      if attempt.Delivered? {
        return Delivery(Ok(()), i + 1);
      }
      if IsPermanent(attempt) {
        return Delivery(Err(Permanent), i + 1);
      }
      i := i + 1;
    }
    return Delivery(Err(Temporary), |targets|);
  }

  // ---------------------------------------------------------------------------
  // The relay
  // ---------------------------------------------------------------------------

  /** The recipients of one domain, in order. */
  function OfDomain(recipients: seq<Address>, domain: string): seq<Address> {
    if recipients == [] then []
    else
      var front, last := OfDomain(recipients[..|recipients| - 1], domain), recipients[|recipients| - 1];
      if last.domain == domain then front + [last] else front
  }

  function Domains(recipients: seq<Address>): set<string> {
    set r | r in recipients :: r.domain
  }

  lemma GroupGrows(recipients: seq<Address>, r: Address, grouped: map<string, seq<Address>>)
    requires grouped.Keys == Domains(recipients)
    requires forall domain :: domain in grouped ==> grouped[domain] == OfDomain(recipients, domain)
    ensures Domains(recipients + [r]) == Domains(recipients) + {r.domain}
    ensures forall domain :: domain in grouped && domain != r.domain ==>
              OfDomain(recipients + [r], domain) == grouped[domain]
    ensures OfDomain(recipients + [r], r.domain) == (if r.domain in grouped then grouped[r.domain] else []) + [r]
  {
    var more := recipients + [r];
    assert more[..|recipients|] == recipients && more[|recipients|] == r;
    if r.domain !in grouped {
      NoneOfDomain(recipients, r.domain);
    }
  }

  method GroupByDomain(recipients: seq<Address>) returns (grouped: map<string, seq<Address>>)
    ensures grouped.Keys == Domains(recipients)
    ensures forall domain :: domain in grouped ==> grouped[domain] == OfDomain(recipients, domain)
  {
    grouped := map[];
    var i := 0;
    while i < |recipients|
      invariant i <= |recipients|
      invariant grouped.Keys == Domains(recipients[..i])
      invariant forall domain :: domain in grouped ==> grouped[domain] == OfDomain(recipients[..i], domain)
    {
      var r := recipients[i];
      assert recipients[..i + 1] == recipients[..i] + [r];
      GroupGrows(recipients[..i], r, grouped);
      grouped := grouped[r.domain := (if r.domain in grouped then grouped[r.domain] else []) + [r]];
      i := i + 1;
    }
    assert recipients[..i] == recipients;
  }

  lemma {:induction false} NoneOfDomain(recipients: seq<Address>, domain: string)
    requires domain !in Domains(recipients)
    ensures OfDomain(recipients, domain) == []
  {
    if recipients != [] {
      var front := recipients[..|recipients| - 1];
      assert forall r :: r in front ==> r in recipients;
      assert recipients[|recipients| - 1] in recipients;
      NoneOfDomain(front, domain);
    }
  }

  lemma {:induction false} AllOfDomain(recipients: seq<Address>, domain: string)
    requires Domains(recipients) <= {domain}
    ensures OfDomain(recipients, domain) == recipients
  {
    if recipients != [] {
      var front := recipients[..|recipients| - 1];
      assert forall r :: r in front ==> r in recipients;
      assert recipients[|recipients| - 1] in recipients && recipients[|recipients| - 1].domain in Domains(recipients);
      AllOfDomain(front, domain);
    }
  }

  /** What a relay run did: the envelope it offered to each target, the targets, and how many it tried. */
  datatype Report = Report(result: Result<(), RelayError>, envelope: seq<Address>, targets: seq<string>, tried: nat)

  /** One domain: without targets nobody is contacted, else all recipients go to each target tried. */
  predicate IsDomainReport(recipients: seq<Address>, targets: Result<seq<string>, RelayError>,
                           attempts: nat -> Attempt, report: Report) {
    && report.envelope == recipients
    && match targets
       case Err(e) => report.result == Err(e) && report.targets == [] && report.tried == 0
       case Ok(list) => report.targets == list && IsDelivery(|list|, attempts, Delivery(report.result, report.tried))
  }

  /**
   The relay as a whole. `lookup` answers for the recipients' domain.
   Every outcome is pinned down: no recipients, nothing to do; several domains, refused
   without contacting anyone; one domain, its targets in order with all recipients.
   */
  ghost predicate IsReport(recipients: seq<Address>, lookup: Lookup, attempts: nat -> Attempt, report: Report) {
    if recipients == [] then report == Report(Ok(()), [], [], 0)
    else if |Domains(recipients)| > 1 then report == Report(Err(Permanent), [], [], 0)
    else
      exists targets ::
        IsTargets(recipients[0].domain, lookup, targets) && IsDomainReport(recipients, targets, attempts, report)
  }

  method Relay(recipients: seq<Address>, lookup: Lookup, attempts: nat -> Attempt) returns (report: Report)
    ensures IsReport(recipients, lookup, attempts, report)
  {
    var grouped := GroupByDomain(recipients);
    var domains := grouped.Keys;
    assert recipients != [] ==> recipients[0] in recipients && recipients[0].domain in domains;
    if |domains| > 1 {
      return Report(Err(Permanent), [], [], 0);
    }
    if |domains| == 0 {
      return Report(Ok(()), [], [], 0);
    }
    var domain :| domain in domains;
    OnlyMember(domains, domain);
    AllOfDomain(recipients, domain);
    var targets := LookupTargets(domain, lookup);
    if targets.Err? {
      report := Report(Err(targets.error), grouped[domain], [], 0);
    } else {
      var delivery := TryTargets(targets.value, attempts);
      report := Report(delivery.result, grouped[domain], targets.value, delivery.tried);
    }
    assert IsDomainReport(recipients, targets, attempts, report);
  }

  lemma OnlyMember(s: set<string>, x: string)
    requires |s| == 1 && x in s
    ensures s == {x}
  {
    assert |s - {x}| == 0;
  }

  lemma DomainSucceedsIff(n: nat, attempts: nat -> Attempt, d: Delivery)
    requires IsDelivery(n, attempts, d)
    ensures d.result.Ok? <==> exists k: nat :: k < n && attempts(k).Delivered? && SoftFailuresBefore(attempts, k)
    ensures forall k: nat :: k < d.tried && IsPermanent(attempts(k)) ==> k == d.tried - 1 && d.result == Err(Permanent)
  {
    if k: nat :| k < n && attempts(k).Delivered? && SoftFailuresBefore(attempts, k) {
      DeliveryUnique(n, attempts, d, Delivery(Ok(()), k + 1));
    }
  }

  /** A reply of the 500 range; any other failure may pass. */
  predicate RefusedForGood(a: Attempt) {
    a.Failed? && a.code.Some? && 500 <= a.code.value <= 599
  }

  predicate OnlySoftFailures(attempts: nat -> Attempt, n: nat) {
    forall j: nat :: j < n ==> attempts(j).Failed? && !RefusedForGood(attempts(j))
  }

  /** The reply codes alone decide: which target's answer counts, and what is reported. */
  lemma CodesDecide(n: nat, attempts: nat -> Attempt, d: Delivery)
    requires IsDelivery(n, attempts, d)
    ensures d.result == Ok(()) <==> exists k: nat :: k < n && attempts(k).Delivered? && OnlySoftFailures(attempts, k)
    ensures d.result == Err(Permanent) <==>
            exists k: nat :: k < n && RefusedForGood(attempts(k)) && OnlySoftFailures(attempts, k)
    ensures d.result == Err(Temporary) <==> OnlySoftFailures(attempts, n)
  {
    assert forall m: nat :: OnlySoftFailures(attempts, m) <==> SoftFailuresBefore(attempts, m);
    if k: nat :| k < n && attempts(k).Delivered? && OnlySoftFailures(attempts, k) {
      DeliveryUnique(n, attempts, d, Delivery(Ok(()), k + 1));
    }
    if k: nat :| k < n && RefusedForGood(attempts(k)) && OnlySoftFailures(attempts, k) {
      DeliveryUnique(n, attempts, d, Delivery(Err(Permanent), k + 1));
    }
    if OnlySoftFailures(attempts, n) {
      DeliveryUnique(n, attempts, d, Delivery(Err(Temporary), n));
    }
  }

  /** Sorted exchangers: lower preference first, and by host among equals. */
  lemma SortedMeaning(records: seq<Exchanger>, i: nat, j: nat)
    requires Sorted(records) && i < j < |records|
    ensures || records[i].preference < records[j].preference
            || (records[i].preference == records[j].preference && !Text.Less(records[j].host, records[i].host))
  {
    assert !Before(records[j], records[i]);
  }

  /**
   Success on a nonempty list if and only if all recipients share one domain and some
   target accepted them all after only temporary failures before it; that target was
   the last one contacted. A permanent answer stops the run at once.
   */
  lemma RelaySucceedsIff(recipients: seq<Address>, lookup: Lookup, attempts: nat -> Attempt, report: Report,
                         targets: Result<seq<string>, RelayError>)
    requires IsReport(recipients, lookup, attempts, report) && recipients != []
    requires IsTargets(recipients[0].domain, lookup, targets)
    ensures report.result.Ok? <==>
              && Domains(recipients) == {recipients[0].domain}
              && targets.Ok?
              && exists k: nat :: k < |targets.value| && attempts(k).Delivered? && SoftFailuresBefore(attempts, k)
    ensures report.result.Ok? ==>
              && report.envelope == recipients && report.targets == targets.value
              && attempts(report.tried - 1).Delivered? && SoftFailuresBefore(attempts, report.tried - 1)
    ensures forall k: nat :: k < report.tried && IsPermanent(attempts(k)) ==>
              k == report.tried - 1 && report.result == Err(Permanent)
  {
    var domain := recipients[0].domain;
    assert recipients[0] in recipients && domain in Domains(recipients);
    if |Domains(recipients)| <= 1 {
      OnlyMember(Domains(recipients), domain);
      var used :| IsTargets(domain, lookup, used) && IsDomainReport(recipients, used, attempts, report);
      TargetsUnique(domain, lookup, targets, used);
      if targets.Ok? {
        DomainSucceedsIff(|targets.value|, attempts, Delivery(report.result, report.tried));
      }
    }
  }

  lemma OneDomainOrMore(recipients: seq<Address>, i: nat)
    requires i < |recipients| && |Domains(recipients)| <= 1
    ensures recipients[i].domain == recipients[0].domain
  {
    assert recipients[i] in recipients && recipients[0] in recipients;
    assert recipients[i].domain in Domains(recipients) && recipients[0].domain in Domains(recipients);
    OnlyMember(Domains(recipients), recipients[0].domain);
  }

  /** The refusals that contact nobody: several domains, a failed lookup, a null exchanger. */
  lemma RefusedWithoutContact(recipients: seq<Address>, lookup: Lookup, attempts: nat -> Attempt, report: Report,
                              i: nat)
    requires IsReport(recipients, lookup, attempts, report) && i < |recipients|
    ensures recipients[i].domain != recipients[0].domain ==> report.result == Err(Permanent) && report.tried == 0
    ensures |Domains(recipients)| == 1 && lookup.LookupFailed? ==>
              report.result == Err(Temporary) && report.tried == 0
    ensures |Domains(recipients)| == 1 && lookup.Records? &&
            (exists r :: r in lookup.records && Text.TrimSpace(r.host) == ".") ==>
              report.result == Err(Permanent) && report.tried == 0
  {
    if |Domains(recipients)| <= 1 {
      OneDomainOrMore(recipients, i);
      var domain := recipients[0].domain;
      var used :| IsTargets(domain, lookup, used) && IsDomainReport(recipients, used, attempts, report);
      if r :| lookup.Records? && r in lookup.records && Text.TrimSpace(r.host) == "." {
        var sorted :| Sorted(sorted) && multiset(sorted) == multiset(lookup.records) && used == TargetsOf(sorted);
        assert r in multiset(lookup.records);
        assert r in sorted;
      }
    }
  }
}
