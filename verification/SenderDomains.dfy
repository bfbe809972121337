/**
 Normalising and validating a sender domain: lower case, trimmed, without a trailing
 dot, at least two labels of letters, digits and inner hyphens.
 */
module SenderDomains {
  import opened Wrappers
  import opened Text

  const MAX_NAME := 253
  const MAX_LABEL := 63
  const FORBIDDEN := "@/\\: \t\r\n"

  function Labels(domain: string): seq<string> {
    Split(domain, '.')
  }

  predicate LabelChar(c: char) {
    'a' <= c <= 'z' || '0' <= c <= '9' || c == '-'
  }

  predicate IsLabel(piece: string) {
    && 0 < |piece| <= MAX_LABEL
    && piece[0] != '-' && piece[|piece| - 1] != '-'
    && forall i :: 0 <= i < |piece| ==> LabelChar(piece[i])
  }

  predicate AllLabels(labels: seq<string>) {
    forall i :: 0 <= i < |labels| ==> IsLabel(labels[i])
  }

  predicate IsName(domain: string) {
    |domain| <= MAX_NAME && AllLabels(Labels(domain))
  }

  /** Lower-case letters, digits and inner hyphens, within the limit of section 2.3.4 of RFC 1035. */
  predicate IsShortLabel(piece: string) {
    && 1 <= |piece| <= 63 && piece[0] != '-' && piece[|piece| - 1] != '-'
    && forall j :: 0 <= j < |piece| ==> 'a' <= piece[j] <= 'z' || '0' <= piece[j] <= '9' || piece[j] == '-'
  }

  predicate AllShortLabels(pieces: seq<string>) {
    forall k :: 0 <= k < |pieces| ==> IsShortLabel(pieces[k])
  }

  lemma LabelMeaning(piece: string)
    ensures IsLabel(piece) <==> IsShortLabel(piece)
  {
    forall j | 0 <= j < |piece|
      ensures LabelChar(piece[j]) <==> 'a' <= piece[j] <= 'z' || '0' <= piece[j] <= '9' || piece[j] == '-'
    {
    }
  }

  lemma {:induction false} LabelsMeaning(pieces: seq<string>)
    ensures AllLabels(pieces) <==> AllShortLabels(pieces)
  {
    if pieces != [] {
      var n := |pieces| - 1;
      LabelsMeaning(pieces[..n]);
      LabelMeaning(pieces[n]);
      assert forall k :: 0 <= k < n ==> pieces[..n][k] == pieces[k];
      assert AllLabels(pieces) <==> AllLabels(pieces[..n]) && IsLabel(pieces[n]);
      assert AllShortLabels(pieces) <==> AllShortLabels(pieces[..n]) && IsShortLabel(pieces[n]);
    }
  }

  /** A name is valid exactly within that section's limits for names and labels. */
  lemma NameMeaning(domain: string)
    ensures IsName(domain) <==> |domain| <= 253 && AllShortLabels(Split(domain, '.'))
  {
    LabelsMeaning(Split(domain, '.'));
  }

  method ValidLabel(piece: string) returns (ok: bool)
    ensures ok <==> IsLabel(piece)
  {
    if |piece| == 0 || |piece| > MAX_LABEL || piece[0] == '-' || piece[|piece| - 1] == '-' {
      return false;
    }
    var i := 0;
    while i < |piece|
      invariant i <= |piece|
      invariant forall j :: 0 <= j < i ==> LabelChar(piece[j])
    {
      if !LabelChar(piece[i]) {
        return false;
      }
      i := i + 1;
    }
    return true;
  }

  method ValidDnsDomainName(domain: string) returns (ok: bool)
    ensures ok <==> IsName(domain)
  {
    if |domain| > MAX_NAME {
      return false;
    }
    var labels := Labels(domain);
    var i := 0;
    while i < |labels|
      invariant i <= |labels|
      invariant AllLabels(labels[..i])
    {
      var valid := ValidLabel(labels[i]);
      if !valid {
        return false;
      }
      i := i + 1;
    }
    assert labels[..i] == labels;
    return true;
  }

  predicate NameChar(c: char) {
    c == '.' || LabelChar(c)
  }

  /** Made of label characters and dots, neither starting nor ending with a dot. */
  predicate WellSpelled(domain: string) {
    && domain != "" && domain[0] != '.' && domain[|domain| - 1] != '.'
    && forall i :: 0 <= i < |domain| ==> NameChar(domain[i])
  }

  lemma LabelsStep(domain: string, p: nat)
    requires p == Position(domain, '.') < |domain| && AllLabels(Labels(domain))
    ensures IsLabel(domain[..p]) && AllLabels(Labels(domain[p + 1..]))
  {
    var labels, rest := Labels(domain), Labels(domain[p + 1..]);
    assert IsLabel(labels[0]);
    forall i | 0 <= i < |rest|
      ensures IsLabel(rest[i])
    {
      assert labels[i + 1] == rest[i];
    }
  }

  lemma JoinSpelled(piece: string, rest: string)
    requires IsLabel(piece) && WellSpelled(rest)
    ensures WellSpelled(piece + "." + rest)
  {
    var whole := piece + "." + rest;
    forall i | 0 <= i < |whole|
      ensures NameChar(whole[i])
    {
      if i > |piece| {
        assert whole[i] == rest[i - |piece| - 1];
      }
    }
    assert LabelChar(piece[0]);
  }

  lemma {:induction false} NameSpelled(domain: string)
    requires AllLabels(Labels(domain))
    ensures WellSpelled(domain)
    decreases |domain|
  {
    var p := Position(domain, '.');
    if p == |domain| {
      assert IsLabel(Labels(domain)[0]);
    } else {
      LabelsStep(domain, p);
      NameSpelled(domain[p + 1..]);
      JoinSpelled(domain[..p], domain[p + 1..]);
      assert domain == domain[..p] + "." + domain[p + 1..];
    }
  }

  function WithoutTrailingDot(s: string): string {
    if s != "" && s[|s| - 1] == '.' then s[..|s| - 1] else s
  }

  function Canonical(lower: string -> string, domain: string): string {
    WithoutTrailingDot(lower(TrimSpace(domain)))
  }

  /** None for an invalid domain; a blank one passes as "". */
  function Normalized(lower: string -> string, domain: string): Option<string> {
    var name := Canonical(lower, domain);
    if name == "" || ('.' in name && IsName(name)) then Some(name) else None
  }

  predicate ContainsAny(s: string, chars: string) {
    exists i :: 0 <= i < |s| && s[i] in chars
  }

  method NormalizeSenderDomain(lower: string -> string, domain: string) returns (r: Option<string>)
    ensures r == Normalized(lower, domain)
    ensures r.Some? ==>
              var text := lower(TrimSpace(domain));
              (r.value == text || r.value + "." == text) && (r.value != "" ==> r.value[|r.value| - 1] != '.')
  {
    var name := Canonical(lower, domain);
    if name == "" {
      return Some("");
    }
    if IsName(name) {
      NameSpelled(name);
    }
    if ContainsAny(name, FORBIDDEN) || '.' !in name {
      return None;
    }
    var valid := ValidDnsDomainName(name);
    if !valid {
      return None;
    }
    return Some(name);
  }

  /** What is stored is stable: a normalised domain normalises to itself. */
  lemma NormalizedStays(lower: string -> string, domain: string)
    requires Normalized(lower, domain).Some?
    ensures var name := Normalized(lower, domain).value;
            lower(name) == name ==> Normalized(lower, name) == Some(name)
  {
    var name := Normalized(lower, domain).value;
    if name != "" {
      NameSpelled(name);
      TrimmedUnchanged(name);
    }
  }
}
