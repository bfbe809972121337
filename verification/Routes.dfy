/** Forwarding routes, and sets of text in ascending order. */
module Routes {
  import opened Wrappers
  import opened Addresses
  import Text

  // ---------------------------------------------------------------------------
  // Ascending order
  // ---------------------------------------------------------------------------

  predicate Ascending(keys: seq<string>) {
    forall i, j :: 0 <= i < j < |keys| ==> Text.Less(keys[i], keys[j])
  }

  function Members(keys: seq<string>): set<string> {
    set key | key in keys
  }

  /** A set of texts has only one strictly ascending listing. */
  lemma {:induction false} AscendingUnique(a: seq<string>, b: seq<string>)
    requires Ascending(a) && Ascending(b) && Members(a) == Members(b)
    ensures a == b
  {
    if a == [] {
      assert forall i :: 0 <= i < |b| ==> b[i] in Members(b);
    } else {
      assert a[0] in Members(a) && b != [];
      assert b[0] in Members(b);
      FirstIsLeast(a, b[0]);
      FirstIsLeast(b, a[0]);
      Text.LessTotal(a[0], b[0]);
      WithoutFirstMember(a);
      WithoutFirstMember(b);
      AscendingUnique(a[1..], b[1..]);
      assert a == [a[0]] + a[1..] && b == [b[0]] + b[1..];
    }
  }

  lemma AscendingDistinct(keys: seq<string>)
    requires Ascending(keys)
    ensures forall i, j :: 0 <= i < j < |keys| ==> keys[i] != keys[j]
  {
    forall i, j | 0 <= i < j < |keys|
      ensures keys[i] != keys[j]
    {
      Text.LessTotal(keys[i], keys[j]);
    }
  }

  lemma FirstIsLeast(keys: seq<string>, key: string)
    requires Ascending(keys) && keys != [] && key in Members(keys)
    ensures key == keys[0] || Text.Less(keys[0], key)
  {
  }

  lemma WithoutFirstMember(keys: seq<string>)
    requires Ascending(keys) && keys != []
    ensures Members(keys[1..]) == Members(keys) - {keys[0]}
  {
    Text.LessTotal(keys[0], keys[0]);
    assert keys == [keys[0]] + keys[1..];
    forall key | key in keys[1..]
      ensures key != keys[0]
    {
      var i :| 0 <= i < |keys[1..]| && keys[1..][i] == key;
      assert Text.Less(keys[0], keys[i + 1]);
    }
  }

  /** Where a key belongs in an ascending listing. */
  method Insert(keys: seq<string>, key: string) returns (r: seq<string>)
    requires Ascending(keys) && key !in keys
    ensures Ascending(r) && Members(r) == Members(keys) + {key}
  {
    var i := 0;
    while i < |keys| && Text.Less(keys[i], key)
      invariant i <= |keys|
      invariant forall j :: 0 <= j < i ==> Text.Less(keys[j], key)
    {
      i := i + 1;
    }
    forall j | i <= j < |keys|
      ensures Text.Less(key, keys[j])
    {
      Text.LessTotal(keys[i], key);
      if j > i {
        Text.LessTransitive(key, keys[i], keys[j]);
      }
    }
    r := keys[..i] + [key] + keys[i..];
    assert keys == keys[..i] + keys[i..];
    assert Members(r) == Members(keys) + {key};
  }

  /** Collects keys in any order and sorts them. */
  method Sort(keys: set<string>) returns (sorted: seq<string>)
    ensures Ascending(sorted) && Members(sorted) == keys
  {
    sorted := [];
    var left := keys;
    while left != {}
      invariant left <= keys
      invariant Ascending(sorted) && Members(sorted) == keys - left
      decreases left
    {
      var key :| key in left;
      assert key !in Members(sorted);
      sorted := Insert(sorted, key);
      left := left - {key};
    }
  }

  // ---------------------------------------------------------------------------
  // Routes
  // ---------------------------------------------------------------------------

  datatype Route = Route(address: Address, forwardTo: seq<Address>)

  datatype RouteError = AddressRequired | RecipientRequired | DuplicateRecipient | RecipientsRequired

  predicate Distinct(addresses: seq<Address>) {
    forall i, j :: 0 <= i < j < |addresses| ==> addresses[i].value != addresses[j].value
  }

  predicate NoneBlank(addresses: seq<Address>) {
    forall i :: 0 <= i < |addresses| ==> addresses[i].value != ""
  }

  /** A route exists exactly for a real address and a nonempty list of distinct real recipients. */
  method NewRoute(address: Address, forwardTo: seq<Address>) returns (r: Result<Route, RouteError>)
    ensures r.Ok? <==> address.value != "" && forwardTo != [] && NoneBlank(forwardTo) && Distinct(forwardTo)
    ensures r.Ok? ==> r.value == Route(address, forwardTo)
  {
    if address.value == "" {
      return Err(AddressRequired);
    }
    var seen: set<string> := {};
    var recipients: seq<Address> := [];
    var i := 0;
    while i < |forwardTo|
      invariant i <= |forwardTo|
      invariant recipients == forwardTo[..i]
      invariant forall v :: v in seen <==> exists j :: 0 <= j < i && forwardTo[j].value == v
      invariant NoneBlank(forwardTo[..i]) && Distinct(forwardTo[..i])
    {
      var recipient := forwardTo[i];
      if recipient.value == "" {
        return Err(RecipientRequired);
      }
      if recipient.value in seen {
        return Err(DuplicateRecipient);
      }
      seen := seen + {recipient.value};
      recipients := recipients + [recipient];
      i := i + 1;
    }
    assert forwardTo[..i] == forwardTo;
    if |recipients| == 0 {
      return Err(RecipientsRequired);
    }
    return Ok(Route(address, recipients));
  }
}
