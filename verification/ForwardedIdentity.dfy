/**
 Who a forwarded copy says it is from, whom replies go to, and where those headers
 stand, told from the original headers alone.
 */
module ForwardedIdentity {
  import opened Wrappers
  import opened Text
  import opened MessageLines
  import opened ForwardRewrite
  import HeaderPreservation

  /** The name shown for an author: the first mailbox's name, else its address, else the text itself. */
  predicate IsShownName(lib: MailLibrary, author: string, name: string) {
    match lib.parseList(author)
    case None => name == author
    case Some(list) =>
      if list == [] then name == author
      else if TrimSpace(list[0].name) != "" then name == TrimSpace(list[0].name)
      else name == list[0].address
  }

  lemma FromCarriesRoute(lib: MailLibrary, route: string, author: string) returns (name: string)
    requires Trimmed(author)
    ensures author == "" ==> ForwardedFrom(lib, route, author) == route
    ensures author != "" ==>
              IsShownName(lib, author, name) && ForwardedFrom(lib, route, author) == lib.format(Mailbox(name, route))
  {
    TrimmedUnchanged(author);
    name := author;
    match lib.parseList(author)
    case None =>
    case Some(list) =>
      if list != [] {
        name := if TrimSpace(list[0].name) == "" then list[0].address else TrimSpace(list[0].name);
      }
  }

  lemma OriginalAuthorKept(lib: MailLibrary, route: string, headers: seq<Header>)
    requires Lawful(lib) && AllWritable(headers)
    ensures FirstValue(lib, Forwarded(lib, route, headers), ORIGINAL_FROM) == FirstValue(lib, headers, FROM)
  {
    var author, replyTo := FirstValue(lib, headers, FROM), ReplyTarget(lib, headers);
    if author == "" {
      ForwardedCount(lib, route, headers, lib.canonical(ORIGINAL_FROM));
      IdentityCounts(lib, route, author, replyTo, lib.canonical(ORIGINAL_FROM));
      NoValue(lib, Forwarded(lib, route, headers), ORIGINAL_FROM);
    } else {
      var from := Header(FROM, ForwardedFrom(lib, route, author));
      var reply := if replyTo != "" then [Header(REPLY_TO, replyTo)] else [];
      WrittenBeforeOriginal(lib, from, reply);
      assert IdentityHeaders(lib, route, author, replyTo) ==
             ([from] + reply) + [Header(ORIGINAL_FROM, author)] + [];
      ForwardedValue(lib, route, headers, [from] + reply, Header(ORIGINAL_FROM, author), [], ORIGINAL_FROM);
      FirstValuePlain(lib, headers, FROM);
      SanitizedAgain(author);
    }
  }

  lemma WrittenBeforeOriginal(lib: MailLibrary, from: Header, reply: seq<Header>)
    requires Lawful(lib) && from.name == FROM && |reply| <= 1 && (reply != [] ==> reply[0].name == REPLY_TO)
    ensures Count(lib, [from] + reply, lib.canonical(ORIGINAL_FROM)) == 0
  {
    CountConcat(lib, [from], reply, lib.canonical(ORIGINAL_FROM));
    OneHeaderCount(lib, from, lib.canonical(ORIGINAL_FROM));
    if reply != [] {
      OneHeaderCount(lib, reply[0], lib.canonical(ORIGINAL_FROM));
      assert reply == [reply[0]];
    }
  }

  /**
   For every message that parses. From is the route's address, under the original
   author's name if there was an author; X-Pinguin-Original-From is the original From;
   Reply-To is the original Reply-To, or else the original From.
   */
  lemma AuthorReplaced(lib: MailLibrary, route: string, raw: string, m: Message) returns (copy: Message, name: string)
    requires Lawful(lib) && Parse(raw) == Ok(m)
    ensures Rewrite(lib, route, raw).Ok? && Parse(Rewrite(lib, route, raw).value) == Ok(copy)
    ensures var author, replyTo := FirstValue(lib, m.headers, "From"), FirstValue(lib, m.headers, "Reply-To");
            && (author == "" ==> FirstValue(lib, copy.headers, "From") == Sanitized(route))
            && (author != "" ==>
                  && IsShownName(lib, author, name)
                  && FirstValue(lib, copy.headers, "From") == Sanitized(lib.format(Mailbox(name, route))))
            && FirstValue(lib, copy.headers, "X-Pinguin-Original-From") == author
            && FirstValue(lib, copy.headers, "Reply-To") == if replyTo != "" then replyTo else author
  {
    RewriteParses(lib, route, raw, m);
    copy := Message(Forwarded(lib, route, m.headers), m.body);
    ParsedAreWritable([], Lines(SplitMessage(raw).value.0));
    FirstValuePlain(lib, m.headers, FROM);
    name := FromCarriesRoute(lib, route, FirstValue(lib, m.headers, FROM));
    ForwardedAuthor(lib, route, m.headers);
    OriginalAuthorKept(lib, route, m.headers);
    ForwardedReplyTo(lib, route, m.headers);
  }

  // ---------------------------------------------------------------------------
  // Where the new headers stand
  // ---------------------------------------------------------------------------

  lemma FirstFromAt(lib: MailLibrary, before: seq<Header>, from: Header, later: seq<Header>)
    requires Named(lib, from, FROM) && forall i :: 0 <= i < |before| ==> !Named(lib, before[i], FROM)
    ensures FirstNamed(lib, before + [from] + later, FROM) == |before|
  {
    var headers := before + [from] + later;
    assert headers[|before|] == from;
    assert forall i :: 0 <= i < |before| ==> headers[i] == before[i];
  }

  lemma {:induction false} CleanConcat(a: seq<Header>, b: seq<Header>)
    ensures Clean(a + b) == Clean(a) + Clean(b)
  {
  }

  lemma NoFromAt(lib: MailLibrary, headers: seq<Header>)
    requires forall i :: 0 <= i < |headers| ==> !Named(lib, headers[i], FROM)
    ensures FirstNamed(lib, headers, FROM) == |headers|
  {
  }

  /**
   The author headers take the place of the first From: what stood before it and is kept
   stands before them, and the rest after them.
   */
  lemma StandsInPlaceOfFrom(lib: MailLibrary, route: string, before: seq<Header>, from: Header, later: seq<Header>)
    returns (identity: seq<Header>)
    requires Named(lib, from, FROM) && forall i :: 0 <= i < |before| ==> !Named(lib, before[i], FROM)
    ensures Forwarded(lib, route, before + [from] + later) ==
            Clean(Kept(lib, before)) + identity + Clean(Kept(lib, later))
    ensures identity != [] && identity[0].name == "From" && HeaderPreservation.AllAuthor(lib, identity)
  {
    var headers := before + [from] + later;
    FirstFromAt(lib, before, from, later);
    var author, replyTo := FirstValue(lib, headers, FROM), ReplyTarget(lib, headers);
    var written := IdentityHeaders(lib, route, author, replyTo);
    identity := Clean(written);
    assert headers[..|before|] == before && headers[|before|..] == [from] + later;
    assert ([from] + later)[1..] == later;
    CleanConcat(Kept(lib, before) + written, Kept(lib, later));
    CleanConcat(Kept(lib, before), written);
    CleanIdentity(lib, route, author, replyTo);
  }

  /** Without a From they stand in front. */
  lemma StandsInFront(lib: MailLibrary, route: string, headers: seq<Header>) returns (identity: seq<Header>)
    requires forall i :: 0 <= i < |headers| ==> !Named(lib, headers[i], FROM)
    ensures Forwarded(lib, route, headers) == identity + Clean(Kept(lib, headers))
    ensures identity != [] && identity[0].name == "From" && HeaderPreservation.AllAuthor(lib, identity)
  {
    NoFromAt(lib, headers);
    var author, replyTo := FirstValue(lib, headers, FROM), ReplyTarget(lib, headers);
    var written := IdentityHeaders(lib, route, author, replyTo);
    identity := Clean(written);
    assert headers[..0] == [] && headers[0..] == headers;
    assert [] + written == written;
    CleanConcat(written, Kept(lib, headers));
    CleanIdentity(lib, route, author, replyTo);
  }

  lemma CleanedAuthors(lib: MailLibrary, headers: seq<Header>)
    requires AllWritable(headers) && HeaderPreservation.AllAuthor(lib, headers)
    ensures HeaderPreservation.AllAuthor(lib, Clean(headers))
    ensures headers != [] ==> Clean(headers)[0].name == headers[0].name
  {
    forall i | 0 <= i < |headers|
      ensures Clean(headers)[i].name == headers[i].name
    {
      assert Writable(headers[i]);
      ValidNameTrimmed(headers[i].name);
    }
  }

  lemma CleanIdentity(lib: MailLibrary, route: string, author: string, replyTo: string)
    ensures var identity := Clean(IdentityHeaders(lib, route, author, replyTo));
            identity != [] && identity[0].name == "From" && HeaderPreservation.AllAuthor(lib, identity)
  {
    IdentityWritable(lib, route, author, replyTo);
    HeaderPreservation.IdentityIsAuthor(lib, route, author, replyTo);
    CleanedAuthors(lib, IdentityHeaders(lib, route, author, replyTo));
    assert IdentityHeaders(lib, route, author, replyTo)[0].name == FROM;
  }
}
