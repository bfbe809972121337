/**
 Which of a message's own headers survive forwarding. The author headers (From,
 Reply-To and the original author) are replaced by design; the question is about all
 the others.
 */
module HeaderPreservation {
  import opened Wrappers
  import opened Text
  import opened MessageLines
  import opened ForwardRewrite

  predicate IsAuthor(lib: MailLibrary, h: Header) {
    Named(lib, h, FROM) || Named(lib, h, REPLY_TO) || Named(lib, h, ORIGINAL_FROM)
  }

  predicate AllAuthor(lib: MailLibrary, headers: seq<Header>) {
    forall i :: 0 <= i < |headers| ==> IsAuthor(lib, headers[i])
  }

  /** The headers that are not author headers, in order. */
  function Others(lib: MailLibrary, headers: seq<Header>): seq<Header> {
    if headers == [] then []
    else if IsAuthor(lib, headers[0]) then Others(lib, headers[1..])
    else [headers[0]] + Others(lib, headers[1..])
  }

  /** The fields that a copy must not carry over: signatures and results, hidden recipients, senders. */
  const STRIPPED :=
    { "ARC-Authentication-Results", "ARC-Message-Signature", "ARC-Seal", "Authentication-Results", "Bcc",
      "DKIM-Signature", "DomainKey-Signature", "Return-Path", "Sender" }

  predicate IsStripped(lib: MailLibrary, h: Header) {
    exists name :: name in STRIPPED && Named(lib, h, name)
  }

  lemma StrippedIsRemoved(lib: MailLibrary, h: Header)
    ensures IsStripped(lib, h) <==> Removed(lib, h)
  {
    assert STRIPPED == REMOVED;
    if Removed(lib, h) {
      var name :| name in REMOVED && lib.canonical(name) == lib.canonical(h.name);
      assert Named(lib, h, name);
    }
  }

  /** Neither one of the nine removed fields nor folded over several lines. */
  predicate IsIntact(lib: MailLibrary, h: Header) {
    !IsStripped(lib, h) && OneLine(h.value) && Trimmed(h.value)
  }

  predicate AllIntact(lib: MailLibrary, headers: seq<Header>) {
    forall i :: 0 <= i < |headers| ==> IsAuthor(lib, headers[i]) || IsIntact(lib, headers[i])
  }

  // ---------------------------------------------------------------------------
  // What is left besides the author headers
  // ---------------------------------------------------------------------------

  lemma {:induction false} OthersConcat(lib: MailLibrary, a: seq<Header>, b: seq<Header>)
    ensures Others(lib, a + b) == Others(lib, a) + Others(lib, b)
  {
    if a == [] {
      assert a + b == b;
    } else {
      OthersConcat(lib, a[1..], b);
      assert (a + b)[1..] == a[1..] + b;
    }
  }

  lemma OthersFirst(lib: MailLibrary, h: Header, rest: seq<Header>)
    ensures Others(lib, [h] + rest) == if IsAuthor(lib, h) then Others(lib, rest) else [h] + Others(lib, rest)
  {
    assert ([h] + rest)[1..] == rest;
  }

  lemma {:induction false} OthersOfClean(lib: MailLibrary, headers: seq<Header>)
    requires AllWritable(headers)
    ensures Others(lib, Clean(headers)) == Clean(Others(lib, headers))
  {
    if headers != [] {
      var h, rest := headers[0], headers[1..];
      assert headers == [h] + rest;
      ValidNameTrimmed(h.name);
      OthersOfClean(lib, rest);
      CleanFirst(h, rest);
      OthersFirst(lib, Cleaned(h), Clean(rest));
      OthersFirst(lib, h, rest);
      CleanFirst(h, Others(lib, rest));
    }
  }

  lemma {:induction false} OthersOfKept(lib: MailLibrary, headers: seq<Header>)
    requires NoneDropped(lib, headers)
    ensures Others(lib, headers) == headers
  {
    if headers != [] {
      assert !Dropped(lib, headers[0]);
      OthersOfKept(lib, headers[1..]);
    }
  }

  lemma {:induction false} OthersOfAuthors(lib: MailLibrary, headers: seq<Header>)
    requires AllAuthor(lib, headers)
    ensures Others(lib, headers) == []
  {
    if headers != [] {
      OthersOfAuthors(lib, headers[1..]);
    }
  }

  lemma {:induction false} KeptConcat(lib: MailLibrary, a: seq<Header>, b: seq<Header>)
    ensures Kept(lib, a + b) == Kept(lib, a) + Kept(lib, b)
  {
    if a == [] {
      assert a + b == b;
    } else {
      KeptConcat(lib, a[1..], b);
      assert (a + b)[1..] == a[1..] + b;
    }
  }

  lemma OthersAround(lib: MailLibrary, before: seq<Header>, identity: seq<Header>, later: seq<Header>)
    requires NoneDropped(lib, before) && NoneDropped(lib, later)
    requires AllAuthor(lib, identity)
    ensures Others(lib, before + identity + later) == before + later
  {
    OthersConcat(lib, before + identity, later);
    OthersConcat(lib, before, identity);
    OthersOfKept(lib, before);
    OthersOfKept(lib, later);
    OthersOfAuthors(lib, identity);
    assert before + [] == before;
  }

  lemma IdentityIsAuthor(lib: MailLibrary, route: string, originalFrom: string, replyTo: string)
    ensures AllAuthor(lib, IdentityHeaders(lib, route, originalFrom, replyTo))
  {
  }

  lemma OthersPlaced(lib: MailLibrary, before: seq<Header>, identity: seq<Header>, later: seq<Header>)
    requires AllAuthor(lib, identity)
    ensures Others(lib, Kept(lib, before) + identity + Kept(lib, later)) == Kept(lib, before + later)
  {
    KeptMeaning(lib, before);
    KeptMeaning(lib, later);
    OthersAround(lib, Kept(lib, before), identity, Kept(lib, later));
    KeptConcat(lib, before, later);
  }

  lemma IntendedShape(lib: MailLibrary, route: string, headers: seq<Header>)
    returns (before: seq<Header>, identity: seq<Header>, later: seq<Header>)
    ensures Intended(lib, route, headers) == Kept(lib, before) + identity + Kept(lib, later)
    ensures before + later == headers && AllAuthor(lib, identity)
  {
    var i := InsertionPoint(lib, headers);
    before, later := headers[..i], headers[i..];
    identity := IdentityHeaders(lib, route, FirstValue(lib, headers, FROM), ReplyTarget(lib, headers));
    IdentityIsAuthor(lib, route, FirstValue(lib, headers, FROM), ReplyTarget(lib, headers));
  }

  lemma OthersIntended(lib: MailLibrary, route: string, headers: seq<Header>)
    ensures Others(lib, Intended(lib, route, headers)) == Kept(lib, headers)
  {
    var before, identity, later := IntendedShape(lib, route, headers);
    OthersPlaced(lib, before, identity, later);
  }

  /** Besides the author headers a forwarded copy carries exactly the kept ones, cleaned. */
  lemma OthersForwarded(lib: MailLibrary, route: string, headers: seq<Header>)
    requires AllWritable(headers)
    ensures Others(lib, Forwarded(lib, route, headers)) == Clean(Kept(lib, headers))
  {
    IntendedWritable(lib, route, headers);
    OthersOfClean(lib, Intended(lib, route, headers));
    OthersIntended(lib, route, headers);
  }

  // ---------------------------------------------------------------------------
  // The exact condition
  // ---------------------------------------------------------------------------

  lemma CleanedUnchanged(h: Header)
    requires Writable(h)
    ensures Cleaned(h) == h <==> OneLine(h.value) && Trimmed(h.value)
  {
    ValidNameTrimmed(h.name);
    SanitizedMeaning(h.value);
    if OneLine(h.value) && Trimmed(h.value) {
      SanitizedAgain(h.value);
    }
  }

  lemma AllIntactStep(lib: MailLibrary, headers: seq<Header>)
    requires headers != []
    ensures AllIntact(lib, headers) <==>
            (IsAuthor(lib, headers[0]) || IsIntact(lib, headers[0])) && AllIntact(lib, headers[1..])
  {
    assert forall i :: 0 < i < |headers| ==> headers[i] == headers[1..][i - 1];
  }

  lemma {:induction false} CleanKeptIsOthers(lib: MailLibrary, headers: seq<Header>)
    requires AllWritable(headers)
    ensures |Kept(lib, headers)| <= |Others(lib, headers)|
    ensures Clean(Kept(lib, headers)) == Others(lib, headers) <==> AllIntact(lib, headers)
  {
    if headers != [] {
      var h, rest := headers[0], headers[1..];
      CleanKeptIsOthers(lib, rest);
      AllIntactStep(lib, headers);
      StrippedIsRemoved(lib, h);
      if !Dropped(lib, h) {
        CleanedUnchanged(h);
        CleanFirst(h, Kept(lib, rest));
        SameFirst(Cleaned(h), Clean(Kept(lib, rest)), h, Others(lib, rest));
      }
    }
  }

  lemma SameFirst(a: Header, x: seq<Header>, b: Header, y: seq<Header>)
    ensures [a] + x == [b] + y <==> a == b && x == y
  {
    if [a] + x == [b] + y {
      assert x == ([a] + x)[1..] && y == ([b] + y)[1..];
      assert a == ([a] + x)[0] && b == ([b] + y)[0];
    }
  }

  /**
   For every message that parses: forwarding preserves the headers other than the
   author headers, all of them, unchanged and in order, if and only if none of them is
   a removed field and each value is a single trimmed line.
   */
  lemma PreservesOthersIff(lib: MailLibrary, route: string, raw: string, m: Message) returns (copy: Message)
    requires Parse(raw) == Ok(m)
    ensures Rewrite(lib, route, raw).Ok? && Parse(Rewrite(lib, route, raw).value) == Ok(copy)
    ensures Others(lib, copy.headers) == Others(lib, m.headers) <==> AllIntact(lib, m.headers)
  {
    RewriteParses(lib, route, raw, m);
    copy := Message(Forwarded(lib, route, m.headers), m.body);
    ParsedAreWritable([], Lines(SplitMessage(raw).value.0));
    OthersForwarded(lib, route, m.headers);
    CleanKeptIsOthers(lib, m.headers);
  }

  // ---------------------------------------------------------------------------
  // Two messages whose headers are not preserved
  // ---------------------------------------------------------------------------

  const SIGNATURE := Header("DKIM-Signature", "v")
  const SIGNED := "DKIM-Signature: v\r\n\r\n"

  lemma SignatureIsPlain()
    ensures Writable(SIGNATURE) && Cleaned(SIGNATURE) == SIGNATURE
    ensures HeaderLine(SIGNATURE) == "DKIM-Signature" + ": " + "v"
  {
    SanitizedAgain("v");
    ValidNameTrimmed("DKIM-Signature");
  }

  lemma SignedParses()
    ensures Parse(SIGNED) == Ok(Message([SIGNATURE], ""))
  {
    SignatureIsPlain();
    OnePrinted(SIGNATURE);
    assert HeaderLine(SIGNATURE) + "\r\n" + "\r\n" + "" == SIGNED;
    assert Clean([SIGNATURE]) == [SIGNATURE];
    WrittenParses([SIGNATURE], "");
  }

  lemma OneHeaderForwarded(lib: MailLibrary, route: string, h: Header)
    requires Writable(h) && !IsAuthor(lib, h)
    ensures Others(lib, [h]) == [h]
    ensures Others(lib, Forwarded(lib, route, [h])) == if Removed(lib, h) then [] else [Cleaned(h)]
  {
    assert [h][1..] == [];
    assert Kept(lib, [h]) == if Removed(lib, h) then [] else [h];
    assert Clean([h]) == [Cleaned(h)] && Clean([]) == [];
    OthersForwarded(lib, route, [h]);
  }

  /** A signature is gone after one hop. */
  lemma SignatureLost(lib: MailLibrary, route: string) returns (copy: Message)
    requires Lawful(lib)
    ensures Parse(SIGNED) == Ok(Message([SIGNATURE], ""))
    ensures Rewrite(lib, route, SIGNED).Ok? && Parse(Rewrite(lib, route, SIGNED).value) == Ok(copy)
    ensures Others(lib, [SIGNATURE]) == [SIGNATURE] && Others(lib, copy.headers) == []
  {
    SignedParses();
    RewriteParses(lib, route, SIGNED, Message([SIGNATURE], ""));
    copy := Message(Forwarded(lib, route, [SIGNATURE]), "");
    assert SIGNATURE.name in REMOVED;
    assert lib.canonical(SIGNATURE.name) in RemovedKeys(lib);
    SignatureIsPlain();
    OneHeaderForwarded(lib, route, SIGNATURE);
  }

  const FOLDED_LINES := ["Subject: a", " b"]
  const FOLDED := Joined(FOLDED_LINES) + BLANK_LINE
  const FOLDED_SUBJECT := Header("Subject", "a\r\n b")
  const UNFOLDED_SUBJECT := Header("Subject", "a   b")

  lemma FoldedBlockParses()
    ensures ParseBlock(Joined(FOLDED_LINES)) == Ok([FOLDED_SUBJECT])
  {
    assert AllPlain(FOLDED_LINES);
    JoinedSplits(FOLDED_LINES);
    assert FOLDED_LINES[1..] == [" b"];
    assert WithReturns([" b"]) == [" b"];
    assert WithReturns(FOLDED_LINES) == ["Subject: a" + "\r"] + [" b"];
    FoldedLinesParse();
    assert |Joined(FOLDED_LINES)| > 0;
  }

  lemma SubjectLineParses()
    ensures ParseLine("Subject: a") == Ok(Header("Subject", "a"))
    ensures !IsContinuation("Subject: a")
  {
    var h := Header("Subject", "a");
    SanitizedAgain("a");
    ValidNameTrimmed("Subject");
    assert HeaderLine(h) == "Subject: a";
    HeaderLineParses(h);
  }

  lemma ReturnDropped(line: string)
    ensures DropSuffixCR(line + "\r") == line
  {
    assert (line + "\r")[..|line|] == line;
  }

  lemma FirstLineAdded()
    ensures AddLine([], "Subject: a" + "\r") == Ok([Header("Subject", "a")])
  {
    ReturnDropped("Subject: a");
    SubjectLineParses();
    assert [] + [Header("Subject", "a")] == [Header("Subject", "a")];
  }

  lemma ContinuationAdded(h: Header)
    ensures AddLine([h], " b") == Ok([h.(value := h.value + "\r\n" + " b")])
  {
    assert DropSuffixCR(" b") == " b" && IsContinuation(" b");
    var longer := Continued(h, " b");
    assert [h][..0] + [longer] == [longer];
  }

  lemma FoldedLinesParse()
    ensures AddLines([], ["Subject: a" + "\r"] + [" b"]) == Ok([FOLDED_SUBJECT])
  {
    var first := Header("Subject", "a");
    FirstLineAdded();
    ContinuationAdded(first);
    assert "a" + "\r\n" + " b" == "a\r\n b";
    AddLinesStep([], "Subject: a" + "\r", [" b"], [first]);
    AddLinesStep([first], " b", [], [FOLDED_SUBJECT]);
    assert [" b"] + [] == [" b"];
  }

  lemma PlainLinesSplit(lines: seq<string>, body: string)
    requires lines != [] && AllPlain(lines)
    ensures SplitMessage(Joined(lines) + BLANK_LINE + body) == Some((Joined(lines), body))
  {
    var raw, n := Joined(lines) + BLANK_LINE + body, |Joined(lines)|;
    FirstBlankLine(lines, body);
    assert raw[..n] == Joined(lines) && raw[n + 4..] == body;
  }

  lemma FoldedSpelled()
    ensures FOLDED == "Subject: a\r\n b\r\n\r\n"
  {
    assert FOLDED_LINES[1..] == [" b"];
    assert Joined([" b"]) == " b";
    assert Joined(FOLDED_LINES) == "Subject: a" + "\r\n" + " b";
  }

  lemma FoldedParses()
    ensures Parse(FOLDED) == Ok(Message([FOLDED_SUBJECT], ""))
  {
    assert AllPlain(FOLDED_LINES);
    PlainLinesSplit(FOLDED_LINES, "");
    assert FOLDED + "" == FOLDED;
    FoldedBlockParses();
  }

  lemma FoldedCleaned()
    ensures Writable(FOLDED_SUBJECT) && Cleaned(FOLDED_SUBJECT) == UNFOLDED_SUBJECT
  {
    var value := "a\r\n b";
    assert seq(|value|, i requires 0 <= i < |value| => Spaced(value[i])) == "a   b";
    TrimmedUnchanged("a   b");
    ValidNameTrimmed("Subject");
  }

  /** A folded value comes back on one line, its break turned into spaces. */
  lemma FoldingLost(lib: MailLibrary, route: string) returns (copy: Message)
    requires !IsAuthor(lib, FOLDED_SUBJECT) && !Removed(lib, FOLDED_SUBJECT)
    ensures FOLDED == "Subject: a\r\n b\r\n\r\n" && Parse(FOLDED) == Ok(Message([FOLDED_SUBJECT], ""))
    ensures Rewrite(lib, route, FOLDED).Ok? && Parse(Rewrite(lib, route, FOLDED).value) == Ok(copy)
    ensures Others(lib, [FOLDED_SUBJECT]) == [FOLDED_SUBJECT] && Others(lib, copy.headers) == [UNFOLDED_SUBJECT]
  {
    FoldedSpelled();
    FoldedParses();
    RewriteParses(lib, route, FOLDED, Message([FOLDED_SUBJECT], ""));
    copy := Message(Forwarded(lib, route, [FOLDED_SUBJECT]), "");
    FoldedCleaned();
    OneHeaderForwarded(lib, route, FOLDED_SUBJECT);
  }
}
