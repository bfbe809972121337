/**
 The rewriting of forwarded messages: an ordered header parser, a printer, and the
 replacement of the author headers by the route's own identity. Text is a sequence of
 decoded characters, as the code checks header names and trims by decoded characters.
 */
module ForwardRewrite {
  import opened Wrappers
  import opened Text
  import opened MessageLines
  import Sequences

  datatype Header = Header(name: string, value: string)

  datatype Message = Message(headers: seq<Header>, body: string)

  datatype ParseError = MissingTerminator | OrphanContinuation | MalformedLine | InvalidName

  datatype Mailbox = Mailbox(name: string, address: string)

  /** Go's mail library: `ParseAddressList`, `Address.String` and `CanonicalMIMEHeaderKey`. */
  datatype MailLibrary = MailLibrary(parseList: string -> Option<seq<Mailbox>>, format: Mailbox -> string,
                                     canonical: string -> string)

  // ---------------------------------------------------------------------------
  // Header names
  // ---------------------------------------------------------------------------

  predicate ValidNameChar(c: char) {
    32 < c as int < 127 && c != ':'
  }

  predicate ValidName(name: string) {
    name != "" && forall i :: 0 <= i < |name| ==> ValidNameChar(name[i])
  }

  const FROM := "From"
  const REPLY_TO := "Reply-To"
  const ORIGINAL_FROM := "X-Pinguin-Original-From"

  /** Dropped headers that are never written again. */
  const REMOVED: set<string> :=
    { "ARC-Authentication-Results", "ARC-Message-Signature", "ARC-Seal", "Authentication-Results", "Bcc",
      "DKIM-Signature", "DomainKey-Signature", "Return-Path", "Sender" }

  /** Names are compared in canonical form. */
  predicate Named(lib: MailLibrary, h: Header, name: string) {
    lib.canonical(h.name) == lib.canonical(name)
  }

  function RemovedKeys(lib: MailLibrary): set<string> {
    set name | name in REMOVED :: lib.canonical(name)
  }

  predicate Removed(lib: MailLibrary, h: Header) {
    lib.canonical(h.name) in RemovedKeys(lib)
  }

  predicate Dropped(lib: MailLibrary, h: Header) {
    Removed(lib, h) || Named(lib, h, FROM) || Named(lib, h, REPLY_TO) || Named(lib, h, ORIGINAL_FROM)
  }

  // ---------------------------------------------------------------------------
  // Parsing
  // ---------------------------------------------------------------------------

  const BARE_BLANK_LINE := "\n\n"

  function SplitMessage(raw: string): Option<(string, string)> {
    match Index(raw, BLANK_LINE)
    case Some(i) => Some((raw[..i], raw[i + 4..]))
    case None =>
      match Index(raw, BARE_BLANK_LINE)
      case Some(i) => Some((raw[..i], raw[i + 2..]))
      case None => None
  }

  predicate IsContinuation(line: string) {
    line != "" && (line[0] == ' ' || line[0] == '\t')
  }

  function ParseLine(line: string): Result<Header, ParseError> {
    var colon := Position(line, ':');
    if colon == |line| || colon == 0 then Err(MalformedLine)
    else
      var name := TrimSpace(line[..colon]);
      if ValidName(name) then Ok(Header(name, TrimSpace(line[colon + 1..]))) else Err(InvalidName)
  }

  function Continued(h: Header, line: string): Header {
    h.(value := h.value + "\r\n" + line)
  }

  /** One line more: a continuation extends the last header, anything else starts one. */
  function AddLine(headers: seq<Header>, rawLine: string): Result<seq<Header>, ParseError> {
    var line := DropSuffixCR(rawLine);
    if IsContinuation(line) then
      if headers == [] then Err(OrphanContinuation)
      else Ok(headers[..|headers| - 1] + [Continued(headers[|headers| - 1], line)])
    else
      match ParseLine(line)
      case Ok(h) => Ok(headers + [h])
      case Err(e) => Err(e)
  }

  function AddLines(headers: seq<Header>, lines: seq<string>): Result<seq<Header>, ParseError>
    decreases |lines|
  {
    if lines == [] then Ok(headers)
    else
      match AddLine(headers, lines[0])
      case Ok(more) => AddLines(more, lines[1..])
      case Err(e) => Err(e)
  }

  function ParseBlock(block: string): Result<seq<Header>, ParseError> {
    if block == "" then Ok([]) else AddLines([], Lines(block))
  }

  function Parse(raw: string): Result<Message, ParseError> {
    match SplitMessage(raw)
    case None => Err(MissingTerminator)
    case Some((block, body)) =>
      match ParseBlock(block)
      case Ok(headers) => Ok(Message(headers, body))
      case Err(e) => Err(e)
  }

  /** One round of the loop: extends the last header in place, or appends one. */
  method ParseHeaderLine(headers: seq<Header>, rawLine: string) returns (r: Result<seq<Header>, ParseError>)
    ensures r == AddLine(headers, rawLine)
  {
    var line := DropSuffixCR(rawLine);
    if IsContinuation(line) {
      if |headers| == 0 {
        return Err(OrphanContinuation);
      }
      var last := |headers| - 1;
      assert headers[last := Continued(headers[last], line)] == headers[..last] + [Continued(headers[last], line)];
      return Ok(headers[last := Continued(headers[last], line)]);
    }
    var colon := Position(line, ':');
    if colon == |line| || colon == 0 {
      return Err(MalformedLine);
    }
    var name := TrimSpace(line[..colon]);
    if !ValidName(name) {
      return Err(InvalidName);
    }
    return Ok(headers + [Header(name, TrimSpace(line[colon + 1..]))]);
  }

  lemma AddLinesFrom(headers: seq<Header>, lines: seq<string>, i: nat)
    requires i < |lines|
    ensures AddLines(headers, lines[i..]) ==
            match AddLine(headers, lines[i])
            case Ok(more) => AddLines(more, lines[i + 1..])
            case Err(e) => Err(e)
  {
    assert lines[i..][0] == lines[i] && lines[i..][1..] == lines[i + 1..];
  }

  /** The loop over the lines. */
  method ParseOrderedHeaders(block: string) returns (r: Result<seq<Header>, ParseError>)
    ensures r == ParseBlock(block)
  {
    if |block| == 0 {
      return Ok([]);
    }
    var lines := Lines(block);
    var headers: seq<Header> := [];
    var i := 0;
    while i < |lines|
      invariant i <= |lines|
      invariant AddLines([], lines) == AddLines(headers, lines[i..])
    {
      AddLinesFrom(headers, lines, i);
      var added := ParseHeaderLine(headers, lines[i]);
      if added.Err? {
        return added;
      }
      headers := added.value;
      i := i + 1;
    }
    return Ok(headers);
  }

  // ---------------------------------------------------------------------------
  // Printing
  // ---------------------------------------------------------------------------

  function Spaced(c: char): char {
    if c == '\r' || c == '\n' then ' ' else c
  }

  /** CR and LF become spaces, then the ends are trimmed. */
  function Sanitized(value: string): string {
    TrimSpace(seq(|value|, i requires 0 <= i < |value| => Spaced(value[i])))
  }

  function HeaderLine(h: Header): string {
    TrimSpace(h.name) + ": " + Sanitized(h.value)
  }

  function Print(headers: seq<Header>): string {
    if headers == [] then ""
    else HeaderLine(headers[0]) + "\r\n" + Print(headers[1..])
  }

  // ---------------------------------------------------------------------------
  // Rewriting
  // ---------------------------------------------------------------------------

  /** Index of the first header of that name, or the number of headers. */
  function FirstNamed(lib: MailLibrary, headers: seq<Header>, name: string): (i: nat)
    ensures i <= |headers|
    ensures forall j :: 0 <= j < i ==> !Named(lib, headers[j], name)
    ensures i < |headers| ==> Named(lib, headers[i], name)
  {
    if headers == [] || Named(lib, headers[0], name) then 0 else 1 + FirstNamed(lib, headers[1..], name)
  }

  function FirstValue(lib: MailLibrary, headers: seq<Header>, name: string): string {
    var i := FirstNamed(lib, headers, name);
    if i < |headers| then Sanitized(headers[i].value) else ""
  }

  function ForwardedFrom(lib: MailLibrary, route: string, originalFrom: string): string {
    var trimmed := TrimSpace(originalFrom);
    if trimmed == "" then route
    else
      match lib.parseList(trimmed)
      case None => lib.format(Mailbox(trimmed, route))
      case Some(list) =>
        if list == [] then lib.format(Mailbox(trimmed, route))
        else
          var displayName := TrimSpace(list[0].name);
          lib.format(Mailbox(if displayName == "" then list[0].address else displayName, route))
  }

  /** Reply-To goes to the original Reply-To, or else to the original author. */
  function ReplyTarget(lib: MailLibrary, headers: seq<Header>): string {
    var replyTo := FirstValue(lib, headers, REPLY_TO);
    if replyTo == "" then FirstValue(lib, headers, FROM) else replyTo
  }

  function IdentityHeaders(lib: MailLibrary, route: string, originalFrom: string, replyTo: string): seq<Header> {
    [Header(FROM, ForwardedFrom(lib, route, originalFrom))]
    + (if replyTo != "" then [Header(REPLY_TO, replyTo)] else [])
    + (if originalFrom != "" then [Header(ORIGINAL_FROM, originalFrom)] else [])
  }

  function Kept(lib: MailLibrary, headers: seq<Header>): seq<Header> {
    if headers == [] then []
    else if Dropped(lib, headers[0]) then Kept(lib, headers[1..])
    else [headers[0]] + Kept(lib, headers[1..])
  }

  /** Where the identity headers go: in place of the first From, or in front without one. */
  function InsertionPoint(lib: MailLibrary, headers: seq<Header>): (i: nat)
    ensures i <= |headers|
  {
    var i := FirstNamed(lib, headers, FROM);
    if i < |headers| then i else 0
  }

  /** The headers of the forwarded copy, before they are written out. */
  function Intended(lib: MailLibrary, route: string, headers: seq<Header>): seq<Header> {
    var i := InsertionPoint(lib, headers);
    Kept(lib, headers[..i])
    + IdentityHeaders(lib, route, FirstValue(lib, headers, FROM), ReplyTarget(lib, headers))
    + Kept(lib, headers[i..])
  }

  function Clean(headers: seq<Header>): seq<Header> {
    seq(|headers|, i requires 0 <= i < |headers| => Cleaned(headers[i]))
  }

  function RewriteParsed(lib: MailLibrary, route: string, m: Message): string {
    Print(Intended(lib, route, m.headers)) + "\r\n" + m.body
  }

  function Rewrite(lib: MailLibrary, route: string, raw: string): Result<string, ParseError> {
    match Parse(raw)
    case Ok(m) => Ok(RewriteParsed(lib, route, m))
    case Err(e) => Err(e)
  }

  lemma {:induction false} PrintConcat(a: seq<Header>, b: seq<Header>)
    ensures Print(a + b) == Print(a) + Print(b)
  {
    if a == [] {
      assert a + b == b;
    } else {
      PrintConcat(a[1..], b);
      Sequences.Tail(a, b);
      Sequences.Assoc(HeaderLine(a[0]) + "\r\n", Print(a[1..]), Print(b));
    }
  }

  /** Appends one header to a buffer that holds the headers in `done`. */
  method WriteHeader(buffer: string, h: Header, ghost done: seq<Header>) returns (text: string)
    requires buffer == Print(done)
    ensures text == Print(done + [h])
  {
    PrintConcat(done, [h]);
    assert Print([h]) == HeaderLine(h) + "\r\n" + "";
    var name := TrimSpace(h.name);
    var value := Sanitized(h.value);
    text := buffer + (name + ": " + value + "\r\n");
  }

  method WriteIdentityHeaders(buffer: string, lib: MailLibrary, route: string, originalFrom: string, replyTo: string,
                              ghost done: seq<Header>)
    returns (text: string)
    requires buffer == Print(done)
    ensures text == Print(done + IdentityHeaders(lib, route, originalFrom, replyTo))
  {
    var from := Header(FROM, ForwardedFrom(lib, route, originalFrom));
    text := WriteHeader(buffer, from, done);
    ghost var written := [from];
    if replyTo != "" {
      text := WriteHeader(text, Header(REPLY_TO, replyTo), done + written);
      Sequences.Assoc(done, written, [Header(REPLY_TO, replyTo)]);
      written := written + [Header(REPLY_TO, replyTo)];
    }
    if originalFrom != "" {
      text := WriteHeader(text, Header(ORIGINAL_FROM, originalFrom), done + written);
      Sequences.Assoc(done, written, [Header(ORIGINAL_FROM, originalFrom)]);
      written := written + [Header(ORIGINAL_FROM, originalFrom)];
    }
    assert written == IdentityHeaders(lib, route, originalFrom, replyTo);
  }

  lemma {:induction false} KeptSnoc(lib: MailLibrary, headers: seq<Header>, h: Header)
    ensures Kept(lib, headers + [h]) == Kept(lib, headers) + (if Dropped(lib, h) then [] else [h])
  {
    if headers != [] {
      KeptSnoc(lib, headers[1..], h);
      assert (headers + [h])[1..] == headers[1..] + [h];
    }
  }

  /** `first` is the position of the first From, or the number of headers. */
  predicate IsFirstFrom(lib: MailLibrary, headers: seq<Header>, first: nat) {
    && first <= |headers|
    && (first < |headers| ==> Named(lib, headers[first], FROM))
    && forall j :: 0 <= j < first ==> !Named(lib, headers[j], FROM)
  }

  /** What the visit of header `i` writes. */
  function Contribution(lib: MailLibrary, headers: seq<Header>, first: nat, identity: seq<Header>, i: nat): seq<Header>
    requires i < |headers|
  {
    if i == first then identity
    else if Dropped(lib, headers[i]) then []
    else [headers[i]]
  }

  /** What has been written once the first `i` headers were visited. */
  function Progress(lib: MailLibrary, headers: seq<Header>, first: nat, identity: seq<Header>, i: nat): seq<Header>
    requires i <= |headers|
  {
    if i == 0 then (if first == |headers| then identity else [])
    else Progress(lib, headers, first, identity, i - 1) + Contribution(lib, headers, first, identity, i - 1)
  }

  lemma {:induction false} ProgressWithoutFrom(lib: MailLibrary, headers: seq<Header>, identity: seq<Header>, i: nat)
    requires i <= |headers|
    ensures Progress(lib, headers, |headers|, identity, i) == identity + Kept(lib, headers[..i])
  {
    if i == 0 {
      assert headers[..0] == [];
    } else {
      var h := headers[i - 1];
      ProgressWithoutFrom(lib, headers, identity, i - 1);
      KeptSnoc(lib, headers[..i - 1], h);
      assert headers[..i] == headers[..i - 1] + [h];
      Sequences.Assoc(identity, Kept(lib, headers[..i - 1]), if Dropped(lib, h) then [] else [h]);
    }
  }

  lemma {:induction false} ProgressBeforeFrom(lib: MailLibrary, headers: seq<Header>, first: nat,
                                              identity: seq<Header>, i: nat)
    requires i <= first < |headers|
    ensures Progress(lib, headers, first, identity, i) == Kept(lib, headers[..i])
  {
    if i == 0 {
      assert headers[..0] == [];
    } else {
      ProgressBeforeFrom(lib, headers, first, identity, i - 1);
      KeptSnoc(lib, headers[..i - 1], headers[i - 1]);
      assert headers[..i] == headers[..i - 1] + [headers[i - 1]];
    }
  }

  lemma {:induction false} ProgressAfterFrom(lib: MailLibrary, headers: seq<Header>, first: nat, identity: seq<Header>,
                                             i: nat)
    requires first < i <= |headers| && Dropped(lib, headers[first])
    ensures Progress(lib, headers, first, identity, i) ==
            Kept(lib, headers[..first]) + identity + Kept(lib, headers[first..i])
  {
    var h, done := headers[i - 1], Kept(lib, headers[..first]) + identity;
    if i == first + 1 {
      ProgressBeforeFrom(lib, headers, first, identity, first);
      assert headers[first..i] == [] + [h];
      KeptSnoc(lib, [], h);
      assert done + [] == done;
    } else {
      ProgressAfterFrom(lib, headers, first, identity, i - 1);
      KeptSnoc(lib, headers[first..i - 1], h);
      assert headers[first..i] == headers[first..i - 1] + [h];
      Sequences.Assoc(done, Kept(lib, headers[first..i - 1]), if Dropped(lib, h) then [] else [h]);
    }
  }

  /** The pass writes exactly the intended headers. */
  lemma ProgressDone(lib: MailLibrary, route: string, headers: seq<Header>, first: nat, identity: seq<Header>)
    requires first == FirstNamed(lib, headers, FROM)
    requires identity == IdentityHeaders(lib, route, FirstValue(lib, headers, FROM), ReplyTarget(lib, headers))
    ensures Progress(lib, headers, first, identity, |headers|) == Intended(lib, route, headers)
  {
    if first == |headers| {
      ProgressWithoutFrom(lib, headers, identity, |headers|);
      assert headers[..|headers|] == headers == headers[0..];
      assert headers[..0] == [] && [] + identity == identity;
    } else {
      ProgressAfterFrom(lib, headers, first, identity, |headers|);
      assert headers[first..|headers|] == headers[first..];
    }
  }

  /** One round of the pass: what header `i` adds to the buffer. */
  method VisitHeader(buffer: string, lib: MailLibrary, route: string, headers: seq<Header>, i: nat,
                     originalFrom: string, replyTo: string, replacementWritten: bool, ghost first: nat)
    returns (text: string, written: bool)
    requires i < |headers| && IsFirstFrom(lib, headers, first)
    requires buffer == Print(Progress(lib, headers, first, IdentityHeaders(lib, route, originalFrom, replyTo), i))
    requires replacementWritten <==> first < i || first == |headers|
    ensures text == Print(Progress(lib, headers, first, IdentityHeaders(lib, route, originalFrom, replyTo), i + 1))
    ensures written <==> first < i + 1 || first == |headers|
  {
    ghost var identity := IdentityHeaders(lib, route, originalFrom, replyTo);
    ghost var done := Progress(lib, headers, first, identity, i);
    var h := headers[i];
    if Named(lib, h, FROM) && !replacementWritten {
      text := WriteIdentityHeaders(buffer, lib, route, originalFrom, replyTo, done);
      return text, true;
    }
    if Dropped(lib, h) {
      assert done + [] == done;
      return buffer, replacementWritten;
    }
    text := WriteHeader(buffer, h, done);
    return text, replacementWritten;
  }

  /** The single pass over the headers, with its replacement flag. */
  method WriteHeaders(lib: MailLibrary, route: string, headers: seq<Header>, originalFrom: string, replyTo: string,
                      hasFrom: bool, ghost first: nat)
    returns (text: string)
    requires IsFirstFrom(lib, headers, first) && (hasFrom <==> first < |headers|)
    ensures text == Print(Progress(lib, headers, first, IdentityHeaders(lib, route, originalFrom, replyTo), |headers|))
  {
    text := "";
    var replacementWritten := false;
    if !hasFrom {
      text := WriteIdentityHeaders(text, lib, route, originalFrom, replyTo, []);
      assert [] + IdentityHeaders(lib, route, originalFrom, replyTo) ==
             IdentityHeaders(lib, route, originalFrom, replyTo);
      replacementWritten := true;
    }
    var i := 0;
    while i < |headers|
      invariant i <= |headers|
      invariant replacementWritten <==> first < i || first == |headers|
      invariant text == Print(Progress(lib, headers, first, IdentityHeaders(lib, route, originalFrom, replyTo), i))
    {
      text, replacementWritten :=
        VisitHeader(text, lib, route, headers, i, originalFrom, replyTo, replacementWritten, first);
      i := i + 1;
    }
  }

  method RewriteParsedMessage(lib: MailLibrary, route: string, m: Message) returns (text: string)
    ensures text == RewriteParsed(lib, route, m)
  {
    var originalFrom := FirstValue(lib, m.headers, FROM);
    var replyTo := FirstValue(lib, m.headers, REPLY_TO);
    if replyTo == "" {
      replyTo := originalFrom;
    }
    var first := FirstNamed(lib, m.headers, FROM);
    text := WriteHeaders(lib, route, m.headers, originalFrom, replyTo, first < |m.headers|, first);
    ProgressDone(lib, route, m.headers, first, IdentityHeaders(lib, route, originalFrom, replyTo));
    text := text + "\r\n" + m.body;
  }

  // ---------------------------------------------------------------------------
  // What is written parses back
  // ---------------------------------------------------------------------------

  predicate Writable(h: Header) {
    ValidName(h.name)
  }

  lemma SanitizedMeaning(value: string)
    ensures Trimmed(Sanitized(value)) && OneLine(Sanitized(value))
  {
    var spaced := seq(|value|, i requires 0 <= i < |value| => Spaced(value[i]));
    TrimSpaceMeaning(spaced);
    forall i | 0 <= i < |Sanitized(value)|
      ensures Sanitized(value)[i] != '\r' && Sanitized(value)[i] != '\n'
    {
      assert Sanitized(value)[i] in spaced;
    }
  }

  lemma SanitizedAgain(value: string)
    requires Trimmed(value) && OneLine(value)
    ensures Sanitized(value) == value
  {
    assert seq(|value|, i requires 0 <= i < |value| => Spaced(value[i])) == value;
    TrimmedUnchanged(value);
  }

  lemma ValidNameTrimmed(name: string)
    requires ValidName(name)
    ensures TrimSpace(name) == name
  {
    assert ValidNameChar(name[0]) && ValidNameChar(name[|name| - 1]);
    TrimmedUnchanged(name);
  }

  function Cleaned(h: Header): Header {
    Header(TrimSpace(h.name), Sanitized(h.value))
  }

  /** A written header is one line without line breaks that parses to itself, cleaned. */
  lemma HeaderLineParses(h: Header)
    requires Writable(h)
    ensures OneLine(HeaderLine(h)) && HeaderLine(h) != "" && !IsContinuation(HeaderLine(h))
    ensures ParseLine(HeaderLine(h)) == Ok(Cleaned(h))
  {
    var line, name, value := HeaderLine(h), h.name, Sanitized(h.value);
    ValidNameTrimmed(name);
    SanitizedMeaning(h.value);
    assert line == name + ": " + value;
    assert ValidNameChar(name[0]);
    forall i | 0 <= i < |line|
      ensures line[i] != '\r' && line[i] != '\n'
      ensures i < |name| ==> line[i] != ':'
    {
      if i < |name| {
        assert ValidNameChar(name[i]);
      } else if i >= |name| + 2 {
        assert line[i] == value[i - |name| - 2];
      }
    }
    assert line[|name|] == ':';
    assert Position(line, ':') == |name|;
    assert line[..|name|] == name && line[|name| + 1..] == [' '] + value;
    TrimmedUnchanged(value);
  }

  predicate AllWritable(headers: seq<Header>) {
    forall i :: 0 <= i < |headers| ==> Writable(headers[i])
  }

  function HeaderLines(headers: seq<Header>): (lines: seq<string>)
    ensures |lines| == |headers|
  {
    if headers == [] then [] else [HeaderLine(headers[0])] + HeaderLines(headers[1..])
  }

  lemma {:induction false} HeaderLinesPlain(headers: seq<Header>)
    requires AllWritable(headers)
    ensures AllPlain(HeaderLines(headers))
  {
    if headers != [] {
      HeaderLineParses(headers[0]);
      HeaderLinesPlain(headers[1..]);
    }
  }

  lemma {:induction false} PrintIsJoined(headers: seq<Header>)
    requires headers != []
    ensures Print(headers) == Joined(HeaderLines(headers)) + "\r\n"
  {
    if |headers| == 1 {
      assert Print(headers[1..]) == "";
    } else {
      PrintIsJoined(headers[1..]);
    }
  }

  lemma AddHeaderLine(done: seq<Header>, h: Header, ending: string)
    requires Writable(h) && (ending == "" || ending == "\r")
    ensures AddLine(done, HeaderLine(h) + ending) == Ok(done + [Cleaned(h)])
  {
    HeaderLineParses(h);
    var line := HeaderLine(h);
    assert DropSuffixCR(line + ending) == line by {
      if ending == "" {
        assert line + ending == line;
      } else {
        assert (line + ending)[..|line|] == line;
      }
    }
  }

  lemma AddLinesStep(done: seq<Header>, line: string, lines: seq<string>, more: seq<Header>)
    requires AddLine(done, line) == Ok(more)
    ensures AddLines(done, [line] + lines) == AddLines(more, lines)
  {
    assert ([line] + lines)[1..] == lines;
  }

  lemma CleanStep(done: seq<Header>, h: Header, rest: seq<Header>)
    ensures done + [Cleaned(h)] + Clean(rest) == done + Clean([h] + rest)
  {
  }

  lemma ReturnsStep(h: Header, rest: seq<Header>)
    ensures WithReturns(HeaderLines([h] + rest)) ==
            [HeaderLine(h) + (if rest == [] then "" else "\r")] + WithReturns(HeaderLines(rest))
  {
    var lines := HeaderLines([h] + rest);
    assert ([h] + rest)[1..] == rest;
    assert lines[1..] == HeaderLines(rest);
    assert HeaderLine(h) + "" == HeaderLine(h);
  }

  lemma {:induction false} HeaderLinesParse(done: seq<Header>, headers: seq<Header>)
    requires AllWritable(headers)
    ensures AddLines(done, WithReturns(HeaderLines(headers))) == Ok(done + Clean(headers))
    decreases |headers|
  {
    if headers == [] {
      assert done + Clean(headers) == done;
    } else {
      var h, rest := headers[0], headers[1..];
      assert headers == [h] + rest;
      var ending, more := if rest == [] then "" else "\r", done + [Cleaned(h)];
      AddHeaderLine(done, h, ending);
      ReturnsStep(h, rest);
      AddLinesStep(done, HeaderLine(h) + ending, WithReturns(HeaderLines(rest)), more);
      HeaderLinesParse(more, rest);
      CleanStep(done, h, rest);
    }
  }

  /** Writing and parsing again yields the headers, cleaned, and the very same body. */
  lemma WrittenParses(headers: seq<Header>, body: string)
    requires headers != [] && AllWritable(headers)
    ensures Parse(Print(headers) + "\r\n" + body) == Ok(Message(Clean(headers), body))
  {
    WrittenSplits(headers, body);
    WrittenBlockParses(headers);
  }

  lemma WrittenSplits(headers: seq<Header>, body: string)
    requires headers != [] && AllWritable(headers)
    ensures SplitMessage(Print(headers) + "\r\n" + body) == Some((Joined(HeaderLines(headers)), body))
  {
    var lines, raw := HeaderLines(headers), Print(headers) + "\r\n" + body;
    PrintIsJoined(headers);
    HeaderLinesPlain(headers);
    FirstBlankLine(lines, body);
    assert raw == Joined(lines) + BLANK_LINE + body;
    assert raw[..|Joined(lines)|] == Joined(lines) && raw[|Joined(lines)| + 4..] == body;
  }

  lemma WrittenBlockParses(headers: seq<Header>)
    requires headers != [] && AllWritable(headers)
    ensures ParseBlock(Joined(HeaderLines(headers))) == Ok(Clean(headers))
  {
    HeaderLinesPlain(headers);
    JoinedSplits(HeaderLines(headers));
    HeaderLinesParse([], headers);
    assert [] + Clean(headers) == Clean(headers);
    assert |HeaderLines(headers)[0]| > 0;
  }

  // ---------------------------------------------------------------------------
  // Everything the rewriter writes is writable
  // ---------------------------------------------------------------------------

  lemma {:induction false} ParsedAreWritable(headers: seq<Header>, lines: seq<string>)
    requires AllWritable(headers)
    ensures AddLines(headers, lines).Ok? ==> AllWritable(AddLines(headers, lines).value)
    decreases |lines|
  {
    if lines != [] && AddLine(headers, lines[0]).Ok? {
      ParsedAreWritable(AddLine(headers, lines[0]).value, lines[1..]);
    }
  }

  predicate NoneDropped(lib: MailLibrary, headers: seq<Header>) {
    forall i :: 0 <= i < |headers| ==> !Dropped(lib, headers[i])
  }

  lemma {:induction false} KeptMeaning(lib: MailLibrary, headers: seq<Header>)
    ensures NoneDropped(lib, Kept(lib, headers))
    ensures AllWritable(headers) ==> AllWritable(Kept(lib, headers))
  {
    if headers != [] {
      KeptMeaning(lib, headers[1..]);
      assert AllWritable(headers) ==> AllWritable(headers[1..]) && Writable(headers[0]);
    }
  }

  lemma IdentityWritable(lib: MailLibrary, route: string, originalFrom: string, replyTo: string)
    ensures AllWritable(IdentityHeaders(lib, route, originalFrom, replyTo))
  {
    assert ValidName(FROM) && ValidName(REPLY_TO) && ValidName(ORIGINAL_FROM);
  }

  lemma IntendedWritable(lib: MailLibrary, route: string, headers: seq<Header>)
    requires AllWritable(headers)
    ensures Intended(lib, route, headers) != [] && AllWritable(Intended(lib, route, headers))
  {
    var i := InsertionPoint(lib, headers);
    KeptMeaning(lib, headers[..i]);
    KeptMeaning(lib, headers[i..]);
    IdentityWritable(lib, route, FirstValue(lib, headers, FROM), ReplyTarget(lib, headers));
  }

  /**
   For every message that parses, the rewritten bytes parse to exactly the intended
   headers, cleaned of line breaks and outer space, and to a byte-identical body.
   */
  lemma RewriteParses(lib: MailLibrary, route: string, raw: string, m: Message)
    requires Parse(raw) == Ok(m)
    ensures Rewrite(lib, route, raw).Ok?
    ensures Parse(Rewrite(lib, route, raw).value) == Ok(Message(Clean(Intended(lib, route, m.headers)), m.body))
  {
    ParsedAreWritable([], Lines(SplitMessage(raw).value.0));
    IntendedWritable(lib, route, m.headers);
    WrittenParses(Intended(lib, route, m.headers), m.body);
  }

  // ---------------------------------------------------------------------------
  // Which headers a forwarded copy carries
  // ---------------------------------------------------------------------------

  /** Canonicalisation keeps the three written names apart, and apart from the removed ones. */
  predicate Lawful(lib: MailLibrary) {
    && lib.canonical(FROM) != lib.canonical(REPLY_TO)
    && lib.canonical(FROM) != lib.canonical(ORIGINAL_FROM)
    && lib.canonical(REPLY_TO) != lib.canonical(ORIGINAL_FROM)
    && lib.canonical(FROM) !in RemovedKeys(lib)
    && lib.canonical(REPLY_TO) !in RemovedKeys(lib)
    && lib.canonical(ORIGINAL_FROM) !in RemovedKeys(lib)
  }

  /** How many headers have a name with this canonical form. */
  function Count(lib: MailLibrary, headers: seq<Header>, key: string): nat {
    if headers == [] then 0
    else (if lib.canonical(headers[0].name) == key then 1 else 0) + Count(lib, headers[1..], key)
  }

  lemma {:induction false} CountConcat(lib: MailLibrary, a: seq<Header>, b: seq<Header>, key: string)
    ensures Count(lib, a + b, key) == Count(lib, a, key) + Count(lib, b, key)
  {
    if a == [] {
      assert a + b == b;
    } else {
      CountConcat(lib, a[1..], b, key);
      assert (a + b)[1..] == a[1..] + b;
    }
  }

  lemma {:induction false} CountClean(lib: MailLibrary, headers: seq<Header>, key: string)
    requires AllWritable(headers)
    ensures Count(lib, Clean(headers), key) == Count(lib, headers, key)
  {
    if headers != [] {
      ValidNameTrimmed(headers[0].name);
      CountClean(lib, headers[1..], key);
      assert Clean(headers)[1..] == Clean(headers[1..]);
    }
  }

  lemma {:induction false} KeptCountsNone(lib: MailLibrary, headers: seq<Header>, key: string)
    requires NoneDropped(lib, headers)
    requires key in RemovedKeys(lib) + {lib.canonical(FROM), lib.canonical(REPLY_TO), lib.canonical(ORIGINAL_FROM)}
    ensures Count(lib, headers, key) == 0
  {
    if headers != [] {
      assert !Dropped(lib, headers[0]);
      KeptCountsNone(lib, headers[1..], key);
    }
  }

  /** The headers of a forwarded copy, as its receiver parses them. */
  function Forwarded(lib: MailLibrary, route: string, headers: seq<Header>): seq<Header> {
    Clean(Intended(lib, route, headers))
  }

  lemma ForwardedCount(lib: MailLibrary, route: string, headers: seq<Header>, key: string)
    requires AllWritable(headers)
    requires key in RemovedKeys(lib) + {lib.canonical(FROM), lib.canonical(REPLY_TO), lib.canonical(ORIGINAL_FROM)}
    ensures Count(lib, Forwarded(lib, route, headers), key) ==
            Count(lib, IdentityHeaders(lib, route, FirstValue(lib, headers, FROM), ReplyTarget(lib, headers)), key)
  {
    var i := InsertionPoint(lib, headers);
    var before, later := Kept(lib, headers[..i]), Kept(lib, headers[i..]);
    var identity := IdentityHeaders(lib, route, FirstValue(lib, headers, FROM), ReplyTarget(lib, headers));
    IntendedWritable(lib, route, headers);
    CountClean(lib, Intended(lib, route, headers), key);
    CountConcat(lib, before + identity, later, key);
    CountConcat(lib, before, identity, key);
    KeptMeaning(lib, headers[..i]);
    KeptMeaning(lib, headers[i..]);
    KeptCountsNone(lib, before, key);
    KeptCountsNone(lib, later, key);
  }

  lemma IdentityCounts(lib: MailLibrary, route: string, originalFrom: string, replyTo: string, key: string)
    requires Lawful(lib)
    ensures Count(lib, IdentityHeaders(lib, route, originalFrom, replyTo), key) ==
            if key == lib.canonical(FROM) then 1
            else if key == lib.canonical(REPLY_TO) then (if replyTo != "" then 1 else 0)
            else if key == lib.canonical(ORIGINAL_FROM) then (if originalFrom != "" then 1 else 0)
            else 0
  {
    var from := [Header(FROM, ForwardedFrom(lib, route, originalFrom))];
    var reply := if replyTo != "" then [Header(REPLY_TO, replyTo)] else [];
    var original := if originalFrom != "" then [Header(ORIGINAL_FROM, originalFrom)] else [];
    CountConcat(lib, from + reply, original, key);
    CountConcat(lib, from, reply, key);
    OneHeaderCount(lib, from[0], key);
    OneHeaderCount(lib, Header(REPLY_TO, replyTo), key);
    OneHeaderCount(lib, Header(ORIGINAL_FROM, originalFrom), key);
  }

  lemma OneHeaderCount(lib: MailLibrary, h: Header, key: string)
    ensures Count(lib, [h], key) == if lib.canonical(h.name) == key then 1 else 0
    ensures Count(lib, [], key) == 0
  {
    assert [h][1..] == [];
  }

  /**
   A forwarded copy has exactly one From, a Reply-To exactly when the original named
   an author or a reply address, one X-Pinguin-Original-From exactly when it named an
   author, and none of the other dropped headers.
   */
  lemma ForwardedHeaders(lib: MailLibrary, route: string, raw: string, m: Message, removed: string)
    requires Lawful(lib) && Parse(raw) == Ok(m) && removed in REMOVED
    ensures Parse(Rewrite(lib, route, raw).value) == Ok(Message(Forwarded(lib, route, m.headers), m.body))
    ensures var headers := Forwarded(lib, route, m.headers);
            && Count(lib, headers, lib.canonical(FROM)) == 1
            && Count(lib, headers, lib.canonical(REPLY_TO)) == (if ReplyTarget(lib, m.headers) != "" then 1 else 0)
            && Count(lib, headers, lib.canonical(ORIGINAL_FROM)) ==
               (if FirstValue(lib, m.headers, FROM) != "" then 1 else 0)
            && Count(lib, headers, lib.canonical(removed)) == 0
  {
    RewriteParses(lib, route, raw, m);
    ParsedAreWritable([], Lines(SplitMessage(raw).value.0));
    assert lib.canonical(removed) in RemovedKeys(lib);
    var originalFrom, replyTo := FirstValue(lib, m.headers, FROM), ReplyTarget(lib, m.headers);
    ForwardedCount(lib, route, m.headers, lib.canonical(FROM));
    ForwardedCount(lib, route, m.headers, lib.canonical(REPLY_TO));
    ForwardedCount(lib, route, m.headers, lib.canonical(ORIGINAL_FROM));
    ForwardedCount(lib, route, m.headers, lib.canonical(removed));
    IdentityCounts(lib, route, originalFrom, replyTo, lib.canonical(FROM));
    IdentityCounts(lib, route, originalFrom, replyTo, lib.canonical(REPLY_TO));
    IdentityCounts(lib, route, originalFrom, replyTo, lib.canonical(ORIGINAL_FROM));
    IdentityCounts(lib, route, originalFrom, replyTo, lib.canonical(removed));
  }

  // ---------------------------------------------------------------------------
  // Where replies go, however often a message is forwarded
  // ---------------------------------------------------------------------------

  /** The value of the only header with this name is the first value. */
  lemma {:induction false} OnlyValue(lib: MailLibrary, a: seq<Header>, h: Header, b: seq<Header>, name: string)
    requires Count(lib, a, lib.canonical(name)) == 0 && Named(lib, h, name)
    ensures FirstValue(lib, a + [h] + b, name) == Sanitized(h.value)
  {
    var all := a + [h] + b;
    if a != [] {
      OnlyValue(lib, a[1..], h, b, name);
      assert all[1..] == a[1..] + [h] + b;
      assert FirstNamed(lib, all, name) == 1 + FirstNamed(lib, all[1..], name);
    }
  }

  lemma {:induction false} NoValue(lib: MailLibrary, headers: seq<Header>, name: string)
    requires Count(lib, headers, lib.canonical(name)) == 0
    ensures FirstValue(lib, headers, name) == ""
  {
    if headers != [] {
      NoValue(lib, headers[1..], name);
    }
  }

  lemma SanitizedTwice(value: string)
    ensures Sanitized(Sanitized(value)) == Sanitized(value)
  {
    SanitizedMeaning(value);
    SanitizedAgain(Sanitized(value));
  }

  lemma CleanFirst(h: Header, rest: seq<Header>)
    ensures Clean([h] + rest) == [Cleaned(h)] + Clean(rest)
  {
  }

  lemma FirstValueFirst(lib: MailLibrary, h: Header, rest: seq<Header>, name: string)
    ensures FirstValue(lib, [h] + rest, name) ==
            if Named(lib, h, name) then Sanitized(h.value) else FirstValue(lib, rest, name)
  {
    assert ([h] + rest)[1..] == rest;
  }

  lemma {:induction false} FirstValueClean(lib: MailLibrary, headers: seq<Header>, name: string)
    requires AllWritable(headers)
    ensures FirstValue(lib, Clean(headers), name) == FirstValue(lib, headers, name)
  {
    if headers != [] {
      var h, rest := headers[0], headers[1..];
      ValidNameTrimmed(h.name);
      SanitizedTwice(h.value);
      FirstValueClean(lib, rest, name);
      assert headers == [h] + rest;
      CleanFirst(h, rest);
      FirstValueFirst(lib, h, rest, name);
      FirstValueFirst(lib, Cleaned(h), Clean(rest), name);
    }
  }

  lemma FirstValuePlain(lib: MailLibrary, headers: seq<Header>, name: string)
    ensures Trimmed(FirstValue(lib, headers, name)) && OneLine(FirstValue(lib, headers, name))
  {
    var i := FirstNamed(lib, headers, name);
    if i < |headers| {
      SanitizedMeaning(headers[i].value);
    }
  }

  lemma Regroup(p: seq<Header>, a: seq<Header>, h: Header, b: seq<Header>, q: seq<Header>)
    ensures p + (a + [h] + b) + q == (p + a) + [h] + (b + q)
  {
  }

  lemma ValueWithin(lib: MailLibrary, p: seq<Header>, a: seq<Header>, h: Header, b: seq<Header>, q: seq<Header>,
                    name: string)
    requires Count(lib, p, lib.canonical(name)) == 0
    requires Count(lib, a, lib.canonical(name)) == 0 && Named(lib, h, name)
    ensures FirstValue(lib, p + (a + [h] + b) + q, name) == Sanitized(h.value)
  {
    CountConcat(lib, p, a, lib.canonical(name));
    OnlyValue(lib, p + a, h, b + q, name);
    Regroup(p, a, h, b, q);
  }

  /** The value of a written identity header, read back from the forwarded copy. */
  lemma ForwardedValue(lib: MailLibrary, route: string, headers: seq<Header>,
                       a: seq<Header>, h: Header, b: seq<Header>, name: string)
    requires AllWritable(headers) && name in {FROM, REPLY_TO, ORIGINAL_FROM}
    requires IdentityHeaders(lib, route, FirstValue(lib, headers, FROM), ReplyTarget(lib, headers)) == a + [h] + b
    requires Count(lib, a, lib.canonical(name)) == 0 && Named(lib, h, name)
    ensures FirstValue(lib, Forwarded(lib, route, headers), name) == Sanitized(h.value)
  {
    var i := InsertionPoint(lib, headers);
    var before, later := Kept(lib, headers[..i]), Kept(lib, headers[i..]);
    IntendedWritable(lib, route, headers);
    FirstValueClean(lib, Intended(lib, route, headers), name);
    KeptMeaning(lib, headers[..i]);
    KeptCountsNone(lib, before, lib.canonical(name));
    ValueWithin(lib, before, a, h, b, later, name);
  }

  lemma ForwardedReplyTo(lib: MailLibrary, route: string, headers: seq<Header>)
    requires Lawful(lib) && AllWritable(headers)
    ensures FirstValue(lib, Forwarded(lib, route, headers), REPLY_TO) == ReplyTarget(lib, headers)
  {
    var originalFrom, replyTo := FirstValue(lib, headers, FROM), ReplyTarget(lib, headers);
    var from := Header(FROM, ForwardedFrom(lib, route, originalFrom));
    if replyTo == "" {
      ForwardedCount(lib, route, headers, lib.canonical(REPLY_TO));
      IdentityCounts(lib, route, originalFrom, replyTo, lib.canonical(REPLY_TO));
      NoValue(lib, Forwarded(lib, route, headers), REPLY_TO);
    } else {
      var original := if originalFrom != "" then [Header(ORIGINAL_FROM, originalFrom)] else [];
      OneHeaderCount(lib, from, lib.canonical(REPLY_TO));
      ForwardedValue(lib, route, headers, [from], Header(REPLY_TO, replyTo), original, REPLY_TO);
      FirstValuePlain(lib, headers, FROM);
      FirstValuePlain(lib, headers, REPLY_TO);
      SanitizedAgain(replyTo);
    }
  }

  lemma ForwardedAuthor(lib: MailLibrary, route: string, headers: seq<Header>)
    requires AllWritable(headers)
    ensures FirstValue(lib, Forwarded(lib, route, headers), FROM) ==
            Sanitized(ForwardedFrom(lib, route, FirstValue(lib, headers, FROM)))
  {
    var originalFrom, replyTo := FirstValue(lib, headers, FROM), ReplyTarget(lib, headers);
    var from := Header(FROM, ForwardedFrom(lib, route, originalFrom));
    var rest := (if replyTo != "" then [Header(REPLY_TO, replyTo)] else [])
                + (if originalFrom != "" then [Header(ORIGINAL_FROM, originalFrom)] else []);
    assert IdentityHeaders(lib, route, originalFrom, replyTo) == [] + [from] + rest;
    ForwardedValue(lib, route, headers, [], from, rest, FROM);
  }

  lemma ForwardedWritable(lib: MailLibrary, route: string, headers: seq<Header>)
    requires AllWritable(headers)
    ensures AllWritable(Forwarded(lib, route, headers))
  {
    IntendedWritable(lib, route, headers);
    var intended := Intended(lib, route, headers);
    forall i | 0 <= i < |intended|
      ensures Writable(Clean(intended)[i])
    {
      assert Writable(intended[i]);
      ValidNameTrimmed(intended[i].name);
    }
  }

  /** Forwarding hop by hop; a message that does not parse travels unchanged. */
  function Hops(lib: MailLibrary, routes: seq<string>, raw: string): string {
    if routes == [] then raw
    else
      var sent := Hops(lib, routes[..|routes| - 1], raw);
      match Rewrite(lib, routes[|routes| - 1], sent)
      case Ok(text) => text
      case Err(_) => sent
  }

  /**
   If the original named an author or a reply address, Reply-To is that address after
   any number of hops, and the body never changes.
   */
  lemma {:induction false} RepliesReachAuthor(lib: MailLibrary, routes: seq<string>, raw: string, m: Message)
    returns (last: Message)
    requires Lawful(lib) && Parse(raw) == Ok(m) && routes != [] && ReplyTarget(lib, m.headers) != ""
    ensures Parse(Hops(lib, routes, raw)) == Ok(last)
    ensures last.body == m.body && AllWritable(last.headers)
    ensures FirstValue(lib, last.headers, REPLY_TO) == ReplyTarget(lib, m.headers)
    ensures FirstValue(lib, last.headers, REPLY_TO) ==
            if FirstValue(lib, m.headers, REPLY_TO) != "" then FirstValue(lib, m.headers, REPLY_TO)
            else FirstValue(lib, m.headers, FROM)
  {
    var route, before := routes[|routes| - 1], routes[..|routes| - 1];
    var prior := m;
    if before == [] {
      ParsedAreWritable([], Lines(SplitMessage(raw).value.0));
    } else {
      prior := RepliesReachAuthor(lib, before, raw, m);
    }
    assert ReplyTarget(lib, prior.headers) == ReplyTarget(lib, m.headers);
    RewriteParses(lib, route, Hops(lib, before, raw), prior);
    ForwardedReplyTo(lib, route, prior.headers);
    ForwardedWritable(lib, route, prior.headers);
    last := Message(Forwarded(lib, route, prior.headers), prior.body);
  }

  /**
   Exactly when a second hop leaves Reply-To as the first hop wrote it: the original
   named an author or a reply address. Otherwise the first hop writes none and the
   second one directs replies to the first route.
   */
  lemma SecondHopKeepsReplyTo(lib: MailLibrary, first: string, second: string, headers: seq<Header>)
    requires Lawful(lib) && AllWritable(headers) && Sanitized(first) != ""
    ensures var once := Forwarded(lib, first, headers);
            var twice := Forwarded(lib, second, once);
            && (FirstValue(lib, twice, REPLY_TO) == FirstValue(lib, once, REPLY_TO) <==>
                FirstValue(lib, headers, FROM) != "" || FirstValue(lib, headers, REPLY_TO) != "")
            && (FirstValue(lib, twice, REPLY_TO) != FirstValue(lib, once, REPLY_TO) ==>
                FirstValue(lib, once, REPLY_TO) == "" && FirstValue(lib, twice, REPLY_TO) == Sanitized(first))
  {
    var once := Forwarded(lib, first, headers);
    ForwardedWritable(lib, first, headers);
    ForwardedReplyTo(lib, first, headers);
    ForwardedReplyTo(lib, second, once);
    if ReplyTarget(lib, headers) == "" {
      ForwardedAuthor(lib, first, headers);
    }
  }

  /** A message that names neither an author nor a reply address. */
  const UNSIGNED := "Subject: x\r\n\r\n"
  const SUBJECT := Header("Subject", "x")

  lemma SubjectIsPlain()
    ensures Writable(SUBJECT) && Cleaned(SUBJECT) == SUBJECT
    ensures HeaderLine(SUBJECT) == "Subject" + ": " + "x"
  {
    SanitizedAgain("x");
    ValidNameTrimmed("Subject");
  }

  lemma OnePrinted(h: Header)
    ensures Print([h]) == HeaderLine(h) + "\r\n"
  {
    assert [h][1..] == [];
    assert HeaderLine(h) + "\r\n" + "" == HeaderLine(h) + "\r\n";
  }

  lemma UnsignedPrinted(line: string)
    requires line == "Subject" + ": " + "x"
    ensures line + "\r\n" + "\r\n" + "" == UNSIGNED
  {
  }

  lemma UnsignedParses()
    ensures Parse(UNSIGNED) == Ok(Message([SUBJECT], "")) && AllWritable([SUBJECT])
  {
    SubjectIsPlain();
    OnePrinted(SUBJECT);
    UnsignedPrinted(HeaderLine(SUBJECT));
    assert Clean([SUBJECT]) == [SUBJECT];
    WrittenParses([SUBJECT], "");
  }

  lemma OneHop(lib: MailLibrary, routes: seq<string>, route: string, raw: string, m: Message)
    requires Parse(Hops(lib, routes, raw)) == Ok(m)
    ensures Parse(Hops(lib, routes + [route], raw)) == Ok(Message(Forwarded(lib, route, m.headers), m.body))
  {
    assert (routes + [route])[..|routes|] == routes;
    RewriteParses(lib, route, Hops(lib, routes, raw), m);
  }

  lemma TwoHops(lib: MailLibrary, first: string, second: string, raw: string, m: Message)
    requires Parse(raw) == Ok(m)
    ensures Parse(Hops(lib, [first], raw)) == Ok(Message(Forwarded(lib, first, m.headers), m.body))
    ensures Parse(Hops(lib, [first] + [second], raw)) ==
            Ok(Message(Forwarded(lib, second, Forwarded(lib, first, m.headers)), m.body))
  {
    OneHop(lib, [], first, raw, m);
    assert [] + [first] == [first];
    OneHop(lib, [first], second, raw, Message(Forwarded(lib, first, m.headers), m.body));
  }

  lemma UnnamedValue(lib: MailLibrary, h: Header, name: string)
    requires !Named(lib, h, name)
    ensures FirstValue(lib, [h], name) == ""
  {
    assert FirstNamed(lib, [h], name) == 1;
  }

  /**
   Such a message, through the parser and the rewriter twice: the first hop writes no
   Reply-To, and the second one writes the first route's address.
   */
  lemma UnsignedGainsReplyTo(lib: MailLibrary, first: string, second: string) returns (once: Message, twice: Message)
    requires Lawful(lib) && Sanitized(first) != ""
    requires !Named(lib, SUBJECT, FROM) && !Named(lib, SUBJECT, REPLY_TO)
    ensures Parse(Hops(lib, [first], UNSIGNED)) == Ok(once)
    ensures Parse(Hops(lib, [first] + [second], UNSIGNED)) == Ok(twice)
    ensures FirstValue(lib, once.headers, REPLY_TO) == ""
    ensures FirstValue(lib, twice.headers, REPLY_TO) == Sanitized(first)
  {
    UnsignedParses();
    TwoHops(lib, first, second, UNSIGNED, Message([SUBJECT], ""));
    once := Message(Forwarded(lib, first, [SUBJECT]), "");
    twice := Message(Forwarded(lib, second, once.headers), "");
    UnnamedValue(lib, SUBJECT, FROM);
    UnnamedValue(lib, SUBJECT, REPLY_TO);
    ForwardedReplyTo(lib, first, [SUBJECT]);
    SecondHopKeepsReplyTo(lib, first, second, [SUBJECT]);
  }
}
