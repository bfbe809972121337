/**
 Reading the text of an SMTP DATA command: both servers read it in bounded buffer
 fragments, which must mean the same as reading and unstuffing it line by line.
 Bytes are modelled as characters.
 */
module DataReader {
  import opened Wrappers
  import Text
  import Sequences

  // ---------------------------------------------------------------------------
  // The specification: one line at a time
  // ---------------------------------------------------------------------------

  predicate IsTerminator(line: string) {
    line == ".\r\n" || line == ".\n"
  }

  /** Removes one dot from a line that starts with two. */
  function Unstuffed(line: string): string {
    if |line| >= 2 && line[0] == '.' && line[1] == '.' then line[1..] else line
  }

  datatype Outcome = Received(data: string, rest: string) | Truncated
  {
    function Prepend(text: string): Outcome {
      match this
      case Received(data, rest) => Received(text + data, rest)
      case Truncated => Truncated
    }
  }

  /** Length of the first line including its line feed; longer than the input if there is none. */
  function LineEnd(input: string): (n: nat)
    ensures 0 < n <= |input| + 1
  {
    Text.Position(input, '\n') + 1
  }

  /** The unstuffed lines up to the terminator, and what follows the terminator. */
  function ReadLines(input: string): Outcome
    decreases |input|
  {
    var n := LineEnd(input);
    if n > |input| then Truncated
    else if IsTerminator(input[..n]) then Received("", input[n..])
    else ReadLines(input[n..]).Prepend(Unstuffed(input[..n]))
  }

  // ---------------------------------------------------------------------------
  // The buffered reader
  // ---------------------------------------------------------------------------

  predicate NoLineFeed(s: string) {
    forall i :: 0 <= i < |s| ==> s[i] != '\n'
  }

  datatype SliceStatus = LineComplete | BufferFull | EndOfInput

  /** Everything the peer will still send, seen through a buffer of `size` bytes. */
  class BufferedReader {
    var pending: string
    const size: nat

    constructor (input: string, size: nat)
      ensures pending == input && this.size == size
    {
      pending, this.size := input, size;
    }

    /** A line if one ends within the buffer, else a full buffer, else what is left. */
    method ReadSlice() returns (fragment: string, status: SliceStatus)
      modifies this
      ensures old(pending) == fragment + pending
      ensures status.LineComplete? <==> LineEnd(old(pending)) <= |old(pending)| && LineEnd(old(pending)) <= size
      ensures status.LineComplete? ==> fragment == old(pending)[..LineEnd(old(pending))]
      ensures status.BufferFull? ==> |fragment| == size && NoLineFeed(fragment)
      ensures status.EndOfInput? ==> fragment == old(pending) && LineEnd(fragment) > |fragment|
    {
      var n := LineEnd(pending);
      if n <= |pending| && n <= size {
        fragment, status, pending := pending[..n], LineComplete, pending[n..];
      } else if |pending| >= size {
        fragment, status, pending := pending[..size], BufferFull, pending[size..];
      } else {
        fragment, status, pending := pending, EndOfInput, "";
      }
    }
  }

  /** The text collected so far; `data` stops growing once it would exceed the limit. */
  datatype Body = Body(data: string, tooLarge: bool)

  lemma LineOfPieces(line: string, rest: string)
    requires NoLineFeed(line)
    ensures LineEnd(line + rest) == |line| + LineEnd(rest)
  {
    var whole := line + rest;
    var i := Text.Position(rest, '\n');
    assert forall j :: |line| <= j < |line| + i ==> whole[j] == rest[j - |line|];
    if i < |rest| {
      assert whole[|line| + i] == '\n';
    }
    assert Text.Position(whole, '\n') == |line| + i;
  }

  /** A line read to its end: what it contributes, and what is left to read. */
  lemma LineDone(known: string, fragment: string, rest: string)
    requires NoLineFeed(known)
    requires LineEnd(fragment + rest) == |fragment|
    ensures ReadLines(known + fragment + rest) ==
            if IsTerminator(known + fragment) then Received("", rest)
            else ReadLines(rest).Prepend(Unstuffed(known + fragment))
  {
    LineOfPieces(known, fragment + rest);
    var whole := known + fragment + rest;
    assert whole == known + (fragment + rest);
    assert whole[..|known| + |fragment|] == known + fragment;
    assert whole[|known| + |fragment|..] == rest;
  }

  lemma LineTruncated(known: string, fragment: string)
    requires NoLineFeed(known)
    requires LineEnd(fragment) > |fragment|
    ensures ReadLines(known + fragment) == Truncated
  {
    LineOfPieces(known, fragment);
  }

  lemma PrependTwice(o: Outcome, a: string, b: string)
    ensures o.Prepend(b).Prepend(a) == o.Prepend(a + b)
  {
    if o.Received? {
      assert a + (b + o.data) == (a + b) + o.data;
    }
  }

  /** The part of a line's unstuffed text that a further fragment contributes. */
  function Contribution(known: string, fragment: string): string {
    if known == "" then Unstuffed(fragment) else fragment
  }

  /** Unstuffing whole lines and unstuffing first fragments is the same. */
  lemma FragmentText(text: string, known: string, fragment: string)
    requires known == "" || |known| >= 2
    ensures text + Unstuffed(known) + Contribution(known, fragment) == text + Unstuffed(known + fragment)
  {
    Sequences.Assoc(text, Unstuffed(known), Contribution(known, fragment));
    UnstuffedGrows(known, fragment);
  }

  lemma UnstuffedGrows(known: string, fragment: string)
    requires known == "" || |known| >= 2
    ensures Unstuffed(known) + Contribution(known, fragment) == Unstuffed(known + fragment)
  {
    if known == "" {
      assert known + fragment == fragment;
    } else {
      Sequences.Tail(known, fragment);
    }
  }

  /** What is buffered so far stands for `text`: all of it, or too much of it. */
  ghost predicate Holds(body: Body, maxMessageBytes: nat, text: string) {
    && (body.tooLarge <==> |text| > maxMessageBytes)
    && (!body.tooLarge ==> body.data == text)
  }

  method AddFragment(body: Body, fragment: string, maxMessageBytes: nat, ghost text: string) returns (r: Body)
    requires Holds(body, maxMessageBytes, text)
    ensures Holds(r, maxMessageBytes, text + fragment)
  {
    r := body;
    if !body.tooLarge {
      if |body.data| + |fragment| > maxMessageBytes {
        r := Body(body.data, true);
      } else {
        r := Body(body.data + fragment, false);
      }
    }
  }

  datatype LineStatus = MoreToCome | TextLine | TerminatorLine | StreamEnded

  /** What is known of a line whose end has not been seen yet. */
  predicate Unfinished(line: string, firstFragment: bool) {
    && NoLineFeed(line)
    && (if firstFragment then line == "" else |line| >= 3)
  }

  /** One round of the inner loop: the next fragment of the current line. */
  method ReadFragment(reader: BufferedReader, firstFragment: bool, body: Body, maxMessageBytes: nat,
                      ghost text: string, ghost known: string)
    returns (r: Body, status: LineStatus, ghost line: string)
    requires reader.size >= 3
    requires Unfinished(known, firstFragment)
    requires Holds(body, maxMessageBytes, text + Unstuffed(known))
    modifies reader
    ensures known + old(reader.pending) == line + reader.pending
    ensures status.StreamEnded? ==> ReadLines(known + old(reader.pending)) == Truncated
    ensures status.TerminatorLine? ==>
              firstFragment && r == body && ReadLines(old(reader.pending)) == Received("", reader.pending)
    ensures status.TextLine? ==>
              ReadLines(known + old(reader.pending)) == ReadLines(reader.pending).Prepend(Unstuffed(line))
    ensures status.MoreToCome? ==> Unfinished(line, false)
    ensures status.TextLine? || status.MoreToCome? ==>
              |reader.pending| < |old(reader.pending)| && Holds(r, maxMessageBytes, text + Unstuffed(line))
  {
    var fragment, sliceStatus := reader.ReadSlice();
    r, line := body, known + fragment;
    assert known + old(reader.pending) == line + reader.pending;
    if sliceStatus.EndOfInput? {
      LineTruncated(known, fragment);
      return r, StreamEnded, line;
    }
    var lineComplete := sliceStatus.LineComplete?;
    if lineComplete {
      LineDone(known, fragment, reader.pending);
    }
    if firstFragment && lineComplete && IsTerminator(fragment) {
      assert line == fragment && old(reader.pending) == line + reader.pending;
      return r, TerminatorLine, line;
    }
    FragmentText(text, known, fragment);
    assert lineComplete ==> !IsTerminator(line) by {
      assert firstFragment ==> line == fragment;
    }
    if firstFragment && |fragment| >= 2 && fragment[0] == '.' && fragment[1] == '.' {
      fragment := fragment[1..];
    }
    r := AddFragment(r, fragment, maxMessageBytes, text + Unstuffed(known));
    status := if lineComplete then TextLine else MoreToCome;
  }

  /** One round of the outer loop: the fragments of one line. */
  method ReadLine(reader: BufferedReader, body: Body, maxMessageBytes: nat, ghost text: string)
    returns (r: Body, status: LineStatus, ghost line: string)
    requires reader.size >= 3
    requires Holds(body, maxMessageBytes, text)
    modifies reader
    ensures !status.MoreToCome?
    ensures status.StreamEnded? ==> ReadLines(old(reader.pending)) == Truncated
    ensures status.TerminatorLine? ==> r == body && ReadLines(old(reader.pending)) == Received("", reader.pending)
    ensures status.TextLine? ==>
              && |reader.pending| < |old(reader.pending)|
              && ReadLines(old(reader.pending)) == ReadLines(reader.pending).Prepend(Unstuffed(line))
              && Holds(r, maxMessageBytes, text + Unstuffed(line))
  {
    var firstFragment := true;
    r, status, line := body, MoreToCome, "";
    assert text + Unstuffed(line) == text;
    while status.MoreToCome?
      invariant |reader.pending| <= |old(reader.pending)|
      invariant old(reader.pending) == line + reader.pending
      invariant status.MoreToCome? ==> Unfinished(line, firstFragment)
      invariant firstFragment ==> r == body
      invariant status.MoreToCome? ==> Holds(r, maxMessageBytes, text + Unstuffed(line))
      invariant status.StreamEnded? ==> ReadLines(old(reader.pending)) == Truncated
      invariant status.TerminatorLine? ==> r == body && ReadLines(old(reader.pending)) == Received("", reader.pending)
      invariant status.TextLine? ==>
        && |reader.pending| < |old(reader.pending)|
        && ReadLines(old(reader.pending)) == ReadLines(reader.pending).Prepend(Unstuffed(line))
        && Holds(r, maxMessageBytes, text + Unstuffed(line))
      decreases status.MoreToCome?, |reader.pending|
    {
      assert firstFragment ==> reader.pending == old(reader.pending);
      r, status, line := ReadFragment(reader, firstFragment, r, maxMessageBytes, text, line);
      firstFragment := false;
    }
  }

  /**
   Reads fragments into a buffer until the terminator line. For every input and
   every buffer of at least three bytes the result is that of `ReadLines`, with the
   reader left just after the terminator; the message is too large exactly when the
   unstuffed text exceeds the limit, whatever fragments it arrived in.
   */
  method ReadData(reader: BufferedReader, maxMessageBytes: nat) returns (r: Result<Body, ()>)
    requires reader.size >= 3
    modifies reader
    ensures match ReadLines(old(reader.pending))
            case Truncated => r == Err(())
            case Received(data, rest) =>
              r.Ok? && Holds(r.value, maxMessageBytes, data) && reader.pending == rest
  {
    var body := Body("", false);
    ghost var text := "";
    while true
      invariant ReadLines(old(reader.pending)) == ReadLines(reader.pending).Prepend(text)
      invariant Holds(body, maxMessageBytes, text)
      decreases |reader.pending|
    {
      ghost var line;
      var status;
      body, status, line := ReadLine(reader, body, maxMessageBytes, text);
      match status
      case StreamEnded => return Err(());
      case TerminatorLine =>
        assert text + "" == text;
        return Ok(body);
      case TextLine =>
        PrependTwice(ReadLines(reader.pending), text, Unstuffed(line));
        text := text + Unstuffed(line);
    }
  }

  // ---------------------------------------------------------------------------
  // Round trip with a conforming sender (section 4.5.2 of RFC 5321)
  // ---------------------------------------------------------------------------

  predicate LineTerminated(text: string) {
    text == "" || text[|text| - 1] == '\n'
  }

  function StuffedLine(line: string): string {
    if line != "" && line[0] == '.' then "." + line else line
  }

  /** Dot-stuffing: every line that starts with a dot gets one more. */
  function Stuffed(text: string): string
    decreases |text|
  {
    var n := LineEnd(text);
    if n > |text| then StuffedLine(text) else StuffedLine(text[..n]) + Stuffed(text[n..])
  }

  lemma FirstLine(line: string, rest: string)
    requires line != "" && LineEnd(line) == |line|
    ensures LineEnd(line + rest) == |line|
    ensures (line + rest)[..|line|] == line && (line + rest)[|line|..] == rest
  {
    var whole := line + rest;
    assert forall j :: 0 <= j < |line| ==> whole[j] == line[j];
    assert line[|line| - 1] == '\n';
    assert Text.Position(whole, '\n') == |line| - 1;
  }

  lemma TakeLine(text: string)
    requires LineEnd(text) <= |text|
    ensures var n := LineEnd(text);
            && LineEnd(text[..n]) == n
            && text == text[..n] + text[n..]
            && (LineTerminated(text) ==> LineTerminated(text[n..]))
  {
    var n := LineEnd(text);
    assert forall j :: 0 <= j < n ==> text[..n][j] == text[j];
    assert text[..n][n - 1] == '\n';
    assert Text.Position(text[..n], '\n') == n - 1;
  }

  lemma StuffedLineReads(line: string, rest: string)
    requires line != "" && LineEnd(line) == |line|
    ensures ReadLines(StuffedLine(line) + rest) == ReadLines(rest).Prepend(line)
  {
    var sent := StuffedLine(line);
    if line[0] == '.' {
      assert forall j :: 1 <= j < |sent| ==> sent[j] == line[j - 1];
      assert sent[1] == '.' && sent[|sent| - 1] == '\n';
      assert Text.Position(sent, '\n') == |sent| - 1;
      assert sent[1..] == line;
    }
    assert LineEnd(sent) == |sent|;
    FirstLine(sent, rest);
    assert !IsTerminator(sent);
    assert Unstuffed(sent) == line;
  }

  lemma TerminatorReads(terminator: string, further: string)
    requires IsTerminator(terminator)
    ensures ReadLines(terminator + further) == Received("", further)
  {
    assert terminator[|terminator| - 1] == '\n';
    assert forall j :: 0 <= j < |terminator| - 1 ==> terminator[j] != '\n';
    assert LineEnd(terminator) == |terminator|;
    FirstLine(terminator, further);
  }

  lemma StuffedFirstLine(line: string, rest: string)
    requires line != "" && LineEnd(line) == |line|
    ensures Stuffed(line + rest) == StuffedLine(line) + Stuffed(rest)
  {
    FirstLine(line, rest);
  }

  lemma StuffedMessageReads(line: string, rest: string, wire: string)
    requires line != "" && LineEnd(line) == |line|
    ensures ReadLines(Stuffed(line + rest) + wire) == ReadLines(Stuffed(rest) + wire).Prepend(line)
  {
    StuffedFirstLine(line, rest);
    Sequences.Assoc(StuffedLine(line), Stuffed(rest), wire);
    StuffedLineReads(line, Stuffed(rest) + wire);
  }

  lemma {:induction false} StuffedThenEnd(message: string, wire: string, further: string)
    requires LineTerminated(message)
    requires ReadLines(wire) == Received("", further)
    ensures ReadLines(Stuffed(message) + wire) == Received(message, further)
    decreases |message|
  {
    if message == "" {
      assert Stuffed(message) + wire == wire;
    } else {
      var n := LineEnd(message);
      assert n <= |message| by {
        assert message[|message| - 1] == '\n';
      }
      TakeLine(message);
      StuffedThenEnd(message[n..], wire, further);
      StuffedMessageReads(message[..n], message[n..], wire);
    }
  }

  /**
   For every empty or line-terminated message, dot-stuffing it, appending the
   terminator and any further bytes, and reading it back gives the message, with
   exactly the further bytes left unread.
   */
  lemma DataRoundTrip(message: string, terminator: string, further: string)
    requires LineTerminated(message) && IsTerminator(terminator)
    ensures ReadLines(Stuffed(message) + terminator + further) == Received(message, further)
  {
    TerminatorReads(terminator, further);
    StuffedThenEnd(message, terminator + further, further);
    Sequences.Assoc(Stuffed(message), terminator, further);
  }

  // ---------------------------------------------------------------------------
  // Exactly when the reader agrees with sections 2.3.8, 4.1.1.4 and 4.5.2 of RFC 5321
  // ---------------------------------------------------------------------------

  const CRLF := "\r\n"

  function WithoutDot(line: string): string {
    if line != "" && line[0] == '.' then line[1..] else line
  }

  /**
   The standard's receiver: only CRLF ends a line, only a line that is a single dot
   ends the text, and every other line loses a leading dot.
   */
  function ReadPerStandard(input: string): Outcome
    decreases |input|
  {
    match Text.Index(input, CRLF)
    case None => Truncated
    case Some(i) =>
      var line, rest := input[..i + 2], input[i + 2..];
      if line == ".\r\n" then Received("", rest) else ReadPerStandard(rest).Prepend(WithoutDot(line))
  }

  predicate EndsInCrlf(line: string) {
    |line| >= 2 && line[|line| - 2] == '\r' && line[|line| - 1] == '\n'
  }

  /** A text line with a leading dot that its sender did not double. */
  predicate IsLoneDot(line: string) {
    line != "" && line[0] == '.' && !(|line| >= 2 && line[1] == '.')
  }

  /** The number of such lines before the terminator. */
  function LoneDots(input: string): nat
    decreases |input|
  {
    var n := LineEnd(input);
    if n > |input| || IsTerminator(input[..n]) then 0
    else (if IsLoneDot(input[..n]) then 1 else 0) + LoneDots(input[n..])
  }

  /**
   Where the reader treats a line (ended by a line feed) unlike the standard. At the
   start or after CRLF: an undoubled leading dot, which it keeps, or ".\n", at which
   it stops. After a bare line feed, where the standard sees no new line: two leading
   dots, of which it drops one, or a terminator.
   */
  predicate LineDeparts(line: string, afterCrlf: bool) {
    if afterCrlf then IsLoneDot(line) && line != ".\r\n"
    else IsTerminator(line) || (|line| >= 2 && line[0] == '.' && line[1] == '.')
  }

  /** Whether some line up to the one at which the reader stops departs. */
  predicate Departs(input: string, afterCrlf: bool)
    decreases |input|
  {
    var n := LineEnd(input);
    n <= |input| &&
    (|| LineDeparts(input[..n], afterCrlf)
     || (!IsTerminator(input[..n]) && Departs(input[n..], EndsInCrlf(input[..n]))))
  }

  /** The standard's receiver seen through lines ended by a line feed. */
  function ReadCrlfLines(input: string, afterCrlf: bool): Outcome
    decreases |input|
  {
    var n := LineEnd(input);
    if n > |input| then Truncated
    else if afterCrlf && input[..n] == ".\r\n" then Received("", input[n..])
    else
      var text := if afterCrlf then WithoutDot(input[..n]) else input[..n];
      ReadCrlfLines(input[n..], EndsInCrlf(input[..n])).Prepend(text)
  }

  predicate CrlfHere(s: string, i: int) {
    0 <= i && i + 2 <= |s| && s[i] == '\r' && s[i + 1] == '\n'
  }

  ghost predicate NoCrlf(s: string) {
    forall i :: !CrlfHere(s, i)
  }

  lemma CrlfAt(s: string, i: nat)
    ensures Text.At(s, CRLF, i) <==> CrlfHere(s, i)
  {
    if i + 2 <= |s| {
      assert s[i..i + 2] == [s[i], s[i + 1]];
    }
  }

  /** One line of the standard's receiver. */
  lemma StandardLine(line: string, rest: string)
    requires EndsInCrlf(line) && NoCrlf(line[..|line| - 1])
    ensures ReadPerStandard(line + rest) ==
            if line == ".\r\n" then Received("", rest) else ReadPerStandard(rest).Prepend(WithoutDot(line))
  {
    var whole, n := line + rest, |line| - 2;
    CrlfAt(whole, n);
    forall j | 0 <= j < n
      ensures !Text.At(whole, CRLF, j)
    {
      CrlfAt(whole, j);
      assert CrlfHere(whole, j) <==> CrlfHere(line[..n + 1], j);
    }
    assert Text.Index(whole, CRLF) == Some(n);
    assert whole[..n + 2] == line && whole[n + 2..] == rest;
  }

  lemma StandardUnfinished(input: string)
    requires NoCrlf(input)
    ensures ReadPerStandard(input) == Truncated
  {
    match Text.Index(input, CRLF)
    case None =>
    case Some(i) => CrlfAt(input, i);
  }

  /** A head that is empty or ends in a line feed, and a line, share no CRLF across their border. */
  lemma NoCrlfAcross(head: string, tail: string)
    requires NoCrlf(head) && NoCrlf(tail)
    requires head == "" || head[|head| - 1] == '\n'
    ensures NoCrlf(head + tail)
  {
    var whole := head + tail;
    forall i
      ensures !CrlfHere(whole, i)
    {
      assert CrlfHere(whole, i) ==> CrlfHere(head, i) || CrlfHere(tail, i - |head|);
    }
  }

  lemma LineHasNoCrlf(line: string)
    requires line != "" && LineEnd(line) >= |line|
    ensures NoCrlf(line[..|line| - 1])
    ensures LineEnd(line) > |line| || !EndsInCrlf(line) ==> NoCrlf(line)
  {
  }

  /** The line that completes a standard line begun by `head`. */
  lemma StandardLineCompleted(head: string, line: string, rest: string)
    requires NoCrlf(head) && (head == "" || head[|head| - 1] == '\n')
    requires LineEnd(line) == |line| && EndsInCrlf(line) && (head == "" ==> line != ".\r\n")
    ensures ReadPerStandard(head + line + rest) == ReadPerStandard(rest).Prepend(WithoutDot(head + line))
  {
    var whole := head + line;
    LineHasNoCrlf(line);
    NoCrlfAcross(head, line[..|line| - 1]);
    assert whole[..|whole| - 1] == head + line[..|line| - 1];
    assert EndsInCrlf(whole);
    assert whole != ".\r\n" by {
      if head != "" {
        assert whole[|head| - 1] == '\n' && whole[|whole| - 2] == '\r';
      } else {
        assert whole == line;
      }
    }
    StandardLine(whole, rest);
  }

  /** Both forms of the standard's receiver agree, inside a standard line begun by `head` too. */
  lemma {:induction false} StandardByLineFeeds(head: string, input: string)
    requires NoCrlf(head) && (head == "" || head[|head| - 1] == '\n')
    ensures ReadPerStandard(head + input) ==
            if head == "" then ReadCrlfLines(input, true) else ReadCrlfLines(input, false).Prepend(WithoutDot(head))
    decreases |input|
  {
    var n := LineEnd(input);
    if n > |input| {
      NoCrlfAcross(head, input);
      StandardUnfinished(head + input);
    } else {
      TakeLine(input);
      var line, rest := input[..n], input[n..];
      Sequences.Assoc(head, line, rest);
      assert (head + line)[|head + line| - 1] == '\n';
      if head == "" && line == ".\r\n" {
        StandardLine(line, rest);
        assert head + input == line + rest;
      } else if EndsInCrlf(line) {
        StandardLineCompleted(head, line, rest);
        StandardByLineFeeds("", rest);
        assert "" + rest == rest;
        JoinedLine(head, line, ReadCrlfLines(rest, true));
      } else {
        LineHasNoCrlf(line);
        NoCrlfAcross(head, line);
        StandardByLineFeeds(head + line, rest);
        JoinedLine(head, line, ReadCrlfLines(rest, false));
      }
    }
  }

  lemma JoinedLine(head: string, line: string, o: Outcome)
    requires line != ""
    ensures o.Prepend(WithoutDot(head + line)) ==
            if head == "" then o.Prepend(WithoutDot(line)) else o.Prepend(line).Prepend(WithoutDot(head))
  {
    if head == "" {
      assert head + line == line;
    } else {
      PrependTwice(o, WithoutDot(head), line);
      assert WithoutDot(head + line) == WithoutDot(head) + line;
    }
  }

  // What a departing line does to the outcome

  lemma PrependedDiffer(a: Outcome, b: Outcome, text: string)
    ensures a.Prepend(text) == b.Prepend(text) <==> a == b
  {
    if a.Received? && b.Received? && text + a.data == text + b.data {
      assert a.data == (text + a.data)[|text|..] == b.data;
    }
  }

  lemma {:induction false} OneDotLess(line: string, x: string, y: string)
    requires line != "" && line[0] == '.' && line[|line| - 1] == '\n'
    ensures line[1..] + x != line + y
  {
    var shorter, longer := line[1..] + x, line + y;
    assert line[1..] != "";
    if line[1] == '.' {
      OneDotLess(line[1..], x, y);
      assert shorter[1..] == line[1..][1..] + x;
      assert longer[1..] == line[1..] + y;
    } else {
      assert shorter[0] == line[1] && longer[0] == '.';
    }
  }

  lemma DepartingLineShows(line: string, afterCrlf: bool, ours: Outcome, theirs: Outcome)
    requires line != "" && line[|line| - 1] == '\n' && LineDeparts(line, afterCrlf) && !IsTerminator(line)
    ensures ours.Received? ==>
              ours.Prepend(Unstuffed(line)) != theirs.Prepend(if afterCrlf then WithoutDot(line) else line)
  {
    if ours.Received? && theirs.Received? {
      if afterCrlf {
        OneDotLess(line, theirs.data, ours.data);
      } else {
        OneDotLess(line, ours.data, theirs.data);
      }
    }
  }

  /** The outcomes from a line on, given those of what follows it. */
  lemma LineDecides(line: string, afterCrlf: bool, rest: string, ours: Outcome, theirs: Outcome)
    requires line != "" && line[|line| - 1] == '\n' && (ours.Truncated? ==> theirs.Truncated?)
    ensures var a := if IsTerminator(line) then Received("", rest) else ours.Prepend(Unstuffed(line));
            var b := if afterCrlf && line == ".\r\n" then Received("", rest)
                     else theirs.Prepend(if afterCrlf then WithoutDot(line) else line);
            && (a.Truncated? ==> b.Truncated?)
            && (a == b <==> a.Truncated? || (!LineDeparts(line, afterCrlf) && (IsTerminator(line) || ours == theirs)))
  {
    if !IsTerminator(line) {
      if LineDeparts(line, afterCrlf) {
        DepartingLineShows(line, afterCrlf, ours, theirs);
      } else {
        PrependedDiffer(ours, theirs, Unstuffed(line));
      }
    }
  }

  lemma {:induction false} DiffersWhereDeparting(input: string, afterCrlf: bool)
    ensures var ours, theirs := ReadLines(input), ReadCrlfLines(input, afterCrlf);
            && (ours.Truncated? ==> theirs.Truncated?)
            && (ours == theirs <==> ours.Truncated? || !Departs(input, afterCrlf))
    decreases |input|
  {
    var n := LineEnd(input);
    if n <= |input| {
      var line, rest := input[..n], input[n..];
      assert line[|line| - 1] == '\n';
      DiffersWhereDeparting(rest, EndsInCrlf(line));
      LineDecides(line, afterCrlf, rest, ReadLines(rest), ReadCrlfLines(rest, EndsInCrlf(line)));
    }
  }

  predicate DotLineAt(input: string, i: int) {
    || (0 <= i && i + 2 <= |input| && input[i] == '.' && input[i + 1] == '\n')
    || (0 <= i && i + 3 <= |input| && input[i] == '.' && input[i + 1] == '\r' && input[i + 2] == '\n')
  }

  /** A lone dot, at the start or after a line feed, up to the next line feed. */
  predicate TerminatorAt(input: string, i: int) {
    DotLineAt(input, i) && (i == 0 || input[i - 1] == '\n')
  }

  ghost predicate HasTerminator(input: string) {
    exists i :: TerminatorAt(input, i)
  }

  lemma TerminatorInRest(line: string, rest: string, i: int)
    requires line != "" && LineEnd(line) == |line|
    ensures 0 < i < |line| ==> !TerminatorAt(line + rest, i)
    ensures i >= |line| ==> (TerminatorAt(line + rest, i) <==> TerminatorAt(rest, i - |line|))
  {
    var whole := line + rest;
    assert line[|line| - 1] == '\n';
    if i >= |line| {
      assert DotLineAt(whole, i) <==> DotLineAt(rest, i - |line|);
    }
  }

  lemma TerminatorFirst(line: string, rest: string)
    requires line != "" && LineEnd(line) == |line|
    ensures TerminatorAt(line + rest, 0) <==> IsTerminator(line)
  {
    var whole := line + rest;
    assert line[|line| - 1] == '\n';
    assert forall j :: 0 <= j < |line| ==> whole[j] == line[j];
  }

  lemma HasTerminatorStep(line: string, rest: string)
    requires line != "" && LineEnd(line) == |line|
    ensures HasTerminator(line + rest) <==> IsTerminator(line) || HasTerminator(rest)
  {
    TerminatorFirst(line, rest);
    if i :| TerminatorAt(line + rest, i) {
      TerminatorInRest(line, rest, i);
    }
    if i :| TerminatorAt(rest, i) {
      TerminatorInRest(line, rest, i + |line|);
    }
  }

  /** The reader finds an end exactly when the bytes contain a terminator. */
  lemma {:induction false} EndsAtTerminator(input: string)
    ensures ReadLines(input).Received? <==> HasTerminator(input)
    decreases |input|
  {
    var n := LineEnd(input);
    if n <= |input| {
      TakeLine(input);
      EndsAtTerminator(input[n..]);
      HasTerminatorStep(input[..n], input[n..]);
    }
  }

  /**
   For every input, the reader's outcome (the text and where it ends) is that of the
   standard's receiver if and only if the bytes contain no terminator or no line departs.
   What the standard ends, the reader ends too.
   */
  lemma AgreesWithStandard(input: string)
    ensures ReadLines(input) == ReadPerStandard(input) <==> !HasTerminator(input) || !Departs(input, true)
    ensures ReadPerStandard(input).Received? ==> ReadLines(input).Received?
  {
    EndsAtTerminator(input);
    assert "" + input == input;
    StandardByLineFeeds("", input);
    DiffersWhereDeparting(input, true);
  }

  /** Every line feed follows a carriage return. */
  predicate OnlyCrlf(input: string) {
    forall i :: 0 <= i < |input| && input[i] == '\n' ==> i > 0 && input[i - 1] == '\r'
  }

  lemma {:induction false} ConformingDoesNotDepart(input: string)
    requires OnlyCrlf(input) && LoneDots(input) == 0
    ensures !Departs(input, true)
    decreases |input|
  {
    var n := LineEnd(input);
    if n <= |input| {
      var line, rest := input[..n], input[n..];
      assert input[n - 1] == '\n' && n >= 2 && input[n - 2] == '\r';
      assert EndsInCrlf(line);
      forall i | 0 <= i < |rest| && rest[i] == '\n'
        ensures i > 0 && rest[i - 1] == '\r'
      {
        assert input[n + i] == '\n' && input[n + i - 1] == '\r';
      }
      if !IsTerminator(line) {
        ConformingDoesNotDepart(rest);
      }
    }
  }

  /** A sender that ends every line in CRLF and doubles every leading dot is read as the standard says. */
  lemma ConformingSenderAgrees(input: string)
    requires OnlyCrlf(input) && LoneDots(input) == 0
    ensures ReadLines(input) == ReadPerStandard(input)
  {
    ConformingDoesNotDepart(input);
    AgreesWithStandard(input);
  }

  lemma PlainLineReads(line: string, rest: string)
    requires line != "" && LineEnd(line) == |line| && !IsTerminator(line)
    ensures ReadLines(line + rest) == ReadLines(rest).Prepend(Unstuffed(line))
  {
    FirstLine(line, rest);
  }

  /** A text of one standard line. */
  lemma StandardText(line: string)
    requires EndsInCrlf(line) && NoCrlf(line[..|line| - 1]) && line != ".\r\n"
    ensures ReadPerStandard(line + ".\r\n") == Received(WithoutDot(line), "")
  {
    StandardLine(line, ".\r\n");
    StandardEnd();
    assert WithoutDot(line) + "" == WithoutDot(line);
  }

  lemma StandardEnd()
    ensures ReadPerStandard(".\r\n") == Received("", "")
  {
    StandardLine(".\r\n", "");
    assert ".\r\n" + "" == ".\r\n";
  }

  /** A text of one line, ended by a dot and a bare line feed. */
  lemma DottedText(line: string, rest: string)
    requires line != "" && LineEnd(line) == |line| && !IsTerminator(line)
    ensures ReadLines(line + (".\n" + rest)) == Received(Unstuffed(line), rest)
  {
    PlainLineReads(line, ".\n" + rest);
    TerminatorReads(".\n", rest);
    assert Unstuffed(line) + "" == Unstuffed(line);
  }

  /** A dot between bare line feeds ends the text here, and does not by the standard. */
  lemma BareLineFeedEndsText()
    ensures var wire := "a\n.\nX\r\n" + ".\r\n";
            && ReadLines(wire) == Received("a\n", "X\r\n.\r\n")
            && ReadPerStandard(wire) == Received("a\n.\nX\r\n", "")
  {
    assert LineEnd("a\n") == 2;
    DottedText("a\n", "X\r\n.\r\n");
    assert "a\n" + (".\n" + "X\r\n.\r\n") == "a\n.\nX\r\n" + ".\r\n";
    StandardText("a\n.\nX\r\n");
  }

  /** An undoubled leading dot is kept here, and dropped by the standard. */
  lemma LoneDotKept()
    ensures var wire := ".a\r\n" + ".\r\n";
            && ReadLines(wire) == Received(".a\r\n", "")
            && ReadPerStandard(wire) == Received("a\r\n", "")
  {
    var line := ".a\r\n";
    assert LineEnd(line) == 4;
    PlainLineReads(line, ".\r\n");
    TerminatorReads(".\r\n", "");
    assert ".\r\n" + "" == ".\r\n" && line + "" == line;
    StandardText(line);
    assert line[1..] == "a\r\n";
  }

  /**
   Inverse of the round trip: when every leading dot was doubled, the bytes on the
   wire are exactly the stuffed text, a terminator and the unread rest.
   */
  lemma {:induction false} WireIsStuffedText(input: string, data: string, rest: string) returns (terminator: string)
    requires ReadLines(input) == Received(data, rest) && LoneDots(input) == 0
    ensures IsTerminator(terminator) && LineTerminated(data)
    ensures input == Stuffed(data) + terminator + rest
    decreases |input|
  {
    var n := LineEnd(input);
    TakeLine(input);
    var line := input[..n];
    if IsTerminator(line) {
      terminator := line;
    } else {
      var more := ReadLines(input[n..]).data;
      terminator := WireIsStuffedText(input[n..], more, rest);
      UnstuffedThenStuffed(line, more);
      Sequences.Assoc(line, Stuffed(more), terminator);
      Sequences.Assoc(line, Stuffed(more) + terminator, rest);
    }
  }

  lemma UnstuffedLine(line: string)
    requires line != "" && LineEnd(line) == |line| && !IsLoneDot(line)
    ensures Unstuffed(line) != "" && LineEnd(Unstuffed(line)) == |Unstuffed(line)|
    ensures StuffedLine(Unstuffed(line)) == line
  {
    var text := Unstuffed(line);
    assert line[|line| - 1] == '\n';
    if text != line {
      assert forall j :: 0 <= j < |text| ==> text[j] == line[j + 1];
      assert Text.Position(text, '\n') == |text| - 1;
    }
  }

  lemma UnstuffedThenStuffed(line: string, more: string)
    requires line != "" && LineEnd(line) == |line| && !IsLoneDot(line)
    ensures Stuffed(Unstuffed(line) + more) == line + Stuffed(more)
    ensures LineTerminated(more) ==> LineTerminated(Unstuffed(line) + more)
  {
    UnstuffedLine(line);
    StuffedFirstLine(Unstuffed(line), more);
    if more == "" {
      assert Unstuffed(line) + more == Unstuffed(line);
    }
  }
}
