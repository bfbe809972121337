/** Which raw messages parse, and into what, told from their characters. */
module HeaderParsing {
  import opened Wrappers
  import opened Text
  import opened MessageLines
  import opened ForwardRewrite

  /** The first occurrence of the separator divides the text. */
  predicate DividedAt(raw: string, separator: string, block: string, body: string) {
    && raw == block + separator + body
    && forall j: nat :: j < |block| ==> !At(raw, separator, j)
  }

  ghost predicate Lacks(raw: string, separator: string) {
    forall j: nat :: !At(raw, separator, j)
  }

  /** A message is divided at its first CRLF CRLF, or if it has none, at its first LF LF, or not at all. */
  lemma DividedAtBlankLine(raw: string)
    ensures match SplitMessage(raw)
            case None => Lacks(raw, "\r\n\r\n") && Lacks(raw, "\n\n")
            case Some((block, body)) =>
              || DividedAt(raw, "\r\n\r\n", block, body)
              || (Lacks(raw, "\r\n\r\n") && DividedAt(raw, "\n\n", block, body))
  {
    match Index(raw, "\r\n\r\n")
    case Some(i) => Around(raw, "\r\n\r\n", i);
    case None =>
      match Index(raw, "\n\n")
      case Some(i) => Around(raw, "\n\n", i);
      case None =>
  }

  lemma Around(raw: string, separator: string, i: nat)
    requires At(raw, separator, i)
    ensures raw == raw[..i] + separator + raw[i + |separator|..]
  {
    assert raw == raw[..i] + raw[i..i + |separator|] + raw[i + |separator|..];
  }

  predicate StartsFolded(line: string) {
    line != "" && (line[0] == ' ' || line[0] == '\t')
  }

  /** Printable ASCII without the colon. */
  predicate IsFieldName(name: string) {
    name != "" && forall i :: 0 <= i < |name| ==> '!' <= name[i] <= '~' && name[i] != ':'
  }

  /** The line is a field: a name, its first colon, and a value, each without outer space. */
  predicate IsField(line: string, colon: nat, h: Header) {
    && 0 < colon < |line| && line[colon] == ':' && (forall j :: 0 <= j < colon ==> line[j] != ':')
    && h == Header(TrimSpace(line[..colon]), TrimSpace(line[colon + 1..])) && IsFieldName(h.name)
  }

  lemma FieldIffParsed(line: string)
    ensures ParseLine(line).Ok? ==> IsField(line, Position(line, ':'), ParseLine(line).value)
    ensures forall colon: nat, h :: IsField(line, colon, h) ==> ParseLine(line) == Ok(h)
  {
    forall colon: nat, h | IsField(line, colon, h)
      ensures ParseLine(line) == Ok(h)
    {
      assert Position(line, ':') == colon;
    }
  }

  /**
   A header line, its trailing CR aside, extends the header before it if it starts with a
   space or tab, and adds a header if it is a field; otherwise the message does not parse.
   */
  lemma LineMeaning(headers: seq<Header>, line: string, r: Result<seq<Header>, ParseError>)
    requires '\r' !in line && (r == AddLine(headers, line) || r == AddLine(headers, line + "\r"))
    ensures StartsFolded(line) && headers == [] ==> r.Err?
    ensures StartsFolded(line) && headers != [] ==>
              var last := headers[|headers| - 1];
              r == Ok(headers[..|headers| - 1] + [Header(last.name, last.value + "\r\n" + line)])
    ensures !StartsFolded(line) ==>
              (r.Ok? <==> exists colon: nat, h :: IsField(line, colon, h) && r == Ok(headers + [h]))
  {
    assert DropSuffixCR(line) == line;
    assert (line + "\r")[..|line|] == line;
    assert DropSuffixCR(line + "\r") == line;
    if !StartsFolded(line) {
      FieldIffParsed(line);
      if r.Ok? {
        assert IsField(line, Position(line, ':'), ParseLine(line).value);
      }
    }
  }
}
