/** Header blocks as lines joined by CR LF, and the blank line that ends them. */
module MessageLines {
  import opened Wrappers
  import opened Text

  const BLANK_LINE := "\r\n\r\n"

  predicate OneLine(s: string) {
    forall i :: 0 <= i < |s| ==> s[i] != '\r' && s[i] != '\n'
  }

  predicate AllPlain(lines: seq<string>) {
    forall i :: 0 <= i < |lines| ==> lines[i] != "" && OneLine(lines[i])
  }

  function Joined(lines: seq<string>): string
    requires lines != []
  {
    if |lines| == 1 then lines[0] else lines[0] + "\r\n" + Joined(lines[1..])
  }

  /** What a split at line feeds alone makes of joined lines: all but the last keep their CR. */
  function WithReturns(lines: seq<string>): seq<string> {
    if |lines| <= 1 then lines else [lines[0] + "\r"] + WithReturns(lines[1..])
  }

  lemma JoinedStep(line: string, rest: string)
    requires OneLine(line)
    ensures Lines(line + "\r\n" + rest) == [line + "\r"] + Lines(rest)
  {
    var head := line + "\r";
    forall c | c in head
      ensures c != '\n'
    {
      var i :| 0 <= i < |head| && head[i] == c;
      assert i < |line| ==> head[i] == line[i];
    }
    LinesStep(head, rest);
    assert head + "\n" + rest == line + "\r\n" + rest;
  }

  lemma {:induction false} JoinedSplits(lines: seq<string>)
    requires lines != [] && AllPlain(lines)
    ensures Lines(Joined(lines)) == WithReturns(lines)
  {
    if |lines| == 1 {
      assert OneLine(lines[0]);
      LinesSingle(lines[0]);
    } else {
      JoinedSplits(lines[1..]);
      JoinedStep(lines[0], Joined(lines[1..]));
    }
  }

  lemma NotAtOther(s: string, pattern: string, j: nat, k: nat)
    requires k < |pattern|
    requires j + k < |s| ==> s[j + k] != pattern[k]
    ensures !At(s, pattern, j)
  {
    if j + |pattern| <= |s| {
      assert s[j..j + |pattern|][k] == s[j + k];
    }
  }

  lemma AtShifted(prefix: string, s: string, pattern: string, j: nat)
    ensures At(prefix + s, pattern, |prefix| + j) <==> At(s, pattern, j)
  {
    if j + |pattern| <= |s| {
      assert (prefix + s)[|prefix| + j..|prefix| + j + |pattern|] == s[j..j + |pattern|];
    }
  }

  lemma BlankLineSpans(line: string, later: string, j: nat)
    requires j < |line| + 2 && OneLine(line)
    requires later != "" && later[0] != '\r'
    ensures !At(line + "\r\n" + later, BLANK_LINE, j)
  {
    var raw := line + "\r\n" + later;
    assert raw[|line| + 1] == '\n' && raw[|line| + 2] == later[0];
    if j == |line| {
      NotAtOther(raw, BLANK_LINE, j, 2);
    } else {
      assert j < |line| ==> raw[j] == line[j];
      NotAtOther(raw, BLANK_LINE, j, 0);
    }
  }

  lemma {:induction false} NoEarlierBlankLine(lines: seq<string>, tail: string, j: nat)
    requires lines != [] && AllPlain(lines) && j < |Joined(lines)|
    ensures !At(Joined(lines) + tail, BLANK_LINE, j)
  {
    var line := lines[0];
    if |lines| == 1 {
      assert (line + tail)[j] == line[j];
      NotAtOther(line + tail, BLANK_LINE, j, 0);
    } else {
      var rest := lines[1..];
      var later := Joined(rest) + tail;
      assert Joined(lines) + tail == (line + "\r\n") + later;
      if j < |line| + 2 {
        assert later[0] == rest[0][0];
        BlankLineSpans(line, later, j);
      } else {
        NoEarlierBlankLine(rest, tail, j - |line| - 2);
        AtShifted(line + "\r\n", later, BLANK_LINE, j - |line| - 2);
      }
    }
  }

  /** The first blank line after joined lines is the one that was put there. */
  lemma FirstBlankLine(lines: seq<string>, body: string)
    requires lines != [] && AllPlain(lines)
    ensures Index(Joined(lines) + BLANK_LINE + body, BLANK_LINE) == Some(|Joined(lines)|)
  {
    var block := Joined(lines);
    var raw := block + BLANK_LINE + body;
    assert raw == block + (BLANK_LINE + body);
    assert raw[|block|..|block| + 4] == BLANK_LINE;
    assert At(raw, BLANK_LINE, |block|);
    var found := Index(raw, BLANK_LINE);
    assert found.Some?;
    if found.value < |block| {
      NoEarlierBlankLine(lines, BLANK_LINE + body, found.value);
    }
  }
}
