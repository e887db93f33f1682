/** The append-only log file `location.json`: every payload is written as one line. */
module AppendLog {
  import opened Values
  import opened TextSearch

  /** The line terminator written after each payload. */
  const Terminator: string := "\n"

  /** One `file << data << "\n"` in append mode: the payload becomes the newest
      line, verbatim, and every older line stays where it was. */
  function Append(log: seq<string>, payload: string): (log': seq<string>)
    ensures |log'| == |log| + 1
    ensures log'[..|log|] == log && log'[|log|] == payload
  {
    log + [payload]
  }

  /** The bytes of the file holding `log`: each line followed by its terminator. */
  function FileText(log: seq<string>): string
    decreases |log|
  {
    if log == [] then [] else log[0] + Terminator + FileText(log[1..])
  }

  /** Appending a line to the log appends the payload and a terminator to the file. */
  lemma {:induction false} FileTextAppend(log: seq<string>, payload: string)
    ensures FileText(Append(log, payload)) == FileText(log) + payload + Terminator
    decreases |log|
  {
    if log != [] {
      assert Append(log, payload)[1..] == Append(log[1..], payload);
      FileTextAppend(log[1..], payload);
    }
  }

  /** The file of a concatenated log is the concatenation of the files. */
  lemma {:induction false} FileTextConcat(a: seq<string>, b: seq<string>)
    ensures FileText(a + b) == FileText(a) + FileText(b)
    decreases |a|
  {
    if a != [] {
      assert (a + b)[1..] == a[1..] + b;
      FileTextConcat(a[1..], b);
    } else {
      assert a + b == b;
    }
  }

  /** Reads a file back as lines: the text before each terminator is one line. */
  function SplitLines(text: string): seq<string>
    decreases |text|
  {
    match Find(text, Terminator)
    case None => if text == [] then [] else [text]
    case Some(i) => [text[..i]] + SplitLines(text[i + 1..])
  }

  /** A payload that fits on one line. */
  predicate SingleLine(p: string) {
    '\n' !in p
  }

  /** In `line + "\n" + rest` with a one-line `line`, the first terminator is the one after `line`. */
  lemma FirstTerminator(line: string, rest: string)
    requires SingleLine(line)
    ensures Find(line + Terminator + rest, Terminator) == Some(|line|)
  {
    var t := line + Terminator + rest;
    assert OccursAt(t, Terminator, |line|) by {
      assert t[|line|..|line| + 1] == [t[|line|]];
    }
    forall j | 0 <= j < |line|
      ensures !OccursAt(t, Terminator, j)
    {
      assert t[j] == line[j];
      assert t[j..j + 1] == [t[j]];
    }
    FirstOccurrenceUnique(t, Terminator, |line|, Find(t, Terminator).value);
  }

  /** A one-line `line` followed by a terminator is split off as the first line. */
  lemma SplitFirstLine(line: string, rest: string)
    requires SingleLine(line)
    ensures SplitLines(line + Terminator + rest) == [line] + SplitLines(rest)
  {
    var t := line + Terminator + rest;
    FirstTerminator(line, rest);
    assert t[..|line|] == line;
    assert t[|line| + 1..] == rest;
  }

  /** Reading the file back gives the logged payloads, in order and unmodified,
      provided no payload contains a line terminator of its own. */
  lemma {:induction false} SplitFileText(log: seq<string>)
    requires forall k :: 0 <= k < |log| ==> SingleLine(log[k])
    ensures SplitLines(FileText(log)) == log
    decreases |log|
  {
    if log != [] {
      SplitFirstLine(log[0], FileText(log[1..]));
      SplitFileText(log[1..]);
    }
  }

  /** The framing is lossy otherwise: a payload carrying a newline reads back as two lines. */
  lemma NewlineInPayloadSplits()
    ensures FileText(["a\nb"]) == "a\nb\n"
    ensures SplitLines(FileText(["a\nb"])) == ["a", "b"]
  {
    var log := ["a\nb"];
    assert log[1..] == [];
    assert FileText(log) == "a\nb\n";
    var b := "b" + Terminator + "";
    assert "a\nb\n" == "a" + Terminator + b;
    SplitFirstLine("a", b);
    SplitFirstLine("b", "");
  }

}
