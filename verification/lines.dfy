/** The data file as text: `PrintWriter.println` writes each line followed by the
    platform line separator, and `BufferedReader.readLine` splits text back into lines. */
module Lines {

  predicate IsLineBreak(c: char) {
    c == '\n' || c == '\r'
  }

  predicate HasNoLineBreak(s: string) {
    forall i :: 0 <= i < |s| ==> !IsLineBreak(s[i])
  }

  /** The platform's `line.separator`. */
  datatype LineSeparator = LF | CRLF {
    function Text(): string {
      match this
      case LF => "\n"
      case CRLF => "\r\n"
    }
  }

  /** One `println` per line. */
  function WriteLines(lines: seq<string>, sep: LineSeparator): (text: string)
    ensures lines == [] <==> text == []
  {
    if lines == [] then "" else lines[0] + sep.Text() + WriteLines(lines[1..], sep)
  }

  /** The index of the first '\n' or '\r' at or after `from`, or `|s|` when there is none. */
  function LineEnd(s: string, from: nat): (i: nat)
    requires from <= |s|
    decreases |s| - from
    ensures from <= i <= |s|
    ensures i < |s| ==> IsLineBreak(s[i])
    ensures forall j :: from <= j < i ==> !IsLineBreak(s[j])
  {
    if from == |s| || IsLineBreak(s[from]) then from else LineEnd(s, from + 1)
  }

  /** Repeated `readLine` until it returns null: a line ends at '\n', '\r' or "\r\n";
      a last line without a terminator is still returned; no empty line follows a
      final terminator. */
  function ReadLines(text: string): (lines: seq<string>)
    decreases |text|
    ensures forall k :: 0 <= k < |lines| ==> HasNoLineBreak(lines[k])
  {
    if text == [] then []
    else
      var i := LineEnd(text, 0);
      if i == |text| then [text]
      else
        var width := if text[i] == '\r' && i + 1 < |text| && text[i + 1] == '\n' then 2 else 1;
        [text[..i]] + ReadLines(text[i + width..])
  }

  /** Reading back what was written gives the same lines, for either separator. */
  lemma {:induction false} ReadWriteLines(lines: seq<string>, sep: LineSeparator)
    requires forall k :: 0 <= k < |lines| ==> HasNoLineBreak(lines[k])
    ensures ReadLines(WriteLines(lines, sep)) == lines
  {
    if lines != [] {
      ReadFirstLine(lines[0], sep, WriteLines(lines[1..], sep));
      ReadWriteLines(lines[1..], sep);
      assert lines == [lines[0]] + lines[1..];
    }
  }

  /** A line without breaks followed by its terminator is read as that line,
      and reading goes on right after the terminator. */
  lemma ReadFirstLine(line: string, sep: LineSeparator, rest: string)
    requires HasNoLineBreak(line)
    ensures ReadLines(line + sep.Text() + rest) == [line] + ReadLines(rest)
  {
    var text := line + sep.Text() + rest;
    LineEndOfLine(line, sep.Text() + rest);
    assert text == line + (sep.Text() + rest);
    assert text[..|line|] == line;
    assert text[|line| + |sep.Text()|..] == rest;
  }

  /** A line without breaks ends where its terminator starts. */
  lemma {:induction false} LineEndOfLine(line: string, tail: string)
    requires HasNoLineBreak(line)
    requires tail != [] && IsLineBreak(tail[0])
    ensures LineEnd(line + tail, 0) == |line|
  {
    var s := line + tail;
    assert IsLineBreak(s[|line|]);
    LineEndFrom(s, 0, |line|);
  }

  lemma {:induction false} LineEndFrom(s: string, from: nat, i: nat)
    requires from <= i < |s| && IsLineBreak(s[i])
    requires forall j :: from <= j < i ==> !IsLineBreak(s[j])
    ensures LineEnd(s, from) == i
    decreases i - from
  {
    if from < i {
      LineEndFrom(s, from + 1, i);
    }
  }
}
