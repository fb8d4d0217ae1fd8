/** The configuration file as the Java code sees it: a path names a text, a
    `BufferedWriter` writes each line followed by `"\n"`, and a
    `BufferedReader` hands the text back one line at a time. */
module TextFiles {

  /** The files that can be opened, by path; a path outside the map is one
      whose opening raises an `IOException`. */
  type FileSystem = map<string, string>

  /** One file written from start to end. */
  datatype FileWrite = FileWrite(path: string, text: string)

  /** `readLine()` ends a line at a line feed, a carriage return, or a
      carriage return followed by a line feed. */
  predicate IsTerminator(ch: char)
  {
    ch == '\n' || ch == '\r'
  }

  predicate NoTerminator(line: string)
  {
    forall k :: 0 <= k < |line| ==> !IsTerminator(line[k])
  }

  /** Where the first line of `text` ends. */
  function LineEnd(text: string): (i: nat)
    ensures i <= |text|
    ensures forall k :: 0 <= k < i ==> !IsTerminator(text[k])
    ensures i < |text| ==> IsTerminator(text[i])
  {
    if text == [] || IsTerminator(text[0]) then 0
    else
      LineEnd(text[1..]) + 1
  }

  /** The lines successive `readLine()` calls return before the `null` that
      marks the end of the text. A final line without a terminator is still
      returned; a final terminator does not start an extra empty line. */
  function ReadLines(text: string): (lines: seq<string>)
    ensures forall k :: 0 <= k < |lines| ==> NoTerminator(lines[k])
    decreases |text|
  {
    if text == [] then []
    else
      var i := LineEnd(text);
      var next :=
        if i == |text| then i
        else if text[i] == '\r' && i + 1 < |text| && text[i + 1] == '\n' then i + 2
        else i + 1;
      [text[..i]] + ReadLines(text[next..])
  }

  /** The text produced by writing each line followed by `"\n"`. */
  function WriteLines(lines: seq<string>): string
  {
    if lines == [] then [] else lines[0] + "\n" + WriteLines(lines[1..])
  }

  /** Reading back what was written recovers the lines, provided none of
      them contains a line terminator itself. */
  lemma {:induction false} ReadWriteLines(lines: seq<string>)
    requires forall k :: 0 <= k < |lines| ==> NoTerminator(lines[k])
    ensures ReadLines(WriteLines(lines)) == lines
    decreases |lines|
  {
    if lines != [] {
      assert WriteLines(lines) == lines[0] + "\n" + WriteLines(lines[1..]);
      ReadFirstLine(lines[0], WriteLines(lines[1..]));
      ReadWriteLines(lines[1..]);
      assert lines == [lines[0]] + lines[1..];
    }
  }

  /** A line without terminators followed by a line feed is read as one
      line, and reading goes on after the line feed. */
  lemma ReadFirstLine(first: string, rest: string)
    requires NoTerminator(first)
    ensures ReadLines(first + "\n" + rest) == [first] + ReadLines(rest)
  {
    var text := first + "\n" + rest;
    assert text[|first|] == '\n';
    assert text[..|first|] == first;
    assert forall k :: 0 <= k < |first| ==> text[k] == first[k];
    LineEndAt(text, |first|);
    assert text[|first| + 1..] == rest;
  }

  lemma LineEndAt(text: string, i: nat)
    requires i < |text| && IsTerminator(text[i])
    requires forall k :: 0 <= k < i ==> !IsTerminator(text[k])
    ensures LineEnd(text) == i
  {
  }
}
