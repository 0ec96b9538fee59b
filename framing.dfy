/**
 What `extract` makes of each kind of line: how a header line parses, and what the
 scan does after a blank line, a line that is not a header, a complete frame and a
 frame cut short by the end of the archive.
 */
module Framing {
  import opened Bytes
  import opened Archive
  import opened Extraction

  /** A single line as `readline()` hands it out: no newline before its last byte. */
  predicate OneLine(line: seq<byte>) {
    forall i :: 0 <= i < |line| - 1 ==> line[i] != NEWLINE
  }

  /** A line is blank to `extract` exactly when it is ASCII and all whitespace. */
  lemma BlankLine(line: seq<byte>)
    ensures ParseHeader(line).Blank? <==>
      IsAscii(line) && forall i :: 0 <= i < |line| ==> IsSpace(line[i])
  {
    StripSpec(line);
  }

  /**
   The text between the brackets of a header: the name, `:`, and a decimal numeral
   whose value is the size; the name holds no colon and does hold a `/`.
   */
  lemma EntryFields(content: seq<byte>, name: Path, size: nat)
    requires ParseFields(content) == Entry(name, size)
    ensures |content| >= |name| + 2
    ensures content == name + [COLON] + content[|name| + 1..]
    ensures IsIntText(content[|name| + 1..]) && DigitsValue(content[|name| + 1..]) == size
    ensures COLON !in name && SLASH in name
  {
    var i := IndexOf(content, COLON);
    IndexOfFirst(content, COLON);
    assert name == content[..i];
  }

  /**
   A size field longer than `int()` converts raises, whatever its digits' value,
   before the name's directory is looked at.
   */
  lemma LongSizeRejected(name: seq<byte>, digits: seq<byte>)
    requires COLON !in name && COLON !in digits && |digits| > INT_MAX_STR_DIGITS
    ensures ParseFields(name + [COLON] + digits) == Malformed(SizeNotNumeral)
  {
    var content := name + [COLON] + digits;
    IndexOfFirst(content, COLON);
    assert content[|name|] == COLON;
    assert IndexOf(content, COLON) == |name|;
    assert content[|name| + 1..] == digits;
  }

  /** An accepted header line is ASCII, and once stripped it is bracketed text whose fields parse to the entry. */
  lemma EntryBrackets(line: seq<byte>, text: seq<byte>, name: Path, size: nat)
    requires ParseHeader(line) == Entry(name, size) && text == Strip(line)
    ensures IsAscii(line) && |text| >= 2 && text[0] == OPEN && text[|text| - 1] == CLOSE
    ensures ParseFields(text[1..|text| - 1]) == Entry(name, size)
  {
  }

  /** Text in brackets that is a name, a colon and digits has the digits right before its closing bracket. */
  lemma Bracketed(text: seq<byte>, name: Path, digits: seq<byte>)
    requires |text| >= 2 && text[0] == OPEN && text[|text| - 1] == CLOSE
    requires text[1..|text| - 1] == name + [COLON] + digits
    ensures text == [OPEN] + name + [COLON] + digits + [CLOSE]
    ensures text[|name| + 2..|text| - 1] == digits
  {
    assert text == [OPEN] + text[1..|text| - 1] + [CLOSE];
  }

  /**
   A header line, once stripped, is `[`, the name, `:`, a decimal numeral whose value
   is the size, and `]`.
   */
  lemma EntryLine(line: seq<byte>, text: seq<byte>, name: Path, size: nat)
    requires ParseHeader(line) == Entry(name, size) && text == Strip(line)
    ensures IsAscii(line) && |text| >= |name| + 4
    ensures text == [OPEN] + name + [COLON] + text[|name| + 2..|text| - 1] + [CLOSE]
    ensures IsIntText(text[|name| + 2..|text| - 1])
    ensures DigitsValue(text[|name| + 2..|text| - 1]) == size
  {
    EntryBrackets(line, text, name, size);
    var content := text[1..|text| - 1];
    EntryFields(content, name, size);
    Bracketed(text, name, content[|name| + 1..]);
  }

  /** A blank line ends the scan with nothing more written, and so does the end of the archive. */
  lemma {:induction false} BlankLineEndsScan(line: seq<byte>, rest: seq<byte>)
    requires OneLine(line) && ((line != [] && line[|line| - 1] == NEWLINE) || rest == [])
    requires forall i :: 0 <= i < |line| ==> IsSpace(line[i])
    ensures Scan(line + rest) == Decoded([], Finished)
  {
    LineLengthOfLine(line, rest);
    assert (line + rest)[..|line|] == line;
    BlankLine(line);
  }

  /** A line that is not blank and not `[...]` once stripped is skipped: nothing is written for it. */
  lemma OtherLineSkipped(line: seq<byte>, rest: seq<byte>)
    requires OneLine(line) && ((line != [] && line[|line| - 1] == NEWLINE) || rest == [])
    requires IsAscii(line) && Strip(line) != []
    requires Strip(line)[0] != OPEN || Strip(line)[|Strip(line)| - 1] != CLOSE
    ensures Scan(line + rest) == Scan(rest)
  {
    LineLengthOfLine(line, rest);
    assert (line + rest)[..|line|] == line;
    assert (line + rest)[|line|..] == rest;
  }

  /**
   A frame whose payload is as long as its header says: the payload is written as it
   is, newlines included, the one byte after it is dropped whatever it is, and the
   scan goes on right after that byte.
   */
  lemma FrameRead(line: seq<byte>, name: Path, payload: seq<byte>, separator: byte, rest: seq<byte>)
    requires OneLine(line) && line != [] && line[|line| - 1] == NEWLINE
    requires ParseHeader(line) == Entry(name, |payload|) && |payload| < READ_LIMIT
    ensures Scan(line + payload + [separator] + rest) ==
      Decoded([File(name, payload)] + Scan(rest).writes, Scan(rest).status)
  {
    var s := line + payload + [separator] + rest;
    assert s == line + (payload + [separator] + rest);
    LineLengthOfLine(line, payload + [separator] + rest);
    assert s[..|line|] == line;
    var end := |line| + |payload|;
    assert s[|line|..end] == payload;
    assert NextStep(s) == Write(File(name, payload), end + 1);
    assert s[end + 1..] == rest;
  }

  /**
   A frame cut short by the end of the archive: what remains after the header line
   is written as the payload, however much shorter than declared, and the scan ends.
   */
  lemma TruncatedFrame(line: seq<byte>, name: Path, size: nat, tail: seq<byte>)
    requires OneLine(line) && ((line != [] && line[|line| - 1] == NEWLINE) || tail == [])
    requires ParseHeader(line) == Entry(name, size) && |tail| <= size < READ_LIMIT
    ensures Scan(line + tail) == Decoded([File(name, tail)], Finished)
  {
    var s := line + tail;
    LineLengthOfLine(line, tail);
    assert s[..|line|] == line;
    assert s[|line|..|s|] == tail;
    assert NextStep(s) == Write(File(name, tail), |s|);
    BlankLineEndsScan([], []);
    assert s[|s|..] == [];
  }

  /** A header line that raises stops the scan with its error, having written nothing for it or after it. */
  lemma MalformedHalts(line: seq<byte>, rest: seq<byte>, e: Error)
    requires OneLine(line) && ((line != [] && line[|line| - 1] == NEWLINE) || rest == [])
    requires ParseHeader(line) == Malformed(e)
    ensures Scan(line + rest) == Decoded([], Failed(e))
  {
    LineLengthOfLine(line, rest);
    assert (line + rest)[..|line|] == line;
  }

  /** A header whose size `read` cannot take stops the scan with `SizeTooLarge`, having written nothing for it. */
  lemma OversizeHalts(line: seq<byte>, name: Path, size: nat, rest: seq<byte>)
    requires OneLine(line) && ((line != [] && line[|line| - 1] == NEWLINE) || rest == [])
    requires ParseHeader(line) == Entry(name, size) && size >= READ_LIMIT
    ensures Scan(line + rest) == Decoded([], Failed(SizeTooLarge))
  {
    LineLengthOfLine(line, rest);
    assert (line + rest)[..|line|] == line;
  }
}
