/**
 `extract` undoes `create`: the archive written for a walk decodes to the walk's
 files, in walk order, and the filesystem it leaves has each path holding what the
 walk's last file at that path held. The names must survive the header line: ASCII,
 no `:` (the unpacking in `extract` needs exactly one), no newline (it would end the
 line early), and a `/` (`os.makedirs` is given the name's directory).
 */
module RoundTrip {
  import opened Bytes
  import opened Archive
  import opened Extraction
  import opened Framing

  /** A name that `extract` reads back from the header `toData` writes for it. */
  predicate Extractable(path: Path) {
    IsAscii(path) && COLON !in path && NEWLINE !in path && SLASH in path
  }

  /** The fields `[name:digits]` carries: the name, and the size the digits spell. */
  lemma FieldsOfLine(name: Path, digits: seq<byte>)
    requires COLON !in name && SLASH in name && IsIntText(digits)
    ensures ParseFields(name + [COLON] + digits) == Entry(name, DigitsValue(digits))
  {
    var content := name + [COLON] + digits;
    IndexOfFirst(content, COLON);
    assert content[|name|] == COLON;
    assert IndexOf(content, COLON) == |name|;
    assert content[..|name|] == name;
    assert content[|name| + 1..] == digits;
  }

  /** An ASCII name's header line decodes, strips to its bracketed text, and is parsed by its fields. */
  lemma OwnLineFields(h: Header)
    requires IsAscii(h.name)
    ensures ParseHeader(h.Line()) == ParseFields(h.name + [COLON] + Decimal(h.size))
  {
    var content := h.name + [COLON] + Decimal(h.size);
    var text := [OPEN] + content + [CLOSE];
    assert h.Line() == text + [NEWLINE];
    assert IsAscii(h.Line());
    StripLineBreak(text);
    assert text[1..|text| - 1] == content;
  }

  /** A size `read` can take is written in few enough digits for `int()` to read back. */
  lemma SizeDigits(size: nat)
    requires size < READ_LIMIT
    ensures IsIntText(Decimal(size))
  {
    assert Pow10(4) == 1_0000;
    assert Pow10(8) == 1_0000_0000;
    assert Pow10(12) == 1_0000_0000_0000;
    assert Pow10(16) == 1_0000_0000_0000_0000;
    assert Pow10(19) == 10_000_000_000_000_000_000;
    DecimalLength(size, 19);
  }

  /** The header line of an extractable entry parses back to its name and size. */
  lemma ParseOwnLine(h: Header)
    requires Extractable(h.name) && h.size < READ_LIMIT
    ensures ParseHeader(h.Line()) == Entry(h.name, h.size)
  {
    SizeDigits(h.size);
    OwnLineFields(h);
    FieldsOfLine(h.name, Decimal(h.size));
    DecimalRoundTrip(h.size);
  }

  /** A header line whose name has no newline is one line: its only newline is its last byte. */
  lemma OwnLineIsOneLine(h: Header)
    requires NEWLINE !in h.name
    ensures OneLine(h.Line())
  {
  }

  /** The frame of an entry whose size is its content's length decodes to that entry, and the scan goes on after it. */
  lemma FrameDecodes(h: Header, rest: seq<byte>)
    requires Extractable(h.name) && h.size == |h.data| < READ_LIMIT
    ensures Scan(h.ToData() + rest) ==
      Decoded([File(h.name, h.data)] + Scan(rest).writes, Scan(rest).status)
  {
    ParseOwnLine(h);
    OwnLineIsOneLine(h);
    FrameRead(h.Line(), h.name, h.data, NEWLINE, rest);
    assert h.ToData() + rest == h.Line() + h.data + [NEWLINE] + rest;
  }

  /** Decoding the archive of the headers `create` builds gives back the walk, and the scan finishes cleanly. */
  lemma {:induction false} RoundTrip(walk: seq<File>, headers: seq<Header>)
    requires |headers| == |walk|
    requires forall i :: 0 <= i < |walk| ==>
      headers[i] == Header(walk[i].path, |walk[i].data|, walk[i].data)
    requires forall i :: 0 <= i < |walk| ==> Extractable(walk[i].path)
    requires forall i :: 0 <= i < |walk| ==> |walk[i].data| < READ_LIMIT
    ensures Scan(Encode(headers)) == Decoded(walk, Finished)
  {
    if headers == [] {
      BlankLineEndsScan([], []);
    } else {
      RoundTrip(walk[1..], headers[1..]);
      FrameDecodes(headers[0], Encode(headers[1..]));
      assert walk == [walk[0]] + walk[1..];
    }
  }

  /**
   `create` then `extract`: the scan finishes cleanly, and the filesystem is the old
   one with the walk's files written over it in walk order: every walked path holds
   what the walk's last file at that path held, and every other path is untouched.
   */
  method CreateThenExtract(walk: seq<File>, fs0: FileSystem) returns (fs: FileSystem, status: Status)
    requires forall i :: 0 <= i < |walk| ==> Extractable(walk[i].path)
    requires forall i :: 0 <= i < |walk| ==> |walk[i].data| < READ_LIMIT
    ensures status == Finished
    ensures fs == Apply(fs0, walk)
    ensures forall path :: Latest(walk, path).Some? ==>
      path in fs && fs[path] == Latest(walk, path).value
    ensures forall path :: Latest(walk, path).None? ==>
      (path in fs <==> path in fs0) && (path in fs0 ==> fs[path] == fs0[path])
  {
    var headers, archive := Create(walk);
    RoundTrip(walk, headers);
    fs, status := Extract(archive, fs0);
    forall path {
      LastWriteWins(fs0, walk, path);
    }
  }

  /** Text with a colon before its first `:` field separator has too many fields to unpack. */
  lemma ColonFields(name: Path, digits: seq<byte>)
    requires COLON in name
    ensures ParseFields(name + [COLON] + digits) == Malformed(FieldCount)
  {
    var content := name + [COLON] + digits;
    var i := IndexOf(content, COLON);
    IndexOfFirst(content, COLON);
    var k :| 0 <= k < |name| && name[k] == COLON;
    assert content[k] == COLON;
    assert content[i + 1..][|name| - i - 1] == COLON;
  }

  /** The header line of a name with a colon splits into more than two fields. */
  lemma ColonLine(h: Header)
    requires IsAscii(h.name) && COLON in h.name
    ensures ParseHeader(h.Line()) == Malformed(FieldCount)
  {
    OwnLineFields(h);
    ColonFields(h.name, Decimal(h.size));
  }

  /** A name with a colon cannot come back: the scan stops at its header, having written nothing. */
  lemma ColonNameFails(h: Header, rest: seq<byte>)
    requires IsAscii(h.name) && COLON in h.name && NEWLINE !in h.name
    ensures Scan(h.ToData() + rest) == Decoded([], Failed(FieldCount))
  {
    ColonLine(h);
    OwnLineIsOneLine(h);
    var s := h.ToData() + rest;
    assert s == h.Line() + (h.data + [NEWLINE] + rest);
    LineLengthOfLine(h.Line(), h.data + [NEWLINE] + rest);
    assert s[..|h.Line()|] == h.Line();
  }
}
