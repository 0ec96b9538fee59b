/**
 The reading half of rex.py: `extract` scans the archive one line at a time. A
 line that is blank once stripped ends the scan; a line that is not `[...]` is
 skipped; a `[name:size]` line is followed by exactly `size` payload bytes (fewer
 if the archive ends first), written to `name`, and by one more byte that is
 dropped unread. The filesystem is a map from paths to contents.
 */
module Extraction {
  import opened Bytes
  import opened Archive

  /** The files on disk: each path with its content. */
  type FileSystem = map<Path, seq<byte>>

  datatype Option<T> = None | Some(value: T)

  /** The exceptions that end `extract` early. */
  datatype Error =
    | NotAscii           // `decode("utf-8")` on a line holding a byte of 0x80 or more
    | FieldCount         // `name, size = ....split(":")` on other than one colon
    | SizeNotNumeral     // `int(size)` on something that is not a numeral of at most 4300 digits
    | NoParentDirectory  // `os.makedirs("")` for a name that has no `/`
    | SizeTooLarge       // `read(size)` on a size beyond a C `Py_ssize_t`: `OverflowError`

  datatype Status = Finished | Failed(error: Error)

  /** What a scan produced: the files it wrote, in order, and how it ended. */
  datatype Decoded = Decoded(writes: seq<File>, status: Status)

  /** How `extract` reads one line. */
  datatype HeaderLine =
    | Blank                          // empty once stripped: the scan ends
    | Other                          // not `[...]`: skipped
    | Entry(name: Path, size: nat)   // a frame header
    | Malformed(error: Error)        // the line raises

  /** One turn of the loop of `extract`, and how many bytes of the archive it consumed. */
  datatype Step =
    | Stop
    | Skip(consumed: nat)
    | Write(file: File, consumed: nat)
    | Halt(error: Error)

  /** `read(size)` converts `size` to a C `Py_ssize_t`, whose largest value is 2^63 - 1. */
  const READ_LIMIT: nat := 0x8000_0000_0000_0000

  function Min(x: int, y: int): int {
    if x <= y then x else y
  }

  /**
   `name, size = content.split(":")`, `int(size)` and `os.makedirs(os.path.dirname(name))`,
   on the text between the brackets: the unpacking succeeds only on exactly one colon.
   */
  function ParseFields(content: seq<byte>): HeaderLine
  {
    var i := IndexOf(content, COLON);
    if i == |content| || COLON in content[i + 1..] then Malformed(FieldCount)
    else
      var name, size := content[..i], content[i + 1..];
      if !IsIntText(size) then Malformed(SizeNotNumeral)
      else if SLASH !in name then Malformed(NoParentDirectory)
      else Entry(name, DigitsValue(size))
  }

  /** The same three steps on the list `split` returns, in the order Python takes them. */
  function FieldsLine(fields: seq<seq<byte>>): HeaderLine
  {
    if |fields| != 2 then Malformed(FieldCount)
    else if !IsIntText(fields[1]) then Malformed(SizeNotNumeral)
    else if SLASH !in fields[0] then Malformed(NoParentDirectory)
    else Entry(fields[0], DigitsValue(fields[1]))
  }

  /** Locating the one colon is the same as splitting on colons and unpacking two fields. */
  lemma ParseFieldsIsSplit(content: seq<byte>)
    ensures ParseFields(content) == FieldsLine(Split(content, COLON))
  {
    var i := IndexOf(content, COLON);
    if i == |content| {
      IndexOfAbsent(content, COLON);
      SplitNone(content, COLON);
    } else {
      var rest := content[i + 1..];
      assert Split(content, COLON) == [content[..i]] + Split(rest, COLON);
      if COLON in rest {
        SplitSome(rest, COLON);
        assert FieldsLine(Split(content, COLON)) == Malformed(FieldCount);
      } else {
        SplitNone(rest, COLON);
        assert Split(content, COLON) == [content[..i], rest];
      }
    }
  }

  /** Decodes, strips and parses one line as `extract` does. */
  function ParseHeader(line: seq<byte>): HeaderLine
  {
    if !IsAscii(line) then Malformed(NotAscii)
    else
      var text := Strip(line);
      if text == [] then Blank
      else if text[0] != OPEN || text[|text| - 1] != CLOSE then Other
      else ParseFields(text[1..|text| - 1])
  }

  /**
   One turn of the loop of `extract` on the unread part `s` of the archive:
   `readline()`, then for a header `read(size)` and `read(1)`.
   */
  function NextStep(s: seq<byte>): (st: Step)
    ensures (st.Skip? || st.Write?) ==> 0 < st.consumed <= |s|
  {
    var n := LineLength(s);
    var h := ParseHeader(s[..n]);
    if h.Blank? then Stop
    else if h.Other? then Skip(n)
    else if h.Malformed? then Halt(h.error)
    else if h.size >= READ_LIMIT then Halt(SizeTooLarge)
    else
      var end := Min(n + h.size, |s|);
      Write(File(h.name, s[n..end]), Min(end + 1, |s|))
  }

  /** Everything `extract` writes when it scans `s`, and how it ends. */
  function Scan(s: seq<byte>): Decoded
    decreases |s|
  {
    match NextStep(s)
    case Stop => Decoded([], Finished)
    case Halt(e) => Decoded([], Failed(e))
    case Skip(n) => Scan(s[n..])
    case Write(f, n) =>
      var rest := Scan(s[n..]);
      Decoded([f] + rest.writes, rest.status)
  }

  /** The filesystem after `writes`, applied in order, each overwriting its own path. */
  function Apply(fs: FileSystem, writes: seq<File>): FileSystem
    decreases |writes|
  {
    if writes == [] then fs
    else Apply(fs[writes[0].path := writes[0].data], writes[1..])
  }

  /** The content the last of `writes` to `path` leaves there, if any writes to it. */
  function Latest(writes: seq<File>, path: Path): (r: Option<seq<byte>>)
    ensures r == None <==> forall k :: 0 <= k < |writes| ==> writes[k].path != path
    ensures r != None ==> File(path, r.value) in writes
    decreases |writes|
  {
    if writes == [] then None
    else
      var later := Latest(writes[1..], path);
      if later.Some? then later
      else if writes[0].path == path then Some(writes[0].data)
      else None
  }

  /** `Latest` picks the write to `path` that no later write to `path` follows. */
  lemma {:induction false} LatestIsLastWrite(writes: seq<File>, path: Path, i: nat)
    requires i < |writes| && writes[i].path == path
    requires forall j :: i < j < |writes| ==> writes[j].path != path
    ensures Latest(writes, path) == Some(writes[i].data)
    decreases |writes|
  {
    if i > 0 {
      LatestIsLastWrite(writes[1..], path, i - 1);
    }
  }

  /**
   Last write wins: a path holds what its last write left there, and a path that
   nothing writes keeps whatever it held (or stays absent).
   */
  lemma {:induction false} LastWriteWins(fs: FileSystem, writes: seq<File>, path: Path)
    ensures Latest(writes, path).Some? ==>
      path in Apply(fs, writes) && Apply(fs, writes)[path] == Latest(writes, path).value
    ensures Latest(writes, path).None? ==>
      (path in Apply(fs, writes) <==> path in fs) &&
      (path in fs ==> Apply(fs, writes)[path] == fs[path])
    decreases |writes|
  {
    if writes != [] {
      LastWriteWins(fs[writes[0].path := writes[0].data], writes[1..], path);
    }
  }

  /**
   `extract`: reads the archive turn by turn, writing each frame's payload to its
   path, until a blank line, the end of the archive, or an error. `unread` is what
   the file object has not yet handed out. Files written before an error stay written.
   */
  method Extract(archive: seq<byte>, fs0: FileSystem) returns (fs: FileSystem, status: Status)
    ensures fs == Apply(fs0, Scan(archive).writes)
    ensures status == Scan(archive).status
  {
    fs := fs0;
    var unread := archive;
    while true
      invariant Apply(fs, Scan(unread).writes) == Apply(fs0, Scan(archive).writes)
      invariant Scan(unread).status == Scan(archive).status
      decreases |unread|
    {
      // readline(), the header parse, and for a frame read(size) then read(1)
      var step := NextStep(unread);
      match step
      case Stop =>
        return fs, Finished;
      case Halt(error) =>
        return fs, Failed(error);
      case Skip(consumed) =>
        unread := unread[consumed..];
      case Write(file, consumed) =>
        fs := fs[file.path := file.data];
        unread := unread[consumed..];
    }
  }
}
