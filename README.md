# rex archive codec, modelled in Dafny

`rex.py` packs a directory tree into one `.rex` file and unpacks it again. It
writes one frame per file, back to back, with no index and no footer. A frame
is a header line `[name:size]` and a newline, then exactly `size` content bytes,
then one more newline. This project models both halves of that codec and proves
that they fit together.

- `bytes.dfy` (module `Bytes`) models the Python primitives the codec leans on.
  These are `str(n)` and `int(s)` for the size, `readline()` on a binary file,
  `str.strip()`, and `str.split(":")`. Text is ASCII, so one byte is one character.
- `archive.dfy` (module `Archive`) models the encoder: the `Header` record with
  `toData`, the archive the headers encode to, and `create` as a method with its
  two loops.
- `extraction.dfy` (module `Extraction`) models the decoder. The filesystem is a
  map from paths to contents.
  - `ParseHeader` reads one line the way `extract` does: decode, strip, bracket
    test, split on `:`, `int`, and the `os.makedirs` failure for a name without
    a directory.
  - `NextStep` is one turn of the `while True` loop. `Scan` is the whole loop, as
    a function of the part of the archive not yet read.
  - `Extract` is the loop itself as a method. Its cursor is the unread remainder
    of the archive, and it updates the filesystem map as it goes.
- `framing.dfy` (module `Framing`) proves what the decoder does with each kind of
  line. A blank line ends the scan. A line that is not `[...]` is skipped. A
  frame's payload is exactly `size` bytes and one byte after it is dropped. A
  frame cut short by the end of the archive is written short.
- `roundtrip.dfy` (module `RoundTrip`) proves that `extract` undoes `create`, for
  names that survive the header line and contents shorter than 2^63 bytes. It also proves that a name holding a colon
  does not come back.

## Model

| member | source | states |
|---|---|---|
| Bytes.Decimal | rex.py:36 | `str(size)` is a non-empty run of decimal digits, and it starts with `0` only for zero |
| Bytes.DigitsValue | rex.py:94 | `int()` on a run of decimal digits, read most significant digit first; `DecimalRoundTrip` shows it inverts `str` |
| Bytes.DecimalLength | rex.py:36 | `str(n)` has at most `k` digits when `n` is below `10^k` |
| Bytes.DecimalRoundTrip | rex.py:94 | `int` applied to the digits `str(n)` writes gives back `n` |
| Bytes.LineLength | rex.py:86 | `readline()` takes no more than what is unread, and takes at least one byte unless nothing is left |
| Bytes.LineEndsAtFirstNewline | rex.py:86 | the line `readline()` returns has no newline before its last byte, and it ends in a newline unless the input ran out |
| Bytes.LineLengthOfLine | rex.py:86 | a line with no earlier newline is read whole, whatever follows, when it ends in a newline or nothing follows it |
| Bytes.TrimStart | rex.py:86 | the leading-whitespace half of `strip()`; `TrimStartDropsSpace` states what it removes and where it stops |
| Bytes.TrimEnd | rex.py:86 | the trailing-whitespace half of `strip()`; `TrimEndDropsSpace` states what it removes and where it stops |
| Bytes.Strip | rex.py:86 | `strip()`: both halves in turn; `StripSpec` and `StripLineBreak` state its result |
| Bytes.TrimStartDropsSpace | rex.py:86 | stripping the front removes a run of whitespace and stops at the first byte that is not whitespace |
| Bytes.TrimEndDropsSpace | rex.py:86 | stripping the back removes a run of whitespace and stops at the last byte that is not whitespace |
| Bytes.StripSpec | rex.py:86 | `strip()` leaves nothing exactly when the line is all whitespace, and what it leaves starts and ends with a byte that is not whitespace |
| Bytes.StripLineBreak | rex.py:86 | stripping a text that starts and ends with non-whitespace, followed by a newline, gives back the text |
| Bytes.IndexOf | rex.py:93 | the search for a separator stays within the input |
| Bytes.IndexOfFirst | rex.py:93 | the search finds the first occurrence of the separator |
| Bytes.IndexOfAbsent | rex.py:93 | the search runs off the end exactly when the separator does not occur |
| Bytes.Split | rex.py:93 | `split(":")`: the pieces between successive separators; `SplitPieces`, `SplitNone`, `SplitSome` and `SplitJoin` state its result |
| Bytes.SplitPieces | rex.py:93 | `split(":")` yields one piece more than there are colons, and no piece holds a colon |
| Bytes.SplitNone | rex.py:93 | with no separator, `split` returns the whole input as its only piece |
| Bytes.SplitSome | rex.py:93 | with a separator, `split` returns at least two pieces |
| Bytes.SplitJoin | rex.py:93 | joining the pieces of a split with the separator gives back the input |
| Archive.Header.Line | rex.py:36 | the header line is `[`, the name, `:`, the size in decimal, `]` and a newline, and its length is the name's plus the digits' plus four |
| Archive.Header.LineFields | rex.py:36 | between the brackets of the header line stand the name, one colon, and the size's decimal digits |
| Archive.Header.ToData | rex.py:34-39 | a frame is the header line, then the content unchanged, then one newline, and its length is the line's plus the content's plus one |
| Archive.Encode | rex.py:75-77 | the archive holding a list of headers: their frames one after another, nothing before, between or after; `EncodeSnoc` and `RoundTrip.RoundTrip` describe it |
| Archive.EncodeSnoc | rex.py:75-77 | writing one more header appends exactly its frame to the archive |
| Archive.Create | rex.py:65-77 | one header per walked file, in walk order, each with the file's path and content and the content's length as its size; the archive is those headers' frames in order and nothing else |
| Extraction.ParseHeader | rex.py:86-97 | one header line as `extract` reads it: decode (a byte of 0x80 or more is an error), strip, blank test, bracket test, then the fields; `Framing.BlankLine`, `Framing.EntryLine` and `RoundTrip.ParseOwnLine` state its results |
| Extraction.ParseFields | rex.py:93-97 | the text between the brackets: exactly one colon, a numeral of at most 4300 digits after it (CPython's default limit for `int()` on text), a `/` in the name before it, or the first error among these; `ParseFieldsIsSplit` and `Framing.EntryFields` state its results |
| Extraction.FieldsLine | rex.py:93-97 | the same three checks on the list `split(":")` returns, in Python's order: two-name unpack, `int(size)` with its 4300-digit limit, then `os.makedirs` of the name's directory |
| Extraction.ParseFieldsIsSplit | rex.py:92-97 | finding the one colon gives the same result as `split(":")` followed by the two-field unpacking, `int` and the directory check, in that order |
| Extraction.NextStep | rex.py:84-107 | every loop turn that does not end the scan consumes at least one byte and no more than what is unread; a size `int()` accepts (at most 4300 digits) whose value is 2^63 or more halts with `SizeTooLarge`, as `read(size)` raises `OverflowError` (`Framing.OversizeHalts`) |
| Extraction.Scan | rex.py:84-107 | the whole `while True` loop on the unread part of the archive: the files written, in order, and whether it ended on a blank line or end of file or on an error; the `Framing` lemmas state what each kind of line does to it, `MalformedHalts` and `OversizeHalts` for the lines that raise |
| Extraction.Apply | rex.py:103-104 | the filesystem after a list of writes, made in order, each replacing its path's content; `LastWriteWins` states the result path by path |
| Extraction.Latest | rex.py:103-104 | the value the last write to a path leaves there exists exactly when some write goes to that path, and it is the content of one of those writes |
| Extraction.LatestIsLastWrite | rex.py:103-104 | the value is that of the write to the path that no later write to the path follows |
| Extraction.LastWriteWins | rex.py:103-104 | after the writes, each written path holds its last write's content, and every other path keeps its old content or stays absent |
| Extraction.Extract | rex.py:82-107 | the loop, taking one `NextStep` per turn, leaves the filesystem with every file `Scan` finds written over it in order, and it ends as `Scan` does: cleanly, or with the error of the first bad header |
| Framing.BlankLine | rex.py:86-88 | a line counts as blank exactly when it is ASCII and all whitespace |
| Framing.EntryFields | rex.py:92-97 | an accepted header's bracketed text is the name, one colon and a decimal numeral of at most 4300 digits whose value is the size; the name holds no colon and does hold a `/` |
| Framing.EntryBrackets | rex.py:86-92 | an accepted header line is ASCII, and once stripped it starts with `[`, ends with `]`, and the text between parses to the entry |
| Framing.EntryLine | rex.py:86-97 | an accepted header line is ASCII, and once stripped it is `[`, the name, `:`, a numeral of at most 4300 digits with the size as its value, and `]` |
| Framing.LongSizeRejected | rex.py:93-97 | a size field of more than 4300 digits raises in `int()`, whatever its value and before the name's directory is looked at |
| Framing.BlankLineEndsScan | rex.py:86-88 | a blank line, or the end of the archive, ends the scan cleanly with nothing more written |
| Framing.OtherLineSkipped | rex.py:91 | a line that is not blank and is not `[...]` once stripped writes nothing, and the scan goes on at the next line; this holds too for a last line with no newline after it |
| Framing.FrameRead | rex.py:99-107 | a frame whose payload is as long as declared, and shorter than 2^63 bytes, writes that payload as it is, newlines included, drops the one byte after it whatever it is, and goes on right after that byte |
| Framing.TruncatedFrame | rex.py:99-104 | when the archive ends before a payload of a declared size below 2^63 is complete, what remains is written as the payload and the scan ends cleanly; this holds too when the header line is the archive's last line and has no newline |
| Framing.MalformedHalts | rex.py:86-97 | a header line that raises (not ASCII, not one colon, a size that is not a numeral, a name with no directory) stops the scan with that error, with nothing written for it or after it |
| Framing.OversizeHalts | rex.py:100 | a header whose size is 2^63 or more stops the scan with `SizeTooLarge`, with nothing written for it or after it |
| RoundTrip.FieldsOfLine | rex.py:92-97 | `name:digits` parses to the name and the digits' value when the name has no colon and does have a `/` and the digits number at most 4300 |
| RoundTrip.OwnLineFields | rex.py:86-92 | the header line of an ASCII name decodes, strips to `[name:digits]` and is judged by the text between its brackets |
| RoundTrip.SizeDigits | rex.py:36 | a size below 2^63 is written in few enough digits for `int()` to read it back |
| RoundTrip.ParseOwnLine | rex.py:86-97 | the header line written for an extractable name and a size below 2^63 parses back to that name and size |
| RoundTrip.OwnLineIsOneLine | rex.py:36 | a header line whose name has no newline has no newline before its last byte |
| RoundTrip.FrameDecodes | rex.py:34-39 | the frame of an entry whose size is its content's length decodes to that entry, and the scan goes on after the frame |
| RoundTrip.RoundTrip | rex.py:65-107 | for files shorter than 2^63 bytes, scanning the archive `create` writes gives back the walked files, in walk order, and finishes cleanly |
| RoundTrip.CreateThenExtract | rex.py:65-107 | for files shorter than 2^63 bytes, `create` then `extract` finishes cleanly; each walked path holds the content of the walk's last file at that path, and every other path is unchanged |
| RoundTrip.ColonFields | rex.py:93 | `name:digits` with a colon inside the name has more than two fields, so the unpack fails |
| RoundTrip.ColonLine | rex.py:93 | the header line of a name holding a colon has too many fields to unpack |
| RoundTrip.ColonNameFails | rex.py:93 | an archive that starts with the frame of a name holding a colon stops at that frame with nothing written |

## Left out

- The command line is not modelled: `argparse`, the `isdir` check, the mode dispatch and `exit` (rex.py:5-25, rex.py:111-117). They are process glue.
- `read_file` is not modelled (rex.py:45-62). It guesses text or binary from the file extension and re-encodes text. The model takes each file's content as raw bytes.
- The walk order of `os.walk` and `os.path.join` are not modelled (rex.py:67-69). `Create` takes the walk as a sequence of paths with their contents. A path that `os.path.join` builds always holds a `/`, which the round trip needs.
- Filesystem failures are not modelled: unreadable or unwritable files, a path that names a directory, permissions, and so on. The filesystem is a map. Of `os.makedirs(os.path.dirname(name))` (rex.py:97), only the failure for a name with no directory part is kept, as the error `NoParentDirectory`.
- All `print` output is left out (rex.py:24, rex.py:53, rex.py:79, rex.py:109).
- Extraction.ParseHeader: a header line that holds any byte of 0x80 or more is treated as a decoding error. Python rejects only invalid UTF-8, and its `strip()` also removes non-ASCII whitespace. Names are ASCII in this model.
- Extraction.ParseFields, Extraction.FieldsLine: only one to 4300 ASCII digits are accepted as a size. The 4300-digit bound is CPython's default for `int()` on text, leading zeros counted; a different limit set through `sys.set_int_max_str_digits` or `PYTHONINTMAXSTRDIGITS` is not modelled. Python's `int()` also accepts a sign, surrounding whitespace, underscores between digits and non-ASCII digits. The model reports all of those as `SizeNotNumeral`, so it never reaches the behaviour of a negative size, where `read(-1)` would read everything that is left.
- Extraction.NextStep: of the ways `read(size)` (rex.py:100) can refuse a size, only the `OverflowError` for a size of 2^63 or more is modelled, as `SizeTooLarge`. A smaller size still too large to allocate raises `MemoryError` in `rex.py`, depending on the machine's memory; the model reads such a payload short instead.
- Extraction.Extract: the file position is represented by the unread remainder of the archive rather than by an offset. Each determines the other.
- Truncation: for a declared size below 2^63 that `read` can allocate, `rex.py` raises no error when a payload, or the newline after it, is cut short by the end of the archive. It writes the short payload, and `read(1)` at the end of the file reads nothing. The model does the same (`Framing.TruncatedFrame`).
- Malformed headers: in `rex.py`, a bracketed line with the wrong number of colons, or with a size that is not a number, raises rather than being skipped. The model stops with an error there; only lines that are not `[...]` are skipped.
