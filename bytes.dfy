/**
 The byte-level primitives rex.py borrows from Python: `str(n)` for the size in a
 header, `int(s)` when reading it back, `readline()` on the archive, `str.strip()`
 on a header line and `str.split(":")` on its contents. Text is ASCII here, so a
 character and its byte coincide.
 */
module Bytes {

  type byte = b: int | 0 <= b < 256

  const NEWLINE: byte := 10
  const SLASH: byte := 47
  const ZERO: byte := 48
  const COLON: byte := 58
  const OPEN: byte := 91
  const CLOSE: byte := 93

  predicate IsAscii(s: seq<byte>) {
    forall i :: 0 <= i < |s| ==> s[i] < 128
  }

  /** Python's `str.isspace` on an ASCII character. */
  predicate IsSpace(b: byte) {
    b == 32 || 9 <= b <= 13 || 28 <= b <= 31
  }

  predicate IsDigit(b: byte) {
    ZERO <= b <= ZERO + 9
  }

  predicate AllDigits(s: seq<byte>) {
    forall i :: 0 <= i < |s| ==> IsDigit(s[i])
  }

  /** One or more decimal digits. */
  predicate IsNumeral(s: seq<byte>) {
    s != [] && AllDigits(s)
  }

  /** The most digits CPython's `int()` converts from text by default; leading zeros count. */
  const INT_MAX_STR_DIGITS: nat := 4300

  /** A size field `int()` accepts in this model: a numeral of at most `INT_MAX_STR_DIGITS` digits. */
  predicate IsIntText(s: seq<byte>) {
    IsNumeral(s) && |s| <= INT_MAX_STR_DIGITS
  }

  /** `str(n)` for a non-negative integer: its decimal digits, with no leading zero. */
  function Decimal(n: nat): (r: seq<byte>)
    ensures IsNumeral(r)
    ensures r[0] == ZERO <==> n == 0
  {
    if n < 10 then [ZERO + n] else Decimal(n / 10) + [ZERO + n % 10]
  }

  function Pow10(k: nat): nat {
    if k == 0 then 1 else 10 * Pow10(k - 1)
  }

  /** `str(n)` has at most `k` digits when `n < 10^k`. */
  lemma {:induction false} DecimalLength(n: nat, k: nat)
    requires 0 < k && n < Pow10(k)
    ensures |Decimal(n)| <= k
  {
    if n >= 10 {
      assert k > 1;
      assert n / 10 < Pow10(k - 1);
      DecimalLength(n / 10, k - 1);
    }
  }

  /** The value of a run of decimal digits, as `int(s)` reads it. */
  function DigitsValue(s: seq<byte>): nat
    requires AllDigits(s)
  {
    if s == [] then 0 else DigitsValue(s[..|s| - 1]) * 10 + (s[|s| - 1] - ZERO)
  }

  /** `int(str(n)) == n`. */
  lemma {:induction false} DecimalRoundTrip(n: nat)
    ensures DigitsValue(Decimal(n)) == n
  {
    if n >= 10 {
      var front := Decimal(n / 10);
      assert (front + [ZERO + n % 10])[..|front|] == front;
      DecimalRoundTrip(n / 10);
    }
  }

  /**
   How many bytes `readline()` takes from the unread input `s`: everything up to
   and including the first newline, or all of `s` when it has none.
   */
  function LineLength(s: seq<byte>): (n: nat)
    ensures n <= |s|
    ensures s != [] ==> 0 < n
  {
    if s == [] then 0
    else if s[0] == NEWLINE then 1
    else 1 + LineLength(s[1..])
  }

  /** The line `readline()` returns ends at the first newline, or at the end of the input. */
  lemma {:induction false} LineEndsAtFirstNewline(s: seq<byte>)
    ensures forall i :: 0 <= i < LineLength(s) - 1 ==> s[i] != NEWLINE
    ensures LineLength(s) == |s| || s[LineLength(s) - 1] == NEWLINE
  {
    if s != [] && s[0] != NEWLINE {
      LineEndsAtFirstNewline(s[1..]);
    }
  }

  /**
   A line with no newline before its last byte is read whole, whatever follows it,
   when it ends in a newline or nothing follows it.
   */
  lemma LineLengthOfLine(line: seq<byte>, rest: seq<byte>)
    requires forall i :: 0 <= i < |line| - 1 ==> line[i] != NEWLINE
    requires (line != [] && line[|line| - 1] == NEWLINE) || rest == []
    ensures LineLength(line + rest) == |line|
  {
    var s := line + rest;
    LineEndsAtFirstNewline(s);
    if rest == [] {
      assert s == line;
    } else {
      assert s[|line| - 1] == NEWLINE;
    }
  }

  /** `s` without its leading whitespace. */
  function TrimStart(s: seq<byte>): seq<byte>
  {
    if s != [] && IsSpace(s[0]) then TrimStart(s[1..]) else s
  }

  /** `s` without its trailing whitespace. */
  function TrimEnd(s: seq<byte>): seq<byte>
  {
    if s != [] && IsSpace(s[|s| - 1]) then TrimEnd(s[..|s| - 1]) else s
  }

  /** `str.strip()`: `s` without its leading and trailing whitespace. */
  function Strip(s: seq<byte>): seq<byte>
  {
    TrimEnd(TrimStart(s))
  }

  /** `TrimStart` drops a run of whitespace from the front and stops at the first other byte. */
  lemma {:induction false} TrimStartDropsSpace(s: seq<byte>)
    ensures |TrimStart(s)| <= |s| && TrimStart(s) == s[|s| - |TrimStart(s)|..]
    ensures forall i :: 0 <= i < |s| - |TrimStart(s)| ==> IsSpace(s[i])
    ensures TrimStart(s) == [] || !IsSpace(TrimStart(s)[0])
  {
    if s != [] && IsSpace(s[0]) {
      var rest := s[1..];
      TrimStartDropsSpace(rest);
      var t := TrimStart(rest);
      assert TrimStart(s) == t;
      assert t == s[|s| - |t|..];
    }
  }

  /** `TrimEnd` drops a run of whitespace from the back and stops at the last other byte. */
  lemma {:induction false} TrimEndDropsSpace(s: seq<byte>)
    ensures |TrimEnd(s)| <= |s| && TrimEnd(s) == s[..|TrimEnd(s)|]
    ensures forall i :: |TrimEnd(s)| <= i < |s| ==> IsSpace(s[i])
    ensures TrimEnd(s) == [] || !IsSpace(TrimEnd(s)[|TrimEnd(s)| - 1])
  {
    if s != [] && IsSpace(s[|s| - 1]) {
      TrimEndDropsSpace(s[..|s| - 1]);
    }
  }

  /**
   `strip()` leaves nothing exactly when the line is all whitespace; otherwise what it
   leaves starts and ends with a byte that is not whitespace.
   */
  lemma StripSpec(s: seq<byte>)
    ensures |Strip(s)| <= |s|
    ensures Strip(s) == [] <==> forall i :: 0 <= i < |s| ==> IsSpace(s[i])
    ensures Strip(s) != [] ==> !IsSpace(Strip(s)[0]) && !IsSpace(Strip(s)[|Strip(s)| - 1])
  {
    TrimStartDropsSpace(s);
    TrimEndDropsSpace(TrimStart(s));
  }

  /** Stripping a line that starts and ends with a byte other than whitespace, then a newline, leaves the line. */
  lemma StripLineBreak(text: seq<byte>)
    requires text != [] && !IsSpace(text[0]) && !IsSpace(text[|text| - 1])
    ensures Strip(text + [NEWLINE]) == text
  {
    var s := text + [NEWLINE];
    assert TrimStart(s) == s;
    assert s[..|s| - 1] == text;
    assert TrimEnd(s) == TrimEnd(text);
  }

  /** The index of the first `c` in `s`, or `|s|` when there is none. */
  function IndexOf(s: seq<byte>, c: byte): (i: nat)
    ensures i <= |s|
  {
    if s == [] || s[0] == c then 0 else 1 + IndexOf(s[1..], c)
  }

  /** `IndexOf` finds the first occurrence. */
  lemma {:induction false} IndexOfFirst(s: seq<byte>, c: byte)
    ensures IndexOf(s, c) < |s| ==> s[IndexOf(s, c)] == c
    ensures forall j :: 0 <= j < IndexOf(s, c) ==> s[j] != c
  {
    if s != [] && s[0] != c {
      IndexOfFirst(s[1..], c);
    }
  }

  /** `IndexOf` runs off the end exactly when `c` does not occur. */
  lemma IndexOfAbsent(s: seq<byte>, c: byte)
    ensures IndexOf(s, c) == |s| <==> c !in s
  {
  }

  /** `s.split(sep)`: the pieces of `s` between its occurrences of `sep`. */
  function Split(s: seq<byte>, sep: byte): seq<seq<byte>>
    decreases |s|
  {
    var i := IndexOf(s, sep);
    if i == |s| then [s] else [s[..i]] + Split(s[i + 1..], sep)
  }

  /** `split` yields one piece more than there are separators, and no piece holds one. */
  lemma {:induction false} SplitPieces(s: seq<byte>, sep: byte)
    ensures |Split(s, sep)| == multiset(s)[sep] + 1
    ensures forall k :: 0 <= k < |Split(s, sep)| ==> sep !in Split(s, sep)[k]
    decreases |s|
  {
    var i := IndexOf(s, sep);
    IndexOfFirst(s, sep);
    if i == |s| {
      assert sep !in s;
      assert multiset(s)[sep] == 0;
    } else {
      SplitPieces(s[i + 1..], sep);
      assert s == s[..i] + [sep] + s[i + 1..];
      assert sep !in s[..i];
      assert multiset(s[..i])[sep] == 0;
    }
  }

  /** Without a separator, `split` returns the whole input as its only piece. */
  lemma SplitNone(s: seq<byte>, sep: byte)
    requires sep !in s
    ensures Split(s, sep) == [s]
  {
    IndexOfAbsent(s, sep);
  }

  /** With a separator, `split` returns at least two pieces. */
  lemma SplitSome(s: seq<byte>, sep: byte)
    requires sep in s
    ensures |Split(s, sep)| >= 2
  {
    SplitPieces(s, sep);
    assert sep in multiset(s);
  }

  /** `sep.join(parts)`. */
  function Join(parts: seq<seq<byte>>, sep: byte): seq<byte>
    requires parts != []
  {
    if |parts| == 1 then parts[0] else parts[0] + [sep] + Join(parts[1..], sep)
  }

  /** Splitting loses nothing: joining the pieces gives `s` back. */
  lemma {:induction false} SplitJoin(s: seq<byte>, sep: byte)
    ensures Join(Split(s, sep), sep) == s
    decreases |s|
  {
    var i := IndexOf(s, sep);
    IndexOfFirst(s, sep);
    if i < |s| {
      SplitJoin(s[i + 1..], sep);
      assert s == s[..i] + [sep] + s[i + 1..];
    }
  }
}
