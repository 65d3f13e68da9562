/** Small value types shared by every component of the model. */
module Common {

  /** The Python `None`-or-value convention. */
  datatype Option<+T> = None | Some(value: T) {
    function GetOr(default: T): T {
      match this
      case Some(v) => v
      case None => default
    }
  }

  /** An operation that either returns a value or raises one of the source's exceptions. */
  datatype Result<+T> = Ok(value: T) | Raise(error: Exception)

  /** The Python exceptions the modelled code can raise. */
  datatype Exception =
    | IndexError
    | KeyError
    | ValueError
    | AttributeError
    | StructError
    | UnicodeDecodeError

  /** One octet of a `bytes`/`bytearray` value. */
  type Byte = x: int | 0 <= x < 256

  /** One element of a bit stream (the source stores bits as 0/1 bytes). */
  type Bit = x: int | 0 <= x < 2

  type Bytes = seq<Byte>

  /** Python's `s[lo:hi]` for 0 <= lo, 0 <= hi: indices past the end are clamped. */
  function Slice<T>(s: seq<T>, lo: nat, hi: nat): (r: seq<T>)
    ensures lo <= hi <= |s| ==> r == s[lo..hi]
    ensures |r| == if lo <= hi && lo <= |s| then (if hi <= |s| then hi else |s|) - lo else 0
  {
    var h := if hi <= |s| then hi else |s|;
    if lo <= h then s[lo..h] else []
  }

  /** Concatenation regroups. */
  lemma Regroup<T>(done: seq<T>, piece: seq<T>, rest: seq<T>)
    ensures done + (piece + rest) == (done + piece) + rest
  {
  }

  /** Characters whose code point is below 128 (UTF-8 encodes and decodes them as one byte). */
  predicate IsAscii(s: string) {
    forall i :: 0 <= i < |s| ==> s[i] as int < 128
  }

  /** Bytes that are all below 128: they decode to the characters with the same code points. */
  predicate AsciiBytes(b: Bytes) {
    b == [] || (b[0] < 128 && AsciiBytes(b[1..]))
  }

  /** Bytes are ASCII exactly when each of them is below 128. */
  lemma {:induction false} AsciiBytesAll(b: Bytes)
    ensures AsciiBytes(b) <==> forall i :: 0 <= i < |b| ==> b[i] < 128
  {
    if b != [] {
      AsciiBytesAll(b[1..]);
      assert forall i :: 1 <= i < |b| ==> b[i] == b[1..][i - 1];
    }
  }

  /** Decodes ASCII bytes character by character. */
  function AsciiDecode(b: Bytes): (s: string)
    requires AsciiBytes(b)
    ensures |s| == |b|
  {
    if b == [] then [] else [b[0] as char] + AsciiDecode(b[1..])
  }

  /** Each decoded character has the code point of its byte. */
  lemma {:induction false} AsciiDecodeChars(b: Bytes)
    requires AsciiBytes(b)
    ensures forall i :: 0 <= i < |b| ==> AsciiDecode(b)[i] as int == b[i]
  {
    if b != [] {
      AsciiDecodeChars(b[1..]);
    }
  }

  /** Decimal text of a natural number, as Python's `str(n)`. */
  function NatToString(n: nat): (s: string)
    ensures |s| >= 1
    decreases n
  {
    if n < 10 then [DigitChar(n)] else NatToString(n / 10) + [DigitChar(n % 10)]
  }

  /** Lower-case hexadecimal digit. */
  function DigitChar(d: nat): (c: char)
    requires d < 16
    ensures d < 10 ==> '0' <= c <= '9'
    ensures d >= 10 ==> 'a' <= c <= 'f'
  {
    if d < 10 then ('0' as int + d) as char else ('a' as int + d - 10) as char
  }

  /** `str(n)` is all decimal digits. */
  lemma {:induction false} NatToStringDigits(n: nat)
    ensures forall i :: 0 <= i < |NatToString(n)| ==> '0' <= NatToString(n)[i] <= '9'
    decreases n
  {
    if n >= 10 {
      NatToStringDigits(n / 10);
    }
  }

  /** The value of a string of decimal digits, as Python's `int(s)`. */
  function DecimalValue(s: string): nat {
    if s == [] then 0
    else
      var d := s[|s| - 1] as int - '0' as int;
      DecimalValue(s[..|s| - 1]) * 10 + (if 0 <= d then d else 0)
  }

  /** `int(str(n)) == n`. */
  lemma {:induction false} NatToStringRoundTrip(n: nat)
    ensures DecimalValue(NatToString(n)) == n
    decreases n
  {
    var s := NatToString(n);
    if n >= 10 {
      NatToStringRoundTrip(n / 10);
      assert s[..|s| - 1] == NatToString(n / 10);
    } else {
      assert s[..|s| - 1] == [];
    }
  }

  /** Python's `str.split(sep)` for a one-character separator: always at least one piece. */
  function Split(s: string, sep: char): (pieces: seq<string>)
    ensures |pieces| >= 1
    ensures forall i :: 0 <= i < |pieces| ==> sep !in pieces[i]
    ensures Join(pieces, sep) == s
  {
    if s == [] then [[]]
    else
      var rest := Split(s[1..], sep);
      if s[0] == sep then [[]] + rest
      else [[s[0]] + rest[0]] + rest[1..]
  }

  /** Python's `sep.join(pieces)` for a one-character separator. */
  function Join(pieces: seq<string>, sep: char): string {
    if pieces == [] then []
    else if |pieces| == 1 then pieces[0]
    else pieces[0] + [sep] + Join(pieces[1..], sep)
  }

  /** A piece without the separator, then the separator, splits off as one piece. */
  lemma {:induction false} SplitCons(p: string, s: string, sep: char)
    requires sep !in p
    ensures Split(p + [sep] + s, sep) == [p] + Split(s, sep)
    decreases |p|
  {
    var w := p + [sep] + s;
    if p == [] {
      assert w == [sep] + s && w[1..] == s;
    } else {
      var tail := p[1..] + [sep] + s;
      assert w[0] == p[0] && w[0] != sep && w[1..] == tail;
      SplitCons(p[1..], s, sep);
      var rest := Split(tail, sep);
      assert rest[0] == p[1..] && rest[1..] == Split(s, sep);
      assert Split(w, sep) == [[p[0]] + rest[0]] + rest[1..];
      assert [p[0]] + p[1..] == p;
    }
  }

  /** A string without the separator splits into itself alone. */
  lemma {:induction false} SplitAlone(p: string, sep: char)
    requires sep !in p
    ensures Split(p, sep) == [p]
    decreases |p|
  {
    if p != [] {
      SplitAlone(p[1..], sep);
      assert [p[0]] + p[1..] == p;
    }
  }

  /** `sep.join(pieces).split(sep) == pieces` when no piece holds the separator. */
  lemma {:induction false} SplitJoin(pieces: seq<string>, sep: char)
    requires |pieces| >= 1
    requires forall i :: 0 <= i < |pieces| ==> sep !in pieces[i]
    ensures Split(Join(pieces, sep), sep) == pieces
  {
    if |pieces| == 1 {
      SplitAlone(pieces[0], sep);
    } else {
      SplitJoin(pieces[1..], sep);
      SplitCons(pieces[0], Join(pieces[1..], sep), sep);
      assert [pieces[0]] + pieces[1..] == pieces;
    }
  }

  /** Division with remainder has one answer. */
  lemma ModUnique(x: int, m: int, a: int, b: int)
    requires m >= 1 && 0 <= b < m && x == a * m + b
    ensures x % m == b && x / m == a
  {
    var a0, b0 := x / m, x % m;
    var d := a - a0;
    assert d * m == b0 - b by {
      assert a * m - a0 * m == (a - a0) * m;
    }
    if d >= 1 {
      assert false;
    } else if d <= -1 {
      assert false;
    }
  }
}
