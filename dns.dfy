/**
 * The DNS client of hw6/dns.py: the query it sends over TCP and the way it
 * reads the server's answer.
 *
 * A query is a 2-byte big-endian length prefix (section 4.2.2 of RFC 1035),
 * a 12-byte header (section 4.1.1), and one question (section 4.1.2): the
 * host name as length-prefixed labels ending in a zero byte (section 3.1),
 * then QTYPE and QCLASS. The reader walks the response with a byte cursor:
 * header flags, the questions, then the answer, authority and additional
 * resource records (section 4.1.3), and reports addresses, the next name
 * to ask for, or the servers to ask next.
 *
 * The random transaction ID is an input; `struct.pack('HH', ...)` uses the
 * host's byte order, taken here as little-endian.
 */
module Dns {
  import opened Common

  /** `IPV4_CODE`: an A record (section 3.2.2 of RFC 1035). */
  const Ipv4Code := 1

  /** `IPV6_CODE`: an AAAA record (section 2.1 of RFC 3596). */
  const Ipv6Code := 28

  /** The question class IN. */
  const ClassIn := 1

  /** Header flags of a query: not a response, standard query, authoritative bit, no recursion. */
  const QueryFlags := 0x0400

  /** Bytes in a DNS header. */
  const HeaderSize := 12

  // ---------------------------------------------------------------------
  // Record types and integers.
  // ---------------------------------------------------------------------

  /** The record types the reader knows, the values of `QTYPES`. */
  datatype QType = Ipv4 | Ipv6 | CName | Ns

  /** The TYPE value of each known record type. */
  function QTypeCode(t: QType): nat {
    match t
    case Ipv4 => Ipv4Code
    case Ipv6 => Ipv6Code
    case CName => 5
    case Ns => 2
  }

  /** `QTYPES[v]`: the known type with TYPE value `v`; KeyError for any other value. */
  function QTypeOf(v: int): Result<QType> {
    if v == Ipv4Code then Ok(Ipv4)
    else if v == Ipv6Code then Ok(Ipv6)
    else if v == 5 then Ok(CName)
    else if v == 2 then Ok(Ns)
    else Raise(KeyError)
  }

  /** `QTYPES` is the inverse of the TYPE values, and KeyError means no known type has the value. */
  lemma QTypeTable(v: int)
    ensures QTypeOf(v).Ok? ==> QTypeCode(QTypeOf(v).value) == v
    ensures QTypeOf(v).Raise? ==> QTypeOf(v).error == KeyError && forall t: QType :: QTypeCode(t) != v
    ensures forall t: QType :: QTypeOf(QTypeCode(t)) == Ok(t)
  {
  }

  /** Record types whose data is an address (`q_type.startswith('ip')`). */
  predicate IsAddressType(t: QType) {
    t == Ipv4 || t == Ipv6
  }

  /**
   * `int.from_bytes(s[at:at + n], 'big')`: the bytes from `at`, most
   * significant first; a slice that runs past the end is cut short.
   */
  function BigEndian(s: Bytes, at: nat, n: nat): nat
    decreases n
  {
    if n == 0 then 0
    else if at + n > |s| then BigEndian(s, at, n - 1)
    else BigEndian(s, at, n - 1) * 256 + s[at + n - 1] as nat
  }

  /** A two-byte field: TYPE, RDLENGTH and the header counts. */
  function Word(s: Bytes, at: nat): (v: nat)
    ensures v < 65536
  {
    BigEndian(s, at, 2)
  }

  /** A two-byte field that lies wholly inside `s`. */
  lemma WordAt(s: Bytes, at: nat)
    requires at + 2 <= |s|
    ensures Word(s, at) == s[at] as nat * 256 + s[at + 1] as nat
  {
    assert BigEndian(s, at, 1) == s[at] as nat by {
      assert BigEndian(s, at, 0) == 0;
    }
  }

  /** `struct.pack('>H', v)`: two bytes, most significant first. */
  function PackBigEndian16(v: nat): (b: Bytes)
    requires v < 65536
    ensures |b| == 2 && Word(b, 0) == v
  {
    [v / 256, v % 256]
  }

  /** `struct.pack('H', v)` on a little-endian host: least significant byte first. */
  function PackNative16(v: nat): (b: Bytes)
    requires v < 65536
    ensures |b| == 2 && b[0] as int + 256 * (b[1] as int) == v
  {
    [v % 256, v / 256]
  }

  // ---------------------------------------------------------------------
  // Host names.
  // ---------------------------------------------------------------------

  /** A label `bytes([len] + chars)` accepts: fewer than 256 characters, each below code point 256. */
  predicate LabelFits(piece: string) {
    |piece| < 256 && forall i :: 0 <= i < |piece| ==> piece[i] as int < 256
  }

  predicate AllFit(pieces: seq<string>) {
    forall i :: 0 <= i < |pieces| ==> LabelFits(pieces[i])
  }

  /** The code points of characters below 256, `[ord(ch) for ch in piece]`. */
  function CodePoints(s: string): (b: Bytes)
    requires forall i :: 0 <= i < |s| ==> s[i] as int < 256
    ensures |b| == |s|
  {
    if s == [] then [] else [s[0] as int as Byte] + CodePoints(s[1..])
  }

  lemma {:induction false} CodePointsAt(s: string)
    requires forall i :: 0 <= i < |s| ==> s[i] as int < 256
    ensures forall i :: 0 <= i < |s| ==> CodePoints(s)[i] == s[i] as int
  {
    if s != [] {
      CodePointsAt(s[1..]);
    }
  }

  /** One label on the wire: its length, then its characters' code points. */
  function LabelBytes(piece: string): (b: Bytes)
    requires LabelFits(piece)
    ensures |b| == |piece| + 1 && b[0] == |piece|
  {
    [|piece|] + CodePoints(piece)
  }

  /**
   * The label loop of `create_request`: every non-empty piece as a label,
   * empty pieces skipped; ValueError at the first piece that does not fit.
   */
  function PackLabels(pieces: seq<string>): (r: Result<Bytes>)
    ensures r.Ok? <==> AllFit(pieces)
    ensures r.Raise? ==> r.error == ValueError
  {
    if pieces == [] then Ok([])
    else if pieces[0] == [] then
      assert AllFit(pieces) <==> AllFit(pieces[1..]) by {
        assert forall i :: 1 <= i < |pieces| ==> pieces[i] == pieces[1..][i - 1];
      }
      PackLabels(pieces[1..])
    else if !LabelFits(pieces[0]) then Raise(ValueError)
    else
      assert AllFit(pieces) <==> AllFit(pieces[1..]) by {
        assert forall i :: 1 <= i < |pieces| ==> pieces[i] == pieces[1..][i - 1];
      }
      Then(LabelBytes(pieces[0]), PackLabels(pieces[1..]))
  }

  /** Prefixes the bytes of a successful result. */
  function Then(prefix: Bytes, r: Result<Bytes>): Result<Bytes> {
    match r
    case Raise(e) => Raise(e)
    case Ok(b) => Ok(prefix + b)
  }

  /** The pieces that are not empty, in order. */
  function NonEmpty(pieces: seq<string>): (labels: seq<string>)
    ensures |labels| <= |pieces|
    ensures forall i :: 0 <= i < |labels| ==> labels[i] != [] && labels[i] in pieces
  {
    if pieces == [] then []
    else if pieces[0] == [] then NonEmpty(pieces[1..])
    else [pieces[0]] + NonEmpty(pieces[1..])
  }

  /** The labels of a host name: the non-empty pieces between dots. */
  function Labels(hostname: string): seq<string> {
    NonEmpty(Split(hostname, '.'))
  }

  /** A host name written the usual way: no empty label, so no leading, trailing or doubled dot. */
  predicate WellFormedName(hostname: string) {
    forall i :: 0 <= i < |Split(hostname, '.')| ==> Split(hostname, '.')[i] != []
  }

  /** A well-formed name is the dot-join of its labels. */
  lemma WellFormedNameLabels(hostname: string)
    requires WellFormedName(hostname)
    ensures Join(Labels(hostname), '.') == hostname
  {
    NonEmptyKeepsAll(Split(hostname, '.'));
  }

  lemma {:induction false} NonEmptyKeepsAll(pieces: seq<string>)
    requires forall i :: 0 <= i < |pieces| ==> pieces[i] != []
    ensures NonEmpty(pieces) == pieces
  {
    if pieces != [] {
      NonEmptyKeepsAll(pieces[1..]);
    }
  }

  /** Each label followed by a dot, as `read_hostname` accumulates them. */
  function Terminated(labels: seq<string>, sep: char): string {
    if labels == [] then [] else labels[0] + [sep] + Terminated(labels[1..], sep)
  }

  /** `s[:-1]`: everything but the last character; the empty string stays empty. */
  function DropLast(s: string): string {
    if s == [] then [] else s[..|s| - 1]
  }

  /** Dropping the final separator leaves the join. */
  lemma {:induction false} DropLastTerminated(labels: seq<string>, sep: char)
    ensures DropLast(Terminated(labels, sep)) == Join(labels, sep)
  {
    if |labels| == 1 {
      assert Terminated(labels, sep) == labels[0] + [sep];
    } else if |labels| > 1 {
      DropLastTerminated(labels[1..], sep);
      var t := Terminated(labels[1..], sep);
      assert t != [];
      assert DropLast(labels[0] + [sep] + t) == labels[0] + [sep] + DropLast(t);
    }
  }

  /** One more label at the end of an accumulated name. */
  lemma {:induction false} TerminatedSnoc(labels: seq<string>, piece: string, sep: char)
    ensures Terminated(labels + [piece], sep) == Terminated(labels, sep) + piece + [sep]
  {
    if labels != [] {
      TerminatedSnoc(labels[1..], piece, sep);
      assert (labels + [piece])[1..] == labels[1..] + [piece];
    } else {
      assert Terminated([piece], sep) == piece + [sep] + [];
    }
  }

  /**
   * The labels `read_hostname` reads from `start`, each followed by a dot,
   * and the cursor just past the zero byte. Reading past the end raises
   * IndexError; a label that is not ASCII fails to decode.
   */
  function ReadLabels(packet: Bytes, start: nat): Result<(string, nat)>
    decreases |packet| - start
  {
    if start >= |packet| then Raise(IndexError)
    else
      var length := packet[start];
      if length == 0 then Ok(([], start + 1))
      else
        var raw := packet[start + 1..if start + 1 + length <= |packet| then start + 1 + length else |packet|];
        if !AsciiBytes(raw) then Raise(UnicodeDecodeError)
        else
          match ReadLabels(packet, start + 1 + length)
          case Raise(e) => Raise(e)
          case Ok(rest) => Ok((AsciiDecode(raw) + "." + rest.0, rest.1))
  }

  /** `read_hostname`: the dotted name at `start` and the cursor after it. */
  function ReadName(packet: Bytes, start: nat): Result<(string, nat)> {
    match ReadLabels(packet, start)
    case Raise(e) => Raise(e)
    case Ok(got) => Ok((DropLast(got.0), got.1))
  }

  /** Prefixes the name part of a reading. */
  function Prepend(s: string, r: Result<(string, nat)>): Result<(string, nat)> {
    match r
    case Raise(e) => Raise(e)
    case Ok(got) => Ok((s + got.0, got.1))
  }

  lemma PrependEmpty(r: Result<(string, nat)>)
    ensures Prepend("", r) == r
  {
    if r.Ok? {
      assert "" + r.value.0 == r.value.0;
    }
  }

  lemma PrependPrepend(a: string, b: string, r: Result<(string, nat)>)
    ensures Prepend(a, Prepend(b, r)) == Prepend(a + b, r)
  {
    if r.Ok? {
      assert a + (b + r.value.0) == a + b + r.value.0;
    }
  }

  /** `read_hostname`: reads labels until the zero byte, then drops the final dot. */
  method ReadHostname(packet: Bytes, startByte: nat) returns (r: Result<(string, nat)>)
    ensures r == ReadName(packet, startByte)
  {
    var hostname := "";
    var currentByte := startByte;
    PrependEmpty(ReadLabels(packet, startByte));
    while true
      invariant ReadLabels(packet, startByte) == Prepend(hostname, ReadLabels(packet, currentByte))
      decreases |packet| - currentByte
    {
      if currentByte >= |packet| {
        return Raise(IndexError);
      }
      ghost var at := currentByte;
      var labelLength := packet[currentByte];
      currentByte := currentByte + 1;
      if labelLength == 0 {
        break;
      }
      var raw := packet[currentByte..if currentByte + labelLength <= |packet| then currentByte + labelLength else |packet|];
      if !AsciiBytes(raw) {
        return Raise(UnicodeDecodeError);
      }
      var piece := AsciiDecode(raw);
      ghost var stop := if currentByte + labelLength <= |packet| then currentByte + labelLength else |packet|;
      currentByte := currentByte + labelLength;
      ReadLabelsStep(packet, at, labelLength, stop, raw, currentByte);
      PrependPrepend(hostname, piece + ".", ReadLabels(packet, currentByte));
      hostname := hostname + (piece + ".");
    }
    assert hostname + [] == hostname;
    r := Ok((DropLast(hostname), currentByte));
  }

  /** One non-empty ASCII label followed by more of the packet: its text and a dot come first. */
  lemma ReadLabelsStep(packet: Bytes, at: nat, length: Byte, stop: nat, raw: Bytes, next: nat)
    requires at < |packet| && length == packet[at] != 0
    requires stop == (if at + 1 + length <= |packet| then at + 1 + length else |packet|)
    requires raw == packet[at + 1..stop] && AsciiBytes(raw) && next == at + 1 + length
    ensures ReadLabels(packet, at) == Prepend(AsciiDecode(raw) + ".", ReadLabels(packet, next))
  {
  }

  /** Reading labels packed by `create_request` gives back the non-empty pieces. */
  lemma {:induction false} ReadPackedLabels(packet: Bytes, at: nat, pieces: seq<string>, packed: Bytes)
    requires PackLabels(pieces) == Ok(packed)
    requires forall i :: 0 <= i < |pieces| ==> IsAscii(pieces[i])
    requires at + |packed| < |packet| && packet[at..at + |packed| + 1] == packed + [0]
    ensures ReadLabels(packet, at) == Ok((Terminated(NonEmpty(pieces), '.'), at + |packed| + 1))
    decreases |pieces|
  {
    if pieces == [] {
      assert packet[at] == (packed + [0])[0];
    } else {
      var p := pieces[0];
      var rest := pieces[1..];
      AsciiPieces(pieces);
      if p == [] {
        ReadPackedLabels(packet, at, rest, packed);
      } else {
        PackLabelsCons(pieces, packed);
        var tail := PackLabels(rest).value;
        var next := at + 1 + |p|;
        PackedTail(packet, at, p, packed, tail);
        ReadPackedLabels(packet, next, rest, tail);
        ReadPackedCons(packet, at, p, packed, tail, next, Terminated(NonEmpty(rest), '.'));
        NonEmptyCons(pieces);
      }
    }
  }

  /** Every piece after the first is ASCII when every piece is. */
  lemma AsciiPieces(pieces: seq<string>)
    requires pieces != []
    requires forall i :: 0 <= i < |pieces| ==> IsAscii(pieces[i])
    ensures forall i :: 0 <= i < |pieces[1..]| ==> IsAscii(pieces[1..][i])
  {
    assert forall i :: 0 <= i < |pieces[1..]| ==> pieces[1..][i] == pieces[i + 1];
  }

  /** Packed labels with a non-empty first piece start with that label's bytes. */
  lemma PackLabelsCons(pieces: seq<string>, packed: Bytes)
    requires pieces != [] && pieces[0] != [] && PackLabels(pieces) == Ok(packed)
    ensures LabelFits(pieces[0]) && PackLabels(pieces[1..]).Ok?
    ensures packed == LabelBytes(pieces[0]) + PackLabels(pieces[1..]).value
  {
  }

  /** A non-empty first piece is the first label. */
  lemma NonEmptyCons(pieces: seq<string>)
    requires pieces != [] && pieces[0] != []
    ensures Terminated(NonEmpty(pieces), '.') == pieces[0] + "." + Terminated(NonEmpty(pieces[1..]), '.')
  {
    assert NonEmpty(pieces) == [pieces[0]] + NonEmpty(pieces[1..]);
    assert ([pieces[0]] + NonEmpty(pieces[1..]))[1..] == NonEmpty(pieces[1..]);
  }

  /** The first packed label, read back, goes in front of what the rest reads as. */
  lemma ReadPackedCons(packet: Bytes, at: nat, p: string, packed: Bytes, tail: Bytes, next: nat, later: string)
    requires p != [] && LabelFits(p) && IsAscii(p)
    requires packed == LabelBytes(p) + tail
    requires at + |packed| < |packet| && packet[at..at + |packed| + 1] == packed + [0]
    requires next == at + 1 + |p|
    requires ReadLabels(packet, next) == Ok((later, next + |tail| + 1))
    ensures ReadLabels(packet, at) == Ok((p + "." + later, at + |packed| + 1))
  {
    ReadHeadLabel(packet, at, p, packed, tail, next);
  }

  /** One label at the front of packed labels reads back as itself, and the rest follows it. */
  lemma ReadHeadLabel(packet: Bytes, at: nat, p: string, packed: Bytes, tail: Bytes, next: nat)
    requires p != [] && LabelFits(p) && IsAscii(p)
    requires packed == LabelBytes(p) + tail
    requires at + |packed| < |packet| && packet[at..at + |packed| + 1] == packed + [0]
    requires next == at + 1 + |p|
    ensures ReadLabels(packet, at) == Prepend(p + ".", ReadLabels(packet, next))
  {
    PackedHead(packet, at, p, packed, tail);
    PackedTail(packet, at, p, packed, tail);
    var raw := packet[at + 1..next];
    LabelReadsBack(p, raw);
    ReadLabelsStep(packet, at, packet[at], next, raw, next);
  }

  /** Where packed labels sit in a packet, the first label's length and code points lead. */
  lemma PackedHead(packet: Bytes, at: nat, p: string, packed: Bytes, tail: Bytes)
    requires LabelFits(p)
    requires packed == LabelBytes(p) + tail
    requires at + |packed| < |packet| && packet[at..at + |packed| + 1] == packed + [0]
    ensures packet[at] == |p|
    ensures forall i :: 0 <= i < |p| ==> packet[at + 1 + i] == p[i] as int
  {
    var head := LabelBytes(p);
    var w := packet[at..at + |packed| + 1];
    assert w == head + (tail + [0]);
    assert packet[at] == w[0] == head[0];
    CodePointsAt(p);
    forall i | 0 <= i < |p|
      ensures packet[at + 1 + i] == p[i] as int
    {
      assert packet[at + 1 + i] == w[1 + i] == head[1 + i] == CodePoints(p)[i];
    }
  }

  /** Where packed labels sit in a packet, the rest of them follow the first label. */
  lemma PackedTail(packet: Bytes, at: nat, p: string, packed: Bytes, tail: Bytes)
    requires LabelFits(p)
    requires packed == LabelBytes(p) + tail
    requires at + |packed| < |packet| && packet[at..at + |packed| + 1] == packed + [0]
    ensures at + 1 + |p| + |tail| < |packet| && packet[at + 1 + |p|..at + 1 + |p| + |tail| + 1] == tail + [0]
  {
    var head := LabelBytes(p);
    var w := packet[at..at + |packed| + 1];
    assert w == head + (tail + [0]);
    var next := at + 1 + |p|;
    forall i | 0 <= i <= |tail|
      ensures packet[next + i] == (tail + [0])[i]
    {
      assert packet[next + i] == w[|head| + i];
    }
  }

  /** Bytes holding the code points of an ASCII label decode back to the label. */
  lemma LabelReadsBack(p: string, b: Bytes)
    requires IsAscii(p) && |b| == |p|
    requires forall i :: 0 <= i < |p| ==> b[i] == p[i] as int
    ensures AsciiBytes(b) && AsciiDecode(b) == p
  {
    AsciiBytesAll(b);
    AsciiDecodeChars(b);
  }

  // ---------------------------------------------------------------------
  // The request.
  // ---------------------------------------------------------------------

  /** The twelve header bytes of the query: ID, flags, one question, no records. */
  function Header(id0: Byte, id1: Byte): (h: Bytes)
    ensures |h| == HeaderSize
  {
    [id0, id1] + PackBigEndian16(QueryFlags) + [0, 1, 0, 0, 0, 0, 0, 0]
  }

  /**
   * What `create_request` returns: nothing without a query code; ValueError
   * when a label does not fit a byte string; struct.error when the code or
   * the length does not fit 16 bits; otherwise the length prefix, then the
   * header, the name, its zero byte, QTYPE and QCLASS.
   */
  function Request(hostname: string, code: Option<int>, id0: Byte, id1: Byte): (r: Result<Option<Bytes>>)
    ensures r == Ok(None) <==> code.None?
    ensures code.Some? ==> (r == Raise(ValueError) <==> !AllFit(Split(hostname, '.')))
  {
    if code.None? then Ok(None)
    else
      match PackLabels(Split(hostname, '.'))
      case Raise(e) => Raise(e)
      case Ok(name) =>
        if !(0 <= code.value < 65536) then Raise(StructError)
        else
          var body := Header(id0, id1) + name + [0] + PackNative16(code.value) + PackNative16(ClassIn);
          if |body| >= 65536 then Raise(StructError)
          else Ok(Some(PackBigEndian16(|body|) + body))
  }

  lemma ThenThen(a: Bytes, b: Bytes, r: Result<Bytes>)
    ensures Then(a, Then(b, r)) == Then(a + b, r)
  {
    if r.Ok? {
      assert a + (b + r.value) == a + b + r.value;
    }
  }

  /** `create_request`: header, then the label loop, then QTYPE/QCLASS and the length prefix. */
  method CreateRequest(hostname: string, code: Option<int>, id0: Byte, id1: Byte) returns (r: Result<Option<Bytes>>)
    requires id0 < 128 && id1 < 128
    ensures r == Request(hostname, code, id0, id1)
  {
    if code.None? {
      return Ok(None);
    }
    var header: Bytes := [id0, id1];
    header := header + PackBigEndian16(QueryFlags);
    header := header + [0, 1, 0, 0, 0, 0, 0, 0];
    var labels := Split(hostname, '.');
    var k := 0;
    ghost var todo := labels;
    while k < |labels|
      invariant 0 <= k <= |labels| && todo == labels[k..]
      invariant Then(header, PackLabels(todo)) == Then(Header(id0, id1), PackLabels(labels))
    {
      var piece := labels[k];
      assert todo[0] == piece;
      if |piece| == 0 {
        todo := todo[1..];
        k := k + 1;
        continue;
      }
      if !LabelFits(piece) {
        return Raise(ValueError);
      }
      ThenThen(header, LabelBytes(piece), PackLabels(todo[1..]));
      header := header + LabelBytes(piece);
      todo := todo[1..];
      k := k + 1;
    }
    assert todo == [] && header + [] == header;
    ghost var name := PackLabels(labels).value;
    assert header == Header(id0, id1) + name;
    header := header + [0];
    if !(0 <= code.value < 65536) {
      return Raise(StructError);
    }
    header := header + PackNative16(code.value) + PackNative16(ClassIn);
    if |header| >= 65536 {
      return Raise(StructError);
    }
    r := Ok(Some(PackBigEndian16(|header|) + header));
  }

  /**
   * A request starts with the big-endian length of the rest, then the ID
   * (each byte below 128), the query flags and the counts of one question
   * and no records, and ends with QTYPE = `code` and QCLASS = IN.
   */
  lemma RequestLayout(hostname: string, code: Option<int>, id0: Byte, id1: Byte)
    requires id0 < 128 && id1 < 128
    requires Request(hostname, code, id0, id1).Ok? && Request(hostname, code, id0, id1).value.Some?
    ensures var r := Request(hostname, code, id0, id1).value.value;
      && |r| >= 2 + HeaderSize + 5
      && Word(r, 0) == |r| - 2
      && r[2] < 128 && r[3] < 128
      && Word(r, 4) == QueryFlags
      && Word(r, 6) == 1 && Word(r, 8) == 0 && Word(r, 10) == 0 && Word(r, 12) == 0
      && r[|r| - 4] as int + 256 * (r[|r| - 3] as int) == code.value
      && r[|r| - 2] as int + 256 * (r[|r| - 1] as int) == ClassIn
  {
    var r := Request(hostname, code, id0, id1).value.value;
    var name := PackLabels(Split(hostname, '.')).value;
    var body := Header(id0, id1) + name + [0] + PackNative16(code.value) + PackNative16(ClassIn);
    var size := PackBigEndian16(|body|);
    assert r == size + body;
    WordAt(size, 0);
    WordAt(r, 0);
    var h := Header(id0, id1);
    assert h == [id0, id1, 4, 0, 0, 1, 0, 0, 0, 0, 0, 0];
    assert forall k :: 0 <= k < HeaderSize ==> r[2 + k] == h[k];
    WordAt(r, 4);
    WordAt(r, 6);
    WordAt(r, 8);
    WordAt(r, 10);
    WordAt(r, 12);
  }

  /**
   * Reading the question name back out of a request (past the length
   * prefix, at the end of the header) gives the host name's labels joined
   * by dots and the offset of QTYPE; for a well-formed name that is the
   * name itself.
   */
  lemma RequestNameRoundTrip(hostname: string, code: Option<int>, id0: Byte, id1: Byte)
    requires IsAscii(hostname)
    requires Request(hostname, code, id0, id1).Ok? && Request(hostname, code, id0, id1).value.Some?
    ensures var r := Request(hostname, code, id0, id1).value.value;
      ReadName(r[2..], HeaderSize) == Ok((Join(Labels(hostname), '.'), |r| - 6))
    ensures WellFormedName(hostname) ==> Join(Labels(hostname), '.') == hostname
  {
    var r := Request(hostname, code, id0, id1).value.value;
    var pieces := Split(hostname, '.');
    var packed := PackLabels(pieces).value;
    var packet := r[2..];
    assert packet == Header(id0, id1) + packed + [0] + PackNative16(code.value) + PackNative16(ClassIn);
    forall i | 0 <= i < |pieces|
      ensures IsAscii(pieces[i])
    {
      PiecesAscii(hostname, i);
    }
    assert packet[HeaderSize..HeaderSize + |packed| + 1] == packed + [0];
    ReadPackedLabels(packet, HeaderSize, pieces, packed);
    DropLastTerminated(NonEmpty(pieces), '.');
    if WellFormedName(hostname) {
      WellFormedNameLabels(hostname);
    }
  }

  /** The pieces of an ASCII string are ASCII. */
  lemma PiecesAscii(s: string, i: nat)
    requires IsAscii(s) && i < |Split(s, '.')|
    ensures IsAscii(Split(s, '.')[i])
  {
    var pieces := Split(s, '.');
    forall k | 0 <= k < |pieces[i]|
      ensures pieces[i][k] as int < 128
    {
      JoinHoldsPieces(pieces, '.', i, k);
    }
  }

  /** Every character of a piece occurs in the join. */
  lemma {:induction false} JoinHoldsPieces(pieces: seq<string>, sep: char, i: nat, k: nat)
    requires i < |pieces| && k < |pieces[i]|
    ensures pieces[i][k] in Join(pieces, sep)
  {
    if i > 0 {
      JoinHoldsPieces(pieces[1..], sep, i - 1, k);
      assert pieces[1..][i - 1] == pieces[i];
    } else if |pieces| > 1 {
      var j := Join(pieces, sep);
      assert j[k] == pieces[0][k];
    }
  }

  // ---------------------------------------------------------------------
  // Reading a response.
  // ---------------------------------------------------------------------

  /** The last `n` lower-case hexadecimal digits of `v`, most significant first. */
  function HexDigits(v: nat, n: nat): (s: string)
    ensures |s| == n
  {
    if n == 0 then [] else HexDigits(v / 16, n - 1) + [DigitChar(v % 16)]
  }

  /** The lower-case four-digit hexadecimal text of a 16-bit value, `f'{v:04x}'`. */
  function Hex4(v: nat): (s: string)
    requires v < 65536
    ensures |s| == 4
  {
    HexDigits(v, 4)
  }

  /** The value of one lower-case hexadecimal digit. */
  function HexDigitValue(c: char): nat {
    if '0' <= c <= '9' then c as int - '0' as int
    else if 'a' <= c <= 'f' then c as int - 'a' as int + 10
    else 0
  }

  /** The value of a string of hexadecimal digits, as `int(s, 16)`. */
  function HexValue(s: string): nat {
    if s == [] then 0 else HexValue(s[..|s| - 1]) * 16 + HexDigitValue(s[|s| - 1])
  }

  /** Hexadecimal text holds only digits and lower-case letters. */
  lemma {:induction false} HexDigitsChars(v: nat, n: nat)
    ensures forall i :: 0 <= i < n ==> '0' <= HexDigits(v, n)[i] <= '9' || 'a' <= HexDigits(v, n)[i] <= 'f'
  {
    if n > 0 {
      HexDigitsChars(v / 16, n - 1);
      var s := HexDigits(v, n);
      assert forall i :: 0 <= i < n - 1 ==> s[i] == HexDigits(v / 16, n - 1)[i];
    }
  }

  lemma Hex4Digits(v: nat)
    requires v < 65536
    ensures forall i :: 0 <= i < 4 ==> '0' <= Hex4(v)[i] <= '9' || 'a' <= Hex4(v)[i] <= 'f'
    ensures ':' !in Hex4(v)
  {
    HexDigitsChars(v, 4);
  }

  /** A digit's value is the number it was written for. */
  lemma DigitRoundTrip(d: nat)
    requires d < 16
    ensures HexDigitValue(DigitChar(d)) == d
  {
  }

  function Pow16(n: nat): (p: nat)
    ensures p >= 1
  {
    if n == 0 then 1 else 16 * Pow16(n - 1)
  }

  /** `n` hexadecimal digits read back as the number written, when it fits. */
  lemma {:induction false} HexDigitsRoundTrip(v: nat, n: nat)
    requires v < Pow16(n)
    ensures HexValue(HexDigits(v, n)) == v
  {
    if n > 0 {
      var s := HexDigits(v, n);
      var high := v / 16;
      assert v == 16 * high + v % 16;
      assert 16 * high <= v < 16 * Pow16(n - 1);
      HexDigitsRoundTrip(high, n - 1);
      assert s[..|s| - 1] == HexDigits(high, n - 1);
      DigitRoundTrip(v % 16);
    }
  }

  /** `int(f'{v:04x}', 16) == v`. */
  lemma Hex4RoundTrip(v: nat)
    requires v < 65536
    ensures HexValue(Hex4(v)) == v
  {
    assert Pow16(4) == 65536;
    HexDigitsRoundTrip(v, 4);
  }

  /** The decimal text of each of the first `n` bytes, as `str(resource_data[i])`. */
  function DecimalFields(d: Bytes, n: nat): (fields: seq<string>)
    requires n <= |d|
    ensures |fields| == n
  {
    if n == 0 then [] else DecimalFields(d, n - 1) + [NatToString(d[n - 1])]
  }

  lemma {:induction false} DecimalFieldsAt(d: Bytes, n: nat)
    requires n <= |d|
    ensures forall i :: 0 <= i < n ==> DecimalFields(d, n)[i] == NatToString(d[i])
  {
    if n > 0 {
      DecimalFieldsAt(d, n - 1);
    }
  }

  /** Bytes `2i` and `2i + 1` of the data (fewer when it is short), as a big-endian number. */
  function Segment(d: Bytes, i: nat): (v: nat)
    ensures v < 65536
  {
    Word(d, 2 * i)
  }

  /** The first `n` hexadecimal groups of an IPv6 address, two bytes each. */
  function HexGroups(d: Bytes, n: nat): (fields: seq<string>)
    ensures |fields| == n
  {
    if n == 0 then [] else HexGroups(d, n - 1) + [Hex4(Segment(d, n - 1))]
  }

  lemma {:induction false} HexGroupsAt(d: Bytes, n: nat)
    ensures forall i :: 0 <= i < n ==> HexGroups(d, n)[i] == Hex4(Segment(d, i))
  {
    if n > 0 {
      HexGroupsAt(d, n - 1);
    }
  }

  /** A reported record: its type and the address or name its data holds. */
  datatype Record = Record(qtype: QType, text: string)

  /**
   * `read_record_data`: an A record's first four bytes in dotted decimal
   * (IndexError when there are fewer), an AAAA record's eight groups, or the
   * name a CNAME or NS record points to, read from the packet at the data.
   */
  function RecordText(packet: Bytes, data: Bytes, qtype: QType, start: nat): Result<string> {
    match qtype
    case Ipv4 => if |data| < 4 then Raise(IndexError) else Ok(Join(DecimalFields(data, 4), '.'))
    case Ipv6 => Ok(Join(HexGroups(data, 8), ':'))
    case _ =>
      match ReadName(packet, start)
      case Raise(e) => Raise(e)
      case Ok(got) => Ok(got.0)
  }

  /** An IPv4 text splits back into the four bytes' decimal values. */
  lemma Ipv4TextFields(d: Bytes)
    requires |d| >= 4
    ensures |Split(Join(DecimalFields(d, 4), '.'), '.')| == 4
    ensures forall i :: 0 <= i < 4 ==> DecimalValue(Split(Join(DecimalFields(d, 4), '.'), '.')[i]) == d[i]
  {
    var fields := DecimalFields(d, 4);
    DecimalFieldsAt(d, 4);
    forall i | 0 <= i < 4
      ensures '.' !in fields[i] && DecimalValue(fields[i]) == d[i]
    {
      NatToStringRoundTrip(d[i]);
      NatToStringDigits(d[i]);
    }
    SplitJoin(fields, '.');
  }

  /** An IPv6 text splits back into eight groups holding the data's 16-bit values. */
  lemma Ipv6TextFields(d: Bytes)
    ensures |Split(Join(HexGroups(d, 8), ':'), ':')| == 8
    ensures forall i :: 0 <= i < 8 ==> HexValue(Split(Join(HexGroups(d, 8), ':'), ':')[i]) == Segment(d, i)
  {
    var fields := HexGroups(d, 8);
    HexGroupsAt(d, 8);
    forall i | 0 <= i < 8
      ensures ':' !in fields[i] && HexValue(fields[i]) == Segment(d, i)
    {
      Hex4RoundTrip(Segment(d, i));
      Hex4Digits(Segment(d, i));
    }
    SplitJoin(fields, ':');
  }

  /**
   * One resource record at `at`: owner name, then TYPE (KeyError when
   * unknown), CLASS and TTL, RDLENGTH, and the data; the cursor ends just
   * past the data.
   */
  function ReadRecord(packet: Bytes, at: nat): Result<(Record, nat)> {
    match ReadName(packet, at)
    case Raise(e) => Raise(e)
    case Ok(owner) => RecordFields(packet, owner.1)
  }

  /** The part of a resource record after its owner name, which ends at `c`. */
  function RecordFields(packet: Bytes, c: nat): Result<(Record, nat)> {
    match QTypeOf(Word(packet, c))
    case Raise(e) => Raise(e)
    case Ok(qtype) =>
      var length := Word(packet, c + 8);
      var start := c + 10;
      match RecordText(packet, Slice(packet, start, start + length), qtype, start)
      case Raise(e) => Raise(e)
      case Ok(text) => Ok((Record(qtype, text), start + length))
  }

  /**
   * After the owner name at `c`, a record's type is the one TYPE names (a
   * TYPE the table does not list raises KeyError), and the cursor moves past
   * ten bytes of TYPE, CLASS, TTL and RDLENGTH and RDLENGTH bytes of data.
   */
  lemma RecordCursor(packet: Bytes, c: nat)
    ensures QTypeOf(Word(packet, c)).Raise? ==> RecordFields(packet, c) == Raise(KeyError)
    ensures RecordFields(packet, c).Ok? ==>
      && QTypeCode(RecordFields(packet, c).value.0.qtype) == Word(packet, c)
      && RecordFields(packet, c).value.1 == c + 10 + Word(packet, c + 8)
  {
    QTypeTable(Word(packet, c));
  }

  /** The first `count` records from `at`, and the cursor after them. */
  function ReadRecords(packet: Bytes, at: nat, count: nat): Result<(seq<Record>, nat)>
    decreases count
  {
    if count == 0 then Ok(([], at))
    else
      match ReadRecord(packet, at)
      case Raise(e) => Raise(e)
      case Ok(one) => PrependRecords([one.0], ReadRecords(packet, one.1, count - 1))
  }

  /** Prefixes the records of a successful reading. */
  function PrependRecords(records: seq<Record>, r: Result<(seq<Record>, nat)>): Result<(seq<Record>, nat)> {
    match r
    case Raise(e) => Raise(e)
    case Ok(got) => Ok((records + got.0, got.1))
  }

  lemma PrependNoRecords(r: Result<(seq<Record>, nat)>)
    ensures PrependRecords([], r) == r
  {
    if r.Ok? {
      assert [] + r.value.0 == r.value.0;
    }
  }

  lemma PrependRecordsTwice(a: seq<Record>, b: seq<Record>, r: Result<(seq<Record>, nat)>)
    ensures PrependRecords(a, PrependRecords(b, r)) == PrependRecords(a + b, r)
  {
    if r.Ok? {
      assert a + (b + r.value.0) == a + b + r.value.0;
    }
  }

  /** One more record read by the loop of `process_response` moves from the unread part to the prefix. */
  lemma ReadRecordsAdvance(total: Result<(seq<Record>, nat)>, records: seq<Record>, packet: Bytes, at: nat,
                           remaining: nat, left: nat, one: (Record, nat))
    requires remaining == left + 1 && ReadRecord(packet, at) == Ok(one)
    requires total == PrependRecords(records, ReadRecords(packet, at, remaining))
    ensures total == PrependRecords(records + [one.0], ReadRecords(packet, one.1, left))
  {
    ReadRecordsUnfold(packet, at, left, one);
    PrependRecordsTwice(records, [one.0], ReadRecords(packet, one.1, left));
  }

  /** Reading `left + 1` records is reading the first one, then `left` more from where it ends. */
  lemma ReadRecordsUnfold(packet: Bytes, at: nat, left: nat, one: (Record, nat))
    requires ReadRecord(packet, at) == Ok(one)
    ensures ReadRecords(packet, at, left + 1) == PrependRecords([one.0], ReadRecords(packet, one.1, left))
  {
  }

  /** A record that cannot be read ends the whole reading with its error. */
  lemma ReadRecordsStops(total: Result<(seq<Record>, nat)>, records: seq<Record>, packet: Bytes, at: nat, remaining: nat, e: Exception)
    requires remaining > 0 && ReadRecord(packet, at) == Raise(e)
    requires total == PrependRecords(records, ReadRecords(packet, at, remaining))
    ensures total == Raise(e)
  {
  }

  /** Past the first `count` questions from `at`: each a name, then QTYPE and QCLASS. */
  function SkipQuestions(packet: Bytes, at: nat, count: nat): Result<nat>
    decreases count
  {
    if count == 0 then Ok(at)
    else
      match ReadName(packet, at)
      case Raise(e) => Raise(e)
      case Ok(q) => SkipQuestions(packet, q.1 + 4, count - 1)
  }

  /** The texts of the address records, in order. */
  function AddressesOf(records: seq<Record>): seq<string> {
    if records == [] then []
    else
      var last := records[|records| - 1];
      AddressesOf(records[..|records| - 1]) + (if IsAddressType(last.qtype) then [last.text] else [])
  }

  /** The texts of the name records (CNAME and NS), in order. */
  function NamesOf(records: seq<Record>): seq<string> {
    if records == [] then []
    else
      var last := records[|records| - 1];
      NamesOf(records[..|records| - 1]) + (if !IsAddressType(last.qtype) then [last.text] else [])
  }

  /** One more record adds its text to the addresses or to the names, by its type. */
  lemma TextsSnoc(records: seq<Record>, record: Record)
    ensures AddressesOf(records + [record]) == AddressesOf(records) + (if IsAddressType(record.qtype) then [record.text] else [])
    ensures NamesOf(records + [record]) == NamesOf(records) + (if !IsAddressType(record.qtype) then [record.text] else [])
  {
    assert (records + [record])[..|records|] == records;
  }

  predicate HasAddress(records: seq<Record>) {
    exists i :: 0 <= i < |records| && IsAddressType(records[i].qtype)
  }

  predicate HasCName(records: seq<Record>) {
    exists i :: 0 <= i < |records| && records[i].qtype == CName
  }

  /** What `process_response` reports. */
  datatype Response =
    | Malformed
    | ErrorReply
    | Address(addresses: seq<string>)
    | NextName(name: string)
    | NextServer(names: seq<string>, addresses: seq<string>)

  /**
   * The kind of answer: the answer addresses if there is one; otherwise the
   * last answer name if there is a CNAME; otherwise the names and addresses
   * of the authority and additional sections.
   */
  function Classify(answers: seq<Record>, servers: seq<Record>): (r: Response)
    ensures r.Address? <==> AddressesOf(answers) != []
    ensures r.Address? ==> r.addresses == AddressesOf(answers)
    ensures r.NextName? <==> AddressesOf(answers) == [] && HasCName(answers)
    ensures r.NextName? ==> NamesOf(answers) != [] && r.name == NamesOf(answers)[|NamesOf(answers)| - 1]
    ensures r.NextServer? ==> r.names == NamesOf(servers) && r.addresses == AddressesOf(servers)
  {
    AddressesFound(answers);
    NamesFound(answers);
    if HasAddress(answers) then Address(AddressesOf(answers))
    else if HasCName(answers) then
      var names := NamesOf(answers);
      NextName(names[|names| - 1])
    else NextServer(NamesOf(servers), AddressesOf(servers))
  }

  /** There are address texts exactly when there is an address record. */
  lemma {:induction false} AddressesFound(records: seq<Record>)
    ensures AddressesOf(records) != [] <==> HasAddress(records)
  {
    if records != [] {
      var init := records[..|records| - 1];
      AddressesFound(init);
      if HasAddress(init) {
        var i :| 0 <= i < |init| && IsAddressType(init[i].qtype);
        assert records[i] == init[i];
      }
      if HasAddress(records) && !IsAddressType(records[|records| - 1].qtype) {
        var i :| 0 <= i < |records| && IsAddressType(records[i].qtype);
        assert init[i] == records[i];
      }
    }
  }

  /** A CNAME record leaves a name text. */
  lemma {:induction false} NamesFound(records: seq<Record>)
    ensures HasCName(records) ==> NamesOf(records) != []
  {
    if records != [] {
      var init := records[..|records| - 1];
      NamesFound(init);
      if HasCName(records) && records[|records| - 1].qtype != CName {
        var i :| 0 <= i < |records| && records[i].qtype == CName;
        assert init[i] == records[i];
      }
    }
  }

  /**
   * `process_response`: 'malformed' unless the response bit is set, then
   * 'error' for a non-zero RCODE, then the questions are skipped and the
   * records read and classified. Reading past the end, an unknown record
   * type, or a name that does not decode raise.
   */
  function ProcessResponse(packet: Bytes): (r: Result<Response>)
    ensures |packet| >= 3 ==> (r == Ok(Malformed) <==> packet[2] < 128)
    ensures |packet| >= 4 && packet[2] >= 128 ==> (r == Ok(ErrorReply) <==> packet[3] % 16 != 0)
    ensures |packet| < 3 ==> r == Raise(IndexError)
  {
    if |packet| < 3 then Raise(IndexError)
    else if packet[2] / 128 != 1 then Ok(Malformed)
    else if |packet| < 4 then Raise(IndexError)
    else if packet[3] % 16 != 0 then Ok(ErrorReply)
    else
      var questions := Word(packet, 4);
      var answers := Word(packet, 6);
      var authorities := Word(packet, 8);
      var additionals := Word(packet, 10);
      Sections(packet, questions, answers, authorities + additionals)
  }

  /** Past the header: the questions skipped, then the answer records, then the server records, classified. */
  function Sections(packet: Bytes, questions: nat, answers: nat, servers: nat): Result<Response> {
    match SkipQuestions(packet, HeaderSize, questions)
    case Raise(e) => Raise(e)
    case Ok(c1) =>
      match ReadRecords(packet, c1, answers)
      case Raise(e) => Raise(e)
      case Ok(got) =>
        match ReadRecords(packet, got.1, servers)
        case Raise(e) => Raise(e)
        case Ok(more) => Ok(Classify(got.0, more.0))
  }

  /** A request is a query, so read as a response it is malformed. */
  lemma RequestIsNotAResponse(hostname: string, code: Option<int>, id0: Byte, id1: Byte)
    requires id0 < 128 && id1 < 128
    requires Request(hostname, code, id0, id1).Ok? && Request(hostname, code, id0, id1).value.Some?
    ensures ProcessResponse(Request(hostname, code, id0, id1).value.value[2..]) == Ok(Malformed)
  {
    RequestLayout(hostname, code, id0, id1);
    var r := Request(hostname, code, id0, id1).value.value;
    assert r[4..6] == PackBigEndian16(QueryFlags);
  }

  // ---------------------------------------------------------------------
  // The reading loops.
  // ---------------------------------------------------------------------

  /** `read_record_data`: the loops that build an address text, or a name read from the packet. */
  method ReadRecordData(resourceData: Bytes, qtype: QType, packet: Bytes, currentByte: nat) returns (r: Result<string>)
    ensures r == RecordText(packet, resourceData, qtype, currentByte)
  {
    match qtype {
      case Ipv4 =>
        var address := "";
        var i := 0;
        while i < 4
          invariant 0 <= i <= 4 && i <= |resourceData|
          invariant address == Terminated(DecimalFields(resourceData, i), '.')
        {
          if i >= |resourceData| {
            return Raise(IndexError);
          }
          TerminatedSnoc(DecimalFields(resourceData, i), NatToString(resourceData[i]), '.');
          address := address + NatToString(resourceData[i]) + ".";
          i := i + 1;
        }
        DropLastTerminated(DecimalFields(resourceData, 4), '.');
        r := Ok(DropLast(address));
      case Ipv6 =>
        var address := "";
        var i := 0;
        while i < 8
          invariant 0 <= i <= 8
          invariant address == Terminated(HexGroups(resourceData, i), ':')
        {
          var segment := Word(resourceData, 2 * i);
          assert segment == Segment(resourceData, i);
          TerminatedSnoc(HexGroups(resourceData, i), Hex4(segment), ':');
          address := address + Hex4(segment) + ":";
          i := i + 1;
        }
        DropLastTerminated(HexGroups(resourceData, 8), ':');
        r := Ok(DropLast(address));
      case _ =>
        var got := ReadHostname(packet, currentByte);
        match got {
          case Raise(e) => r := Raise(e);
          case Ok(name) => r := Ok(name.0);
        }
    }
  }

  /** The body of the record loops of `process_response`: one record and the cursor after it. */
  method ReadResource(packet: Bytes, currentByte: nat) returns (r: Result<(Record, nat)>)
    ensures r == ReadRecord(packet, currentByte)
  {
    var owner := ReadHostname(packet, currentByte);
    if owner.Raise? {
      return Raise(owner.error);
    }
    var c := owner.value.1;
    assert ReadRecord(packet, currentByte) == RecordFields(packet, c);
    var qtype := QTypeOf(Word(packet, c));
    if qtype.Raise? {
      return Raise(qtype.error);
    }
    ghost var typeAt := c;
    c := c + 8;
    var resourceLength := Word(packet, c);
    c := c + 2;
    var resourceData := Slice(packet, c, c + resourceLength);
    var text := ReadRecordData(resourceData, qtype.value, packet, c);
    RecordFieldsText(packet, typeAt, qtype.value, resourceLength, c, resourceData, text);
    if text.Raise? {
      return Raise(text.error);
    }
    r := Ok((Record(qtype.value, text.value), c + resourceLength));
  }

  /** A known type and the text its data gives make up the record. */
  lemma RecordFieldsText(packet: Bytes, c: nat, qtype: QType, length: nat, start: nat, data: Bytes, text: Result<string>)
    requires QTypeOf(Word(packet, c)) == Ok(qtype)
    requires length == Word(packet, c + 8) && start == c + 10
    requires data == Slice(packet, start, start + length) && text == RecordText(packet, data, qtype, start)
    ensures RecordFields(packet, c) == match text
      case Raise(e) => Raise(e)
      case Ok(t) => Ok((Record(qtype, t), start + length))
  {
  }

  /** The question loop of `process_response`. */
  method SkipQuestionRecords(packet: Bytes, count: nat) returns (r: Result<nat>)
    ensures r == SkipQuestions(packet, HeaderSize, count)
  {
    var currentByte: nat := HeaderSize;
    var remaining := count;
    while remaining > 0
      invariant SkipQuestions(packet, HeaderSize, count) == SkipQuestions(packet, currentByte, remaining)
    {
      var q := ReadHostname(packet, currentByte);
      if q.Raise? {
        return Raise(q.error);
      }
      currentByte := q.value.1 + 4;
      remaining := remaining - 1;
    }
    r := Ok(currentByte);
  }

  /**
   * A record loop of `process_response`: the names and addresses gathered,
   * whether an address or a CNAME was seen, and the cursor after the records.
   */
  method ReadResources(packet: Bytes, start: nat, count: nat)
    returns (r: Result<(seq<string>, seq<string>, bool, bool, nat)>, ghost records: seq<Record>)
    ensures r.Raise? <==> ReadRecords(packet, start, count).Raise?
    ensures r.Raise? ==> r.error == ReadRecords(packet, start, count).error
    ensures r.Ok? ==>
      && ReadRecords(packet, start, count) == Ok((records, r.value.4))
      && r.value.0 == NamesOf(records) && r.value.1 == AddressesOf(records)
      && (r.value.2 <==> HasAddress(records)) && (r.value.3 <==> HasCName(records))
  {
    var names: seq<string> := [];
    var addresses: seq<string> := [];
    var foundAddress := false;
    var foundCName := false;
    var currentByte := start;
    records := [];
    var remaining := count;
    ghost var total := ReadRecords(packet, start, count);
    PrependNoRecords(total);
    while remaining > 0
      invariant total == PrependRecords(records, ReadRecords(packet, currentByte, remaining))
      invariant names == NamesOf(records) && addresses == AddressesOf(records)
      invariant (foundAddress <==> HasAddress(records)) && (foundCName <==> HasCName(records))
    {
      var one := ReadResource(packet, currentByte);
      if one.Raise? {
        ReadRecordsStops(total, records, packet, currentByte, remaining, one.error);
        return Raise(one.error), records;
      }
      var record := one.value.0;
      names, addresses, foundAddress, foundCName := TakeRecord(names, addresses, foundAddress, foundCName, records, record);
      ghost var unread := remaining;
      remaining := remaining - 1;
      ReadRecordsAdvance(total, records, packet, currentByte, unread, remaining, one.value);
      records := records + [record];
      currentByte := one.value.1;
    }
    assert records + [] == records;
    r := Ok((names, addresses, foundAddress, foundCName, currentByte));
  }

  /** One step of a record loop of `process_response`: file the record's text under names or addresses and note its type. */
  method TakeRecord(names: seq<string>, addresses: seq<string>, foundAddress: bool, foundCName: bool,
                    ghost records: seq<Record>, record: Record)
    returns (names': seq<string>, addresses': seq<string>, foundAddress': bool, foundCName': bool)
    requires names == NamesOf(records) && addresses == AddressesOf(records)
    requires (foundAddress <==> HasAddress(records)) && (foundCName <==> HasCName(records))
    ensures names' == NamesOf(records + [record]) && addresses' == AddressesOf(records + [record])
    ensures (foundAddress' <==> HasAddress(records + [record])) && (foundCName' <==> HasCName(records + [record]))
  {
    names', addresses', foundAddress', foundCName' := names, addresses, foundAddress, foundCName;
    if IsAddressType(record.qtype) {
      foundAddress' := true;
      addresses' := addresses + [record.text];
    } else {
      if record.qtype == CName {
        foundCName' := true;
      }
      names' := names + [record.text];
    }
    var all := records + [record];
    assert all[..|all| - 1] == records;
    HasAfterSnoc(records, record);
    TextsSnoc(records, record);
  }

  /** Seeing one more record. */
  lemma HasAfterSnoc(records: seq<Record>, record: Record)
    ensures HasAddress(records + [record]) <==> HasAddress(records) || IsAddressType(record.qtype)
    ensures HasCName(records + [record]) <==> HasCName(records) || record.qtype == CName
  {
    var all := records + [record];
    assert all[|records|] == record;
    if HasAddress(all) && !IsAddressType(record.qtype) {
      var i :| 0 <= i < |all| && IsAddressType(all[i].qtype);
      assert records[i] == all[i];
    }
    if HasCName(all) && record.qtype != CName {
      var i :| 0 <= i < |all| && all[i].qtype == CName;
      assert records[i] == all[i];
    }
    if HasAddress(records) {
      var i :| 0 <= i < |records| && IsAddressType(records[i].qtype);
      assert all[i] == records[i];
    }
    if HasCName(records) {
      var i :| 0 <= i < |records| && records[i].qtype == CName;
      assert all[i] == records[i];
    }
  }

  /** Past a header that says a successful response, `process_response` is the reading of its sections. */
  lemma ResponseSections(packet: Bytes, questions: nat, answers: nat, authorities: nat, additionals: nat, servers: nat)
    requires |packet| >= 4 && packet[2] / 128 == 1 && packet[3] % 16 == 0
    requires questions == Word(packet, 4) && answers == Word(packet, 6)
    requires authorities == Word(packet, 8) && additionals == Word(packet, 10) && servers == authorities + additionals
    ensures ProcessResponse(packet) == Sections(packet, questions, answers, servers)
  {
  }

  /** Each way the reading of the sections can end. */
  lemma SectionsOutcome(packet: Bytes, questions: nat, answers: nat, servers: nat, c1: Result<nat>,
                        got: Result<(seq<Record>, nat)>, more: Result<(seq<Record>, nat)>)
    requires c1 == SkipQuestions(packet, HeaderSize, questions)
    requires c1.Ok? ==> got == ReadRecords(packet, c1.value, answers)
    requires c1.Ok? && got.Ok? ==> more == ReadRecords(packet, got.value.1, servers)
    ensures c1.Raise? ==> Sections(packet, questions, answers, servers) == Raise(c1.error)
    ensures c1.Ok? && got.Raise? ==> Sections(packet, questions, answers, servers) == Raise(got.error)
    ensures c1.Ok? && got.Ok? && more.Raise? ==> Sections(packet, questions, answers, servers) == Raise(more.error)
    ensures c1.Ok? && got.Ok? && more.Ok? ==>
      Sections(packet, questions, answers, servers) == Ok(Classify(got.value.0, more.value.0))
  {
  }

  /** `process_response`, step by step. */
  method ProcessResponseBytes(packet: Bytes) returns (r: Result<Response>)
    ensures r == ProcessResponse(packet)
  {
    if |packet| < 3 {
      return Raise(IndexError);
    }
    var responseMode := packet[2] / 128;
    if responseMode != 1 {
      return Ok(Malformed);
    }
    if |packet| < 4 {
      return Raise(IndexError);
    }
    var replyCode := packet[3] % 16;
    if replyCode != 0 {
      return Ok(ErrorReply);
    }
    var questionCount := Word(packet, 4);
    var answerCount := Word(packet, 6);
    var authorityCount := Word(packet, 8);
    var additionalCount := Word(packet, 10);
    var serverCount := authorityCount + additionalCount;
    ResponseSections(packet, questionCount, answerCount, authorityCount, additionalCount, serverCount);
    r := ReadSections(packet, questionCount, answerCount, serverCount);
  }

  /** The part of `process_response` after the header: the three loops and the classification. */
  method ReadSections(packet: Bytes, questions: nat, answers: nat, servers: nat) returns (r: Result<Response>)
    ensures r == Sections(packet, questions, answers, servers)
  {
    var afterQuestions := SkipQuestionRecords(packet, questions);
    if afterQuestions.Raise? {
      SectionsOutcome(packet, questions, answers, servers, afterQuestions, Raise(IndexError), Raise(IndexError));
      return Raise(afterQuestions.error);
    }
    var answerPart, answerRecords := ReadResources(packet, afterQuestions.value, answers);
    ghost var got := ReadRecords(packet, afterQuestions.value, answers);
    if answerPart.Raise? {
      SectionsOutcome(packet, questions, answers, servers, afterQuestions, got, Raise(IndexError));
      return Raise(answerPart.error);
    }
    var serverPart, serverRecords := ReadResources(packet, answerPart.value.4, servers);
    ghost var more := ReadRecords(packet, answerPart.value.4, servers);
    SectionsOutcome(packet, questions, answers, servers, afterQuestions, got, more);
    if serverPart.Raise? {
      return Raise(serverPart.error);
    }
    var answerNames, answerAddresses, foundAddress, foundCName := answerPart.value.0, answerPart.value.1, answerPart.value.2, answerPart.value.3;
    AddressesFound(answerRecords);
    NamesFound(answerRecords);
    if foundAddress {
      r := Ok(Address(answerAddresses));
    } else if foundCName {
      r := Ok(NextName(answerNames[|answerNames| - 1]));
    } else {
      r := Ok(NextServer(serverPart.value.0, serverPart.value.1));
    }
  }
}
