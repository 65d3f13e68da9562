/**
 * The bit-stuffed framing of hw1/sendrecv.py. A message travels as one
 * frame: a 4-byte little-endian CRC-32 of the message, then the message,
 * turned into bits least-significant first, with an extra 1 stuffed after
 * every 0,1 pair, and closed by the separator 0,1,0. The receiver collects
 * bits until the last three are the separator, undoes the stuffing,
 * and delivers the message when the checksum matches.
 *
 * `crc` stands for zlib's crc32: any function to 32-bit values.
 */
module Framing {
  import opened Common

  /** `SEPARATOR_BITS`. */
  const SeparatorBits: seq<Bit> := [0, 1, 0]

  /** `CHECKSUM_SIZE_BYTES`. */
  const ChecksumSizeBytes := 4

  /** An unsigned 32-bit value, as `crc32` returns and `struct` packs with `'<L'`. */
  type U32 = x: int | 0 <= x < 0x1_0000_0000

  function Pow2(i: nat): (p: nat)
    ensures p >= 1
  {
    if i == 0 then 1 else 2 * Pow2(i - 1)
  }

  // ---------------------------------------------------------------------
  // Bytes and bits.
  // ---------------------------------------------------------------------

  /** Bit `i` of `x`: whether `x & (1 << i)` is non-zero. */
  function BitOf(x: Byte, i: nat): Bit {
    (x / Pow2(i)) % 2
  }

  /** The eight bits of a byte, least significant first. */
  function ByteBits(x: Byte): (bits: seq<Bit>)
    ensures |bits| == 8
  {
    seq(8, i requires 0 <= i < 8 => BitOf(x, i))
  }

  /** The bits of a byte string: eight per byte, in byte order. */
  function Bits(b: Bytes): (bits: seq<Bit>)
    ensures |bits| == 8 * |b|
  {
    if b == [] then [] else Bits(b[..|b| - 1]) + ByteBits(b[|b| - 1])
  }

  /** The sum of the first `j` bits weighted 1, 2, 4, ...: the value `current` holds after `j` steps. */
  function PartialSum(s: seq<Bit>, j: nat): (v: nat)
    requires j <= |s|
    ensures v < Pow2(j)
  {
    if j == 0 then 0 else PartialSum(s, j - 1) + s[j - 1] * Pow2(j - 1)
  }

  /** The byte eight bits stand for, least significant first. */
  function ByteValue(s: seq<Bit>): (x: Byte)
    requires |s| == 8
  {
    assert Pow2(8) == 256;
    PartialSum(s, 8)
  }

  /** The bytes a whole number of bytes' worth of bits stand for. */
  function Pack(bits: seq<Bit>): (b: Bytes)
    requires |bits| % 8 == 0
    ensures 8 * |b| == |bits|
  {
    if bits == [] then [] else Pack(bits[..|bits| - 8]) + [ByteValue(bits[|bits| - 8..])]
  }

  /** Taking one more bit of a number modulo a power of two. */
  lemma ModStep(x: nat, m: nat)
    requires m >= 1
    ensures x % (2 * m) == x % m + ((x / m) % 2) * m
  {
    var a, b := x / m, x % m;
    var h, r := a / 2, a % 2;
    assert x == a * m + b;
    assert a * m == h * (2 * m) + r * m by {
      assert a == 2 * h + r;
    }
    assert 0 <= r * m + b < 2 * m by {
      assert r == 0 || r == 1;
    }
    ModUnique(x, 2 * m, h, r * m + b);
  }

  /** The first `j` bits of a byte add up to the byte modulo 2^j. */
  lemma {:induction false} PartialSumOfBits(x: Byte, j: nat)
    requires j <= 8
    ensures PartialSum(ByteBits(x), j) == x % Pow2(j)
  {
    if j > 0 {
      PartialSumOfBits(x, j - 1);
      ModStep(x, Pow2(j - 1));
    }
  }

  /** A byte's bits stand for the byte. */
  lemma ByteRoundTrip(x: Byte)
    ensures ByteValue(ByteBits(x)) == x
  {
    PartialSumOfBits(x, 8);
    assert Pow2(8) == 256;
  }

  /** `bits_to_bytes(bytes_to_bits(b)) == b`. */
  lemma {:induction false} BitsRoundTrip(b: Bytes)
    ensures Pack(Bits(b)) == b
  {
    if b != [] {
      var bits := Bits(b);
      var init := b[..|b| - 1];
      assert bits[..|bits| - 8] == Bits(init);
      assert bits[|bits| - 8..] == ByteBits(b[|b| - 1]);
      BitsRoundTrip(init);
      ByteRoundTrip(b[|b| - 1]);
      assert b == init + [b[|b| - 1]];
    }
  }

  /** `bytes_to_bits`: eight bits per byte, least significant first. */
  method BytesToBits(theBytes: Bytes) returns (result: seq<Bit>)
    ensures result == Bits(theBytes)
    ensures Pack(result) == theBytes
  {
    result := [];
    var k := 0;
    while k < |theBytes|
      invariant 0 <= k <= |theBytes| && result == Bits(theBytes[..k])
    {
      var aByte := theBytes[k];
      var i := 0;
      while i < 8
        invariant 0 <= i <= 8 && result == Bits(theBytes[..k]) + ByteBits(aByte)[..i]
      {
        result := result + [BitOf(aByte, i)];
        i := i + 1;
      }
      assert theBytes[..k + 1][..k] == theBytes[..k];
      k := k + 1;
    }
    assert theBytes[..k] == theBytes;
    BitsRoundTrip(theBytes);
  }

  /** Between two multiples of eight, a whole byte lies ahead. */
  lemma WholeByteAhead(i: nat, n: nat)
    requires i % 8 == 0 && n % 8 == 0 && i < n
    ensures i + 8 <= n && (i + 8) % 8 == 0
  {
  }

  /** `bits_to_bytes`: each group of eight bits, least significant first, becomes a byte. */
  method BitsToBytes(theBits: seq<Bit>) returns (result: Bytes)
    requires |theBits| % 8 == 0
    ensures result == Pack(theBits)
  {
    result := [];
    var i := 0;
    while i < |theBits|
      invariant 0 <= i <= |theBits| && i % 8 == 0 && result == Pack(theBits[..i])
    {
      WholeByteAhead(i, |theBits|);
      ghost var chunk := theBits[i..i + 8];
      var current := 0;
      var j := 0;
      while j < 8
        invariant 0 <= j <= 8 && current == PartialSum(chunk, j)
      {
        assert theBits[i + j] == chunk[j];
        current := current + theBits[i + j] * Pow2(j);
        j := j + 1;
      }
      assert Pow2(8) == 256;
      ghost var next := theBits[..i + 8];
      assert next[..|next| - 8] == theBits[..i] && next[|next| - 8..] == chunk;
      result := result + [current];
      i := i + 8;
    }
    assert theBits[..i] == theBits;
  }

  // ---------------------------------------------------------------------
  // Bit stuffing.
  // ---------------------------------------------------------------------

  /** The bit before position `k`, if any. */
  function Before(bits: seq<Bit>, k: nat): Option<Bit>
    requires k <= |bits|
  {
    if k == 0 then None else Some(bits[k - 1])
  }

  /** The number of 0,1 pairs in `bits`, counting one across the boundary with the bit before them. */
  function ZeroOnePairs(last: Option<Bit>, bits: seq<Bit>): nat
    decreases |bits|
  {
    if bits == [] then 0
    else (if last == Some(0) && bits[0] == 1 then 1 else 0) + ZeroOnePairs(Some(bits[0]), bits[1..])
  }

  /**
   * The sender's stuffing loop, after bit `last`: every bit is copied, and
   * a 1 that follows a 0 is copied twice.
   */
  function Escape(last: Option<Bit>, bits: seq<Bit>): seq<Bit>
    decreases |bits|
  {
    if bits == [] then []
    else [bits[0]] + (if last == Some(0) && bits[0] == 1 then [1] else []) + Escape(Some(bits[0]), bits[1..])
  }

  /** Stuffing adds exactly one bit per 0,1 pair. */
  lemma {:induction false} EscapeLength(last: Option<Bit>, bits: seq<Bit>)
    ensures |Escape(last, bits)| == |bits| + ZeroOnePairs(last, bits)
    decreases |bits|
  {
    if bits != [] {
      EscapeLength(Some(bits[0]), bits[1..]);
    }
  }

  /** A stuffed stream starts with the first bit, doubled when it completes a 0,1 pair. */
  lemma EscapeHead(last: Option<Bit>, bits: seq<Bit>)
    requires bits != []
    ensures |Escape(last, bits)| >= 1 && Escape(last, bits)[0] == bits[0]
    ensures last == Some(0) && bits[0] == 1 ==> |Escape(last, bits)| >= 2 && Escape(last, bits)[1] == 1
  {
  }

  /**
   * The receiver's unstuffing loop, after bits `lastLast`, `last` of the
   * stuffed stream: a 1 that follows 0,1 is dropped.
   */
  function Unescape(lastLast: Option<Bit>, last: Option<Bit>, e: seq<Bit>): (bits: seq<Bit>)
    ensures |bits| <= |e|
    decreases |e|
  {
    if e == [] then []
    else
      (if lastLast == Some(0) && last == Some(1) && e[0] == 1 then [] else [e[0]])
      + Unescape(last, Some(e[0]), e[1..])
  }

  /** Unstuffing `e` from position `k` on. */
  function UnescapeFrom(e: seq<Bit>, k: nat): seq<Bit>
    requires k <= |e|
    decreases |e| - k
  {
    if k == |e| then []
    else
      (if k >= 2 && e[k - 2] == 0 && e[k - 1] == 1 && e[k] == 1 then [] else [e[k]])
      + UnescapeFrom(e, k + 1)
  }

  /** Unstuffing from `at` is the bit at `at` unless it is a stuffed one, then unstuffing from `next`. */
  lemma UnescapeFromStep(e: seq<Bit>, at: nat, next: nat)
    requires at < |e| && next == at + 1
    ensures UnescapeFrom(e, at) ==
      (if at >= 2 && e[at - 2] == 0 && e[at - 1] == 1 && e[at] == 1 then [] else [e[at]]) + UnescapeFrom(e, next)
  {
  }

  /** The index-based unstuffing agrees with `Unescape` on every suffix. */
  lemma {:induction false} UnescapeFromIsUnescape(e: seq<Bit>, k: nat)
    requires k <= |e|
    ensures UnescapeFrom(e, k) == Unescape(if k < 2 then None else Some(e[k - 2]), Before(e, k), e[k..])
    decreases |e| - k
  {
    if k < |e| {
      UnescapeFromIsUnescape(e, k + 1);
      assert e[k..][0] == e[k] && e[k..][1..] == e[k + 1..];
    }
  }

  /**
   * Unstuffing undoes stuffing, from any point where the stuffed stream so
   * far does not end in a bare 0,1.
   */
  lemma {:induction false} UnescapeEscape(lastLast: Option<Bit>, last: Option<Bit>, bits: seq<Bit>)
    requires !(lastLast == Some(0) && last == Some(1))
    ensures Unescape(lastLast, last, Escape(last, bits)) == bits
    decreases |bits|
  {
    if bits != [] {
      var b := bits[0];
      var rest := Escape(Some(b), bits[1..]);
      var e := Escape(last, bits);
      if last == Some(0) && b == 1 {
        assert e == [b] + ([1] + rest);
        assert e[1..] == [1] + rest;
        assert Unescape(last, Some(b), [1] + rest) == Unescape(Some(b), Some(1), rest);
        UnescapeEscape(Some(1), Some(1), bits[1..]);
      } else {
        assert e == [b] + rest;
        UnescapeEscape(last, Some(b), bits[1..]);
      }
      assert bits == [b] + bits[1..];
    }
  }

  /** Positions `k`, `k + 1` of `e` hold 0,1. */
  predicate ZeroOneAt(e: seq<Bit>, k: nat) {
    k + 1 < |e| && e[k] == 0 && e[k + 1] == 1
  }

  /** Every 0,1 in a stuffed stream is followed by a 1. */
  ghost predicate Stuffed(e: seq<Bit>) {
    forall k: nat :: ZeroOneAt(e, k) ==> k + 2 < |e| && e[k + 2] == 1
  }

  /** Stuffing leaves no bare 0,1. */
  lemma {:induction false} EscapeIsStuffed(last: Option<Bit>, bits: seq<Bit>)
    ensures Stuffed(Escape(last, bits))
    decreases |bits|
  {
    if bits != [] {
      var b := bits[0];
      var rest := Escape(Some(b), bits[1..]);
      var x: seq<Bit> := if last == Some(0) && b == 1 then [1] else [];
      var e := Escape(last, bits);
      assert e == [b] + x + rest;
      EscapeIsStuffed(Some(b), bits[1..]);
      if bits[1..] != [] {
        EscapeHead(Some(b), bits[1..]);
      }
      var n := 1 + |x|;
      forall k: nat | ZeroOneAt(e, k)
        ensures k + 2 < |e| && e[k + 2] == 1
      {
        if k >= n {
          assert ZeroOneAt(rest, k - n);
        } else if k == 0 && x == [] {
          assert bits[1..] != [] && bits[1..][0] == 1;
        }
      }
    }
  }

  /** The first `j` bits of `w` end with the separator. */
  predicate FiresAt(w: seq<Bit>, j: nat)
    requires j <= |w|
  {
    j >= 3 && w[j - 3] == 0 && w[j - 2] == 1 && w[j - 1] == 0
  }

  /** Whether the last three bits collected are the separator (`got_separator_bits`, with the length check). */
  predicate Fires(recent: seq<Bit>)
    ensures Fires(recent) <==> |recent| >= 3 && recent[|recent| - 3..] == SeparatorBits
  {
    FiresAt(recent, |recent|)
  }

  /**
   * In a stuffed stream followed by the separator, the separator check first
   * fires on the frame's last bit.
   */
  lemma SeparatorOnlyAtEnd(e: seq<Bit>)
    requires Stuffed(e)
    ensures FiresAt(e + SeparatorBits, |e| + 3)
    ensures forall j :: 0 <= j < |e| + 3 ==> !FiresAt(e + SeparatorBits, j)
  {
    var f := e + SeparatorBits;
    forall j | 3 <= j < |f|
      ensures !FiresAt(f, j)
    {
      var k := j - 3;
      if k + 1 < |e| {
        assert f[k] == e[k] && f[k + 1] == e[k + 1];
        if ZeroOneAt(e, k) {
          assert f[k + 2] == 1;
        }
      } else {
        assert f[k + 1] == 0;
      }
    }
  }

  // ---------------------------------------------------------------------
  // Checksum and frames.
  // ---------------------------------------------------------------------

  /** `struct.pack('<L', v)`: four bytes, least significant first. */
  function PackU32(v: U32): (b: Bytes)
    ensures |b| == 4
  {
    [v % 256, (v / 256) % 256, (v / 65536) % 256, v / 16777216]
  }

  /** `struct.unpack('<L', b)` on four bytes. */
  function UnpackU32(b: Bytes): (v: U32)
    requires |b| == 4
  {
    (b[0] as int) + 256 * (b[1] as int) + 65536 * (b[2] as int) + 16777216 * (b[3] as int)
  }

  /** Unpacking what was packed gives the value back. */
  lemma U32RoundTrip(v: U32)
    ensures UnpackU32(PackU32(v)) == v
  {
    var q1 := v / 256;
    var q2 := q1 / 256;
    var q3 := q2 / 256;
    assert v == q1 * 256 + v % 256;
    assert q1 == q2 * 256 + q1 % 256;
    assert q2 == q3 * 256 + q2 % 256;
    assert q2 == v / 65536 && q3 == v / 16777216 by {
      ModUnique(v, 65536, q2, v - q2 * 65536);
      ModUnique(v, 16777216, q3, v - q3 * 16777216);
    }
  }

  /** The bits of a frame before stuffing: checksum, then message. */
  function DataBits(crc: Bytes -> U32, message: Bytes): seq<Bit> {
    Bits(PackU32(crc(message)) + message)
  }

  /** The bits `send_message` hands to the channel for one message. */
  function FrameBits(crc: Bytes -> U32, message: Bytes): (f: seq<Bit>)
    ensures |f| >= 3 && f[|f| - 3..] == SeparatorBits
  {
    Escape(None, DataBits(crc, message)) + SeparatorBits
  }

  /**
   * What the receiver makes of the stuffed bits before a separator: the
   * message, when the unstuffed bits are whole bytes, at least four of them,
   * and the first four hold the CRC-32 of the rest; otherwise nothing.
   */
  function DecodeFrame(crc: Bytes -> U32, escaped: seq<Bit>): (r: Option<Bytes>)
    ensures var dataBits := Unescape(None, None, escaped);
      r.Some? <==> (&& |dataBits| % 8 == 0
                    && |Pack(dataBits)| >= ChecksumSizeBytes
                    && crc(Pack(dataBits)[ChecksumSizeBytes..]) == UnpackU32(Pack(dataBits)[..ChecksumSizeBytes]))
    ensures r.Some? ==> r.value == Pack(Unescape(None, None, escaped))[ChecksumSizeBytes..]
  {
    var dataBits := Unescape(None, None, escaped);
    var dataBytes := if |dataBits| % 8 != 0 then [] else Pack(dataBits);
    var checksum := if |dataBytes| < ChecksumSizeBytes then -1 else UnpackU32(dataBytes[..ChecksumSizeBytes]);
    var message := Slice(dataBytes, ChecksumSizeBytes, |dataBytes|);
    assert crc(message) >= 0;
    assert |dataBytes| >= ChecksumSizeBytes ==> message == dataBytes[ChecksumSizeBytes..];
    if crc(message) == checksum then Some(message) else None
  }

  /** A frame the sender built decodes to its message. */
  lemma DecodeSentFrame(crc: Bytes -> U32, message: Bytes)
    ensures DecodeFrame(crc, Escape(None, DataBits(crc, message))) == Some(message)
  {
    var data := PackU32(crc(message)) + message;
    UnescapeEscape(None, None, DataBits(crc, message));
    assert data[..ChecksumSizeBytes] == PackU32(crc(message)) && data[ChecksumSizeBytes..] == message;
    U32RoundTrip(crc(message));
    DecodeWholeBytes(crc, Escape(None, DataBits(crc, message)), data);
  }

  /** Stuffed bits that unstuff to a checksum and the bytes it covers decode to those bytes. */
  lemma DecodeWholeBytes(crc: Bytes -> U32, escaped: seq<Bit>, data: Bytes)
    requires Unescape(None, None, escaped) == Bits(data)
    requires |data| >= ChecksumSizeBytes && crc(data[ChecksumSizeBytes..]) == UnpackU32(data[..ChecksumSizeBytes])
    ensures DecodeFrame(crc, escaped) == Some(data[ChecksumSizeBytes..])
  {
    BitsRoundTrip(data);
  }

  /** `MySender.send_message`: checksum, bits, stuffing, separator. */
  method SendMessage(crc: Bytes -> U32, messageBytes: Bytes) returns (bitsToSend: seq<Bit>)
    ensures bitsToSend == FrameBits(crc, messageBytes)
  {
    var checksumBytes := PackU32(crc(messageBytes));
    var dataBits := BytesToBits(checksumBytes + messageBytes);
    var escapedBits := EscapeBits(dataBits);
    bitsToSend := escapedBits + SeparatorBits;
  }

  /** Stuffing `bits` from position `k` on. */
  function EscapeFrom(bits: seq<Bit>, k: nat): seq<Bit>
    requires k <= |bits|
    decreases |bits| - k
  {
    if k == |bits| then []
    else [bits[k]] + (if Before(bits, k) == Some(0) && bits[k] == 1 then [1] else []) + EscapeFrom(bits, k + 1)
  }

  /** The index-based stuffing agrees with `Escape` on every suffix. */
  lemma {:induction false} EscapeFromIsEscape(bits: seq<Bit>, k: nat)
    requires k <= |bits|
    ensures EscapeFrom(bits, k) == Escape(Before(bits, k), bits[k..])
    decreases |bits| - k
  {
    if k < |bits| {
      EscapeFromIsEscape(bits, k + 1);
      assert bits[k..][0] == bits[k] && bits[k..][1..] == bits[k + 1..];
    }
  }

  /** Stuffing from `at` is the bit at `at`, its stuffed bit if any, then stuffing from `next`. */
  lemma EscapeFromStep(bits: seq<Bit>, at: nat, next: nat)
    requires at < |bits| && next == at + 1
    ensures EscapeFrom(bits, at) == ([bits[at]] + (if Before(bits, at) == Some(0) && bits[at] == 1 then [1] else [])) + EscapeFrom(bits, next)
  {
  }

  /** The stuffing loop of `send_message`. */
  method EscapeBits(dataBits: seq<Bit>) returns (escapedBits: seq<Bit>)
    ensures escapedBits == Escape(None, dataBits)
  {
    escapedBits := [];
    var lastBit: Option<Bit> := None;
    var k := 0;
    ghost var total := EscapeFrom(dataBits, 0);
    while k < |dataBits|
      invariant 0 <= k <= |dataBits| && lastBit == Before(dataBits, k)
      invariant escapedBits + EscapeFrom(dataBits, k) == total
    {
      ghost var done := escapedBits;
      var thisBit := dataBits[k];
      ghost var stuffed: seq<Bit> := if lastBit == Some(0) && thisBit == 1 then [1] else [];
      escapedBits := escapedBits + [thisBit];
      if lastBit == Some(0) && thisBit == 1 {
        escapedBits := escapedBits + [1];
      }
      assert escapedBits == done + ([thisBit] + stuffed);
      lastBit := Some(thisBit);
      ghost var at := k;
      k := k + 1;
      EscapeFromStep(dataBits, at, k);
      Regroup(done, [thisBit] + stuffed, EscapeFrom(dataBits, k));
    }
    EscapeFromIsEscape(dataBits, 0);
    assert dataBits[0..] == dataBits;
  }

  // ---------------------------------------------------------------------
  // The receiver.
  // ---------------------------------------------------------------------

  /** One bit arriving: the bits kept afterwards and the message delivered, if any. */
  datatype Step = Step(recent: seq<Bit>, delivered: Option<Bytes>)

  /** `handle_bit_from_network` on the collected bits: on a separator, decode and start over. */
  function OnBit(crc: Bytes -> U32, recent: seq<Bit>, bit: Bit): (s: Step)
    ensures Fires(recent + [bit]) ==> s.recent == []
    ensures !Fires(recent + [bit]) ==> s.recent == recent + [bit] && s.delivered == None
  {
    var r := recent + [bit];
    if Fires(r) then Step([], DecodeFrame(crc, r[..|r| - 3])) else Step(r, None)
  }

  /** The bits kept and the messages delivered after a stream of bits. */
  function Feed(crc: Bytes -> U32, recent: seq<Bit>, bits: seq<Bit>): (r: (seq<Bit>, seq<Bytes>))
    decreases |bits|
  {
    if bits == [] then (recent, [])
    else
      var s := OnBit(crc, recent, bits[0]);
      var rest := Feed(crc, s.recent, bits[1..]);
      (rest.0, (if s.delivered.Some? then [s.delivered.value] else []) + rest.1)
  }

  /** After `recent`, none of the bits of `s` makes the separator check fire. */
  predicate Quiet(recent: seq<Bit>, s: seq<Bit>) {
    forall j :: |recent| < j <= |recent| + |s| ==> !FiresAt(recent + s, j)
  }

  /** A bit that does not complete the separator is only collected. */
  lemma FeedQuietBit(crc: Bytes -> U32, recent: seq<Bit>, bits: seq<Bit>)
    requires bits != [] && !Fires(recent + [bits[0]])
    ensures Feed(crc, recent, bits) == Feed(crc, recent + [bits[0]], bits[1..])
  {
    var s := OnBit(crc, recent, bits[0]);
    assert s.recent == recent + [bits[0]] && s.delivered == None;
    var rest := Feed(crc, s.recent, bits[1..]);
    assert [] + rest.1 == rest.1;
  }

  /** Bits on which the separator check never fires are only collected. */
  lemma {:induction false} FeedCollects(crc: Bytes -> U32, recent: seq<Bit>, s: seq<Bit>, rest: seq<Bit>)
    requires Quiet(recent, s)
    ensures Feed(crc, recent, s + rest) == Feed(crc, recent + s, rest)
    decreases |s|
  {
    if s != [] {
      var r1 := recent + [s[0]];
      assert r1 + s[1..] == recent + s;
      assert !FiresAt(recent + s, |r1|);
      assert (s + rest)[0] == s[0] && (s + rest)[1..] == s[1..] + rest;
      FeedQuietBit(crc, recent, s + rest);
      FeedCollects(crc, r1, s[1..], rest);
    } else {
      assert s + rest == rest && recent + s == recent;
    }
  }

  /** A frame arriving at an idle receiver delivers its message and leaves it idle. */
  lemma FeedFrame(crc: Bytes -> U32, message: Bytes, rest: seq<Bit>)
    ensures Feed(crc, [], FrameBits(crc, message) + rest)
      == (Feed(crc, [], rest).0, [message] + Feed(crc, [], rest).1)
  {
    var f := FrameBits(crc, message);
    var init := f[..|f| - 1];
    FrameQuietUntilEnd(crc, message);
    assert f + rest == init + ([0] + rest);
    FeedCollects(crc, [], init, [0] + rest);
    assert [] + init == init && init + [0] == f;
    assert ([0] + rest)[0] == 0 && ([0] + rest)[1..] == rest;
    assert f[..|f| - 3] == Escape(None, DataBits(crc, message));
    DecodeSentFrame(crc, message);
    assert OnBit(crc, init, 0) == Step([], Some(message));
  }

  /** The separator check stays quiet on a frame until its last bit. */
  lemma FrameQuietUntilEnd(crc: Bytes -> U32, message: Bytes)
    ensures var f := FrameBits(crc, message); Quiet([], f[..|f| - 1])
  {
    var e := Escape(None, DataBits(crc, message));
    var f := FrameBits(crc, message);
    EscapeIsStuffed(None, DataBits(crc, message));
    SeparatorOnlyAtEnd(e);
    var init := f[..|f| - 1];
    assert [] + init == init;
    forall j | 0 < j <= |init|
      ensures !FiresAt(init, j)
    {
      assert !FiresAt(f, j);
    }
  }

  /** The bits of a run of frames, one per message. */
  function Frames(crc: Bytes -> U32, messages: seq<Bytes>): seq<Bit> {
    if messages == [] then [] else FrameBits(crc, messages[0]) + Frames(crc, messages[1..])
  }

  /**
   * Feeding the sender's bits unchanged to a fresh receiver delivers exactly
   * the messages sent, in order, and leaves no bits behind.
   */
  lemma {:induction false} EndToEnd(crc: Bytes -> U32, messages: seq<Bytes>)
    ensures Feed(crc, [], Frames(crc, messages)) == ([], messages)
  {
    if messages != [] {
      FeedFrame(crc, messages[0], Frames(crc, messages[1..]));
      EndToEnd(crc, messages[1..]);
      assert messages == [messages[0]] + messages[1..];
    }
  }

  /** `MyReceiver`: the bits collected since the last separator, and the messages delivered. */
  class Receiver {
    const crc: Bytes -> U32
    var recentBits: seq<Bit>
    var checksum: Option<int>      // set while a frame is being checked, `None` between bits
    var delivered: seq<Bytes>      // what `got_message_function` was handed, in order

    constructor (crc: Bytes -> U32)
      ensures this.crc == crc && recentBits == [] && checksum == None && delivered == []
    {
      this.crc := crc;
      recentBits := [];
      checksum := None;
      delivered := [];
    }

    /**
     * `handle_bit_from_network`: collects the bit; on a separator, unstuffs,
     * checks and delivers, then clears the bits and the checksum whether or
     * not the frame was delivered.
     */
    method HandleBitFromNetwork(theBit: Bit)
      requires checksum == None
      modifies this
      ensures checksum == None
      ensures var s := OnBit(crc, old(recentBits), theBit);
        recentBits == s.recent
        && delivered == old(delivered) + (if s.delivered.Some? then [s.delivered.value] else [])
    {
      recentBits := recentBits + [theBit];
      if Fires(recentBits) {
        var escapedBits := recentBits[..|recentBits| - 3];
        var dataBits := UnescapeBits(escapedBits);
        var dataBytes: Bytes;
        if |dataBits| % 8 != 0 {
          dataBytes := [];
        } else {
          dataBytes := BitsToBytes(dataBits);
        }
        var checksumBytes := Slice(dataBytes, 0, ChecksumSizeBytes);
        if |checksumBytes| < ChecksumSizeBytes {
          checksum := Some(-1);
        } else {
          checksum := Some(UnpackU32(checksumBytes));
        }
        var messageBytes := Slice(dataBytes, ChecksumSizeBytes, |dataBytes|);
        var checksumCheck := crc(messageBytes);
        assert DecodeFrame(crc, escapedBits) == if Some(checksumCheck) == checksum then Some(messageBytes) else None;
        if Some(checksumCheck) == checksum {
          delivered := delivered + [messageBytes];
        }
        checksum := None;
        recentBits := [];
      }
    }

    /** The unstuffing loop of `handle_bit_from_network`. */
    method UnescapeBits(escapedBits: seq<Bit>) returns (dataBits: seq<Bit>)
      ensures dataBits == Unescape(None, None, escapedBits)
    {
      dataBits := [];
      var lastLastBit: Option<Bit> := None;
      var lastBit: Option<Bit> := None;
      var k := 0;
      ghost var total := UnescapeFrom(escapedBits, 0);
      while k < |escapedBits|
        invariant 0 <= k <= |escapedBits|
        invariant lastBit == Before(escapedBits, k) && lastLastBit == (if k < 2 then None else Some(escapedBits[k - 2]))
        invariant dataBits + UnescapeFrom(escapedBits, k) == total
      {
        ghost var done := dataBits;
        var thisBit := escapedBits[k];
        ghost var kept: seq<Bit> := if lastLastBit == Some(0) && lastBit == Some(1) && thisBit == 1 then [] else [thisBit];
        if lastLastBit == Some(0) && lastBit == Some(1) && thisBit == 1 {
        } else {
          dataBits := dataBits + [thisBit];
        }
        assert dataBits == done + kept;
        lastLastBit, lastBit := lastBit, Some(thisBit);
        ghost var at := k;
        k := k + 1;
        UnescapeFromStep(escapedBits, at, k);
        Regroup(done, kept, UnescapeFrom(escapedBits, k));
      }
      UnescapeFromIsUnescape(escapedBits, 0);
      assert escapedBits[0..] == escapedBits;
    }
  }
}
