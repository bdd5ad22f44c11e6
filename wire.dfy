/**
 * Byte-level encodings shared by the dashboard and the frame generator:
 * network byte order (htonl), UTF-8 (QString::toUtf8) and Latin-1
 * (QString::fromLatin1 and the 8-bit characters of a std::string).
 */
module Wire {
  type byte = x: int | 0 <= x < 0x100
  type uint32 = x: int | 0 <= x < 0x1_0000_0000

  /** The four bytes that `htonl(x)` leaves in memory: most significant first. */
  function Be32(x: uint32): (b: seq<byte>)
    ensures |b| == 4
    ensures b[0] as int * 0x100_0000 + b[1] as int * 0x1_0000 + b[2] as int * 0x100 + b[3] as int == x
  {
    var lo := x / 0x100;
    var mid := lo / 0x100;
    [mid / 0x100, mid % 0x100, lo % 0x100, x % 0x100]
  }

  /** Reads four bytes in network byte order (ntohl). */
  function FromBe32(b: seq<byte>): (x: uint32)
    requires |b| == 4
  {
    b[0] as int * 0x100_0000 + b[1] as int * 0x1_0000 + b[2] as int * 0x100 + b[3] as int
  }

  lemma Be32RoundTrip(x: uint32)
    ensures FromBe32(Be32(x)) == x
  {
  }

  lemma FromBe32RoundTrip(b: seq<byte>)
    requires |b| == 4
    ensures Be32(FromBe32(b)) == b
  {
    var x := FromBe32(b);
    var lo := b[0] as int * 0x1_0000 + b[1] as int * 0x100 + b[2] as int;
    var mid := b[0] as int * 0x100 + b[1] as int;
    assert x == lo * 0x100 + b[3] as int;
    assert x / 0x100 == lo && x % 0x100 == b[3];
    assert lo == mid * 0x100 + b[2] as int;
    assert lo / 0x100 == mid && lo % 0x100 == b[2];
    assert mid / 0x100 == b[0] && mid % 0x100 == b[1];
  }

  predicate IsAscii(s: string)
  {
    forall i :: 0 <= i < |s| ==> s[i] as int < 0x80
  }

  /** UTF-8 encoding of one Unicode scalar value. */
  function Utf8Char(c: char): (b: seq<byte>)
    ensures 1 <= |b| <= 4
    ensures |b| == 1 <==> c as int < 0x80
    ensures |b| == 1 ==> b[0] == c as int
    ensures |b| > 1 ==> b[0] >= 0xC0 && forall i :: 1 <= i < |b| ==> 0x80 <= b[i] < 0xC0
  {
    var n := c as int;
    if n < 0x80 then [n]
    else if n < 0x800 then [0xC0 + n / 0x40, 0x80 + n % 0x40]
    else if n < 0x1_0000 then [0xE0 + n / 0x1000, 0x80 + n / 0x40 % 0x40, 0x80 + n % 0x40]
    else [0xF0 + n / 0x4_0000, 0x80 + n / 0x1000 % 0x40, 0x80 + n / 0x40 % 0x40, 0x80 + n % 0x40]
  }

  /** UTF-8 encoding of a string (QString::toUtf8). */
  function Utf8(s: string): (b: seq<byte>)
    ensures |b| >= |s|
    ensures IsAscii(s) ==> |b| == |s| && forall i :: 0 <= i < |s| ==> b[i] == s[i] as int
  {
    if s == [] then [] else Utf8Char(s[0]) + Utf8(s[1..])
  }

  /** A character of a 8-bit string: what `QString::fromLatin1` can produce. */
  type Latin1Char = c: char | c as int < 0x100 witness ' '

  /** QString::fromLatin1: every byte becomes the character with that code. */
  function Latin1(b: seq<byte>): (s: seq<Latin1Char>)
    ensures |s| == |b|
    ensures forall i :: 0 <= i < |b| ==> s[i] as int == b[i]
  {
    seq(|b|, i requires 0 <= i < |b| => b[i] as char)
  }

  /** The bytes of an 8-bit string, as `memcpy` copies them out of a std::string. */
  function Latin1Bytes(s: seq<Latin1Char>): (b: seq<byte>)
    ensures |b| == |s|
    ensures forall i :: 0 <= i < |s| ==> b[i] == s[i] as int
  {
    seq(|s|, i requires 0 <= i < |s| => s[i] as int)
  }

  lemma Latin1RoundTrip(s: seq<Latin1Char>)
    ensures Latin1(Latin1Bytes(s)) == s
  {
    var t := Latin1(Latin1Bytes(s));
    assert forall i :: 0 <= i < |s| ==> t[i] == s[i];
  }

  lemma Latin1BytesRoundTrip(b: seq<byte>)
    ensures Latin1Bytes(Latin1(b)) == b
  {
  }
}

/** The fixed 8-byte signal payload and the SocketCAN frame that carries it. */
module Frames {
  import opened Wire

  type Payload = s: seq<byte> | |s| == 8 witness [0, 0, 0, 0, 0, 0, 0, 0]

  /** sizeof(struct can_frame): 4-byte id, length byte, 3 padding bytes, 8 data bytes. */
  const CanFrameSize: nat := 16

  /** struct can_frame as the receiver reads it and the generator writes it. */
  datatype CanFrame = CanFrame(canId: uint32, dlc: byte, data: Payload)
}
