/**
 * The raw controller packet: a packed 16-byte layout made of a two-byte header,
 * two button bytes (each a union of a whole byte and eight one-bit flags), two
 * little-endian 16-bit triggers and two sticks, each an x/y pair of
 * little-endian 16-bit values.  The layout has no code of its own, so it is
 * modelled as a decode function (reading the struct over a byte buffer) and an
 * encode function (the bytes a struct value occupies).
 */
module ControllerPacket {

  type byte = bv8
  type uint16 = bv16
  type int16 = x: int | -0x8000 <= x < 0x8000

  /** sizeof(XboxOneControllerPacket): the struct is packed, so no padding. */
  const PacketSize: nat := 16

  // Byte offsets of the fields of the packed struct.
  const HeaderOffset: nat := 0
  const Buttons1Offset: nat := 2
  const Buttons2Offset: nat := 3
  const LeftTriggerOffset: nat := 4
  const RightTriggerOffset: nat := 6
  const LeftStickOffset: nat := 8
  const RightStickOffset: nat := 12

  /** Largest trigger value, as documented for the reference layout. */
  const TriggerMax: nat := 1024

  datatype Header = Header(sequenceNumber: byte, unknown: byte)

  /** The first button byte; the flags take bits 0 to 7 in this order. */
  datatype Buttons1 = Buttons1(
    y: bool, x: bool, b: bool, a: bool,
    share: bool, menu: bool, view: bool, sync: bool)

  /** The second button byte; the flags take bits 0 to 7 in this order. */
  datatype Buttons2 = Buttons2(
    rightStick: bool, leftStick: bool, rightTrigger: bool, leftTrigger: bool,
    dRight: bool, dLeft: bool, dDown: bool, dUp: bool)

  /** A stick: raw unsigned 16-bit fields, as the struct declares them. */
  datatype Hat = Hat(x: uint16, y: uint16)

  datatype Packet = Packet(
    header: Header,
    buttons1: Buttons1,
    buttons2: Buttons2,
    leftTrigger: uint16,
    rightTrigger: uint16,
    leftStick: Hat,
    rightStick: Hat)

  // ---------------------------------------------------------------------------
  // Bit fields

  /** Bit i of a byte, where bit 0 is the least significant. */
  predicate Bit(bits: byte, i: nat)
    requires i < 8
  {
    (bits >> i) & 1 == 1
  }

  function Flag(on: bool, i: nat): byte
    requires i < 8
  {
    if on then (1 as byte) << i else 0
  }

  /** The `bits` view of the first button union. */
  function Buttons1Bits(f: Buttons1): (bits: byte)
    ensures Bit(bits, 0) == f.y && Bit(bits, 1) == f.x
    ensures Bit(bits, 2) == f.b && Bit(bits, 3) == f.a
    ensures Bit(bits, 4) == f.share && Bit(bits, 5) == f.menu
    ensures Bit(bits, 6) == f.view && Bit(bits, 7) == f.sync
  {
    Flag(f.y, 0) | Flag(f.x, 1) | Flag(f.b, 2) | Flag(f.a, 3)
    | Flag(f.share, 4) | Flag(f.menu, 5) | Flag(f.view, 6) | Flag(f.sync, 7)
  }

  /** The flag view of the first button union, over the same byte. */
  function Buttons1Of(bits: byte): (f: Buttons1)
    ensures Buttons1Bits(f) == bits
  {
    Buttons1(Bit(bits, 0), Bit(bits, 1), Bit(bits, 2), Bit(bits, 3),
             Bit(bits, 4), Bit(bits, 5), Bit(bits, 6), Bit(bits, 7))
  }

  /** The `bits` view of the second button union. */
  function Buttons2Bits(f: Buttons2): (bits: byte)
    ensures Bit(bits, 0) == f.rightStick && Bit(bits, 1) == f.leftStick
    ensures Bit(bits, 2) == f.rightTrigger && Bit(bits, 3) == f.leftTrigger
    ensures Bit(bits, 4) == f.dRight && Bit(bits, 5) == f.dLeft
    ensures Bit(bits, 6) == f.dDown && Bit(bits, 7) == f.dUp
  {
    Flag(f.rightStick, 0) | Flag(f.leftStick, 1) | Flag(f.rightTrigger, 2) | Flag(f.leftTrigger, 3)
    | Flag(f.dRight, 4) | Flag(f.dLeft, 5) | Flag(f.dDown, 6) | Flag(f.dUp, 7)
  }

  /** The flag view of the second button union, over the same byte. */
  function Buttons2Of(bits: byte): (f: Buttons2)
    ensures Buttons2Bits(f) == bits
  {
    Buttons2(Bit(bits, 0), Bit(bits, 1), Bit(bits, 2), Bit(bits, 3),
             Bit(bits, 4), Bit(bits, 5), Bit(bits, 6), Bit(bits, 7))
  }

  /** Writing the eight flags and reading them back through the union gives the same flags. */
  lemma Buttons1FlagsRoundTrip(f: Buttons1)
    ensures Buttons1Of(Buttons1Bits(f)) == f
  {
  }

  lemma Buttons2FlagsRoundTrip(f: Buttons2)
    ensures Buttons2Of(Buttons2Bits(f)) == f
  {
  }

  // ---------------------------------------------------------------------------
  // Little-endian 16-bit fields

  /** The 16-bit value whose low byte is lo and whose high byte is hi. */
  function Word(lo: byte, hi: byte): uint16
  {
    (lo as uint16) | ((hi as uint16) << 8)
  }

  function LowByte(v: uint16): (lo: byte)
  {
    (v & 0xff) as byte
  }

  function HighByte(v: uint16): (hi: byte)
  {
    (v >> 8) as byte
  }

  lemma WordBytes(lo: byte, hi: byte)
    ensures LowByte(Word(lo, hi)) == lo && HighByte(Word(lo, hi)) == hi
  {
  }

  lemma BytesWord(v: uint16)
    ensures Word(LowByte(v), HighByte(v)) == v
  {
  }

  /** The little-endian 16-bit value stored at s[i], s[i + 1]. */
  function U16At(s: seq<byte>, i: nat): uint16
    requires i + 1 < |s|
  {
    Word(s[i], s[i + 1])
  }

  /** The two bytes, least significant first, that store v. */
  function U16Bytes(v: uint16): (s: seq<byte>)
    ensures |s| == 2 && U16At(s, 0) == v
  {
    BytesWord(v);
    [LowByte(v), HighByte(v)]
  }

  lemma U16BytesOfU16At(s: seq<byte>, i: nat)
    requires i + 1 < |s|
    ensures U16Bytes(U16At(s, i)) == s[i..i + 2]
  {
    WordBytes(s[i], s[i + 1]);
  }

  lemma WordAsInt(v: uint16)
    ensures 0 <= v as int < 0x1_0000 && (v as int) as uint16 == v
  {
  }

  /** The unsigned value of a 16-bit field. */
  function U16Value(v: uint16): (n: nat)
    ensures n < 0x1_0000 && n == v as int
  {
    v as int
  }

  /** Two's complement over 16 bits: the number in the int16 range that agrees with n modulo 2^16. */
  function TwosComplement16(n: int): (r: int16)
    requires 0 <= n < 0x1_0000
    ensures r % 0x1_0000 == n
    ensures (r < 0) == (n >= 0x8000)
  {
    if n < 0x8000 then n else n - 0x1_0000
  }

  /** The two's-complement reading of a raw 16-bit field (Go's int16(uint16)). */
  function AsInt16(v: uint16): (s: int16)
    ensures s % 0x1_0000 == U16Value(v)
    ensures (s < 0) == (U16Value(v) >= 0x8000)
  {
    TwosComplement16(U16Value(v))
  }

  /** Distinct raw fields give distinct signed readings, so the reading loses nothing. */
  lemma AsInt16Injective(v: uint16, w: uint16)
    requires AsInt16(v) == AsInt16(w)
    ensures v == w
  {
    WordAsInt(v);
    WordAsInt(w);
    var n, m := v as int, w as int;
    assert n == m;
    assert v == n as uint16;
    assert w == m as uint16;
  }

  /** Signed stick coordinates, as the reference layout reads them. */
  function StickX(h: Hat): int16 { AsInt16(h.x) }
  function StickY(h: Hat): int16 { AsInt16(h.y) }


  // ---------------------------------------------------------------------------
  // The whole packet

  function EncodeHat(h: Hat): (s: seq<byte>)
    ensures |s| == 4 && U16At(s, 0) == h.x && U16At(s, 2) == h.y
  {
    U16Bytes(h.x) + U16Bytes(h.y)
  }

  /** The 16 bytes a packet value occupies in memory. */
  function Encode(p: Packet): (s: seq<byte>)
    ensures |s| == PacketSize
  {
    [p.header.sequenceNumber, p.header.unknown,
     Buttons1Bits(p.buttons1), Buttons2Bits(p.buttons2)]
    + U16Bytes(p.leftTrigger) + U16Bytes(p.rightTrigger)
    + EncodeHat(p.leftStick) + EncodeHat(p.rightStick)
  }

  /** Each field sits at its offset in the encoding, the 16-bit ones low byte first. */
  lemma EncodeLayout(p: Packet)
    ensures var s := Encode(p);
      && s[HeaderOffset] == p.header.sequenceNumber
      && s[HeaderOffset + 1] == p.header.unknown
      && s[Buttons1Offset] == Buttons1Bits(p.buttons1)
      && s[Buttons2Offset] == Buttons2Bits(p.buttons2)
      && U16At(s, LeftTriggerOffset) == p.leftTrigger
      && U16At(s, RightTriggerOffset) == p.rightTrigger
      && U16At(s, LeftStickOffset) == p.leftStick.x
      && U16At(s, LeftStickOffset + 2) == p.leftStick.y
      && U16At(s, RightStickOffset) == p.rightStick.x
      && U16At(s, RightStickOffset + 2) == p.rightStick.y
  {
  }

  lemma Slices(s: seq<byte>, i: nat, j: nat, k: nat)
    requires i <= j <= k <= |s|
    ensures s[i..k] == s[i..j] + s[j..k]
  {
  }

  /** The first 16 bytes of s, cut at the field boundaries. */
  lemma SixteenBytes(s: seq<byte>)
    requires |s| >= PacketSize
    ensures s[..PacketSize] == [s[0], s[1], s[2], s[3]] + s[4..6] + s[6..8]
                               + (s[8..10] + s[10..12]) + (s[12..14] + s[14..16])
  {
    assert s[..4] == [s[0], s[1], s[2], s[3]];
    Slices(s, 0, 4, 6);
    Slices(s, 0, 6, 8);
    Slices(s, 8, 10, 12);
    Slices(s, 0, 8, 12);
    Slices(s, 12, 14, 16);
    Slices(s, 0, 12, 16);
  }

  /** The struct laid over s has, field by field, the bytes of s as its encoding. */
  lemma OverlayEncodes(s: seq<byte>, p: Packet)
    requires |s| >= PacketSize
    requires p == Packet(Header(s[0], s[1]), Buttons1Of(s[2]), Buttons2Of(s[3]),
                         U16At(s, 4), U16At(s, 6),
                         Hat(U16At(s, 8), U16At(s, 10)), Hat(U16At(s, 12), U16At(s, 14)))
    ensures Encode(p) == s[..PacketSize]
  {
    U16BytesOfU16At(s, 4);
    U16BytesOfU16At(s, 6);
    U16BytesOfU16At(s, 8);
    U16BytesOfU16At(s, 10);
    U16BytesOfU16At(s, 12);
    U16BytesOfU16At(s, 14);
    assert EncodeHat(p.leftStick) == s[8..10] + s[10..12];
    assert EncodeHat(p.rightStick) == s[12..14] + s[14..16];
    SixteenBytes(s);
  }

  /** The packet struct overlaid on the first 16 bytes of a buffer. */
  function Decode(s: seq<byte>): (p: Packet)
    requires |s| >= PacketSize
    ensures Encode(p) == s[..PacketSize]
  {
    var p := Packet(
      Header(s[0], s[1]),
      Buttons1Of(s[2]),
      Buttons2Of(s[3]),
      U16At(s, 4), U16At(s, 6),
      Hat(U16At(s, 8), U16At(s, 10)),
      Hat(U16At(s, 12), U16At(s, 14)));
    OverlayEncodes(s, p);
    p
  }

  /** Encoding a packet and reading the bytes back yields the same field values. */
  lemma DecodeEncode(p: Packet)
    ensures Decode(Encode(p)) == p
  {
    var s := Encode(p);
    EncodeLayout(p);
    Buttons1FlagsRoundTrip(p.buttons1);
    Buttons2FlagsRoundTrip(p.buttons2);
    assert U16At(s, 4) == p.leftTrigger;
  }

  /** A state report whose first button byte is 0x03 has exactly y and x set in that group. */
  lemma FirstButtonByteExample(s: seq<byte>)
    requires |s| >= PacketSize && s[Buttons1Offset] == 0x03
    ensures Decode(s).buttons1 == Buttons1(true, true, false, false, false, false, false, false)
  {
  }

  /**
   * The stick coordinates of a decoded buffer: each is the little-endian
   * field at bytes 8, 10, 12 and 14, read as a two's-complement 16-bit
   * number, so each agrees with its raw field modulo 2^16.
   */
  lemma StickCoordinates(s: seq<byte>)
    requires |s| >= PacketSize
    ensures StickX(Decode(s).leftStick) == AsInt16(U16At(s, LeftStickOffset))
    ensures StickY(Decode(s).leftStick) == AsInt16(U16At(s, LeftStickOffset + 2))
    ensures StickX(Decode(s).rightStick) == AsInt16(U16At(s, RightStickOffset))
    ensures StickY(Decode(s).rightStick) == AsInt16(U16At(s, RightStickOffset + 2))
    ensures StickX(Decode(s).leftStick) % 0x1_0000 == U16Value(U16At(s, LeftStickOffset))
    ensures StickY(Decode(s).rightStick) % 0x1_0000 == U16Value(U16At(s, RightStickOffset + 2))
  {
  }

  /** Reading any 16-byte buffer as a packet and encoding it gives back the same bytes. */
  lemma EncodeDecode(s: seq<byte>)
    requires |s| == PacketSize
    ensures Encode(Decode(s)) == s
  {
  }
}
