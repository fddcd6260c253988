/**
  The Packet Primary Header of the CCSDS Space Packet Protocol (CCSDS 133.0-B-2,
  section 4.1.3) as the SatDump core reads and writes it: six octets holding a
  3-bit version, a 1-bit type, a 1-bit secondary-header flag, an 11-bit APID,
  2-bit sequence flags, a 14-bit sequence count and a 16-bit data length that
  carries the payload length minus one.

  The in-memory header keeps both the six raw octets and the decoded fields,
  each bounded by the C storage type it is held in (`uint8_t`, `bool` or
  `uint16_t`). The codec is written with the arithmetic its shifts and masks
  compute on non-negative values (`x >> k` is `x / 2^k`, `x & (2^k - 1)` is
  `x % 2^k`, and `|` of disjoint bit ranges is `+`); `DecodeMatchesSource` and
  `EncodeMatchesSource` prove this against the operators as the C++ writes them.
 */
module Ccsds {
  import opened Bits

  type U8 = x: nat | x < 256
  type U16 = x: nat | x < 65536

  /** Number of octets in a primary header. */
  const HeaderSize: nat := 6

  /** One more than the largest `size_t`. */
  const SizeModulus: nat := 0x1_0000_0000_0000_0000

  /** Conversion of a non-negative `int` to `uint8_t`. */
  function ToU8(x: nat): U8 { x % 256 }

  /** Conversion of a non-negative `int` (or `size_t`) to `uint16_t`. */
  function ToU16(x: nat): U16 { x % 65536 }

  /** Conversion of an `int` to `bool`. */
  function ToBool(x: int): bool { x != 0 }

  /** Promotion of a `bool` to `int`. */
  function BoolToInt(b: bool): nat { if b then 1 else 0 }

  datatype Header = Header(
    raw: seq<U8>,
    version: U8,
    packetType: bool,
    secondaryHeaderFlag: bool,
    apid: U16,
    sequenceFlag: U8,
    packetSequenceCount: U16,
    packetLength: U16)

  datatype Packet = Packet(header: Header, payload: seq<U8>)

  /** Every field fits the width the protocol gives it. */
  predicate InRange(h: Header)
  {
    && h.version < 8
    && h.apid < 2048
    && h.sequenceFlag < 4
    && h.packetSequenceCount < 16384
  }

  /** Two headers agree on every decoded field (the raw octets may differ). */
  predicate SameFields(a: Header, b: Header)
  {
    a.(raw := b.raw) == b
  }

  /** The fields cut down to their protocol widths. */
  function Masked(h: Header): (m: Header)
    ensures InRange(m)
    ensures SameFields(m, h) <==> InRange(h)
    ensures m.raw == h.raw && m.packetType == h.packetType
    ensures m.secondaryHeaderFlag == h.secondaryHeaderFlag && m.packetLength == h.packetLength
    ensures h.version < 8 ==> m.version == h.version
    ensures h.apid < 2048 ==> m.apid == h.apid
    ensures h.sequenceFlag < 4 ==> m.sequenceFlag == h.sequenceFlag
    ensures h.packetSequenceCount < 16384 ==> m.packetSequenceCount == h.packetSequenceCount
  {
    h.(version := h.version % 8,
       apid := h.apid % 2048,
       sequenceFlag := h.sequenceFlag % 4,
       packetSequenceCount := h.packetSequenceCount % 16384)
  }

  /**
    `CCSDSHeader(uint8_t *)`: keeps the first six octets of a buffer as they
    are and cuts each field from its fixed bit position. Octet 0 holds the
    version (bits 7-5), the type (bit 4), the secondary-header flag (bit 3)
    and the APID's top three bits; octet 2 holds the sequence flags (bits 7-6)
    and the count's top six bits; octets 4 and 5 hold the length, high first.
   */
  function Decode(rawi: seq<U8>): (h: Header)
    requires |rawi| >= HeaderSize
    ensures h.raw == rawi[..HeaderSize]
    ensures InRange(h)
  {
    var b0: nat, b1: nat, b2: nat := rawi[0], rawi[1], rawi[2];
    var b3: nat, b4: nat, b5: nat := rawi[3], rawi[4], rawi[5];
    Header(
      raw := rawi[..HeaderSize],
      version := b0 / 32,
      packetType := ToBool((b0 / 16) % 2),
      secondaryHeaderFlag := ToBool((b0 / 8) % 2),
      apid := (b0 % 8) * 256 + b1,
      sequenceFlag := b2 / 64,
      packetSequenceCount := (b2 % 64) * 256 + b3,
      packetLength := b4 * 256 + b5)
  }

  /** `parseCCSDSHeader`: decoding looks at the first six octets only. */
  function ParseHeader(buffer: seq<U8>): (h: Header)
    requires |buffer| >= HeaderSize
    ensures h.raw == buffer[..HeaderSize]
    ensures forall rest: seq<U8> :: Decode(buffer + rest) == h
  {
    assert forall rest: seq<U8> :: (buffer + rest)[..HeaderSize] == buffer[..HeaderSize];
    Decode(buffer)
  }

  /**
    `CCSDSHeader::encodeHDR`: rewrites the six raw octets from the fields,
    each field masked to its protocol width before it is shifted into place.
    Nothing but the raw octets changes.
   */
  function EncodeHeader(h: Header): (e: Header)
    ensures SameFields(e, h)
    ensures |e.raw| == HeaderSize
  {
    h.(raw := [
      (h.version % 8) * 32 + BoolToInt(h.packetType) * 16
        + BoolToInt(h.secondaryHeaderFlag) * 8 + (h.apid / 256) % 8,
      h.apid % 256,
      (h.sequenceFlag % 4) * 64 + (h.packetSequenceCount / 256) % 64,
      h.packetSequenceCount % 256,
      ToU8(h.packetLength / 256),
      h.packetLength % 256])
  }

  /**
    `size() - 1` in `size_t`: an empty vector wraps around to the largest
    `size_t`; every other size loses one.
   */
  function SizeMinusOne(n: nat): (r: nat)
    ensures n <= SizeModulus ==> r < SizeModulus
    ensures r % 65536 == (n - 1) % 65536
  {
    if n == 0 then
      assert SizeModulus - 1 == 65536 * 0x1_0000_0000_0000 - 1;
      SizeModulus - 1
    else
      n - 1
  }

  /**
    `CCSDSPacket::encodeHDR`: the length field becomes the payload size minus
    one (computed in `size_t`, stored in 16 bits) and the header is re-encoded.
   */
  function EncodePacket(p: Packet): (q: Packet)
    ensures q.payload == p.payload
    ensures q.header == EncodeHeader(p.header.(packetLength := q.header.packetLength))
    ensures q.header.packetLength == (|p.payload| - 1) % 65536
    ensures 1 <= |p.payload| <= 65536 ==> q.header.packetLength == |p.payload| - 1
    ensures |p.payload| == 0 ==> q.header.packetLength == 65535
  {
    p.(header := EncodeHeader(p.header.(packetLength := ToU16(SizeMinusOne(|p.payload|)))))
  }

  // ----- Arithmetic facts about octets -----

  lemma SmallOctet(x: nat)
    requires x < 256
    ensures ToU8(x) == x
  {
  }

  lemma SmallWord(x: nat)
    requires x < 65536
    ensures ToU16(x) == x
  {
  }

  /** An octet is the sum of its bit fields 7-5, 4, 3 and 2-0. */
  lemma SplitFirstOctet(b: nat)
    requires b < 256
    ensures b == (b / 32) * 32 + ((b / 16) % 2) * 16 + ((b / 8) % 2) * 8 + b % 8
  {
    var q8, a := b / 8, b % 8;
    var q16, s := q8 / 2, q8 % 2;
    var v, t := q16 / 2, q16 % 2;
    assert b == 32 * v + 16 * t + 8 * s + a;
    DivMod(b, 16, q16, 8 * s + a);
    DivMod(b, 32, v, 16 * t + 8 * s + a);
  }

  /** The fields of octet 0 as laid out by the encoder come back out of it. */
  lemma JoinFirstOctet(v: nat, t: nat, s: nat, a: nat)
    requires v < 8 && t < 2 && s < 2 && a < 8
    ensures var b := v * 32 + t * 16 + s * 8 + a;
      b / 32 == v && (b / 16) % 2 == t && (b / 8) % 2 == s && b % 8 == a
  {
    var b := v * 32 + t * 16 + s * 8 + a;
    DivMod(b, 32, v, t * 16 + s * 8 + a);
    DivMod(b, 16, 2 * v + t, s * 8 + a);
    DivMod(2 * v + t, 2, v, t);
    DivMod(b, 8, 4 * v + 2 * t + s, a);
    DivMod(4 * v + 2 * t + s, 2, 2 * v + t, s);
  }

  /** A value below `d * m` splits into a high part below `m` and a low part below `d`. */
  lemma JoinParts(hi: nat, lo: nat, d: nat)
    requires d > 0 && lo < d
    ensures (hi * d + lo) / d == hi && (hi * d + lo) % d == lo
  {
    DivMod(hi * d + lo, d, hi, lo);
  }

  /** Taking bits 8 and up of a value cut to `8 + k` bits. */
  lemma HighBitsOfMasked(x: nat, m: nat)
    requires m > 0
    ensures (x % (256 * m)) / 256 == (x / 256) % m
    ensures (x % (256 * m)) % 256 == x % 256
  {
    var q := x / 256;
    var r := x % 256;
    var c := q % m;
    assert x == 256 * q + r;
    assert q == m * (q / m) + c;
    assert x == (256 * m) * (q / m) + (256 * c + r);
    DivMod(x, 256 * m, q / m, 256 * c + r);
    DivMod(256 * c + r, 256, c, r);
  }

  // ----- The field layout, and the codec against the C++ operator expressions -----

  /** The length is written big-endian: octet 4 is the high byte, octet 5 the low byte. */
  lemma LengthBigEndian(h: Header)
    ensures EncodeHeader(h).raw[4] as nat * 256 + EncodeHeader(h).raw[5] == h.packetLength
    ensures EncodeHeader(h).raw[4] == h.packetLength / 256
  {
  }

  /** Decoding computes the shift, remainder and `|` expressions of the C++ constructor. */
  lemma DecodeMatchesSource(rawi: seq<U8>)
    requires |rawi| >= HeaderSize
    ensures var h := Decode(rawi);
      && h.version == ToU8(Shr(rawi[0], 5))
      && h.packetType == ToBool(Shr(rawi[0], 4) % 2)
      && h.secondaryHeaderFlag == ToBool(Shr(rawi[0], 3) % 2)
      && h.apid == ToU16(Or(Shl(rawi[0] % 8, 8), rawi[1]))
      && h.sequenceFlag == ToU8(Shr(rawi[2], 6))
      && h.packetSequenceCount == ToU16(Or(Shl(rawi[2] % 64, 8), rawi[3]))
      && h.packetLength == ToU16(Or(Shl(rawi[4], 8), rawi[5]))
  {
    OctetShifts(rawi[0], rawi[2]);
    JoinOctets(rawi[0] % 8, rawi[1]);
    JoinOctets(rawi[2] % 64, rawi[3]);
    JoinOctets(rawi[4], rawi[5]);
  }

  /** The right shifts of the constructor applied to octets 0 and 2. */
  lemma OctetShifts(b0: nat, b2: nat)
    requires b0 < 256 && b2 < 256
    ensures ToU8(Shr(b0, 5)) == b0 / 32
    ensures Shr(b0, 4) == b0 / 16 && Shr(b0, 3) == b0 / 8
    ensures ToU8(Shr(b2, 6)) == b2 / 64
  {
    ShiftValues(b0);
    ShiftValues(b2);
    SmallOctet(b0 / 32);
    SmallOctet(b2 / 64);
  }

  /** `(hi << 8) | lo` for octets `hi` and `lo`, stored in 16 bits, is `hi * 256 + lo`. */
  lemma JoinOctets(hi: nat, lo: nat)
    requires hi < 256 && lo < 256
    ensures ToU16(Or(Shl(hi, 8), lo)) == hi * 256 + lo
  {
    var j := Or(Shl(hi, 8), lo);
    assert Shl(hi, 8) == hi * Pow2(8);
    OrDisjoint(hi, lo, 8);
    assert j == hi * Pow2(8) + lo;
    assert Pow2(8) == 256 by { Pow2Values(); }
    SmallWord(hi * 256 + lo);
  }

  /** Octet 0 as the C++ encoder writes it, operator by operator. */
  function SourceOctet0(version: nat, packetType: bool, secondaryHeaderFlag: bool, apid: nat): nat
  {
    ToU8(Or(Or(Or(Shl(And(version, 0x7), 5),
                  Shl(And(BoolToInt(packetType), 0x1), 4)),
               Shl(And(BoolToInt(secondaryHeaderFlag), 0x1), 3)),
            And(Shr(apid, 8), 0x7)))
  }

  /** Octet 2 as the C++ encoder writes it, operator by operator. */
  function SourceOctet2(sequenceFlag: nat, packetSequenceCount: nat): nat
  {
    ToU8(Or(Shl(And(sequenceFlag, 0x3), 6), And(Shr(packetSequenceCount, 8), 0x3F)))
  }

  /** Encoding computes the mask, shift and `|` expressions of `CCSDSHeader::encodeHDR`. */
  lemma EncodeMatchesSource(h: Header)
    ensures EncodeHeader(h).raw == [
      SourceOctet0(h.version, h.packetType, h.secondaryHeaderFlag, h.apid),
      ToU8(And(h.apid, 0xFF)),
      SourceOctet2(h.sequenceFlag, h.packetSequenceCount),
      ToU8(And(h.packetSequenceCount, 0xFF)),
      ToU8(Shr(h.packetLength, 8)),
      ToU8(And(h.packetLength, 0xFF))]
  {
    var e := EncodeHeader(h).raw;
    assert e[0] == SourceOctet0(h.version, h.packetType, h.secondaryHeaderFlag, h.apid) by {
      Octet0MatchesSource(h.version, h.packetType, h.secondaryHeaderFlag, h.apid);
    }
    assert e[1] == ToU8(And(h.apid, 0xFF)) by { LowOctetMask(h.apid); }
    assert e[2] == SourceOctet2(h.sequenceFlag, h.packetSequenceCount) by {
      Octet2MatchesSource(h.sequenceFlag, h.packetSequenceCount);
    }
    assert e[3] == ToU8(And(h.packetSequenceCount, 0xFF)) by { LowOctetMask(h.packetSequenceCount); }
    assert e[4] == ToU8(Shr(h.packetLength, 8)) by { Pow2Values(); }
    assert e[5] == ToU8(And(h.packetLength, 0xFF)) by { LowOctetMask(h.packetLength); }
  }

  /** Masking with `0xFF` and storing into a byte keeps the low octet. */
  lemma LowOctetMask(x: nat)
    ensures ToU8(And(x, 0xFF)) == x % 256
  {
    var m := And(x, 0xFF);
    assert m == x % 256 by {
      Pow2Values();
      AndLowMask(x, 8);
    }
    assert ToU8(m) == m;
  }

  lemma Octet0MatchesSource(version: nat, packetType: bool, secondaryHeaderFlag: bool, apid: nat)
    ensures SourceOctet0(version, packetType, secondaryHeaderFlag, apid)
         == (version % 8) * 32 + BoolToInt(packetType) * 16
            + BoolToInt(secondaryHeaderFlag) * 8 + (apid / 256) % 8
  {
    Octet0Masks(version, packetType, secondaryHeaderFlag, apid);
    PackFirstOctet(And(version, 0x7), And(BoolToInt(packetType), 0x1),
                   And(BoolToInt(secondaryHeaderFlag), 0x1), And(Shr(apid, 8), 0x7));
  }

  lemma Octet0Masks(version: nat, packetType: bool, secondaryHeaderFlag: bool, apid: nat)
    ensures And(version, 0x7) == version % 8
    ensures And(BoolToInt(packetType), 0x1) == BoolToInt(packetType)
    ensures And(BoolToInt(secondaryHeaderFlag), 0x1) == BoolToInt(secondaryHeaderFlag)
    ensures And(Shr(apid, 8), 0x7) == (apid / 256) % 8
  {
    Pow2Values();
    AndLowMask(version, 3);
    AndLowMask(BoolToInt(packetType), 1);
    AndLowMask(BoolToInt(secondaryHeaderFlag), 1);
    AndLowMask(Shr(apid, 8), 3);
  }

  /** `(v << 5) | (t << 4) | (s << 3) | a` with every part inside its own bits. */
  lemma PackFirstOctet(v: nat, t: nat, s: nat, a: nat)
    requires v < 8 && t < 2 && s < 2 && a < 8
    ensures ToU8(Or(Or(Or(Shl(v, 5), Shl(t, 4)), Shl(s, 3)), a)) == v * 32 + t * 16 + s * 8 + a
  {
    var x := 2 * v + t;
    var w := 2 * x + s;
    var inner := Or(Shl(v, 5), Shl(t, 4));
    PackTop(v, t);
    assert inner == x * 16;
    var middle := Or(inner, Shl(s, 3));
    PackMiddle(x, s);
    assert middle == w * 8;
    var all := Or(middle, a);
    PackBottom(w, a);
    var n := v * 32 + t * 16 + s * 8 + a;
    assert all == n;
    SmallOctet(n);
  }

  lemma PackTop(v: nat, t: nat)
    requires t < 2
    ensures Or(Shl(v, 5), Shl(t, 4)) == (2 * v + t) * 16
  {
    Pow2Values();
    OrPair(v, t, 4);
  }

  lemma PackMiddle(w: nat, s: nat)
    requires s < 2
    ensures Or(w * 16, Shl(s, 3)) == (2 * w + s) * 8
  {
    Pow2Values();
    OrPair(w, s, 3);
  }

  lemma PackBottom(w: nat, a: nat)
    requires a < 8
    ensures Or(w * 8, a) == w * 8 + a
  {
    Pow2Values();
    OrDisjoint(w, a, 3);
  }

  /** `(v << (k + 1)) | (t << k)` for a single bit `t` is `(2v + t) << k`. */
  lemma OrPair(v: nat, t: nat, k: nat)
    requires t < 2
    ensures Or(v * Pow2(k + 1), t * Pow2(k)) == (2 * v + t) * Pow2(k)
  {
    assert v * Pow2(k + 1) == (2 * v) * Pow2(k);
    OrShift(2 * v, t, k);
    assert Pow2(1) == 2;
    OrDisjoint(v, t, 1);
  }

  lemma Octet2MatchesSource(sequenceFlag: nat, packetSequenceCount: nat)
    ensures SourceOctet2(sequenceFlag, packetSequenceCount)
         == (sequenceFlag % 4) * 64 + (packetSequenceCount / 256) % 64
  {
    var f := And(sequenceFlag, 0x3);
    var c := And(Shr(packetSequenceCount, 8), 0x3F);
    assert f == sequenceFlag % 4 by {
      Pow2Values();
      AndLowMask(sequenceFlag, 2);
    }
    assert c == (packetSequenceCount / 256) % 64 by {
      Pow2Values();
      AndLowMask(Shr(packetSequenceCount, 8), 6);
    }
    var all := Or(Shl(f, 6), c);
    var n := f * 64 + c;
    assert all == n by {
      Pow2Values();
      OrDisjoint(f, c, 6);
    }
    SmallOctet(n);
  }

  // ----- Round trips -----

  /** Bytes to header to bytes: re-encoding a decoded header reproduces its octets. */
  lemma DecodeEncode(rawi: seq<U8>)
    requires |rawi| == HeaderSize
    ensures EncodeHeader(Decode(rawi)) == Decode(rawi)
    ensures EncodeHeader(Decode(rawi)).raw == rawi
  {
    var e := EncodeHeader(Decode(rawi)).raw;
    FirstOctetBack(rawi[0], rawi[1]);
    ThirdOctetBack(rawi[2], rawi[3]);
    JoinParts(rawi[4], rawi[5], 256);
    SmallOctet(rawi[4]);
    assert e == rawi;
  }

  /** Octet 0 comes back out of the fields decoded from octets 0 and 1. */
  lemma FirstOctetBack(b0: nat, b1: nat)
    requires b0 < 256 && b1 < 256
    ensures var apid := (b0 % 8) * 256 + b1;
      ((b0 / 32) % 8) * 32 + BoolToInt(ToBool((b0 / 16) % 2)) * 16
        + BoolToInt(ToBool((b0 / 8) % 2)) * 8 + (apid / 256) % 8 == b0
      && apid % 256 == b1
  {
    JoinParts(b0 % 8, b1, 256);
    SplitFirstOctet(b0);
  }

  /** Octet 2 comes back out of the fields decoded from octets 2 and 3. */
  lemma ThirdOctetBack(b2: nat, b3: nat)
    requires b2 < 256 && b3 < 256
    ensures var count := (b2 % 64) * 256 + b3;
      ((b2 / 64) % 4) * 64 + (count / 256) % 64 == b2 && count % 256 == b3
  {
    JoinParts(b2 % 64, b3, 256);
  }

  /**
    Header to bytes to header: decoding the encoder's octets gives back every
    field cut down to its protocol width, so in-range fields come back unchanged.
   */
  lemma EncodeDecode(h: Header)
    ensures SameFields(Decode(EncodeHeader(h).raw), Masked(h))
    ensures InRange(h) ==> SameFields(Decode(EncodeHeader(h).raw), h)
  {
    var e := EncodeHeader(h);
    var d := Decode(e.raw);
    JoinFirstOctet(h.version % 8, BoolToInt(h.packetType),
                   BoolToInt(h.secondaryHeaderFlag), (h.apid / 256) % 8);
    HighBitsOfMasked(h.apid, 8);
    JoinParts((h.apid / 256) % 8, h.apid % 256, 256);
    assert d.apid == h.apid % 2048;
    JoinParts(h.sequenceFlag % 4, (h.packetSequenceCount / 256) % 64, 64);
    HighBitsOfMasked(h.packetSequenceCount, 64);
    JoinParts((h.packetSequenceCount / 256) % 64, h.packetSequenceCount % 256, 256);
    assert d.packetSequenceCount == h.packetSequenceCount % 16384;
    JoinParts(h.packetLength / 256, h.packetLength % 256, 256);
    assert d.packetLength == h.packetLength;
  }

  /**
    Out-of-range field values cannot corrupt their neighbours: the encoder's
    octets depend only on the low bits of each field.
   */
  lemma EncodeUsesLowBits(h: Header)
    ensures EncodeHeader(h).raw == EncodeHeader(Masked(h)).raw
  {
    var r := EncodeHeader(h).raw;
    var d := Decode(r);
    EncodeDecode(h);
    DecodeEncode(r);
    assert d.(raw := Masked(h).raw) == Masked(h);
    assert EncodeHeader(d).raw == EncodeHeader(d.(raw := Masked(h).raw)).raw;
  }

  /**
    A packet whose header fields are in range and whose payload holds 1 to
    65536 octets encodes to octets that decode to the same fields, with the
    length field one less than the payload size.
   */
  lemma EncodePacketDecode(p: Packet)
    requires InRange(p.header)
    requires 1 <= |p.payload| <= 65536
    ensures Decode(EncodePacket(p).header.raw).packetLength + 1 == |p.payload|
    ensures SameFields(Decode(EncodePacket(p).header.raw), p.header.(packetLength := |p.payload| - 1))
  {
    var h := p.header.(packetLength := |p.payload| - 1);
    assert EncodePacket(p).header == EncodeHeader(h);
    EncodeDecode(h);
  }
}
