/** The NTP client request and the decode of the Transmit Timestamp from
    the reply. The packet is 48 octets (section 7.3 of RFC 5905); the first
    octet holds LI (2 bits), VN (3 bits) and Mode (3 bits), and octets 40-47
    hold the Transmit Timestamp, seconds then fraction, most significant
    octet first. */
module NtpPacket {
  import opened FixedWidth
  import NtpTime

  const PacketSize: nat := 48

  /** A 48-octet packet buffer. */
  type Packet = p: seq<bv8> | |p| == PacketSize witness seq(PacketSize, _ => 0)

  /** The three fields of the first octet. */
  function LeapIndicator(b: bv8): bv8 { b >> 6 }
  function VersionNumber(b: bv8): bv8 { (b >> 3) & 7 }
  function Mode(b: bv8): bv8 { b & 7 }

  /** Mode 3 is "client" (section 7.3 of RFC 5905). */
  const ModeClient: bv8 := 3

  /** `uint8_t packet[48] = { 0x1B }`: the first octet given, the rest zero. */
  function Request(): (p: Packet)
    ensures LeapIndicator(p[0]) == 0 && VersionNumber(p[0]) == 3 && Mode(p[0]) == ModeClient
    ensures forall i :: 1 <= i < PacketSize ==> p[i] == 0
  {
    [0x1B] + seq(PacketSize - 1, _ => 0)
  }

  /** `(b0 << 24) | (b1 << 16) | (b2 << 8) | b3` stored in a `uint32_t`.
      In C++ the octets are promoted to `int` and `b0 << 24` can exceed
      `INT_MAX`; the conversion to `uint32_t` keeps the low 32 bits, which
      is the pattern computed here. */
  function BigEndian32(b0: bv8, b1: bv8, b2: bv8, b3: bv8): (r: bv32)
    ensures r as int == b0 as int * 0x100_0000 + b1 as int * 0x1_0000 + b2 as int * 0x100 + b3 as int
  {
    BigEndianValue(b0, b1, b2, b3);
    ((b0 as bv32) << 24) | ((b1 as bv32) << 16) | ((b2 as bv32) << 8) | (b3 as bv32)
  }

  lemma BigEndianValue(b0: bv8, b1: bv8, b2: bv8, b3: bv8)
    ensures (((b0 as bv32) << 24) | ((b1 as bv32) << 16) | ((b2 as bv32) << 8) | (b3 as bv32)) as int
         == b0 as int * 0x100_0000 + b1 as int * 0x1_0000 + b2 as int * 0x100 + b3 as int
  {
  }

  /** The seconds of the Transmit Timestamp, octets 40-43. */
  function Seconds(p: Packet): (s: uint32)
    ensures s == p[40] as int * 0x100_0000 + p[41] as int * 0x1_0000 + p[42] as int * 0x100 + p[43] as int
  {
    WordAt(p, 40) as int
  }

  /** The fraction of the Transmit Timestamp, octets 44-47. */
  function Fraction(p: Packet): (f: uint32)
    ensures f == p[44] as int * 0x100_0000 + p[45] as int * 0x1_0000 + p[46] as int * 0x100 + p[47] as int
  {
    WordAt(p, 44) as int
  }

  /** The four octets of a 32-bit value, most significant first. */
  function Octets(v: bv32): (b: seq<bv8>)
    ensures |b| == 4
  {
    [(v >> 24) as bv8, ((v >> 16) & 0xFF) as bv8, ((v >> 8) & 0xFF) as bv8, (v & 0xFF) as bv8]
  }

  /** Decoding the octets of a value gives the value back. */
  lemma DecodeOctets(v: bv32)
    ensures var b := Octets(v); BigEndian32(b[0], b[1], b[2], b[3]) == v
  {
  }

  /** And the octets of a decoded value are the octets decoded. */
  lemma OctetsDecode(b0: bv8, b1: bv8, b2: bv8, b3: bv8)
    ensures Octets(BigEndian32(b0, b1, b2, b3)) == [b0, b1, b2, b3]
  {
  }

  /** So the decode is injective on its four octets. */
  lemma BigEndian32Injective(a0: bv8, a1: bv8, a2: bv8, a3: bv8, b0: bv8, b1: bv8, b2: bv8, b3: bv8)
    requires BigEndian32(a0, a1, a2, a3) == BigEndian32(b0, b1, b2, b3)
    ensures a0 == b0 && a1 == b1 && a2 == b2 && a3 == b3
  {
    OctetsDecode(a0, a1, a2, a3);
    OctetsDecode(b0, b1, b2, b3);
  }

  /** The big-endian word at octets `i..i+4` of `p`. */
  function WordAt(p: seq<bv8>, i: nat): bv32
    requires i + 4 <= |p|
  {
    BigEndian32(p[i], p[i + 1], p[i + 2], p[i + 3])
  }

  /** A word is determined by, and determines, its four octets. */
  lemma WordAtLocal(p: seq<bv8>, q: seq<bv8>, i: nat)
    requires i + 4 <= |p| && i + 4 <= |q|
    ensures p[i..i + 4] == q[i..i + 4] <==> WordAt(p, i) == WordAt(q, i)
  {
    var a, b := p[i..i + 4], q[i..i + 4];
    assert a == [p[i], p[i + 1], p[i + 2], p[i + 3]];
    assert b == [q[i], q[i + 1], q[i + 2], q[i + 3]];
    if WordAt(p, i) == WordAt(q, i) {
      BigEndian32Injective(p[i], p[i + 1], p[i + 2], p[i + 3], q[i], q[i + 1], q[i + 2], q[i + 3]);
    }
  }

  /** Each field depends only on its own four octets. */
  lemma SecondsAreLocal(p: Packet, q: Packet)
    ensures p[40..44] == q[40..44] <==> Seconds(p) == Seconds(q)
  {
    WordAtLocal(p, q, 40);
    WordAsInt(WordAt(p, 40), WordAt(q, 40));
  }

  lemma FractionIsLocal(p: Packet, q: Packet)
    ensures p[44..48] == q[44..48] <==> Fraction(p) == Fraction(q)
  {
    WordAtLocal(p, q, 44);
    WordAsInt(WordAt(p, 44), WordAt(q, 44));
  }

  lemma WordAsInt(x: bv32, y: bv32)
    ensures x as int == y as int <==> x == y
  {
    if x as int == y as int {
      assert x == (x as int) as bv32;
      assert y == (y as int) as bv32;
    }
  }

  /** The 64-bit NTP timestamp the two fields make up. */
  function TransmitTimestamp(p: Packet): (t: uint64)
    ensures t / Two32 == Seconds(p) && t % Two32 == Fraction(p)
  {
    Seconds(p) * Two32 + Fraction(p)
  }

  /** Converting the reply's timestamp with `ntpToUtc` keeps only the seconds. */
  lemma TransmitTimestampToUtc(p: Packet)
    ensures NtpTime.NtpToUtc(TransmitTimestamp(p)) == Seconds(p) - NtpTime.UnixEpochInNtp
  {
  }

  lemma Examples()
    ensures Request()[0] == 0x1B && |Request()| == 48
    ensures BigEndian32(0x83, 0xAA, 0x7E, 0x80) as int == NtpTime.UnixEpochInNtp
  {
  }
}
