/**
 Packets of the coprocessor link as they lie in memory, from the command byte on: command, address, offset
 and length (two bytes each, low byte first), data, and the CRC right behind the data.
 */
module SpiPacket {
  import opened Arith
  import opened Gf2
  import opened BitBuffer
  import opened Bytes
  import opened Crc16

  const PACKET_MAX_BYTES: nat := 4096
  const LEN_AT: nat := 4
  const DATA_AT: nat := 6
  const BUF_MIN_BYTES: nat := 8
  const DATA_MAX_BYTES: nat := 4088

  /** A byte from its value: two hexadecimal digits. */
  function OctetOf(v: nat): Octet { Hex(v / 16) + Hex(v % 16) }

  function Bit(b: bool): nat { if b then 1 else 0 }

  function Digit(b0: bool, b1: bool, b2: bool, b3: bool): (d: nat)
    ensures d < 16
  {
    8 * Bit(b0) + 4 * Bit(b1) + 2 * Bit(b2) + Bit(b3)
  }

  function ValueOf(o: Octet): byte
  {
    16 * Digit(o[0], o[1], o[2], o[3]) + Digit(o[4], o[5], o[6], o[7])
  }

  lemma DigitRoundTrip(d: nat)
    requires d < 16
    ensures Digit(Hex(d)[0], Hex(d)[1], Hex(d)[2], Hex(d)[3]) == d
  {
  }

  lemma OctetRoundTrip(v: nat)
    requires v < 256
    ensures ValueOf(OctetOf(v)) == v
  {
    hide Hex, Digit;
    DigitRoundTrip(v / 16);
    DigitRoundTrip(v % 16);
  }

  function U16Octets(v: uint16): (b: seq<Octet>)
    ensures |b| == 2
  {
    [OctetOf(v % 256), OctetOf(v / 256)]
  }

  function Octets(data: seq<byte>): (r: seq<Octet>)
    ensures |r| == |data|
  {
    seq(|data|, i requires 0 <= i < |data| => OctetOf(data[i]))
  }

  /** A packet image with its CRC filled in. */
  function Populated(image: seq<Octet>): (r: seq<Octet>)
    requires |image| >= 2
    ensures |r| == |image| && CrcMatches(r)
  {
    var body := image[..|image| - 2];
    assert (body + StoredCrc(Swap16(RegisterAfter(Ones16(), body))))[..|image| - 2] == body;
    body + StoredCrc(Swap16(RegisterAfter(Ones16(), body)))
  }

  /** A populated frame has residue zero, and populating changes nothing but the CRC. */
  lemma PopulatedHasZeroResidue(image: seq<Octet>)
    requires |image| >= 2
    ensures Residue(Populated(image)) == Zeros(16)
    ensures Populated(image)[..|image| - 2] == image[..|image| - 2]
  {
    hide CrcMatches, Residue;
    MatchesIsZeroResidue(Populated(image));
  }

  /** What ConstructFromBuffer makes of a frame: the length field is replaced by the length that arrived. */
  function Received(frame: seq<Octet>): (r: seq<Octet>)
    requires BUF_MIN_BYTES <= |frame| <= PACKET_MAX_BYTES
    ensures |r| == |frame|
  {
    frame[..LEN_AT] + U16Octets(|frame| - BUF_MIN_BYTES) + frame[DATA_AT..]
  }

  /** A frame that a populated write packet puts on the wire. */
  predicate SentFrame(f: seq<Octet>) {
    && BUF_MIN_BYTES <= |f| <= PACKET_MAX_BYTES
    && f[LEN_AT..DATA_AT] == U16Octets(|f| - BUF_MIN_BYTES)
    && CrcMatches(f)
  }

  /** The bytes before the CRC of a write packet. */
  function Body(cmd: byte, address: byte, offset: uint16, data: seq<byte>): (r: seq<Octet>)
    requires |data| <= DATA_MAX_BYTES
    ensures |r| == DATA_AT + |data|
  {
    [OctetOf(cmd), OctetOf(address)] + U16Octets(offset) + U16Octets(|data|) + Octets(data)
  }

  /** Where the fields of a write packet lie: command, address, then offset and length with the low byte first, then the
      data. */
  lemma BodyLayout(cmd: byte, address: byte, offset: uint16, data: seq<byte>)
    requires |data| <= DATA_MAX_BYTES
    ensures var b := Body(cmd, address, offset, data);
            && |b| == 6 + |data| && ValueOf(b[0]) == cmd && ValueOf(b[1]) == address
            && ValueOf(b[2]) + 256 * ValueOf(b[3]) == offset && ValueOf(b[4]) + 256 * ValueOf(b[5]) == |data|
            && forall i :: 6 <= i < |b| ==> ValueOf(b[i]) == data[i - 6]
  {
    hide OctetOf, ValueOf;
    OctetRoundTrip(cmd);
    OctetRoundTrip(address);
    OctetRoundTrip(offset % 256);
    OctetRoundTrip(offset / 256);
    OctetRoundTrip(|data| % 256);
    OctetRoundTrip(|data| / 256);
    var b := Body(cmd, address, offset, data);
    forall i | 6 <= i < |b|
      ensures ValueOf(b[i]) == data[i - 6]
    {
      assert b[i] == OctetOf(data[i - 6]);
      OctetRoundTrip(data[i - 6]);
    }
  }

  /** The CRC that IsValid computes over the bytes it covers; none are covered when the 16-bit length wraps low. */
  function CrcOver(covered: int, mem: seq<Octet>): Register
    requires covered <= |mem|
  {
    if covered < 0 then Zeros(16) else Swap16(RegisterAfter(Ones16(), mem[..covered]))
  }

  class SCWritePacket {
    const mem: array<Octet>

    function Len(): uint16
      requires mem.Length == PACKET_MAX_BYTES
      reads mem
    {
      ValueOf(mem[LEN_AT]) + 256 * ValueOf(mem[LEN_AT + 1])
    }

    /** The length field is in range, as after every ConstructFromBuffer and in every packet that is sent. */
    ghost predicate Valid()
      reads mem
    {
      mem.Length == PACKET_MAX_BYTES && Len() <= DATA_MAX_BYTES
    }

    /** The CRC where GetCRCPtr looks for it is that of the bytes that GetBufLenBytes covers. */
    ghost predicate Accepts()
      requires mem.Length == PACKET_MAX_BYTES
      reads mem
    {
      StoredCrc(CrcOver(BufLen() - 2, mem[..])) == mem[CrcAt()..CrcAt() + 2]
    }

    /** GetBufLenBytes. */
    function BufLen(): uint16
      requires mem.Length == PACKET_MAX_BYTES
      reads mem
    {
      Min(U16(DATA_AT + Len() + 2), PACKET_MAX_BYTES)
    }

    /** GetCRCPtr, counted from the command byte. */
    function CrcAt(): nat
      requires mem.Length == PACKET_MAX_BYTES
      reads mem
    {
      DATA_AT + Min(Len(), DATA_MAX_BYTES)
    }

    /** The bytes that go on the wire. */
    ghost function Image(): (f: seq<Octet>)
      requires Valid()
      reads mem
      ensures |f| == BUF_MIN_BYTES + Len()
    {
      mem[..BUF_MIN_BYTES + Len()]
    }

    constructor ()
      ensures fresh(mem) && Valid() && Len() == 0
      ensures forall i :: 0 <= i < PACKET_MAX_BYTES ==> mem[i] == OctetOf(0)
    {
      mem := new Octet[PACKET_MAX_BYTES](_ => OctetOf(0));
      new;
      OctetRoundTrip(0);
    }

    /** Whatever the length field says, the answer is about the clamped CRC position; with a length in range it is
        about the image. */
    method IsValid() returns (ok: bool)
      requires mem.Length == PACKET_MAX_BYTES
      ensures ok <==> Accepts()
      ensures Valid() ==> (ok <==> CrcMatches(Image()))
    {
      hide RegisterAfter, Swap16, ValueOf;
      var crc := CalculateCRC16(mem[..], BufLen() - 2);
      if Valid() {
        assert mem[..][..BufLen() - 2] == Image()[..|Image()| - 2];
        assert mem[CrcAt()..CrcAt() + 2] == Image()[|Image()| - 2..];
      }
      ok := StoredCrc(crc) == mem[CrcAt()..CrcAt() + 2];
    }

    method SetCRC(crc: Register)
      requires mem.Length == PACKET_MAX_BYTES
      modifies mem
      ensures Len() == old(Len()) && mem[CrcAt()..CrcAt() + 2] == StoredCrc(crc)
      ensures mem[..CrcAt()] == old(mem[..CrcAt()]) && mem[CrcAt() + 2..] == old(mem[CrcAt() + 2..])
    {
      hide ValueOf, StoredCrc;
      var stored, at := StoredCrc(crc), CrcAt();
      mem[at] := stored[0];
      mem[at + 1] := stored[1];
      assert mem[at..at + 2] == stored;
    }

    /** Whatever the length field says, the packet is accepted afterwards, and only the two CRC bytes changed. */
    method PopulateCRC()
      requires mem.Length == PACKET_MAX_BYTES
      modifies mem
      ensures Len() == old(Len()) && Accepts()
      ensures mem[..CrcAt()] == old(mem[..CrcAt()]) && mem[CrcAt() + 2..] == old(mem[CrcAt() + 2..])
      ensures old(Valid()) ==> Image() == Populated(old(Image()))
    {
      hide RegisterAfter, Swap16, ValueOf, StoredCrc, Zeros;
      ghost var was := mem[..];
      var covered := BufLen() - 2;
      CoveredBeforeCrc();
      var crc := CalculateCRC16(mem[..], covered);
      SetCRC(crc);
      if covered >= 0 {
        assert mem[..covered] == mem[..CrcAt()][..covered];
        assert was[..covered] == was[..CrcAt()][..covered];
        assert mem[..][..covered] == mem[..covered] && old(mem[..CrcAt()]) == was[..CrcAt()];
      }
      if old(Valid()) {
        assert old(Image())[..covered] == was[..covered];
        assert mem[..covered + 2] == mem[..covered] + mem[covered..covered + 2];
      }
    }

    lemma CoveredBeforeCrc()
      requires mem.Length == PACKET_MAX_BYTES
      ensures BufLen() - 2 <= CrcAt() && (Len() <= DATA_MAX_BYTES ==> BufLen() - 2 == CrcAt() == DATA_AT + Len())
    {
    }

    /** Everything of a write packet but its CRC. */
    method Fill(cmd: byte, address: byte, offset: uint16, data: seq<byte>)
      requires Valid() && |data| <= DATA_MAX_BYTES
      modifies mem
      ensures Valid() && Len() == |data| && Image()[..DATA_AT + |data|] == Body(cmd, address, offset, data)
    {
      hide ValueOf, OctetOf;
      mem[0], mem[1] := OctetOf(cmd), OctetOf(address);
      mem[2], mem[3] := OctetOf(offset % 256), OctetOf(offset / 256);
      mem[LEN_AT], mem[LEN_AT + 1] := OctetOf(|data| % 256), OctetOf(|data| / 256);
      forall i | 0 <= i < |data| {
        mem[DATA_AT + i] := OctetOf(data[i]);
      }
      OctetRoundTrip(|data| % 256);
      OctetRoundTrip(|data| / 256);
      assert mem[..DATA_AT + |data|] == Body(cmd, address, offset, data);
    }

    /** A frame that is too short changes nothing: the packet still holds what it held before. */
    method ConstructFromBuffer(buf: seq<Octet>, n: uint16)
      requires Valid() && n <= |buf| && n <= PACKET_MAX_BYTES
      modifies mem
      ensures Valid()
      ensures n < BUF_MIN_BYTES ==> mem[..] == old(mem[..])
      ensures n >= BUF_MIN_BYTES ==> Image() == Received(buf[..n])
    {
      hide ValueOf, OctetOf;
      if n < BUF_MIN_BYTES {
        return;
      }
      forall i | 0 <= i < n {
        mem[i] := buf[i];
      }
      var len := n - BUF_MIN_BYTES;
      mem[LEN_AT] := OctetOf(len % 256);
      mem[LEN_AT + 1] := OctetOf(len / 256);
      OctetRoundTrip(len % 256);
      OctetRoundTrip(len / 256);
      assert mem[..n] == Received(buf[..n]);
    }
  }

  lemma ReceivedAt(f: seq<Octet>, g: seq<Octet>, i: nat)
    requires SentFrame(f) && |g| == |f| && i < |f|
    ensures Received(g)[i] == if LEN_AT <= i < DATA_AT then f[i] else g[i]
  {
    hide CrcMatches, OctetOf;
    if LEN_AT <= i < DATA_AT {
      assert f[i] == f[LEN_AT..DATA_AT][i - LEN_AT];
    }
  }

  /** Repairing the length field brings the frame no further from the one that was sent. */
  lemma RepairStaysWithin(f: seq<Octet>, g: seq<Octet>, at: nat)
    requires SentFrame(f) && DifferWithinTwo(f, g, at)
    ensures DifferWithinTwo(f, Received(g), at)
  {
    hide CrcMatches, Received;
    var r := Received(g);
    forall i | 0 <= i < |f| && !(at <= i < at + 2)
      ensures r[i] == f[i]
    {
      ReceivedAt(f, g, i);
      if i < at {
        assert g[..at][i] == f[..at][i];
      } else {
        assert g[at + 2..][i - at - 2] == f[at + 2..][i - at - 2];
      }
    }
  }

  /** Whatever happens to two adjacent bytes of a write frame on the wire, the packet that the receiver makes of
      it is accepted exactly when it is the packet that was sent. */
  lemma AcceptedIsSent(f: seq<Octet>, g: seq<Octet>, at: nat)
    requires SentFrame(f) && DifferWithinTwo(f, g, at)
    ensures CrcMatches(Received(g)) <==> Received(g) == f
  {
    RepairStaysWithin(f, g, at);
    TwoByteCorruption(f, Received(g), at);
  }

  /** Damage outside the length field is rejected; damage to the length field alone is repaired. */
  lemma DamageRejectedOrRepaired(f: seq<Octet>, g: seq<Octet>, at: nat)
    requires SentFrame(f) && DifferWithinTwo(f, g, at)
    ensures CrcMatches(Received(g)) <==> g[..LEN_AT] == f[..LEN_AT] && g[DATA_AT..] == f[DATA_AT..]
  {
    hide CrcMatches;
    AcceptedIsSent(f, g, at);
    var r := Received(g);
    assert r[..LEN_AT] == g[..LEN_AT] && r[DATA_AT..] == g[DATA_AT..] && r[LEN_AT..DATA_AT] == f[LEN_AT..DATA_AT];
    assert f == f[..LEN_AT] + f[LEN_AT..DATA_AT] + f[DATA_AT..];
    assert r == r[..LEN_AT] + r[LEN_AT..DATA_AT] + r[DATA_AT..];
  }
}
