/**
 The slave's side of a write, from the bytes on the wire: the static write packet is rebuilt from what arrived,
 checked, applied and acknowledged.  What that comes to is what SpiCoprocessor says of one attempt.
 */
module SpiSlave {
  import opened Arith
  import opened BitBuffer
  import opened Bytes
  import opened Crc16
  import opened SpiLink
  import opened SpiPacket
  import Writes = SpiCoprocessor

  const CMD_WRITE: byte := 1
  const CMD_WRITE_REQUIRE_ACK: byte := 2
  const CMD_READ: byte := 3
  const READ_REQUEST_BYTES: nat := 8

  datatype Reply = NoReply | Ack(ok: bool)

  /** The object that is looked at, and what SetBytes says to a packet for any other one. */
  datatype Target = Target(address: byte, other: seq<Octet> -> bool)

  /** The object's bytes, what was last put into effect, and the static write packet up to its CRC. */
  datatype Memory = Memory(bytes: seq<byte>, active: seq<byte>, image: seq<Octet>)

  predicate IsImage(image: seq<Octet>) { BUF_MIN_BYTES <= |image| <= PACKET_MAX_BYTES }

  // ----- The fields of a packet -----

  function AddressOf(image: seq<Octet>): byte
    requires IsImage(image)
  {
    ValueOf(image[1])
  }

  function OffsetOf(image: seq<Octet>): uint16
    requires IsImage(image)
  {
    ValueOf(image[2]) + 256 * ValueOf(image[3])
  }

  function DataOf(image: seq<Octet>): (r: seq<byte>)
    requires IsImage(image)
    ensures |r| == |image| - BUF_MIN_BYTES
  {
    seq<byte>(|image| - BUF_MIN_BYTES, i requires 0 <= i < |image| - BUF_MIN_BYTES => ValueOf(image[DATA_AT + i]))
  }

  predicate IsWriteCommand(o: Octet) { ValueOf(o) == CMD_WRITE || ValueOf(o) == CMD_WRITE_REQUIRE_ACK }

  /** The frame f is a populated write of data at an offset of an object. */
  ghost predicate WriteFrame(f: seq<Octet>, cmd: byte, address: byte, offset: uint16, data: seq<byte>) {
    && |data| <= DATA_MAX_BYTES && |f| == BUF_MIN_BYTES + |data| && CrcMatches(f)
    && f[..DATA_AT + |data|] == Body(cmd, address, offset, data)
  }

  /** The slave reads from a frame what the master put into it. */
  lemma FieldsReadBack(f: seq<Octet>, cmd: byte, address: byte, offset: uint16, data: seq<byte>)
    requires WriteFrame(f, cmd, address, offset, data)
    ensures SentFrame(f) && ValueOf(f[0]) == cmd && AddressOf(f) == address
    ensures OffsetOf(f) == offset && DataOf(f) == data
  {
    hide OctetOf, ValueOf, CrcMatches;
    var body := Body(cmd, address, offset, data);
    assert forall i :: 0 <= i < |body| ==> f[i] == f[..DATA_AT + |data|][i];
    OctetRoundTrip(cmd);
    OctetRoundTrip(address);
    OctetRoundTrip(offset % 256);
    OctetRoundTrip(offset / 256);
    assert f[LEN_AT..DATA_AT] == U16Octets(|data|);
    forall i | 0 <= i < |data|
      ensures DataOf(f)[i] == data[i]
    {
      assert body[DATA_AT + i] == OctetOf(data[i]);
      OctetRoundTrip(data[i]);
    }
  }

  // ----- One transaction -----

  /** The static packet after ConstructFromBuffer. */
  function Rebuilt(image: seq<Octet>, rx: seq<Octet>): (r: seq<Octet>)
    requires IsImage(image) && |rx| <= PACKET_MAX_BYTES
    ensures IsImage(r)
  {
    if |rx| < BUF_MIN_BYTES then image else Received(rx)
  }

  /** The packet lies inside the object, if it is for it; memcpy does not check that. */
  predicate InRange(t: Target, bytes: seq<byte>, image: seq<Octet>)
    requires IsImage(image)
  {
    CrcMatches(image) && AddressOf(image) == t.address ==> OffsetOf(image) + |DataOf(image)| <= |bytes|
  }

  predicate IsWrite(rx: seq<Octet>) { rx != [] && IsWriteCommand(rx[0]) }

  /** The frame goes to the read request, which is shorter than it. */
  predicate Overruns(rx: seq<Octet>) { |rx| > READ_REQUEST_BYTES && ValueOf(rx[0]) == CMD_READ }

  /** A valid packet for the object is copied in; one that ends it puts it into effect. */
  function Applied(t: Target, m: Memory): (r: Memory)
    requires IsImage(m.image) && InRange(t, m.bytes, m.image)
    ensures IsImage(r.image)
  {
    if CrcMatches(m.image) && AddressOf(m.image) == t.address then
      var now := Overwrite(m.bytes, OffsetOf(m.image), DataOf(m.image));
      var whole := OffsetOf(m.image) + |DataOf(m.image)| == |m.bytes|;
      m.(bytes := now, active := if whole then now else m.active)
    else m
  }

  function After(t: Target, m: Memory, rx: seq<Octet>): (r: Memory)
    requires IsImage(m.image) && |rx| <= PACKET_MAX_BYTES
    requires IsWrite(rx) ==> InRange(t, m.bytes, Rebuilt(m.image, rx))
    ensures IsImage(r.image)
  {
    if IsWrite(rx) then Applied(t, m.(image := Rebuilt(m.image, rx))) else m
  }

  function ReplyTo(t: Target, image: seq<Octet>, rx: seq<Octet>): Reply
    requires IsImage(image) && |rx| <= PACKET_MAX_BYTES
  {
    var packet := Rebuilt(image, rx);
    if !IsWrite(rx) || !CrcMatches(packet) || ValueOf(rx[0]) != CMD_WRITE_REQUIRE_ACK then NoReply
    else Ack(AddressOf(packet) == t.address || t.other(packet))
  }

  // ----- The rows of the table of fates -----

  /** The static packet as the next transaction may meet it again. */
  function KeptOf(t: Target, image: seq<Octet>): Writes.Kept
    requires IsImage(image)
  {
    if !CrcMatches(image) then Writes.BadFrame
    else if AddressOf(image) != t.address then Writes.Other(t.other(image))
    else Writes.Frame(OffsetOf(image), DataOf(image))
  }

  function Abstract(t: Target, m: Memory): (s: Writes.Slave)
    requires IsImage(m.image)
    ensures s.bytes == m.bytes
  {
    Writes.Slave(m.bytes, m.active, KeptOf(t, m.image))
  }

  /** What arrives of frame f under each fate. */
  ghost predicate Carries(fate: Fate, f: seq<Octet>, rx: seq<Octet>)
    requires f != []
  {
    && |rx| <= PACKET_MAX_BYTES
    && match fate
       case SendError => !IsWrite(rx) && !Overruns(rx)
       case Lost => !IsWrite(rx) && !Overruns(rx)
       case Garbled => |rx| >= BUF_MIN_BYTES && IsWrite(rx) && !CrcMatches(Received(rx))
       case Truncated => 0 < |rx| < BUF_MIN_BYTES && IsWrite(rx) && ValueOf(rx[0]) == ValueOf(f[0])
       case Muted => 0 < |rx| < BUF_MIN_BYTES && IsWrite(rx) && ValueOf(rx[0]) != ValueOf(f[0])
       case Misrouted => Overruns(rx)
       case ReplyLost => |rx| >= BUF_MIN_BYTES && Received(rx) == f
       case Replied => |rx| >= BUF_MIN_BYTES && Received(rx) == f
  }

  lemma CarriedInRange(fate: Fate, f: seq<Octet>, rx: seq<Octet>)
    requires SentFrame(f) && IsWrite(f) && Carries(fate, f, rx) && !fate.Misrouted?
    ensures |rx| <= PACKET_MAX_BYTES && !Overruns(rx)
  {
    hide CrcMatches, Received, ValueOf;
    if |rx| >= BUF_MIN_BYTES {
      ReceivedKeepsCommand(rx);
    }
  }

  lemma ReceivedKeepsCommand(rx: seq<Octet>)
    requires BUF_MIN_BYTES <= |rx| <= PACKET_MAX_BYTES
    ensures Received(rx)[0] == rx[0]
  {
  }

  /** Applying a packet is what SetBytes does to the object, whether the packet has just arrived or was kept. */
  lemma AppliedIsSet(t: Target, m: Memory)
    requires IsImage(m.image) && Writes.Fits(Abstract(t, m))
    ensures InRange(t, m.bytes, m.image)
    ensures var s := Abstract(t, m);
            Abstract(t, Applied(t, m)) == if s.kept.Frame? then Writes.SetBytes(s, s.kept.offset, s.kept.data) else s
  {
    hide CrcMatches, AddressOf, OffsetOf, DataOf, Overwrite;
  }

  lemma KeptIsFrame(t: Target, f: seq<Octet>, cmd: byte, offset: uint16, data: seq<byte>)
    requires WriteFrame(f, cmd, t.address, offset, data)
    ensures SentFrame(f) && ValueOf(f[0]) == cmd && KeptOf(t, f) == Writes.Frame(offset, data)
  {
    hide CrcMatches, AddressOf, OffsetOf, DataOf;
    FieldsReadBack(f, cmd, t.address, offset, data);
    assert CrcMatches(f);
  }

  /** From whatever state of the slave, an attempt does to its bytes, its effect and its kept packet what the table
      of fates says of it. */
  lemma AttemptFromFrames(t: Target, m: Memory, f: seq<Octet>, cmd: byte, offset: uint16, data: seq<byte>,
                          fate: Fate, rx: seq<Octet>)
    requires IsImage(m.image) && Writes.Fits(Abstract(t, m)) && offset + |data| <= |m.bytes|
    requires WriteFrame(f, cmd, t.address, offset, data) && (cmd == CMD_WRITE || cmd == CMD_WRITE_REQUIRE_ACK)
    requires Carries(fate, f, rx) && !fate.Misrouted?
    ensures IsWrite(rx) ==> InRange(t, m.bytes, Rebuilt(m.image, rx))
    ensures Abstract(t, After(t, m, rx)) == Writes.AfterAttempt(Abstract(t, m), offset, data, fate)
  {
    hide WriteFrame, SentFrame, CrcMatches, Received, ValueOf, AddressOf, OffsetOf, DataOf, Overwrite, InRange, Applied;
    KeptIsFrame(t, f, cmd, offset, data);
    var next := m.(image := Rebuilt(m.image, rx));
    if |rx| >= BUF_MIN_BYTES {
      ReceivedKeepsCommand(rx);
    }
    if IsWrite(rx) {
      AppliedIsSet(t, next);
    }
  }

  /** The slave acknowledges, and the acknowledgement gets back, exactly when the table counts the attempt as done. */
  lemma AckFromFrames(t: Target, m: Memory, f: seq<Octet>, offset: uint16, data: seq<byte>, fate: Fate, rx: seq<Octet>)
    requires IsImage(m.image) && WriteFrame(f, CMD_WRITE_REQUIRE_ACK, t.address, offset, data)
    requires Carries(fate, f, rx) && !fate.Misrouted?
    ensures Writes.AttemptOk(Abstract(t, m), fate, true)
        <==> ReplyTo(t, m.image, rx) == Ack(true) && !fate.ReplyLost? && !fate.SendError?
  {
    hide WriteFrame, SentFrame, CrcMatches, Received, ValueOf, AddressOf, OffsetOf, DataOf, InRange;
    KeptIsFrame(t, f, CMD_WRITE_REQUIRE_ACK, offset, data);
    if |rx| >= BUF_MIN_BYTES {
      ReceivedKeepsCommand(rx);
    }
  }

  /** The slave answers exactly the write that asks for it, once the packet it then has passes the CRC check. */
  lemma AnswersWhenAsked(t: Target, image: seq<Octet>, rx: seq<Octet>)
    requires IsImage(image) && |rx| <= PACKET_MAX_BYTES
    ensures ReplyTo(t, image, rx).Ack?
        <==> rx != [] && ValueOf(rx[0]) == 2 && CrcMatches(if |rx| < BUF_MIN_BYTES then image else Received(rx))
  {
    hide CrcMatches, Received;
  }

  /** Damage to two adjacent bytes has exactly one fate: a frame that carries data and whose command has become the
      read command is misrouted, one whose command is no write any more is lost otherwise, one with damage to the
      length field alone arrives, any other is garbled. */
  lemma DamageHasOneFate(f: seq<Octet>, rx: seq<Octet>, at: nat)
    requires SentFrame(f) && IsWrite(f) && DifferWithinTwo(f, rx, at)
    ensures Carries(Misrouted, f, rx) <==> |f| > BUF_MIN_BYTES && ValueOf(rx[0]) == CMD_READ
    ensures Carries(Lost, f, rx) <==> !IsWrite(rx) && !Carries(Misrouted, f, rx)
    ensures Carries(Replied, f, rx) <==> rx[..LEN_AT] == f[..LEN_AT] && rx[DATA_AT..] == f[DATA_AT..]
    ensures Carries(Garbled, f, rx) <==> IsWrite(rx) && !Carries(Replied, f, rx)
    ensures Carries(Misrouted, f, rx) || Carries(Lost, f, rx) ==> !Carries(Replied, f, rx)
    ensures !Carries(Truncated, f, rx) && !Carries(Muted, f, rx)
  {
    hide CrcMatches, Received;
    AcceptedIsSent(f, rx, at);
    DamageRejectedOrRepaired(f, rx, at);
    if rx[..LEN_AT] == f[..LEN_AT] {
      assert rx[..LEN_AT][0] == f[..LEN_AT][0];
    }
    assert SentFrame(f) ==> CrcMatches(f);
  }

  /** A frame that ends within its first eight bytes is lost if nothing of it arrives, else truncated. */
  lemma CutShort(f: seq<Octet>, n: nat)
    requires SentFrame(f) && IsWrite(f) && n < BUF_MIN_BYTES
    ensures Carries(Lost, f, f[..n]) <==> n == 0
    ensures Carries(Truncated, f, f[..n]) <==> n > 0
  {
    hide CrcMatches;
  }

  /** Every frame that arrives has a fate, unless it is another frame with a matching CRC. */
  lemma HasFateExactly(f: seq<Octet>, rx: seq<Octet>)
    requires SentFrame(f) && |rx| <= PACKET_MAX_BYTES
    ensures (exists fate :: Carries(fate, f, rx))
        <==> !(|rx| >= BUF_MIN_BYTES && IsWrite(rx) && CrcMatches(Received(rx)) && Received(rx) != f)
  {
    hide CrcMatches, Received;
    if Overruns(rx) {
      assert Carries(Misrouted, f, rx);
    } else if !IsWrite(rx) {
      assert Carries(Lost, f, rx);
    } else if |rx| < BUF_MIN_BYTES {
      assert Carries(Truncated, f, rx) || Carries(Muted, f, rx);
    } else if Received(rx) == f {
      assert Carries(Replied, f, rx);
    } else if !CrcMatches(Received(rx)) {
      assert Carries(Garbled, f, rx);
    }
  }

  /** One bit is enough to make a read command of a write command, and a frame with data is misrouted then. */
  lemma OneBitMisroutes(f: seq<Octet>) returns (rx: seq<Octet>)
    requires SentFrame(f) && IsWrite(f) && |f| > BUF_MIN_BYTES
    ensures |rx| == |f| && rx[1..] == f[1..]
    ensures exists b: nat :: b < 8 && rx[0] == f[0][b := !f[0][b]]
    ensures Carries(Misrouted, f, rx)
  {
    hide CrcMatches;
    var b: nat := if ValueOf(f[0]) == CMD_WRITE then 6 else 7;
    var command: Octet := f[0][b := !f[0][b]];
    BitAdds(f[0], b);
    rx := f[0 := command];
    assert rx[0] == f[0][b := !f[0][b]];
  }

  lemma BitAdds(o: Octet, b: nat)
    requires (ValueOf(o) == CMD_WRITE && b == 6) || (ValueOf(o) == CMD_WRITE_REQUIRE_ACK && b == 7)
    ensures ValueOf(o[b := !o[b]]) == CMD_READ
  {
  }

  /** Each fate can befall each frame, the misrouting each that carries data. */
  lemma EveryFateCanHappen(fate: Fate, f: seq<Octet>) returns (rx: seq<Octet>)
    requires SentFrame(f) && IsWrite(f) && (fate.Misrouted? ==> |f| > BUF_MIN_BYTES)
    ensures Carries(fate, f, rx)
  {
    hide CrcMatches, Received, ValueOf;
    match fate
    case SendError => rx := [];
    case Lost => rx := [];
    case Garbled =>
      var last := |f| - 1;
      rx := f[last := f[last][0 := !f[last][0]]];
      assert rx[last][0] != f[last][0];
      assert DifferWithinTwo(f, rx, last - 1);
      DamageHasOneFate(f, rx, last - 1);
      assert rx[DATA_AT..][last - DATA_AT] == rx[last] && f[DATA_AT..][last - DATA_AT] == f[last];
    case Truncated =>
      rx := f[..1];
      CutShort(f, 1);
    case Muted =>
      var other: byte := if ValueOf(f[0]) == CMD_WRITE then CMD_WRITE_REQUIRE_ACK else CMD_WRITE;
      OctetRoundTrip(other);
      rx := [OctetOf(other)];
    case Misrouted => rx := OneBitMisroutes(f);
    case ReplyLost =>
      rx := f;
      assert DifferWithinTwo(f, rx, 0);
      DamageHasOneFate(f, rx, 0);
    case Replied =>
      rx := f;
      assert DifferWithinTwo(f, rx, 0);
      DamageHasOneFate(f, rx, 0);
  }

  // ----- The slave as it runs -----

  class Device {
    const target: Target
    const packet: SCWritePacket   // static: it survives from one transaction to the next
    var bytes: seq<byte>
    var active: seq<byte>

    ghost predicate Valid()
      reads packet.mem
    {
      packet.Valid()
    }

    ghost function Value(): (m: Memory)
      requires Valid()
      reads this, packet.mem
      ensures IsImage(m.image)
    {
      Memory(bytes, active, packet.Image())
    }

    constructor (target: Target, bytes: seq<byte>)
      ensures Valid() && fresh(packet) && fresh(packet.mem) && this.target == target && this.bytes == bytes
    {
      this.target, this.bytes, active := target, bytes, [];
      packet := new SCWritePacket();
    }

    method SetBytes(address: byte, data: seq<byte>, offset: uint16) returns (ok: bool)
      requires Valid() && (address == target.address ==> offset + |data| <= |bytes|)
      requires address == target.address || CrcMatches(packet.Image())
      modifies this
      ensures address == target.address ==>
                && ok && bytes == Overwrite(old(bytes), offset, data)
                && active == if offset + |data| == |old(bytes)| then bytes else old(active)
      ensures address != target.address ==>
                ok == target.other(packet.Image()) && bytes == old(bytes) && active == old(active)
    {
      if address != target.address {
        var n := BUF_MIN_BYTES + packet.Len();
        return target.other(packet.mem[..n]);
      }
      bytes := Overwrite(bytes, offset, data);
      if offset + |data| == |bytes| {
        active := bytes;
      }
      ok := true;
    }

    /** The packet is set if its CRC matches. */
    method Apply() returns (valid: bool, ok: bool)
      requires Valid() && InRange(target, bytes, Value().image)
      modifies this
      ensures Valid() && Value() == Applied(target, old(Value())) && valid == CrcMatches(Value().image)
      ensures valid ==> ok == (AddressOf(Value().image) == target.address || target.other(Value().image))
    {
      hide CrcMatches, ValueOf, Overwrite;
      ok := false;
      valid := packet.IsValid();
      if valid {
        ghost var image := packet.Image();
        var n := BUF_MIN_BYTES + packet.Len();
        var received := packet.mem[..n];
        assert received == image;
        ok := SetBytes(AddressOf(received), DataOf(received), OffsetOf(received));
      }
    }

    /** One transaction: rx is what the transfer brought, nothing if it timed out. */
    method Update(rx: seq<Octet>) returns (reply: Reply)
      requires Valid() && |rx| <= PACKET_MAX_BYTES
      requires !Overruns(rx) && (IsWrite(rx) ==> InRange(target, bytes, Rebuilt(Value().image, rx)))
      modifies this, packet.mem
      ensures Valid() && Value() == After(target, old(Value()), rx)
      ensures reply == ReplyTo(target, old(Value()).image, rx)
    {
      hide CrcMatches, Received, ValueOf, Overwrite, InRange, Applied, AddressOf;
      reply := NoReply;
      if rx == [] {
        return;
      }
      var cmd := ValueOf(rx[0]);
      if cmd == CMD_WRITE || cmd == CMD_WRITE_REQUIRE_ACK {
        packet.ConstructFromBuffer(rx, |rx|);
        assert rx[..|rx|] == rx;
        var valid, ok := Apply();
        if valid && cmd == CMD_WRITE_REQUIRE_ACK {
          reply := Ack(ok);
        }
      }
    }
  }
}
