/**
 Writes as the master drives them, down to the frames: each attempt sends the populated packet over the wire to the
 slave of SpiSlave, and a whole Write comes to what SpiCoprocessor says.
 */
module SpiMaster {
  import opened Arith
  import opened BitBuffer
  import opened Bytes
  import opened SpiCoprocessor
  import opened SpiLink
  import opened SpiPacket
  import Slaves = SpiSlave

  /** What the wire makes of a frame, and what befalls the attempt as a whole. */
  datatype Wire = Wire(fate: nat -> Fate, deliver: (nat, seq<Octet>) -> seq<Octet>)

  /** What arrives of every write frame is what its fate says. */
  ghost predicate Faithful(w: Wire) {
    forall n: nat, f: seq<Octet> :: SentFrame(f) && Slaves.IsWrite(f) ==> Slaves.Carries(w.fate(n), f, w.deliver(n, f))
  }

  /** Body and CRC together are the frame that the slave understands. */
  lemma FrameFilled(image: seq<Octet>, cmd: byte, address: byte, offset: uint16, data: seq<byte>)
    requires |data| <= DATA_MAX_BYTES && |image| == BUF_MIN_BYTES + |data|
    requires image[..DATA_AT + |data|] == Body(cmd, address, offset, data)
    ensures Slaves.WriteFrame(Populated(image), cmd, address, offset, data)
  {
    hide Body;
    PopulatedHasZeroResidue(image);
  }

  lemma AttemptsUnfold(s: Slave, offset: nat, data: seq<byte>, requireAck: bool, fate: nat -> Fate, now: nat,
                       tries: nat)
    requires Fits(s) && offset + |data| <= |s.bytes| && Routed(fate)
    ensures Attempts(s, offset, data, requireAck, fate, now, tries)
         == if tries == 0 then Outcome(false, s, now)
            else
              var t := AfterAttempt(s, offset, data, fate(now));
              if AttemptOk(s, fate(now), requireAck) then Outcome(true, t, now + 1)
              else Attempts(t, offset, data, requireAck, fate, now + 1, tries - 1)
  {
  }

  lemma PrefixSlice(obj: seq<byte>, n: nat, from: nat, to: nat)
    requires from <= to <= n <= |obj|
    ensures obj[..n][from..to] == obj[from..to]
  {
  }

  lemma ChunksUnfold(s: Slave, obj: seq<byte>, offset: nat, requireAck: bool, fate: nat -> Fate, now: nat)
    requires Fits(s) && offset <= |obj| <= |s.bytes| && Routed(fate)
    ensures Chunks(s, obj, offset, requireAck, fate, now)
         == if offset == |obj| then Outcome(true, s, now)
            else
              var end := Min(offset + WRITE_DATA_MAX_BYTES, |obj|);
              var r := Attempts(s, offset, obj[offset..end], requireAck, fate, now, MAX_NUM_RETRIES);
              if r.ok then Chunks(r.slave, obj, end, requireAck, fate, r.now) else r
  {
  }

  class Link {
    const device: Slaves.Device
    const packet: SCWritePacket   // static in PartialWrite
    const wire: Wire
    var now: nat
    var writeInProgress: bool

    ghost predicate Valid()
      reads device, device.packet.mem, packet.mem
    {
      && device.Valid() && packet.Valid() && packet.mem != device.packet.mem
      && Fits(Value()) && Faithful(wire) && Routed(wire.fate)
    }

    ghost predicate Ready()
      reads this, device, device.packet.mem, packet.mem
    {
      Valid() && !writeInProgress
    }

    /** The slave behind the link. */
    ghost function Value(): (s: Slave)
      requires device.Valid()
      reads device, device.packet.mem
      ensures |s.bytes| == |device.bytes|
    {
      Slaves.Abstract(device.target, device.Value())
    }

    constructor (device: Slaves.Device, wire: Wire)
      requires device.Valid() && Fits(Slaves.Abstract(device.target, device.Value()))
      requires Faithful(wire) && Routed(wire.fate)
      ensures Ready() && this.device == device && this.wire == wire && now == 0 && fresh(packet) && fresh(packet.mem)
      ensures Value() == Slaves.Abstract(device.target, device.Value())
    {
      hide Fits, Slaves.Device.Value, Slaves.Device.Valid, Slaves.Abstract, SCWritePacket.Valid, SCWritePacket.Image,
           Faithful;
      this.device, this.wire, now, writeInProgress := device, wire, 0, false;
      packet := new SCWritePacket();
    }

    /** One command transfer of the populated packet and, if asked for, its acknowledgement. */
    method Attempt(cmd: byte, offset: uint16, ghost data: seq<byte>) returns (ok: bool)
      requires Valid() && offset + |data| <= |device.bytes|
      requires cmd == Slaves.CMD_WRITE || cmd == Slaves.CMD_WRITE_REQUIRE_ACK
      requires Slaves.WriteFrame(packet.Image(), cmd, device.target.address, offset, data)
      modifies this`now, device, device.packet.mem
      ensures Valid() && now == old(now) + 1 && |device.bytes| == |old(device.bytes)|
      ensures Value() == AfterAttempt(old(Value()), offset, data, wire.fate(old(now)))
      ensures ok == AttemptOk(old(Value()), wire.fate(old(now)), cmd == Slaves.CMD_WRITE_REQUIRE_ACK)
    {
      hide Slaves.WriteFrame, Slaves.Carries, Slaves.Applied, Slaves.Overruns, SentFrame;
      ghost var target, memory := device.target, device.Value();
      var n := BUF_MIN_BYTES + packet.Len();
      var frame := packet.mem[..n];
      var fate, rx := wire.fate(now), wire.deliver(now, frame);
      now := now + 1;
      Slaves.KeptIsFrame(target, frame, cmd, offset, data);
      Slaves.CarriedInRange(fate, frame, rx);
      Slaves.AttemptFromFrames(target, memory, frame, cmd, offset, data, fate, rx);
      if cmd == Slaves.CMD_WRITE_REQUIRE_ACK {
        Slaves.AckFromFrames(target, memory, frame, offset, data, fate, rx);
      }
      var reply := device.Update(rx);
      if fate.SendError? {
        return false;
      }
      ok := cmd != Slaves.CMD_WRITE_REQUIRE_ACK || (reply == Slaves.Ack(true) && !fate.ReplyLost?);
    }

    /** The retry loop of PartialWrite. */
    method SendWithRetries(cmd: byte, offset: uint16, ghost data: seq<byte>, requireAck: bool) returns (ok: bool)
      requires Valid() && offset + |data| <= |device.bytes|
      requires cmd == if requireAck then Slaves.CMD_WRITE_REQUIRE_ACK else Slaves.CMD_WRITE
      requires Slaves.WriteFrame(packet.Image(), cmd, device.target.address, offset, data)
      modifies this`now, device, device.packet.mem
      ensures Valid() && |device.bytes| == |old(device.bytes)|
      ensures Outcome(ok, Value(), now)
           == Attempts(old(Value()), offset, data, requireAck, wire.fate, old(now), MAX_NUM_RETRIES)
    {
      hide AfterAttempt, AttemptOk, Attempts, Fits, Link.Value, Slaves.Device.Value, Slaves.Device.Valid,
           Slaves.WriteFrame, SCWritePacket.Valid, SCWritePacket.Image, Faithful;
      ghost var s, fate, tries := Value(), wire.fate, MAX_NUM_RETRIES;
      ghost var all := Attempts(s, offset, data, requireAck, fate, now, tries);
      var attempts: nat := 0;
      ok := false;
      while attempts < MAX_NUM_RETRIES && !ok
        invariant attempts <= MAX_NUM_RETRIES
        invariant Valid() && |device.bytes| == |old(device.bytes)| && s == Value()
        invariant Slaves.WriteFrame(packet.Image(), cmd, device.target.address, offset, data)
        invariant all == if ok then Outcome(true, s, now)
                         else Attempts(s, offset, data, requireAck, fate, now, tries - attempts)
        decreases MAX_NUM_RETRIES - attempts, !ok
      {
        AttemptsUnfold(s, offset, data, requireAck, fate, now, tries - attempts);
        ok := Attempt(cmd, offset, data);
        s := Value();
        if !ok {
          attempts := attempts + 1;
        }
      }
      AttemptsUnfold(s, offset, data, requireAck, fate, now, 0);
    }

    method PartialWrite(obj: seq<byte>, len: uint16, offset: uint16, requireAck: bool) returns (ok: bool)
      requires Valid() && offset + len <= |obj| <= |device.bytes| && len <= WRITE_DATA_MAX_BYTES
      modifies this, packet.mem, device, device.packet.mem
      ensures Valid() && |device.bytes| == |old(device.bytes)|
      ensures old(writeInProgress) ==> !ok && Value() == old(Value()) && now == old(now)
      ensures !old(writeInProgress) ==>
                Outcome(ok, Value(), now)
                == Attempts(old(Value()), offset, obj[offset..offset + len], requireAck, wire.fate, old(now),
                            MAX_NUM_RETRIES)
      ensures writeInProgress == old(writeInProgress)
    {
      hide Attempts, Fits, Link.Value, Slaves.Device.Value, Slaves.Device.Valid, Slaves.WriteFrame, SCWritePacket.Valid,
           SCWritePacket.Image, Faithful;
      if writeInProgress {
        return false;
      }
      writeInProgress := true;
      var cmd: byte := if requireAck then Slaves.CMD_WRITE_REQUIRE_ACK else Slaves.CMD_WRITE;
      var data := obj[offset..offset + len];
      Fill(cmd, offset, data);
      ok := SendWithRetries(cmd, offset, data, requireAck);
      writeInProgress := false;
    }

    /** The fields of the packet, and its CRC. */
    method Fill(cmd: byte, offset: uint16, data: seq<byte>)
      requires Valid() && |data| <= DATA_MAX_BYTES
      modifies packet.mem
      ensures Valid() && Value() == old(Value())
      ensures Slaves.WriteFrame(packet.Image(), cmd, device.target.address, offset, data)
    {
      hide Faithful, Fits, Link.Value, Slaves.Device.Value, Slaves.Device.Valid, Body, Populated, Slaves.WriteFrame;
      packet.Fill(cmd, device.target.address, offset, data);
      ghost var image := packet.Image();
      packet.PopulateCRC();
      FrameFilled(image, cmd, device.target.address, offset, data);
    }

    /** Write of the first len bytes of obj; a length of 0 stands for the whole of it.  WriteDelivers says what
        success means. */
    method Write(obj: seq<byte>, requireAck: bool, len: uint16) returns (ok: bool)
      requires Ready() && len <= |obj| <= |device.bytes| && |obj| < U16_LIMIT
      modifies this, packet.mem, device, device.packet.mem
      ensures Ready()
      ensures Outcome(ok, Value(), now)
           == WriteOutcome(old(Value()), obj[..if len == 0 then |obj| else len], requireAck, wire.fate, old(now))
      ensures (requireAck ==> Detectable(wire.fate)) ==>
                var n := if len == 0 then |obj| else len;
                ok <==> n >= 32768 || EachWorks(wire.fate, requireAck, old(now), Transfers(n))
    {
      hide Attempts, Chunks, EachWorks, Transfers, Detectable, Fits, Link.Value, Slaves.Device.Value,
           Slaves.Device.Valid, SCWritePacket.Valid, Faithful;
      var lenBytes: uint16 := if len == 0 then |obj| else len;
      ghost var o, s, fate := obj[..lenBytes], Value(), wire.fate;
      if requireAck ==> Detectable(fate) {
        WriteSucceedsExactly(s, o, requireAck, fate, now);
      }
      if lenBytes < WRITE_DATA_MAX_BYTES {
        ok := PartialWrite(obj, lenBytes, 0, requireAck);
        assert obj[0..0 + lenBytes] == o;
        return;
      }
      var remaining := I16(lenBytes);
      ghost var all := WriteOutcome(s, o, requireAck, fate, now);
      while remaining > 0
        invariant Ready() && |device.bytes| == |old(device.bytes)| && remaining <= lenBytes && s == Value()
        invariant all == if remaining > 0 then Chunks(s, o, lenBytes - remaining, requireAck, fate, now)
                         else Outcome(true, s, now)
        decreases remaining
      {
        ghost var offset, end := lenBytes - remaining, Min(lenBytes - remaining + WRITE_DATA_MAX_BYTES, lenBytes);
        PrefixSlice(obj, lenBytes, offset, end);
        ChunksUnfold(s, o, offset, requireAck, fate, now);
        ok := PartialWrite(obj, Min(WRITE_DATA_MAX_BYTES, remaining), lenBytes - remaining, requireAck);
        s := Value();
        if !ok {
          return;
        }
        ChunksUnfold(s, o, end, requireAck, fate, now);
        remaining := remaining - WRITE_DATA_MAX_BYTES;
      }
      ok := true;
    }
  }
}
