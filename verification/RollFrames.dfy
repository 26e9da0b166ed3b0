/**
 A roll command is a write like any other: what happens to it follows from the bytes that reach the slave and from
 the write packet that the slave has kept.
 */
module RollFrames {
  import opened Arith
  import opened BitBuffer
  import opened Bytes
  import opened Crc16
  import opened QueueRoll
  import opened SpiPacket
  import opened SpiSlave
  import Link = SpiLink
  import Writes = SpiCoprocessor

  /** The packet that an attempt leaves in force is the roll itself. */
  predicate IsRoll(t: Target, image: seq<Octet>, request: seq<byte>)
    requires IsImage(image)
  {
    CrcMatches(image) && AddressOf(image) == t.address && DataOf(image) == request
  }

  /** The fate of a roll: one that is cut short is made again, acknowledged or not, if the kept packet is a roll, and
      otherwise earns whatever that packet does. */
  function RollFateOf(fate: Link.Fate, t: Target, image: seq<Octet>, request: seq<byte>): RollFate
    requires IsImage(image)
  {
    match fate
    case SendError => Lost
    case Lost => Lost
    case Garbled => Lost
    case Truncated =>
      if IsRoll(t, image, request) then Acked
      else if CrcMatches(image) && t.other(image) then FalseAck else Lost
    case Muted => if IsRoll(t, image, request) then AckLost else Lost
    case Misrouted => Lost
    case ReplyLost => AckLost
    case Replied => Acked
  }

  /** The slave rolls its queue. */
  predicate RollsQueue(t: Target, image: seq<Octet>, rx: seq<Octet>, request: seq<byte>)
    requires IsImage(image) && |rx| <= PACKET_MAX_BYTES
  {
    IsWrite(rx) && IsRoll(t, Rebuilt(image, rx), request)
  }

  /** What the slave answers: a roll succeeds on a queue that holds something, and what any other packet gives is a
      parameter of the target. */
  function RollReply(t: Target, image: seq<Octet>, rx: seq<Octet>, request: seq<byte>, queued: nat): Reply
    requires IsImage(image) && |rx| <= PACKET_MAX_BYTES
  {
    var packet := Rebuilt(image, rx);
    if !IsWrite(rx) || !CrcMatches(packet) || ValueOf(rx[0]) != CMD_WRITE_REQUIRE_ACK then NoReply
    else Ack(if IsRoll(t, packet, request) then queued > 0 else t.other(packet))
  }

  /** From the bytes that arrive: the queue is rolled exactly when the fate says that the command arrives, and the
      master counts the roll as done exactly when the fate settles it. */
  lemma RollFromFrames(t: Target, image: seq<Octet>, f: seq<Octet>, offset: uint16, request: seq<byte>,
                       fate: Link.Fate, rx: seq<Octet>, queued: nat)
    requires IsImage(image) && WriteFrame(f, CMD_WRITE_REQUIRE_ACK, t.address, offset, request)
    requires Carries(fate, f, rx) && !fate.Misrouted?
    ensures RollsQueue(t, image, rx, request) <==> Arrives(RollFateOf(fate, t, image, request))
    ensures RollReply(t, image, rx, request, queued) == Ack(true) && !fate.ReplyLost? && !fate.SendError?
        <==> Settles(queued, RollFateOf(fate, t, image, request))
  {
    hide WriteFrame, CrcMatches, Received, ValueOf, AddressOf, OffsetOf, DataOf;
    FieldsReadBack(f, CMD_WRITE_REQUIRE_ACK, t.address, offset, request);
    assert CrcMatches(f);
    if |rx| >= BUF_MIN_BYTES {
      ReceivedKeepsCommand(rx);
    }
  }

  /** A roll is acknowledged without being made exactly when it is cut short and the kept packet is another one, which
      the slave carries out again. */
  lemma DeceivedExactly(fate: Link.Fate, t: Target, image: seq<Octet>, request: seq<byte>)
    requires IsImage(image)
    ensures RollFateOf(fate, t, image, request).FalseAck?
        <==> fate.Truncated? && CrcMatches(image) && !IsRoll(t, image, request) && t.other(image)
  {
  }
}
