/**
 The slave's side of a read, and what the master makes of the answer, from the bytes on the wire.  What that comes to
 is what SpiReads says of one attempt.
 */
module SpiReadSlave {
  import opened Arith
  import opened BitBuffer
  import opened Bytes
  import opened Crc16
  import opened SpiLink
  import opened SpiPacket
  import opened SpiReads
  import Slaves = SpiSlave

  const CMD_DATA_BLOCK: byte := 7
  const RESPONSE_OVERHEAD_BYTES: nat := 3

  // ----- The request -----

  function RequestBody(address: byte, offset: uint16, len: uint16): (r: seq<Octet>)
    ensures |r| == 6
  {
    [OctetOf(Slaves.CMD_READ), OctetOf(address)] + U16Octets(offset) + U16Octets(len)
  }

  /** The frame f is a populated read request. */
  ghost predicate RequestFrame(f: seq<Octet>, address: byte, offset: uint16, len: uint16) {
    |f| == Slaves.READ_REQUEST_BYTES && CrcMatches(f) && f[..6] == RequestBody(address, offset, len)
  }

  function OffsetOf(image: seq<Octet>): uint16
    requires |image| == Slaves.READ_REQUEST_BYTES
  {
    ValueOf(image[2]) + 256 * ValueOf(image[3])
  }

  function LenOf(image: seq<Octet>): uint16
    requires |image| == Slaves.READ_REQUEST_BYTES
  {
    ValueOf(image[4]) + 256 * ValueOf(image[5])
  }

  lemma RequestReadsBack(f: seq<Octet>, address: byte, offset: uint16, len: uint16)
    requires RequestFrame(f, address, offset, len)
    ensures ValueOf(f[0]) == Slaves.CMD_READ && ValueOf(f[1]) == address && OffsetOf(f) == offset && LenOf(f) == len
    ensures ValueOf(f[2]) + 256 * ValueOf(f[3]) == offset && ValueOf(f[4]) + 256 * ValueOf(f[5]) == len
  {
    hide OctetOf, ValueOf, CrcMatches;
    assert forall i :: 0 <= i < 6 ==> f[i] == f[..6][i];
    OctetRoundTrip(Slaves.CMD_READ);
    OctetRoundTrip(address);
    OctetRoundTrip(offset % 256);
    OctetRoundTrip(offset / 256);
    OctetRoundTrip(len % 256);
    OctetRoundTrip(len / 256);
  }

  predicate IsRead(rx: seq<Octet>) { rx != [] && ValueOf(rx[0]) == Slaves.CMD_READ }

  /** The static read request after ConstructFromBuffer, which a frame of fewer than 8 bytes leaves as it was. */
  function Rebuilt(image: seq<Octet>, rx: seq<Octet>): (r: seq<Octet>)
    requires |image| == Slaves.READ_REQUEST_BYTES && |rx| <= Slaves.READ_REQUEST_BYTES
    ensures |r| == |image|
  {
    if |rx| < Slaves.READ_REQUEST_BYTES then image else rx
  }

  function ImageAfter(image: seq<Octet>, rx: seq<Octet>): (r: seq<Octet>)
    requires |image| == Slaves.READ_REQUEST_BYTES && |rx| <= Slaves.READ_REQUEST_BYTES
    ensures |r| == |image|
  {
    if IsRead(rx) then Rebuilt(image, rx) else image
  }

  /** The static request as the next transaction may meet it again. */
  function KeptOf(image: seq<Octet>): Kept
    requires |image| == Slaves.READ_REQUEST_BYTES
  {
    if CrcMatches(image) then Request(OffsetOf(image), LenOf(image)) else BadRequest
  }

  // ----- The answer -----

  /** A populated response with the bytes that were asked for. */
  function Response(bytes: seq<byte>, offset: nat, len: nat): (r: seq<Octet>)
    requires offset + len <= |bytes|
    ensures |r| == len + RESPONSE_OVERHEAD_BYTES && CrcMatches(r)
  {
    Populated([OctetOf(CMD_DATA_BLOCK)] + Octets(bytes[offset..offset + len]) + [OctetOf(0), OctetOf(0)])
  }

  /** The response to what arrives, if there is one. */
  predicate Answers(image: seq<Octet>, rx: seq<Octet>)
    requires |image| == Slaves.READ_REQUEST_BYTES && |rx| <= Slaves.READ_REQUEST_BYTES
  {
    IsRead(rx) && CrcMatches(Rebuilt(image, rx))
  }

  /** The master's checks on the bytes that it has clocked in. */
  predicate Accepts(resp: seq<Octet>, len: nat) {
    |resp| == len + RESPONSE_OVERHEAD_BYTES && CrcMatches(resp) && ValueOf(resp[0]) == CMD_DATA_BLOCK
  }

  function DataOf(resp: seq<Octet>): (r: seq<byte>)
    requires |resp| >= RESPONSE_OVERHEAD_BYTES
    ensures |r| == |resp| - RESPONSE_OVERHEAD_BYTES
  {
    seq<byte>(|resp| - RESPONSE_OVERHEAD_BYTES, i requires 0 <= i < |resp| - RESPONSE_OVERHEAD_BYTES =>
      ValueOf(resp[1 + i]))
  }

  /** The master reads from a response what the slave put into it. */
  lemma ResponseReadsBack(bytes: seq<byte>, offset: nat, len: nat)
    requires offset + len <= |bytes|
    ensures var r := Response(bytes, offset, len);
            Accepts(r, len) && DataOf(r) == bytes[offset..offset + len]
  {
    hide OctetOf, ValueOf, CrcMatches, Populated;
    var data := bytes[offset..offset + len];
    var image := [OctetOf(CMD_DATA_BLOCK)] + Octets(data) + [OctetOf(0), OctetOf(0)];
    PopulatedHasZeroResidue(image);
    var r := Populated(image);
    assert forall i :: 0 <= i < len + 1 ==> r[i] == r[..len + 1][i] == image[..len + 1][i];
    OctetRoundTrip(CMD_DATA_BLOCK);
    forall i | 0 <= i < len
      ensures DataOf(r)[i] == data[i]
    {
      assert image[1 + i] == OctetOf(data[i]);
      OctetRoundTrip(data[i]);
    }
  }

  /** Two adjacent bytes of a response that are damaged never pass the master's checks. */
  lemma AnswerDamageIsSeen(bytes: seq<byte>, offset: nat, len: nat, resp: seq<Octet>, at: nat)
    requires offset + len <= |bytes| && DifferWithinTwo(Response(bytes, offset, len), resp, at)
    ensures Accepts(resp, len) <==> resp == Response(bytes, offset, len)
  {
    hide CrcMatches, Response;
    ResponseReadsBack(bytes, offset, len);
    TwoByteCorruption(Response(bytes, offset, len), resp, at);
  }

  // ----- The rows of the table of fates -----

  /** What arrives of request f, and what the master clocks in: an answer of the length that it asked for gets through
      unless it is lost, and nothing else passes its checks. */
  ghost predicate Carries(fate: Fate, f: seq<Octet>, image: seq<Octet>, bytes: seq<byte>, len: nat, rx: seq<Octet>,
                          resp: seq<Octet>)
    requires |image| == Slaves.READ_REQUEST_BYTES
  {
    && |rx| <= Slaves.READ_REQUEST_BYTES
    && (match fate
        case SendError => !IsRead(rx)
        case Lost => !IsRead(rx)
        case Garbled => |rx| == Slaves.READ_REQUEST_BYTES && IsRead(rx) && !CrcMatches(rx)
        case Truncated => 0 < |rx| < Slaves.READ_REQUEST_BYTES && IsRead(rx)
        case Muted => false
        case Misrouted => false
        case ReplyLost => rx == f
        case Replied => rx == f)
    && var packet := Rebuilt(image, rx);
       if Answers(image, rx) && LenOf(packet) == len && OffsetOf(packet) + len <= |bytes| && !fate.ReplyLost? then
         resp == Response(bytes, OffsetOf(packet), len)
       else !Accepts(resp, len)
  }

  /** An attempt leaves the kept request that the table says, and the master accepts the answer to the request that
      the table says, and with it that part of the slave's bytes. */
  lemma ReadFromFrames(image: seq<Octet>, f: seq<Octet>, address: byte, offset: uint16, len: uint16, bytes: seq<byte>,
                       fate: Fate, rx: seq<Octet>, resp: seq<Octet>)
    requires |image| == Slaves.READ_REQUEST_BYTES && Fits(KeptOf(image), |bytes|) && offset + len <= |bytes|
    requires RequestFrame(f, address, offset, len) && Carries(fate, f, image, bytes, len, rx, resp)
    ensures KeptOf(ImageAfter(image, rx)) == KeptAfter(KeptOf(image), offset, len, fate)
    ensures Accepts(resp, len) <==> AnsweredRequest(KeptOf(image), offset, len, fate).Request?
    ensures Accepts(resp, len) ==>
              var from := AnsweredRequest(KeptOf(image), offset, len, fate).offset;
              from + len <= |bytes| && DataOf(resp) == bytes[from..from + len]
  {
    hide CrcMatches, ValueOf, OffsetOf, LenOf, Response, Accepts, DataOf, RequestBody;
    RequestReadsBack(f, address, offset, len);
    var packet := Rebuilt(image, rx);
    if Answers(image, rx) && LenOf(packet) == len && OffsetOf(packet) + len <= |bytes| {
      ResponseReadsBack(bytes, OffsetOf(packet), len);
    }
  }

  /** Two adjacent bytes of a request that are damaged are always seen: the slave does not answer, and it keeps a
      request that is not valid, or the old one if the command is no read any more. */
  lemma RequestDamageIsSeen(image: seq<Octet>, f: seq<Octet>, address: byte, offset: uint16, len: uint16,
                            rx: seq<Octet>, at: nat)
    requires |image| == Slaves.READ_REQUEST_BYTES
    requires RequestFrame(f, address, offset, len) && DifferWithinTwo(f, rx, at) && rx != f
    ensures !Answers(image, rx)
    ensures KeptOf(ImageAfter(image, rx)) == if IsRead(rx) then BadRequest else KeptOf(image)
  {
    hide CrcMatches;
    assert CrcMatches(f);
    TwoByteCorruption(f, rx, at);
  }
}
