/**
 Packing drains up to three queues into a composite array; unpacking feeds a composite array back
 into three queues.  A queue that the caller does not pass is null.
 */
module CompositePacking {
  import opened Arith
  import opened Bytes
  import opened Queues
  import opened CompositeArray

  /** b with a run of packet bytes at offset len and their number in a header field. */
  function Packed(b: seq<byte>, len: nat, bytes: seq<byte>, field: nat, n: uint16): (r: seq<byte>)
    requires field + 2 <= HEADER_BYTES <= len && len + |bytes| <= |b|
    ensures |r| == |b|
  {
    Overwrite(Overwrite(b, len, bytes), field, U16Bytes(n))
  }

  lemma PackedNothing(b: seq<byte>, len: nat, field: nat)
    requires field + 2 <= HEADER_BYTES <= len <= |b| && U16At(b, field) == 0
    ensures Packed(b, len, [], field, 0) == b
  {
  }

  lemma PackedOneMore(b: seq<byte>, len: nat, bytes: seq<byte>, p: Packet, field: nat, n: uint16, n': uint16)
    requires field + 2 <= HEADER_BYTES <= len && len + |bytes| + |p| <= |b|
    ensures Packed(Packed(b, len, bytes, field, n), len + |bytes|, p, field, n')
         == Packed(b, len, bytes + p, field, n')
  {
  }

  method StorePacket(buf: array<byte>, at: nat, packet: Packet, field: nat, n: uint16)
    requires field + 2 <= HEADER_BYTES <= at && at + |packet| <= buf.Length
    modifies buf
    ensures buf[..] == Packed(old(buf[..]), at, packet, field, n)
  {
    Store(buf, at, packet);
    PutU16(buf, field, n);
  }

  lemma CountBelow(n: nat, size: nat)
    requires 0 < size
    ensures n <= n * size
  {
  }

  lemma LaidOutNothing(was: seq<Packet>)
    ensures LaidOut([], was[..0])
  {
  }

  lemma TakenOneMore(f: seq<byte>, was: seq<Packet>, n: nat, size: nat)
    requires n < |was| && AllOfSize(was, size) && 0 < size && LaidOut(f, was[..n])
    ensures LaidOut(f + was[n], was[..n + 1]) && |was[n]| == size
    ensures n + 1 <= |f| + size
  {
    hide LaidOut;
    assert was[..n + 1] == was[..n] + [was[n]];
    LaidOutSnoc(f, was[..n], was[n]);
    SplitLaidOut(f, was[..n], size);
    CountBelow(n, size);
  }

  ghost predicate Usable(q: PFBQueue?<Packet>, size: nat)
    reads q, if q == null then {} else {q.buffer}
  {
    q != null ==> q.Valid() && AllOfSize(q.Contents(), size)
  }

  /** The packets waiting in a queue that may be absent. */
  ghost function Waiting(q: PFBQueue?<Packet>): (s: seq<Packet>)
    requires q != null ==> q.Valid()
    reads q, if q == null then {} else {q.buffer}
  {
    if q == null then [] else q.Contents()
  }

  /** n is how many packets of a section were taken: all of them, or as many as fit up to bufLen. */
  predicate LongestPrefix(n: nat, waiting: nat, end: nat, size: nat, bufLen: nat) {
    n <= waiting && (n == waiting || end + size > bufLen)
  }

  /** From a queue that held was, the first n packets were taken, their bytes f going to offset at: as many as fit
      up to bufLen.  The others, left, still wait. */
  ghost predicate Drained(was: seq<Packet>, left: seq<Packet>, f: seq<byte>, n: nat, at: nat, size: nat, bufLen: nat) {
    && n <= |was| && left == was[n..] && LaidOut(f, was[..n])
    && LongestPrefix(n, |was|, at + |f|, size, bufLen)
  }

  /** Drains one queue into buf from offset len on: the longest prefix that fits, counted in the header.
      The ghost result f is the bytes of the packets taken. */
  method DrainQueue(buf: array<byte>, bufLen: uint16, len: uint16, size: nat, field: nat, q: PFBQueue<Packet>)
    returns (newLen: uint16, n: uint16, ghost f: seq<byte>)
    requires q.Valid() && 0 < size && AllOfSize(q.Contents(), size)
    requires field + 2 <= HEADER_BYTES <= len <= buf.Length && bufLen <= buf.Length
    requires U16At(buf[..], field) == 0
    modifies buf, q
    ensures q.Valid() && Drained(old(q.Contents()), q.Contents(), f, n, len, size, bufLen)
    ensures newLen == len + |f| <= Max(len, bufLen)
    ensures buf[..] == Packed(old(buf[..]), len, f, field, n)
  {
    hide LaidOut, Packed, AllOfSize, U16At, Ring, Window;
    ghost var b, was := buf[..], q.Contents();
    LaidOutNothing(was);
    newLen, n, f := len, 0, [];
    PackedNothing(b, len, field);
    while newLen as int + size <= bufLen
      invariant q.Valid() && n <= |was| && q.Contents() == was[n..]
      invariant LaidOut(f, was[..n])
      invariant newLen == len + |f| <= Max(len, bufLen)
      invariant buf[..] == Packed(b, len, f, field, n)
      decreases |was| - n
    {
      var packet, ok := q.Dequeue();
      if !ok {
        break;
      }
      TakenOneMore(f, was, n, size);
      PackedOneMore(b, len, f, packet, field, n, n + 1);
      StorePacket(buf, newLen, packet, field, n + 1);
      newLen, n, f := newLen + size, n + 1, f + packet;
    }
  }

  /** One section of the pack; a queue that is not passed contributes nothing. */
  method PackSection(buf: array<byte>, bufLen: uint16, len: uint16, size: nat, field: nat, q: PFBQueue?<Packet>)
    returns (newLen: uint16, n: uint16, ghost f: seq<byte>)
    requires 0 < size && Usable(q, size)
    requires field + 2 <= HEADER_BYTES <= len <= buf.Length && bufLen <= buf.Length
    requires U16At(buf[..], field) == 0
    modifies buf, q
    ensures Usable(q, size) && Drained(old(Waiting(q)), Waiting(q), f, n, len, size, bufLen)
    ensures newLen == len + |f| <= Max(len, bufLen)
    ensures buf[..] == Packed(old(buf[..]), len, f, field, n)
  {
    hide LaidOut, Packed, U16At, Ring, Window;
    if q == null {
      PackedNothing(buf[..], len, field);
      LaidOutNothing([]);
      return len, 0, [];
    }
    newLen, n, f := DrainQueue(buf, bufLen, len, size, field, q);
  }

  /** The bytes after packing the section images f1, f2 and f3 of n1, n2 and n3 packets into b. */
  function PackedThree(b: seq<byte>, f1: seq<byte>, f2: seq<byte>, f3: seq<byte>,
                       n1: uint16, n2: uint16, n3: uint16): (r: seq<byte>)
    requires HEADER_BYTES + |f1| + |f2| + |f3| <= |b|
    ensures |r| == |b|
  {
    var l1 := HEADER_BYTES + |f1|;
    var l2 := l1 + |f2|;
    Packed(Packed(Packed(b, HEADER_BYTES, f1, 0, n1), l1, f2, 2, n2), l2, f3, 4, n3)
  }

  lemma PackedSections(b: seq<byte>, f1: seq<byte>, f2: seq<byte>, f3: seq<byte>, n1: uint16, n2: uint16, n3: uint16)
    requires HEADER_BYTES + |f1| + |f2| + |f3| <= |b|
    ensures var l1 := HEADER_BYTES + |f1|;
            var l2 := l1 + |f2|;
            var r := PackedThree(b, f1, f2, f3, n1, n2, n3);
            && U16At(r, 0) == n1 && U16At(r, 2) == n2 && U16At(r, 4) == n3
            && r[HEADER_BYTES..l1] == f1 && r[l1..l2] == f2 && r[l2..l2 + |f3|] == f3
  {
  }

  /** Counts and sections laid out back to back are the sections of a well-formed buffer. */
  lemma LayoutBytes(r: seq<byte>, n: nat, m: nat, k: nat, f1: seq<byte>, f2: seq<byte>, f3: seq<byte>)
    requires |r| >= HEADER_BYTES + |f1| + |f2| + |f3|
    requires U16At(r, 0) == n && U16At(r, 2) == m && U16At(r, 4) == k
    requires |f1| == ModeSLen(n) && |f2| == AdsbLen(m) && |f3| == UplinkLen(k)
    requires r[HEADER_BYTES..HEADER_BYTES + |f1|] == f1
    requires r[HEADER_BYTES + |f1|..HEADER_BYTES + |f1| + |f2|] == f2
    requires r[HEADER_BYTES + |f1| + |f2|..HEADER_BYTES + |f1| + |f2| + |f3|] == f3
    ensures WellFormed(r) && ClaimedBytes(r) == HEADER_BYTES + |f1| + |f2| + |f3|
    ensures ModeSBytes(r) == f1 && AdsbBytes(r) == f2 && UplinkBytes(r) == f3
  {
  }

  /** Three sections packed one behind the other read back as exactly the packets taken. */
  lemma PackedView(b: seq<byte>, f1: seq<byte>, f2: seq<byte>, f3: seq<byte>,
                   p1: seq<Packet>, p2: seq<Packet>, p3: seq<Packet>)
    requires AllOfSize(p1, MODE_S_BYTES) && AllOfSize(p2, ADSB_BYTES) && AllOfSize(p3, UPLINK_BYTES)
    requires LaidOut(f1, p1) && LaidOut(f2, p2) && LaidOut(f3, p3)
    requires |p1| < U16_LIMIT && |p2| < U16_LIMIT && |p3| < U16_LIMIT
    requires HEADER_BYTES + |f1| + |f2| + |f3| <= |b|
    ensures var r := PackedThree(b, f1, f2, f3, |p1|, |p2|, |p3|);
            && WellFormed(r) && View(r) == Composite(p1, p2, p3)
            && ClaimedBytes(r) == HEADER_BYTES + |f1| + |f2| + |f3|
  {
    hide LaidOut, Split, Packed, PackedThree, AllOfSize, U16At, ModeSBytes, AdsbBytes, UplinkBytes;
    ModeSImage(f1, p1);
    AdsbImage(f2, p2);
    UplinkImage(f3, p3);
    PackedSections(b, f1, f2, f3, |p1|, |p2|, |p3|);
    LayoutBytes(PackedThree(b, f1, f2, f3, |p1|, |p2|, |p3|), |p1|, |p2|, |p3|, f1, f2, f3);
  }

  lemma CountsStay(b: seq<byte>, len: nat, bytes: seq<byte>, field: nat, n: uint16)
    requires field + 2 <= HEADER_BYTES <= len && len + |bytes| <= |b|
    ensures forall i :: 0 <= i <= 6 && (i + 2 <= field || field + 2 <= i) ==>
              U16At(Packed(b, len, bytes, field, n), i) == U16At(b, i)
  {
  }

  /** The three header counts set to zero. */
  function ZeroCounts(b: seq<byte>): (r: seq<byte>)
    requires HEADER_BYTES <= |b|
    ensures |r| == |b|
  {
    Overwrite(b, 0, [0, 0, 0, 0, 0, 0])
  }

  method ClearCounts(buf: array<byte>)
    requires HEADER_BYTES <= buf.Length
    modifies buf
    ensures buf[..] == ZeroCounts(old(buf[..]))
    ensures U16At(buf[..], 0) == 0 && U16At(buf[..], 2) == 0 && U16At(buf[..], 4) == 0
  {
    buf[0], buf[1], buf[2], buf[3], buf[4], buf[5] := 0, 0, 0, 0, 0, 0;
  }

  /** The UAT half of the pack, behind a Mode S section that ends at l1. */
  method PackUATSections(buf: array<byte>, bufLen: uint16, l1: uint16, adsb: PFBQueue?<Packet>,
                         uplink: PFBQueue?<Packet>)
    returns (lenBytes: uint16, m: uint16, k: uint16, ghost f2: seq<byte>, ghost f3: seq<byte>)
    requires HEADER_BYTES <= l1 <= buf.Length && bufLen <= buf.Length
    requires U16At(buf[..], 2) == 0 && U16At(buf[..], 4) == 0
    requires Usable(adsb, ADSB_BYTES) && Usable(uplink, UPLINK_BYTES)
    requires adsb != null ==> adsb != uplink
    modifies buf, adsb, uplink
    ensures Usable(adsb, ADSB_BYTES) && Usable(uplink, UPLINK_BYTES)
    ensures Drained(old(Waiting(adsb)), Waiting(adsb), f2, m, l1, ADSB_BYTES, bufLen)
    ensures Drained(old(Waiting(uplink)), Waiting(uplink), f3, k, l1 + |f2|, UPLINK_BYTES, bufLen)
    ensures l1 + |f2| + |f3| == lenBytes <= Max(l1, bufLen)
    ensures buf[..] == Packed(Packed(old(buf[..]), l1, f2, 2, m), l1 + |f2|, f3, 4, k)
  {
    hide Drained, Packed, U16At, Usable, Waiting, Ring, Window;
    ghost var b := buf[..];
    var l2;
    l2, m, f2 := PackSection(buf, bufLen, l1, ADSB_BYTES, 2, adsb);
    CountsStay(b, l1, f2, 2, m);
    lenBytes, k, f3 := PackSection(buf, bufLen, l2, UPLINK_BYTES, 4, uplink);
  }

  /** n, m and k packets with the images f1, f2 and f3 are taken; PackedAsPromised says what that means. */
  method PackRawPacketsBuffer(buf: array<byte>, bufLen: uint16, modeS: PFBQueue?<Packet>, adsb: PFBQueue?<Packet>,
                              uplink: PFBQueue?<Packet>)
    returns (lenBytes: uint16, n: uint16, m: uint16, k: uint16,
             ghost f1: seq<byte>, ghost f2: seq<byte>, ghost f3: seq<byte>)
    requires HEADER_BYTES <= buf.Length && bufLen <= buf.Length
    requires Usable(modeS, MODE_S_BYTES) && Usable(adsb, ADSB_BYTES) && Usable(uplink, UPLINK_BYTES)
    requires modeS != null ==> modeS != adsb && modeS != uplink
    requires adsb != null ==> adsb != uplink
    modifies buf, modeS, adsb, uplink
    ensures Usable(modeS, MODE_S_BYTES) && Usable(adsb, ADSB_BYTES) && Usable(uplink, UPLINK_BYTES)
    ensures Drained(old(Waiting(modeS)), Waiting(modeS), f1, n, HEADER_BYTES, MODE_S_BYTES, bufLen)
    ensures Drained(old(Waiting(adsb)), Waiting(adsb), f2, m, HEADER_BYTES + |f1|, ADSB_BYTES, bufLen)
    ensures Drained(old(Waiting(uplink)), Waiting(uplink), f3, k, HEADER_BYTES + |f1| + |f2|, UPLINK_BYTES, bufLen)
    ensures HEADER_BYTES + |f1| + |f2| + |f3| == lenBytes <= Max(HEADER_BYTES, bufLen)
    ensures buf[..] == PackedThree(ZeroCounts(old(buf[..])), f1, f2, f3, n, m, k)
  {
    hide Drained, Packed, ZeroCounts, U16At, Usable, Waiting, Ring, Window;
    ClearCounts(buf);
    ghost var b := buf[..];
    var l1;
    l1, n, f1 := PackSection(buf, bufLen, HEADER_BYTES, MODE_S_BYTES, 0, modeS);
    CountsStay(b, HEADER_BYTES, f1, 0, n);
    lenBytes, m, k, f2, f3 := PackUATSections(buf, bufLen, l1, adsb, uplink);
  }

  /** c took from each queue, in type order, the longest prefix that fits, and the rest still waits. */
  ghost predicate LosslessPack(c: Composite, was1: seq<Packet>, was2: seq<Packet>, was3: seq<Packet>,
                               left1: seq<Packet>, left2: seq<Packet>, left3: seq<Packet>, bufLen: nat)
  {
    && c.modeS + left1 == was1 && c.adsb + left2 == was2 && c.uplink + left3 == was3
    && LongestPrefix(|c.modeS|, |was1|, TotalBytes(|c.modeS|, 0, 0), MODE_S_BYTES, bufLen)
    && LongestPrefix(|c.adsb|, |was2|, TotalBytes(|c.modeS|, |c.adsb|, 0), ADSB_BYTES, bufLen)
    && LongestPrefix(|c.uplink|, |was3|, PackedBytes(c), UPLINK_BYTES, bufLen)
  }

  /** What PackRawPacketsBuffer leaves behind reads back as a lossless pack, and the header states its length. */
  lemma PackedAsPromised(b: seq<byte>, bufLen: nat, w1: seq<Packet>, w2: seq<Packet>, w3: seq<Packet>,
                         left1: seq<Packet>, left2: seq<Packet>, left3: seq<Packet>,
                         n: uint16, m: uint16, k: uint16, f1: seq<byte>, f2: seq<byte>, f3: seq<byte>)
    requires AllOfSize(w1, MODE_S_BYTES) && AllOfSize(w2, ADSB_BYTES) && AllOfSize(w3, UPLINK_BYTES)
    requires Drained(w1, left1, f1, n, HEADER_BYTES, MODE_S_BYTES, bufLen)
    requires Drained(w2, left2, f2, m, HEADER_BYTES + |f1|, ADSB_BYTES, bufLen)
    requires Drained(w3, left3, f3, k, HEADER_BYTES + |f1| + |f2|, UPLINK_BYTES, bufLen)
    requires HEADER_BYTES + |f1| + |f2| + |f3| <= |b|
    ensures var r := PackedThree(b, f1, f2, f3, n, m, k);
            && WellFormed(r) && ClaimedBytes(r) == HEADER_BYTES + |f1| + |f2| + |f3|
            && U16At(r, 0) == n && U16At(r, 2) == m && U16At(r, 4) == k
            && View(r) == Composite(w1[..n], w2[..m], w3[..k])
            && LosslessPack(View(r), w1, w2, w3, left1, left2, left3, bufLen)
  {
    hide LaidOut, Split, Packed, PackedThree, ModeSBytes, AdsbBytes, UplinkBytes, U16At, AllOfSize, WellFormed,
         ClaimedBytes, View;
    PrefixTaken(w1, n, MODE_S_BYTES);
    PrefixTaken(w2, m, ADSB_BYTES);
    PrefixTaken(w3, k, UPLINK_BYTES);
    ModeSImage(f1, w1[..n]);
    AdsbImage(f2, w2[..m]);
    UplinkImage(f3, w3[..k]);
    PackedView(b, f1, f2, f3, w1[..n], w2[..m], w3[..k]);
    PackedSections(b, f1, f2, f3, n, m, k);
  }

  lemma PrefixTaken(w: seq<Packet>, n: nat, size: nat)
    requires n <= |w| && AllOfSize(w, size)
    ensures AllOfSize(w[..n], size) && |w[..n]| == n && w[..n] + w[n..] == w
  {
  }

  lemma ModeSImage(f: seq<byte>, p: seq<Packet>)
    requires AllOfSize(p, MODE_S_BYTES) && LaidOut(f, p)
    ensures |f| == ModeSLen(|p|) && Split(f, MODE_S_BYTES) == p
  {
    hide LaidOut, Split, AllOfSize;
    SplitLaidOut(f, p, MODE_S_BYTES);
  }

  lemma AdsbImage(f: seq<byte>, p: seq<Packet>)
    requires AllOfSize(p, ADSB_BYTES) && LaidOut(f, p)
    ensures |f| == AdsbLen(|p|) && Split(f, ADSB_BYTES) == p
  {
    hide LaidOut, Split, AllOfSize;
    SplitLaidOut(f, p, ADSB_BYTES);
  }

  lemma UplinkImage(f: seq<byte>, p: seq<Packet>)
    requires AllOfSize(p, UPLINK_BYTES) && LaidOut(f, p)
    ensures |f| == UplinkLen(|p|) && Split(f, UPLINK_BYTES) == p
  {
    hide LaidOut, Split, AllOfSize;
    SplitLaidOut(f, p, UPLINK_BYTES);
  }

  // ----- The precomputed length -----

  /** CalculateRawPacketsBufferLength from the three queue lengths, summed in a uint16_t. */
  function CalculateRawPacketsBufferLength(n: uint16, m: uint16, k: uint16): uint16 {
    U16(U16(U16(HEADER_BYTES + ModeSLen(n)) + AdsbLen(m)) + UplinkLen(k))
  }

  lemma SmallU16(x: int)
    requires 0 <= x < U16_LIMIT
    ensures U16(x) == x
  {
  }

  lemma PredictionExact(n: uint16, m: uint16, k: uint16)
    requires TotalBytes(n, m, k) < U16_LIMIT
    ensures CalculateRawPacketsBufferLength(n, m, k) == TotalBytes(n, m, k)
  {
    hide U16;
    SmallU16(HEADER_BYTES + ModeSLen(n));
    SmallU16(HEADER_BYTES + ModeSLen(n) + AdsbLen(m));
    SmallU16(TotalBytes(n, m, k));
  }

  /** When everything that waits fits into the buffer, all of it is packed and the length was predicted. */
  lemma PredictedLength(c: Composite, w1: seq<Packet>, w2: seq<Packet>, w3: seq<Packet>,
                        left1: seq<Packet>, left2: seq<Packet>, left3: seq<Packet>, bufLen: uint16)
    requires |w1| < U16_LIMIT && |w2| < U16_LIMIT && |w3| < U16_LIMIT
    requires LosslessPack(c, w1, w2, w3, left1, left2, left3, bufLen)
    requires TotalBytes(|w1|, |w2|, |w3|) <= bufLen
    ensures left1 == [] && left2 == [] && left3 == []
    ensures PackedBytes(c) == CalculateRawPacketsBufferLength(|w1|, |w2|, |w3|)
  {
    hide U16;
    assert |w1| == |c.modeS| + |left1| && |w2| == |c.adsb| + |left2| && |w3| == |c.uplink| + |left3|;
    assert |c.modeS| == |w1| && |c.adsb| == |w2| && |c.uplink| == |w3|;
    PredictionExact(|w1|, |w2|, |w3|);
  }

  // ----- Unpacking into queues -----

  lemma FullQueueRefuses(s: seq<Packet>, cap: nat, xs: seq<Packet>)
    requires 0 < cap == |s|
    ensures EnqueuedAll(s, cap, false, xs) == s
  {
    EnqueuedAllKeeps(s, cap, false, xs);
  }

  /** Enqueueing the packets from offset at on starts with the packet that lies there. */
  lemma NextPacket(s: seq<Packet>, cap: nat, overwrite: bool, b: seq<byte>, at: nat, end: nat, size: nat)
    requires 0 < size && at + size <= end <= |b|
    ensures EnqueuedAll(s, cap, overwrite, Split(b[at..end], size))
         == EnqueuedAll(Enqueued(s, cap, overwrite, b[at..at + size]), cap, overwrite, Split(b[at + size..end], size))
  {
    assert b[at..end][..size] == b[at..at + size];
    assert b[at..end][size..] == b[at + size..end];
    var p, rest := b[at..at + size], Split(b[at + size..end], size);
    assert ([p] + rest)[1..] == rest;
  }

  lemma NoMorePackets(s: seq<Packet>, cap: nat, overwrite: bool, b: seq<byte>, at: nat, size: nat)
    requires 0 < size && at <= |b|
    ensures EnqueuedAll(s, cap, overwrite, Split(b[at..at], size)) == s
  {
  }

  lemma OneMorePacket(i: nat, count: nat, size: nat)
    requires i < count
    ensures (i + 1) * size == i * size + size <= count * size
  {
    assert count * size == (i + 1) * size + (count - i - 1) * size;
  }

  /** Enqueues count packets of a section; a refusing queue that fills up stops the loop, and then the
      packets it did not take would all have been refused. */
  method UnpackSection(buf: array<byte>, start: nat, count: nat, size: nat, q: PFBQueue<Packet>) returns (ok: bool)
    requires q.Valid() && 0 < size && start + count * size <= buf.Length
    modifies q, q.buffer
    ensures q.Valid() && buf[..] == old(buf[..])
    ensures q.Contents() == EnqueuedAll(old(q.Contents()), q.bufferLength, q.overwriteWhenFull,
                                        Split(old(buf[..])[start..start + count * size], size))
    ensures ok <==> q.overwriteWhenFull || |old(q.Contents())| + count <= q.bufferLength
  {
    hide EnqueuedAll, Split, Ring, Window;
    ghost var b, was, end := buf[..], q.Contents(), start + count * size;
    ghost var cap: nat, overwrite := q.bufferLength, q.overwriteWhenFull;
    ghost var all := EnqueuedAll(was, cap, overwrite, Split(b[start..end], size));
    var at := start;
    for i := 0 to count
      invariant q.Valid() && buf[..] == b
      invariant at == start + i * size <= end
      invariant EnqueuedAll(q.Contents(), cap, overwrite, Split(b[at..end], size)) == all
      invariant overwrite || |q.Contents()| == |was| + i
    {
      OneMorePacket(i, count, size);
      NextPacket(q.Contents(), cap, overwrite, b, at, end, size);
      assert b[at..at + size] == buf[at..at + size];
      ok := q.Enqueue(buf[at..at + size]);
      if !ok {
        FullQueueRefuses(q.Contents(), cap, Split(b[at + size..end], size));
        return;
      }
      at := at + size;
    }
    NoMorePackets(q.Contents(), cap, overwrite, b, end, size);
    ok := true;
  }

  /** What a section leaves waiting in a queue; an absent queue takes nothing. */
  ghost function Fed(q: PFBQueue?<Packet>, was: seq<Packet>, ps: seq<Packet>): seq<Packet> {
    if q == null then was else EnqueuedAll(was, q.bufferLength, q.overwriteWhenFull, ps)
  }

  /** With room for all of them, exactly the packets arrive, in order, behind what waited. */
  lemma FedWithRoom(q: PFBQueue<Packet>, was: seq<Packet>, ps: seq<Packet>)
    requires 0 < q.bufferLength && |was| + |ps| <= q.bufferLength
    ensures Fed(q, was, ps) == was + ps
  {
    EnqueuedAllKeeps(was, q.bufferLength, q.overwriteWhenFull, ps);
  }

  ghost predicate HasRoom(q: PFBQueue?<Packet>, was: nat, count: nat) {
    q == null || q.overwriteWhenFull || was + count <= q.bufferLength
  }

  method UnpackOptional(buf: array<byte>, start: nat, count: nat, size: nat, q: PFBQueue?<Packet>) returns (ok: bool)
    requires q != null ==> q.Valid()
    requires 0 < size && start + count * size <= buf.Length
    modifies q, if q == null then {} else {q.buffer}
    ensures q != null ==> q.Valid()
    ensures buf[..] == old(buf[..])
    ensures Waiting(q) == Fed(q, old(Waiting(q)), Split(old(buf[..])[start..start + count * size], size))
    ensures ok <==> HasRoom(q, |old(Waiting(q))|, count)
  {
    if q == null {
      return true;
    }
    ok := UnpackSection(buf, start, count, size, q);
  }

  /** No two of the queues share state. */
  ghost predicate Separate(modeS: PFBQueue?<Packet>, adsb: PFBQueue?<Packet>, uplink: PFBQueue?<Packet>)
  {
    && (modeS != null && adsb != null ==> modeS != adsb && modeS.buffer != adsb.buffer)
    && (modeS != null && uplink != null ==> modeS != uplink && modeS.buffer != uplink.buffer)
    && (adsb != null && uplink != null ==> adsb != uplink && adsb.buffer != uplink.buffer)
  }

  lemma SectionsOf(b: seq<byte>, n: nat, m: nat, k: nat)
    requires WellFormed(b) && n == U16At(b, 0) && m == U16At(b, 2) && k == U16At(b, 4)
    ensures HEADER_BYTES + n * MODE_S_BYTES + m * ADSB_BYTES + k * UPLINK_BYTES <= |b|
    ensures var l1 := HEADER_BYTES + n * MODE_S_BYTES;
            var l2 := l1 + m * ADSB_BYTES;
            && l1 == HEADER_BYTES + ModeSLen(n) && l2 == l1 + AdsbLen(m)
            && View(b).modeS == Split(b[HEADER_BYTES..l1], MODE_S_BYTES)
            && View(b).adsb == Split(b[l1..l2], ADSB_BYTES)
            && View(b).uplink == Split(b[l2..l2 + k * UPLINK_BYTES], UPLINK_BYTES)
  {
    hide Split, U16At;
  }

  /** The sections are fed in type order; the first queue that has no room ends the call, and the sections
      behind it are not fed. */
  method FeedQueues(buf: array<byte>, n: nat, m: nat, k: nat, modeS: PFBQueue?<Packet>, adsb: PFBQueue?<Packet>,
                    uplink: PFBQueue?<Packet>)
    returns (ok: bool)
    requires WellFormed(buf[..]) && n == U16At(buf[..], 0) && m == U16At(buf[..], 2) && k == U16At(buf[..], 4)
    requires modeS != null ==> modeS.Valid()
    requires adsb != null ==> adsb.Valid()
    requires uplink != null ==> uplink.Valid()
    requires Separate(modeS, adsb, uplink)
    modifies modeS, if modeS == null then {} else {modeS.buffer}
    modifies adsb, if adsb == null then {} else {adsb.buffer}
    modifies uplink, if uplink == null then {} else {uplink.buffer}
    ensures modeS != null ==> modeS.Valid()
    ensures adsb != null ==> adsb.Valid()
    ensures uplink != null ==> uplink.Valid()
    ensures buf[..] == old(buf[..])
    ensures Waiting(modeS) == Fed(modeS, old(Waiting(modeS)), View(old(buf[..])).modeS)
    ensures Waiting(adsb) == if HasRoom(modeS, |old(Waiting(modeS))|, n)
                             then Fed(adsb, old(Waiting(adsb)), View(old(buf[..])).adsb) else old(Waiting(adsb))
    ensures Waiting(uplink) == if HasRoom(modeS, |old(Waiting(modeS))|, n) && HasRoom(adsb, |old(Waiting(adsb))|, m)
                               then Fed(uplink, old(Waiting(uplink)), View(old(buf[..])).uplink)
                               else old(Waiting(uplink))
    ensures ok <==> HasRoom(modeS, |old(Waiting(modeS))|, n) && HasRoom(adsb, |old(Waiting(adsb))|, m)
                    && HasRoom(uplink, |old(Waiting(uplink))|, k)
  {
    hide EnqueuedAll, Split, View, WellFormed, ModeSLen, AdsbLen, Ring, Window, Fed, HasRoom, U16At, Waiting;
    SectionsOf(buf[..], n, m, k);
    ok := UnpackOptional(buf, HEADER_BYTES, n, MODE_S_BYTES, modeS);
    if !ok {
      return;
    }
    ok := UnpackOptional(buf, HEADER_BYTES + ModeSLen(n), m, ADSB_BYTES, adsb);
    if !ok {
      return;
    }
    ok := UnpackOptional(buf, HEADER_BYTES + ModeSLen(n) + AdsbLen(m), k, UPLINK_BYTES, uplink);
  }

  /** The buffer is accepted, and no packets in it are for a queue that is not passed. */
  ghost predicate Deliverable(b: seq<byte>, bufLen: uint16, modeS: PFBQueue?<Packet>, adsb: PFBQueue?<Packet>,
                              uplink: PFBQueue?<Packet>)
    requires bufLen <= |b|
  {
    && UnpackRawPacketsBuffer(b, bufLen).Accepted?
    && (modeS == null ==> U16At(b, 0) == 0) && (adsb == null ==> U16At(b, 2) == 0)
    && (uplink == null ==> U16At(b, 4) == 0)
  }

  /** What is not deliverable changes nothing; the rest goes to the queues in type order, up to the first one that
      has no room, and the call succeeds exactly when all of them have. */
  method UnpackRawPacketsBufferToQueues(buf: array<byte>, bufLen: uint16, modeS: PFBQueue?<Packet>,
                                        adsb: PFBQueue?<Packet>, uplink: PFBQueue?<Packet>)
    returns (ok: bool)
    requires bufLen <= buf.Length
    requires UnpackRawPacketsBuffer(buf[..], bufLen).Accepted? ==> WellFormed(buf[..])
    requires modeS != null ==> modeS.Valid()
    requires adsb != null ==> adsb.Valid()
    requires uplink != null ==> uplink.Valid()
    requires Separate(modeS, adsb, uplink)
    modifies modeS, if modeS == null then {} else {modeS.buffer}
    modifies adsb, if adsb == null then {} else {adsb.buffer}
    modifies uplink, if uplink == null then {} else {uplink.buffer}
    ensures modeS != null ==> modeS.Valid()
    ensures adsb != null ==> adsb.Valid()
    ensures uplink != null ==> uplink.Valid()
    ensures buf[..] == old(buf[..])
    ensures !Deliverable(old(buf[..]), bufLen, modeS, adsb, uplink) ==>
              && !ok && Waiting(modeS) == old(Waiting(modeS)) && Waiting(adsb) == old(Waiting(adsb))
              && Waiting(uplink) == old(Waiting(uplink))
    ensures Deliverable(old(buf[..]), bufLen, modeS, adsb, uplink) ==>
              var b := old(buf[..]);
              var room1 := HasRoom(modeS, |old(Waiting(modeS))|, U16At(b, 0));
              var room2 := HasRoom(adsb, |old(Waiting(adsb))|, U16At(b, 2));
              && (ok <==> room1 && room2 && HasRoom(uplink, |old(Waiting(uplink))|, U16At(b, 4)))
              && Waiting(modeS) == Fed(modeS, old(Waiting(modeS)), View(b).modeS)
              && Waiting(adsb) == (if room1 then Fed(adsb, old(Waiting(adsb)), View(b).adsb) else old(Waiting(adsb)))
              && Waiting(uplink) == if room1 && room2 then Fed(uplink, old(Waiting(uplink)), View(b).uplink)
                                    else old(Waiting(uplink))
  {
    hide EnqueuedAll, Split, Ring, Window, Fed, HasRoom, Waiting, View;
    var parse := UnpackRawPacketsBuffer(buf[..], bufLen);
    if parse.Rejected? {
      return false;
    }
    var n, m, k := U16At(buf[..], 0), U16At(buf[..], 2), U16At(buf[..], 4);
    if (modeS == null && n > 0) || (adsb == null && m > 0) || (uplink == null && k > 0) {
      return false;
    }
    ok := FeedQueues(buf, n, m, k, modeS, adsb, uplink);
  }

  /** From queues to queues: what PackRawPacketsBuffer leaves is deliverable to three queues, and with room in them
      the call above succeeds and each ends with what it held, followed by exactly the packets that were taken from
      its counterpart. */
  lemma PackThenUnpack(b: seq<byte>, bufLen: nat, w1: seq<Packet>, w2: seq<Packet>, w3: seq<Packet>,
                       left1: seq<Packet>, left2: seq<Packet>, left3: seq<Packet>,
                       n: uint16, m: uint16, k: uint16, f1: seq<byte>, f2: seq<byte>, f3: seq<byte>, lenBytes: uint16,
                       q1: PFBQueue<Packet>, q2: PFBQueue<Packet>, q3: PFBQueue<Packet>,
                       s1: seq<Packet>, s2: seq<Packet>, s3: seq<Packet>)
    requires AllOfSize(w1, MODE_S_BYTES) && AllOfSize(w2, ADSB_BYTES) && AllOfSize(w3, UPLINK_BYTES)
    requires Drained(w1, left1, f1, n, HEADER_BYTES, MODE_S_BYTES, bufLen)
    requires Drained(w2, left2, f2, m, HEADER_BYTES + |f1|, ADSB_BYTES, bufLen)
    requires Drained(w3, left3, f3, k, HEADER_BYTES + |f1| + |f2|, UPLINK_BYTES, bufLen)
    requires HEADER_BYTES + |f1| + |f2| + |f3| == lenBytes <= |b|
    requires 0 < q1.bufferLength && |s1| + n <= q1.bufferLength
    requires 0 < q2.bufferLength && |s2| + m <= q2.bufferLength
    requires 0 < q3.bufferLength && |s3| + k <= q3.bufferLength
    ensures var r := PackedThree(b, f1, f2, f3, n, m, k);
            && WellFormed(r) && Deliverable(r, lenBytes, q1, q2, q3)
            && HasRoom(q1, |s1|, U16At(r, 0)) && HasRoom(q2, |s2|, U16At(r, 2)) && HasRoom(q3, |s3|, U16At(r, 4))
            && Fed(q1, s1, View(r).modeS) + left1 == s1 + w1
            && Fed(q2, s2, View(r).adsb) + left2 == s2 + w2
            && Fed(q3, s3, View(r).uplink) + left3 == s3 + w3
  {
    hide LaidOut, PackedThree, U16At, AllOfSize, View, Fed, ClaimedBytes;
    PackedAsPromised(b, bufLen, w1, w2, w3, left1, left2, left3, n, m, k, f1, f2, f3);
    FedWithRoom(q1, s1, w1[..n]);
    FedWithRoom(q2, s2, w2[..m]);
    FedWithRoom(q3, s3, w3[..k]);
    assert s1 + w1[..n] + left1 == s1 + w1 && s2 + w2[..m] + left2 == s2 + w2 && s3 + w3[..k] + left3 == s3 + w3;
    SmallU16(lenBytes);
  }
}
