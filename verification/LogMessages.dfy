/**
 Log messages that the slave queues, packs into a buffer for the master, and the master unpacks into its own
 queue.  A packed message is its level, its length (two bytes each, low byte first), its characters and a zero.
 */
module LogMessages {
  import opened Arith
  import opened Bytes
  import opened Queues
  import SpiReads

  const HEADER_BYTES: nat := 4
  const MAX_NUM_CHARS: nat := 500
  const LOG_QUEUE_DEPTH: nat := 10
  const BUFFER_BYTES: nat := MAX_NUM_CHARS * LOG_QUEUE_DEPTH   // log_messages_buffer of the master

  datatype LogMessage = LogMessage(level: uint16, chars: seq<byte>)

  predicate AllShort(ms: seq<LogMessage>) {
    forall i :: 0 <= i < |ms| ==> |ms[i].chars| <= MAX_NUM_CHARS
  }

  function Packed(m: LogMessage): (b: seq<byte>)
    requires |m.chars| <= MAX_NUM_CHARS
    ensures |b| == HEADER_BYTES + |m.chars| + 1
  {
    U16Bytes(m.level) + U16Bytes(|m.chars|) + m.chars + [0]
  }

  /** Level and length with the low byte first, the characters, a zero. */
  lemma PackedLayout(m: LogMessage)
    requires |m.chars| <= MAX_NUM_CHARS
    ensures var b, n := Packed(m), |m.chars|;
            |b| == n + 5 && U16At(b, 0) == m.level && U16At(b, 2) == n && b[4..4 + n] == m.chars && b[4 + n] == 0
  {
  }

  function PackedAll(ms: seq<LogMessage>): (b: seq<byte>)
    requires AllShort(ms)
    decreases |ms|
  {
    if ms == [] then [] else Packed(ms[0]) + PackedAll(ms[1..])
  }

  /** How many messages fit: packing stops at the first one that does not. */
  function FitCount(ms: seq<LogMessage>, room: nat, max: nat): (k: nat)
    requires AllShort(ms)
    ensures k <= |ms| && k <= max
    decreases |ms|
  {
    if ms == [] || max == 0 || room < |Packed(ms[0])| then 0
    else 1 + FitCount(ms[1..], room - |Packed(ms[0])|, max - 1)
  }

  /** FitCount is the longest prefix: it fits, and one more message would not. */
  lemma {:induction false} FitCountIsLongest(ms: seq<LogMessage>, room: nat, max: nat)
    requires AllShort(ms)
    ensures var k := FitCount(ms, room, max);
            && |PackedAll(ms[..k])| <= room
            && (k < |ms| && k < max ==> |PackedAll(ms[..k + 1])| > room)
    decreases |ms|
  {
    hide Packed;
    var k := FitCount(ms, room, max);
    if ms != [] && max > 0 {
      if room < |Packed(ms[0])| {
        assert ms[..1][1..] == [];
      } else {
        FitCountIsLongest(ms[1..], room - |Packed(ms[0])|, max - 1);
        assert ms[..k][1..] == ms[1..][..k - 1];
        if k < |ms| {
          assert ms[..k + 1][1..] == ms[1..][..k];
        }
      }
    }
  }

  lemma {:induction false} PackedAllSnoc(ms: seq<LogMessage>, m: LogMessage)
    requires AllShort(ms) && |m.chars| <= MAX_NUM_CHARS
    ensures PackedAll(ms + [m]) == PackedAll(ms) + Packed(m)
    decreases |ms|
  {
    hide Packed;
    if ms == [] {
      assert PackedAll([]) == [] && ([] + [m])[1..] == [];
      assert PackedAll(ms + [m]) == Packed(m) + [];
    } else {
      PackedAllSnoc(ms[1..], m);
      assert (ms + [m])[1..] == ms[1..] + [m];
    }
  }

  /** Writing the image of one message: its memory up to the last character, then the zero. */
  method WriteMessage(buf: array<byte>, at: nat, m: LogMessage)
    requires |m.chars| <= MAX_NUM_CHARS && at + |Packed(m)| <= buf.Length
    modifies buf
    ensures buf[..] == Overwrite(old(buf[..]), at, Packed(m))
  {
    var image := U16Bytes(m.level) + U16Bytes(|m.chars|) + m.chars;
    forall i | 0 <= i < |image| {
      buf[at + i] := image[i];
    }
    buf[at + |image|] := 0;
  }

  lemma PackedNone()
    ensures PackedAll([]) == []
  {
  }

  /** One step of FitCount from the front of what is still queued. */
  lemma FitCountStep(ms: seq<LogMessage>, i: nat, room: nat, max: nat)
    requires AllShort(ms) && i < |ms|
    ensures FitCount(ms[i..], room, max)
         == if max == 0 || room < |Packed(ms[i])| then 0
            else 1 + FitCount(ms[i + 1..], room - |Packed(ms[i])|, max - 1)
  {
    hide Packed;
    assert ms[i..][0] == ms[i] && ms[i..][1..] == ms[i + 1..];
  }

  /** The queue is only peeked at; k of its messages end up in the buffer. */
  method PackLogMessages(buf: array<byte>, bufLen: uint16, q: PFBQueue<LogMessage>, numMessages: uint16)
    returns (n: uint16, ghost k: nat)
    requires q.Valid() && bufLen <= buf.Length
    requires AllShort(q.Contents())
    modifies buf
    ensures q.Valid() && q.Contents() == old(q.Contents())
    ensures k == FitCount(q.Contents(), bufLen, numMessages)
    ensures n == |PackedAll(q.Contents()[..k])| <= bufLen
    ensures buf[..] == Overwrite(old(buf[..]), 0, PackedAll(q.Contents()[..k]))
  {
    hide Packed, PackedAll, FitCount, Overwrite, Ring, Window;
    ghost var was, ms := buf[..], q.Contents();
    n, k := 0, 0;
    PackedNone();
    NothingWritten(was, 0);
    for i: uint16 := 0 to numMessages
      invariant q.Valid() && q.Contents() == ms
      invariant i <= |ms| && n == |PackedAll(ms[..i])| <= bufLen
      invariant buf[..] == Overwrite(was, 0, PackedAll(ms[..i]))
      invariant FitCount(ms, bufLen, numMessages) == i + FitCount(ms[i..], bufLen - n, numMessages - i)
      invariant k == i
    {
      var m, found := q.Peek(i);
      if !found {
        break;
      }
      FitCountStep(ms, i, bufLen - n, numMessages - i);
      var size := HEADER_BYTES + |m.chars| + 1;
      if bufLen - n < size {
        break;
      }
      WriteMessage(buf, n, m);
      assert ms[..i + 1] == ms[..i] + [m];
      PackedAllSnoc(ms[..i], m);
      OverwriteMore(was, 0, PackedAll(ms[..i]), Packed(m));
      n := n + size;
      k := k + 1;
    }
  }

  /** Everything is packed exactly when the whole queue fits. */
  lemma AllFit(ms: seq<LogMessage>, room: nat, max: nat)
    requires AllShort(ms)
    ensures FitCount(ms, room, max) == |ms| <==> |PackedAll(ms)| <= room && |ms| <= max
  {
    hide PackedAll, FitCount;
    var k := FitCount(ms, room, max);
    FitCountIsLongest(ms, room, max);
    assert ms[..|ms|] == ms;
    if k < |ms| && k < max {
      PackedPrefix(ms, k + 1);
    }
  }

  lemma PackedFront(ms: seq<LogMessage>)
    requires AllShort(ms) && ms != []
    ensures PackedAll(ms) == Packed(ms[0]) + PackedAll(ms[1..])
  {
  }

  lemma {:induction false} PackedPrefix(ms: seq<LogMessage>, k: nat)
    requires AllShort(ms) && k <= |ms|
    ensures PackedAll(ms) == PackedAll(ms[..k]) + PackedAll(ms[k..])
    decreases |ms|
  {
    hide Packed, PackedAll;
    if k == 0 {
      PackedNone();
      assert ms[..0] == [] && ms[0..] == ms;
    } else {
      PackedPrefix(ms[1..], k - 1);
      assert ms[..k][1..] == ms[1..][..k - 1] && ms[1..][k - 1..] == ms[k..];
      PackedFront(ms);
      PackedFront(ms[..k]);
    }
  }

  /** The byte size that UpdateDeviceStatus reports: the headers first, then each message as it is peeked. */
  method PackedSizeBytes(q: PFBQueue<LogMessage>) returns (size: nat)
    requires q.Valid() && AllShort(q.Contents())
    ensures size == |PackedAll(q.Contents())|
  {
    hide Packed, PackedAll, Ring, Window;
    ghost var ms := q.Contents();
    var length := q.Length();
    size := length * 4;
    PackedNone();
    for i: uint16 := 0 to length
      invariant size == |PackedAll(ms[..i])| + 4 * (length - i)
    {
      var m, found := q.Peek(i);
      if found {
        size := size + |m.chars| + 1;
      }
      assert ms[..i + 1] == ms[..i] + [m];
      PackedAllSnoc(ms[..i], m);
    }
    assert ms[..length] == ms;
  }

  // ----- Unpacking -----

  datatype Unpacking = Stop | Next(m: LogMessage, size: nat)

  /** One message at the front of b: stop on a missing header, a length over the maximum, or missing bytes. */
  function FirstMessage(b: seq<byte>): (r: Unpacking)
    ensures r.Next? ==> 0 < r.size <= |b|
  {
    if |b| < HEADER_BYTES then Stop
    else
      var n := U16At(b, 2);
      if n > MAX_NUM_CHARS || |b| < HEADER_BYTES + n + 1 then Stop
      else Next(LogMessage(U16At(b, 0), b[HEADER_BYTES..HEADER_BYTES + n]), HEADER_BYTES + n + 1)
  }

  function Unpacked(b: seq<byte>, max: nat): (ms: seq<LogMessage>)
    decreases max
  {
    if max == 0 then []
    else
      var f := FirstMessage(b);
      if f.Stop? then [] else [f.m] + Unpacked(b[f.size..], max - 1)
  }

  /** The messages that follow offset at, enqueued, start with the one there. */
  lemma UnpackedStep(s: seq<LogMessage>, cap: nat, overwrite: bool, b: seq<byte>, at: nat, max: nat)
    requires at <= |b|
    ensures EnqueuedAll(s, cap, overwrite, Unpacked(b[at..], max))
         == if max == 0 || FirstMessage(b[at..]).Stop? then s
            else EnqueuedAll(Enqueued(s, cap, overwrite, FirstMessage(b[at..]).m), cap, overwrite,
                             Unpacked(b[at + FirstMessage(b[at..]).size..], max - 1))
  {
    hide FirstMessage, Enqueued;
    if max > 0 && FirstMessage(b[at..]).Next? {
      var f := FirstMessage(b[at..]);
      assert b[at..][f.size..] == b[at + f.size..];
      assert ([f.m] + Unpacked(b[at + f.size..], max - 1))[1..] == Unpacked(b[at + f.size..], max - 1);
    }
  }

  /** n messages are read, and enqueued in order. */
  method UnpackLogMessages(buf: seq<byte>, bufLen: uint16, q: PFBQueue<LogMessage>, max: uint16) returns (n: nat)
    requires q.Valid() && bufLen <= |buf|
    modifies q, q.buffer
    ensures q.Valid() && n == |Unpacked(buf[..bufLen], max)|
    ensures q.Contents()
         == EnqueuedAll(old(q.Contents()), q.bufferLength, q.overwriteWhenFull, Unpacked(buf[..bufLen], max))
  {
    hide Unpacked, EnqueuedAll, Enqueued, Ring, Window, FirstMessage;
    ghost var b, cap, over := buf[..bufLen], q.bufferLength, q.overwriteWhenFull;
    ghost var all := EnqueuedAll(q.Contents(), cap, over, Unpacked(b, max));
    var at: nat := 0;
    n := 0;
    assert b[0..] == b;
    while at < bufLen && n < max
      invariant q.Valid() && at <= bufLen && n <= max
      invariant EnqueuedAll(q.Contents(), cap, over, Unpacked(b[at..], max - n)) == all
      invariant n + |Unpacked(b[at..], max - n)| == |Unpacked(b, max)|
      decreases max - n
    {
      UnpackedStep(q.Contents(), cap, over, b, at, max - n);
      UnpackedCount(b, at, max - n);
      var first := FirstMessage(buf[at..bufLen]);
      assert buf[at..bufLen] == b[at..];
      if first.Stop? {
        return;
      }
      var _ := q.Enqueue(first.m);
      at := at + first.size;
      n := n + 1;
    }
    UnpackedStep(q.Contents(), cap, over, b, at, max - n);
    UnpackedCount(b, at, max - n);
    NoHeader(b[at..]);
  }

  lemma NoHeader(b: seq<byte>)
    ensures |b| == 0 ==> FirstMessage(b).Stop?
  {
  }

  lemma UnpackedCount(b: seq<byte>, at: nat, max: nat)
    requires at <= |b|
    ensures |Unpacked(b[at..], max)|
         == if max == 0 || FirstMessage(b[at..]).Stop? then 0
            else 1 + |Unpacked(b[at + FirstMessage(b[at..]).size..], max - 1)|
  {
    hide FirstMessage;
    if max > 0 && FirstMessage(b[at..]).Next? {
      assert b[at..][FirstMessage(b[at..]).size..] == b[at + FirstMessage(b[at..]).size..];
    }
  }

  lemma FirstOfPacked(m: LogMessage, rest: seq<byte>)
    requires |m.chars| <= MAX_NUM_CHARS
    ensures FirstMessage(Packed(m) + rest) == Next(m, |Packed(m)|)
  {
    var b := Packed(m) + rest;
    assert U16At(b, 0) == m.level && U16At(b, 2) == |m.chars|;
    assert b[HEADER_BYTES..HEADER_BYTES + |m.chars|] == m.chars;
  }

  lemma UnpackOne(m: LogMessage, rest: seq<byte>, max: nat)
    requires |m.chars| <= MAX_NUM_CHARS
    ensures Unpacked(Packed(m) + rest, max + 1) == [m] + Unpacked(rest, max)
  {
    hide Packed, FirstMessage;
    FirstOfPacked(m, rest);
    assert (Packed(m) + rest)[|Packed(m)|..] == rest;
  }

  /** Messages at the front of a buffer come out first, in order. */
  lemma {:induction false} UnpackConcat(ms: seq<LogMessage>, b: seq<byte>, max: nat)
    requires AllShort(ms)
    ensures Unpacked(PackedAll(ms) + b, |ms| + max) == ms + Unpacked(b, max)
    decreases |ms|
  {
    hide Packed, PackedAll, Unpacked;
    if ms == [] {
      PackedNone();
      assert PackedAll(ms) + b == b;
    } else {
      PackedFront(ms);
      assert PackedAll(ms) + b == Packed(ms[0]) + (PackedAll(ms[1..]) + b);
      UnpackOne(ms[0], PackedAll(ms[1..]) + b, |ms| - 1 + max);
      UnpackConcat(ms[1..], b, max);
    }
  }

  /** Unpacking what was packed returns the same messages in order, whatever lies behind them in the buffer, when
      it is told how many there are. */
  lemma UnpackPacked(ms: seq<LogMessage>, junk: seq<byte>)
    requires AllShort(ms)
    ensures Unpacked(PackedAll(ms) + junk, |ms|) == ms
  {
    UnpackConcat(ms, junk, 0);
  }

  /** With nothing behind them, being told of more messages than there are does no harm. */
  lemma UnpackAll(ms: seq<LogMessage>, max: nat)
    requires AllShort(ms) && |ms| <= max
    ensures Unpacked(PackedAll(ms), max) == ms
  {
    UnpackConcat(ms, [], max - |ms|);
    NoHeader([]);
    assert PackedAll(ms) + [] == PackedAll(ms);
  }

  /** Unpacking ends at the first place where no message lies: no room for a header, a length above the maximum, or
      fewer bytes than that. */
  lemma StopsExactly(b: seq<byte>, max: nat)
    requires max > 0
    ensures Unpacked(b, max) == []
        <==> |b| < 4 || U16At(b, 2) > 500 || |b| < 4 + U16At(b, 2) + 1
  {
  }

  /** Whatever the bytes are, what comes out is no longer than they are, and no text is above the maximum. */
  lemma {:induction false} UnpackedFits(b: seq<byte>, max: nat)
    ensures AllShort(Unpacked(b, max)) && |PackedAll(Unpacked(b, max))| <= |b|
    decreases max
  {
    hide PackedAll;
    if max == 0 || FirstMessage(b).Stop? {
      PackedNone();
    } else {
      var f := FirstMessage(b);
      UnpackedFits(b[f.size..], max - 1);
      PackedFront(Unpacked(b, max));
      assert Unpacked(b, max)[1..] == Unpacked(b[f.size..], max - 1);
    }
  }

  // ----- How much a queue packs to -----

  function TotalChars(ms: seq<LogMessage>): nat
    decreases |ms|
  {
    if ms == [] then 0 else |ms[0].chars| + TotalChars(ms[1..])
  }

  /** Each message costs its characters, its header and its terminator. */
  lemma {:induction false} PackedSize(ms: seq<LogMessage>)
    requires AllShort(ms)
    ensures |PackedAll(ms)| == TotalChars(ms) + 5 * |ms|
    decreases |ms|
  {
    hide PackedAll;
    if ms == [] {
      PackedNone();
    } else {
      PackedFront(ms);
      PackedSize(ms[1..]);
    }
  }

  lemma {:induction false} CharsAtMost(ms: seq<LogMessage>)
    requires AllShort(ms)
    ensures TotalChars(ms) <= MAX_NUM_CHARS * |ms|
    decreases |ms|
  {
    if ms != [] {
      CharsAtMost(ms[1..]);
    }
  }

  /** The master's buffer has room for the characters of a full queue, but not for the 5 bytes that each message costs
      besides: the packed messages exceed it exactly when their characters and 5 for each of them do, which takes a
      full queue. */
  lemma ExceedsBufferExactly(ms: seq<LogMessage>)
    requires AllShort(ms) && |ms| <= LOG_QUEUE_DEPTH
    ensures |PackedAll(ms)| > BUFFER_BYTES <==> TotalChars(ms) + 5 * |ms| > BUFFER_BYTES
    ensures |PackedAll(ms)| > BUFFER_BYTES ==> |ms| == LOG_QUEUE_DEPTH
    ensures |PackedAll(ms)| <= BUFFER_BYTES + 5 * LOG_QUEUE_DEPTH
  {
    PackedSize(ms);
    CharsAtMost(ms);
  }

  predicate AllLongest(ms: seq<LogMessage>) { forall i :: 0 <= i < |ms| ==> |ms[i].chars| == MAX_NUM_CHARS }

  lemma {:induction false} LongestSize(ms: seq<LogMessage>)
    requires AllLongest(ms)
    ensures AllShort(ms) && |PackedAll(ms)| == 505 * |ms|
    decreases |ms|
  {
    hide PackedAll;
    if ms == [] {
      PackedNone();
    } else {
      PackedFront(ms);
      LongestSize(ms[1..]);
    }
  }

  /** Ten messages of 500 characters pack to 5050 bytes, more than the buffer they are read into. */
  lemma TenLongestExample(ms: seq<LogMessage>)
    requires |ms| == LOG_QUEUE_DEPTH && AllLongest(ms)
    ensures AllShort(ms) && |PackedAll(ms)| == 5050 > BUFFER_BYTES
  {
    LongestSize(ms);
  }

  // ----- The master pulls the messages of the slave -----

  /** The slave's static response data after it has packed an answer of len bytes: what was there before stays behind
      the packed messages.  The offset of the request is not looked at. */
  function Answered(ms: seq<LogMessage>, len: nat, stale: seq<byte>): (r: seq<byte>)
    requires AllShort(ms) && len <= |stale|
    ensures |r| == |stale|
  {
    FitCountIsLongest(ms, len, LOG_QUEUE_DEPTH);
    Overwrite(stale, 0, PackedAll(ms[..FitCount(ms, len, LOG_QUEUE_DEPTH)]))
  }

  /** What the chunks of a read bring, one behind the other. */
  function Collected(ms: seq<LogMessage>, remaining: nat, stale: seq<byte>): (r: seq<byte>)
    requires AllShort(ms) && |stale| == SpiReads.READ_DATA_MAX_BYTES
    ensures |r| == remaining
    decreases remaining
  {
    if remaining == 0 then []
    else
      var len := Min(SpiReads.READ_DATA_MAX_BYTES, remaining);
      Answered(ms, len, stale)[..len] + Collected(ms, remaining - len, Answered(ms, len, stale))
  }

  /** The messages that the master makes of it; rest is what its buffer held behind. */
  function Pulled(ms: seq<LogMessage>, size: nat, count: nat, stale: seq<byte>, rest: seq<byte>): seq<LogMessage>
    requires AllShort(ms) && |stale| == SpiReads.READ_DATA_MAX_BYTES
  {
    Unpacked(Collected(ms, size, stale) + rest, count)
  }

  /** Read over an undamaged link, unpack, and roll the slave's queue by what was unpacked. */
  method PullLogMessages(slave: PFBQueue<LogMessage>, master: PFBQueue<LogMessage>, response: array<byte>,
                         buffer: array<byte>, size: uint16, count: uint16)
    returns (n: nat)
    requires slave.Valid() && master.Valid() && slave != master && slave.buffer != master.buffer
    requires AllShort(slave.Contents()) && response != buffer
    requires response.Length == SpiReads.READ_DATA_MAX_BYTES && buffer.Length == BUFFER_BYTES
    requires 0 < size <= BUFFER_BYTES
    modifies slave, master, master.buffer, response, buffer
    ensures slave.Valid() && master.Valid()
    ensures var ms := old(slave.Contents());
            var pulled := Pulled(ms, size, count, old(response[..]), old(buffer[size..]));
            && n == |pulled|
            && master.Contents()
               == EnqueuedAll(old(master.Contents()), master.bufferLength, master.overwriteWhenFull, pulled)
            && slave.Contents() == if n <= |ms| then ms[n..] else ms
  {
    hide Unpacked, EnqueuedAll, Collected, Answered, AllShort, FitCount, PackedAll, Ring, Window, Overwrite;
    ghost var ms, all := slave.Contents(), Collected(slave.Contents(), size, response[..]);
    var remaining: nat := size;
    CollectedUnfold(ms, 0, response[..]);
    while remaining > 0
      invariant remaining <= size && slave.Valid() && master.Valid()
      invariant slave.Contents() == ms && master.Contents() == old(master.Contents())
      invariant buffer[..size - remaining] + Collected(ms, remaining, response[..]) == all
      invariant buffer[size..] == old(buffer[size..])
    {
      ghost var stale, at, before := response[..], size - remaining, buffer[..];
      var len := Min(SpiReads.READ_DATA_MAX_BYTES, remaining);
      CollectedUnfold(ms, remaining, stale);
      AnsweredIs(ms, len, stale);
      var _, _ := PackLogMessages(response, len, slave, LOG_QUEUE_DEPTH);
      Store(buffer, size - remaining, response[..len]);
      remaining := remaining - len;
      ChunkStored(before, at, response[..len], Collected(ms, remaining, response[..]), size);
      CollectedUnfold(ms, 0, response[..]);
    }
    assert buffer[..] == all + old(buffer[size..]);
    n := UnpackLogMessages(buffer[..], BUFFER_BYTES, master, count);
    assert (all + old(buffer[size..]))[..BUFFER_BYTES] == all + old(buffer[size..]);
    UnpackedAtMost(all + old(buffer[size..]), count);
    var _ := slave.Discard(n);
  }

  lemma CollectedUnfold(ms: seq<LogMessage>, remaining: nat, stale: seq<byte>)
    requires AllShort(ms) && |stale| == SpiReads.READ_DATA_MAX_BYTES
    ensures Collected(ms, remaining, stale)
         == if remaining == 0 then []
            else
              var len := Min(SpiReads.READ_DATA_MAX_BYTES, remaining);
              Answered(ms, len, stale)[..len] + Collected(ms, remaining - len, Answered(ms, len, stale))
  {
  }

  lemma AnsweredIs(ms: seq<LogMessage>, len: nat, stale: seq<byte>)
    requires AllShort(ms) && len <= |stale|
    ensures var k := FitCount(ms, len, LOG_QUEUE_DEPTH);
            |PackedAll(ms[..k])| <= len && Answered(ms, len, stale) == Overwrite(stale, 0, PackedAll(ms[..k]))
  {
    hide FitCount, PackedAll;
    FitCountIsLongest(ms, len, LOG_QUEUE_DEPTH);
  }

  lemma ChunkStored(before: seq<byte>, at: nat, chunk: seq<byte>, rest: seq<byte>, size: nat)
    requires at + |chunk| <= size <= |before|
    ensures Overwrite(before, at, chunk)[..at + |chunk|] + rest == before[..at] + (chunk + rest)
    ensures Overwrite(before, at, chunk)[size..] == before[size..]
  {
    assert Overwrite(before, at, chunk)[..at + |chunk|] == before[..at] + chunk;
  }

  lemma {:induction false} UnpackedAtMost(b: seq<byte>, max: nat)
    ensures |Unpacked(b, max)| <= max
    decreases max
  {
    hide FirstMessage;
    if max > 0 && FirstMessage(b).Next? {
      UnpackedAtMost(b[FirstMessage(b).size..], max - 1);
    }
  }

  // ----- When the master gets exactly the reported messages -----

  lemma PackedMonotone(ms: seq<LogMessage>, i: nat, j: nat)
    requires AllShort(ms) && i <= j <= |ms|
    ensures PackedAll(ms[..j]) == PackedAll(ms[..i]) + PackedAll(ms[i..j])
    ensures i < j ==> |PackedAll(ms[i..j])| > HEADER_BYTES
  {
    hide PackedAll;
    PackedPrefix(ms[..j], i);
    assert ms[..j][..i] == ms[..i] && ms[..j][i..] == ms[i..j];
    if i < j {
      PackedAtLeast(ms[i..j]);
    }
  }

  lemma PackedAtLeast(ms: seq<LogMessage>)
    requires AllShort(ms) && ms != []
    ensures |PackedAll(ms)| > HEADER_BYTES
  {
  }

  /** Asked for exactly the size of the first c messages, the slave packs these. */
  lemma FitsExactly(ms: seq<LogMessage>, c: nat)
    requires AllShort(ms) && c <= |ms| <= LOG_QUEUE_DEPTH
    ensures FitCount(ms, |PackedAll(ms[..c])|, LOG_QUEUE_DEPTH) == c
  {
    hide FitCount, PackedAll;
    var size := |PackedAll(ms[..c])|;
    var k := FitCount(ms, size, LOG_QUEUE_DEPTH);
    FitCountIsLongest(ms, size, LOG_QUEUE_DEPTH);
    if k < c {
      PackedMonotone(ms, k + 1, c);
    } else if k > c {
      PackedMonotone(ms, c, k);
    }
  }

  /** What the master is told of fits one response. */
  lemma OneChunk(ms: seq<LogMessage>, c: nat, stale: seq<byte>, rest: seq<byte>)
    requires AllShort(ms) && 0 < c <= |ms| <= LOG_QUEUE_DEPTH && |stale| == SpiReads.READ_DATA_MAX_BYTES
    requires |PackedAll(ms[..c])| <= SpiReads.READ_DATA_MAX_BYTES
    ensures Pulled(ms, |PackedAll(ms[..c])|, c, stale, rest) == ms[..c]
  {
    hide PackedAll, FitCount, Collected, Answered, Unpacked;
    var size := |PackedAll(ms[..c])|;
    PackedMonotone(ms, 0, c);
    FitsExactly(ms, c);
    AnsweredIs(ms, size, stale);
    CollectedUnfold(ms, size, stale);
    CollectedUnfold(ms, 0, Answered(ms, size, stale));
    assert Collected(ms, size, stale) == PackedAll(ms[..c]);
    UnpackPacked(ms[..c], rest);
  }

  /** The response data after the first chunk of a longer read. */
  function FirstChunk(ms: seq<LogMessage>, stale: seq<byte>): (r: seq<byte>)
    requires AllShort(ms) && |stale| == SpiReads.READ_DATA_MAX_BYTES
    ensures |r| == |stale|
  {
    Answered(ms, SpiReads.READ_DATA_MAX_BYTES, stale)
  }

  /** The second chunk repeats the front of the first one. */
  lemma SecondChunk(ms: seq<LogMessage>, c: nat, size: nat, stale: seq<byte>)
    requires AllShort(ms) && c <= |ms| <= LOG_QUEUE_DEPTH && |stale| == SpiReads.READ_DATA_MAX_BYTES
    requires SpiReads.READ_DATA_MAX_BYTES < size == |PackedAll(ms[..c])| <= BUFFER_BYTES
    ensures Collected(ms, size, stale)
         == FirstChunk(ms, stale) + FirstChunk(ms, stale)[..size - SpiReads.READ_DATA_MAX_BYTES]
  {
    hide PackedAll, FitCount, Collected, Answered;
    var max := SpiReads.READ_DATA_MAX_BYTES;
    var chunk, len := FirstChunk(ms, stale), size - max;
    CollectedUnfold(ms, size, stale);
    CollectedUnfold(ms, len, chunk);
    CollectedUnfold(ms, 0, Answered(ms, len, chunk));
    AnsweredIs(ms, max, stale);
    AnsweredIs(ms, len, chunk);
    var k, j := FitCount(ms, max, LOG_QUEUE_DEPTH), FitCount(ms, len, LOG_QUEUE_DEPTH);
    CutBefore(ms, c);
    FitCountIsLongest(ms, max, LOG_QUEUE_DEPTH);
    FitCountIsLongest(ms, len, LOG_QUEUE_DEPTH);
    if j > k {
      PackedMonotone(ms, k + 1, j);
    }
    PackedMonotone(ms, j, k);
    assert Answered(ms, len, chunk) == chunk;
  }

  /** More than one response holds: the first one ends before the last of the messages. */
  lemma CutBefore(ms: seq<LogMessage>, c: nat)
    requires AllShort(ms) && c <= |ms| && |PackedAll(ms[..c])| > SpiReads.READ_DATA_MAX_BYTES
    ensures FitCount(ms, SpiReads.READ_DATA_MAX_BYTES, LOG_QUEUE_DEPTH) < c
  {
    hide PackedAll, FitCount;
    var k := FitCount(ms, SpiReads.READ_DATA_MAX_BYTES, LOG_QUEUE_DEPTH);
    FitCountIsLongest(ms, SpiReads.READ_DATA_MAX_BYTES, LOG_QUEUE_DEPTH);
    if k >= c {
      PackedMonotone(ms, c, k);
    }
  }

  /** The first response is full to the last byte, and the messages that are missing from it happen to be those at
      the head of the queue. */
  predicate Repeats(ms: seq<LogMessage>, c: nat)
    requires AllShort(ms) && c <= |ms|
  {
    var k := FitCount(ms, SpiReads.READ_DATA_MAX_BYTES, LOG_QUEUE_DEPTH);
    k < c && |PackedAll(ms[..k])| == SpiReads.READ_DATA_MAX_BYTES && ms[k..c] == ms[..c - k]
  }

  /** If a prefix of packed messages unpacks to messages of its own length, these are the first of them. */
  lemma {:induction false} PrefixUnpacks(ms: seq<LogMessage>, x: seq<byte>, rest: seq<byte>, ns: seq<LogMessage>)
    requires AllShort(ms) && AllShort(ns) && x <= PackedAll(ms)
    requires Unpacked(x + rest, |ns|) == ns && |PackedAll(ns)| == |x|
    ensures |ns| <= |ms| && ns == ms[..|ns|]
    decreases |ns|
  {
    hide Unpacked, PackedAll, FirstMessage, Packed;
    if ns != [] {
      PackedAtLeast(ns);
      PackedNone();
      HeadUnpacks(ms, x, rest, ns);
      PrefixUnpacks(ms[1..], x[|Packed(ms[0])|..], rest, ns[1..]);
      assert ns == [ns[0]] + ns[1..] && ms[..|ns|] == [ms[0]] + ms[1..][..|ns| - 1];
    }
  }

  lemma DropFront(x: seq<byte>, rest: seq<byte>, n: nat)
    requires n <= |x|
    ensures (x + rest)[n..] == x[n..] + rest
  {
  }

  lemma HeadUnpacks(ms: seq<LogMessage>, x: seq<byte>, rest: seq<byte>, ns: seq<LogMessage>)
    requires AllShort(ms) && AllShort(ns) && ns != [] && ms != [] && x <= PackedAll(ms)
    requires Unpacked(x + rest, |ns|) == ns && |PackedAll(ns)| == |x|
    ensures ns[0] == ms[0] && |Packed(ms[0])| <= |x| && x[|Packed(ms[0])|..] <= PackedAll(ms[1..])
    ensures Unpacked(x[|Packed(ms[0])|..] + rest, |ns| - 1) == ns[1..]
    ensures |PackedAll(ns[1..])| == |x| - |Packed(ms[0])|
  {
    hide Packed, FirstMessage;
    var f := FirstMessage(x + rest);
    assert f.Next? && f.m == ns[0];
    assert |x| == |Packed(ns[0])| + |PackedAll(ns[1..])|;
    SameHead(x, rest, ms[0], PackedAll(ms[1..]), ns[0]);
    DropFront(x, rest, f.size);
    assert ([f.m] + Unpacked((x + rest)[f.size..], |ns| - 1))[1..] == ns[1..];
  }

  lemma SameHead(x: seq<byte>, rest: seq<byte>, m: LogMessage, others: seq<byte>, n: LogMessage)
    requires |m.chars| <= MAX_NUM_CHARS && |n.chars| <= MAX_NUM_CHARS && x <= Packed(m) + others
    requires |x| >= |Packed(n)| && FirstMessage(x + rest).Next? && FirstMessage(x + rest).m == n
    ensures n == m && FirstMessage(x + rest).size == |Packed(m)| && x[|Packed(m)|..] <= others
  {
    var b, all := x + rest, Packed(m) + others;
    assert forall i :: 0 <= i < |x| ==> b[i] == all[i];
    assert U16At(all, 0) == m.level && U16At(all, 2) == |m.chars|;
    assert |n.chars| == |m.chars|;
    assert b[HEADER_BYTES..HEADER_BYTES + |m.chars|] == all[HEADER_BYTES..HEADER_BYTES + |m.chars|] == m.chars;
  }

  lemma FirstLevel(b: seq<byte>)
    requires FirstMessage(b).Next?
    ensures FirstMessage(b).m.level % 256 == b[0]
  {
  }

  /** If the messages go on where the packed ones end, the first byte there is that of the next message. */
  lemma GoesOn(ms: seq<LogMessage>, c: nat, k: nat, tail: seq<byte>)
    requires k < c <= |ms| && tail != [] && ms[..k] + Unpacked(tail, c - k) == ms[..c]
    ensures tail[0] == ms[k].level % 256
  {
    hide FirstMessage;
    assert ms[..c] == ms[..k] + ms[k..c];
    SameTails(ms[..k], Unpacked(tail, c - k), ms[k..c]);
    assert FirstMessage(tail).Next? && FirstMessage(tail).m == ms[k];
    FirstLevel(tail);
  }

  /** The bytes that a longer read brings: the packed messages, what was behind them, and the repetition. */
  lemma CollectedTail(ms: seq<LogMessage>, c: nat, k: nat, stale: seq<byte>) returns (tail: seq<byte>)
    requires AllShort(ms) && c <= |ms| <= LOG_QUEUE_DEPTH && |stale| == SpiReads.READ_DATA_MAX_BYTES
    requires SpiReads.READ_DATA_MAX_BYTES < |PackedAll(ms[..c])| <= BUFFER_BYTES
    requires k == FitCount(ms, SpiReads.READ_DATA_MAX_BYTES, LOG_QUEUE_DEPTH)
    requires |PackedAll(ms[..k])| < SpiReads.READ_DATA_MAX_BYTES
    ensures k < c && tail != [] && tail[0] == stale[|PackedAll(ms[..k])|]
    ensures Collected(ms, |PackedAll(ms[..c])|, stale) == PackedAll(ms[..k]) + tail
  {
    hide PackedAll, FitCount, Collected, Answered, Overwrite;
    var max, size, front := SpiReads.READ_DATA_MAX_BYTES, |PackedAll(ms[..c])|, PackedAll(ms[..k]);
    CutBefore(ms, c);
    SecondChunk(ms, c, size, stale);
    AnsweredIs(ms, max, stale);
    OverwriteFront(stale, front);
    tail := stale[|front|..] + FirstChunk(ms, stale)[..size - max];
    assert (front + stale[|front|..]) + FirstChunk(ms, stale)[..size - max] == front + tail;
  }

  /** A first response with room left shows what it held before, and that can be anything. */
  lemma StaleShows(ms: seq<LogMessage>, c: nat, rest: seq<byte>) returns (stale: seq<byte>)
    requires AllShort(ms) && c <= |ms| <= LOG_QUEUE_DEPTH
    requires SpiReads.READ_DATA_MAX_BYTES < |PackedAll(ms[..c])| <= BUFFER_BYTES
    requires var k := FitCount(ms, SpiReads.READ_DATA_MAX_BYTES, LOG_QUEUE_DEPTH);
             |PackedAll(ms[..k])| < SpiReads.READ_DATA_MAX_BYTES
    ensures |stale| == SpiReads.READ_DATA_MAX_BYTES
    ensures Pulled(ms, |PackedAll(ms[..c])|, c, stale, rest) != ms[..c]
  {
    hide PackedAll, FitCount, Collected, Unpacked;
    var max, k := SpiReads.READ_DATA_MAX_BYTES, FitCount(ms, SpiReads.READ_DATA_MAX_BYTES, LOG_QUEUE_DEPTH);
    CutBefore(ms, c);
    var other: byte := (ms[k].level + 1) % 256;
    stale := seq(max, _ => other);
    var tail := CollectedTail(ms, c, k, stale);
    assert PackedAll(ms[..k]) + tail + rest == PackedAll(ms[..k]) + (tail + rest);
    ShortPrefix(ms, k);
    UnpackConcat(ms[..k], tail + rest, c - k);
    if Pulled(ms, |PackedAll(ms[..c])|, c, stale, rest) == ms[..c] {
      GoesOn(ms, c, k, tail + rest);
      assert false;
    }
  }

  lemma OverwriteFront(b: seq<byte>, x: seq<byte>)
    requires |x| <= |b|
    ensures Overwrite(b, 0, x) == x + b[|x|..]
  {
  }

  lemma ShortPrefix(ms: seq<LogMessage>, k: nat)
    requires AllShort(ms) && k <= |ms|
    ensures AllShort(ms[..k]) && AllShort(ms[k..])
  {
  }

  /** A first response without room left is followed by its own beginning. */
  lemma FullChunkBytes(ms: seq<LogMessage>, c: nat, k: nat, stale: seq<byte>, rest: seq<byte>)
    requires AllShort(ms) && c <= |ms| <= LOG_QUEUE_DEPTH && |stale| == SpiReads.READ_DATA_MAX_BYTES
    requires SpiReads.READ_DATA_MAX_BYTES < |PackedAll(ms[..c])| <= BUFFER_BYTES
    requires k == FitCount(ms, SpiReads.READ_DATA_MAX_BYTES, LOG_QUEUE_DEPTH)
    requires |PackedAll(ms[..k])| == SpiReads.READ_DATA_MAX_BYTES
    ensures k < c
    ensures var len := |PackedAll(ms[..c])| - SpiReads.READ_DATA_MAX_BYTES;
            Pulled(ms, |PackedAll(ms[..c])|, c, stale, rest)
            == ms[..k] + Unpacked(PackedAll(ms[..k])[..len] + rest, c - k)
  {
    hide PackedAll, FitCount, Collected, Answered, Overwrite, Unpacked;
    var max, size := SpiReads.READ_DATA_MAX_BYTES, |PackedAll(ms[..c])|;
    CutBefore(ms, c);
    SecondChunk(ms, c, size, stale);
    AnsweredIs(ms, max, stale);
    var front := PackedAll(ms[..k]);
    OverwriteFront(stale, front);
    assert FirstChunk(ms, stale) == front;
    assert Collected(ms, size, stale) + rest == front + (front[..size - max] + rest);
    ShortPrefix(ms, k);
    UnpackConcat(ms[..k], front[..size - max] + rest, c - k);
  }

  /** That beginning unpacks to the missing messages exactly when they are the same as the first ones. */
  lemma BeginningUnpacks(ms: seq<LogMessage>, c: nat, k: nat, rest: seq<byte>)
    requires AllShort(ms) && k < c <= |ms| <= LOG_QUEUE_DEPTH
    requires k == FitCount(ms, SpiReads.READ_DATA_MAX_BYTES, LOG_QUEUE_DEPTH)
    requires |PackedAll(ms[..k])| == SpiReads.READ_DATA_MAX_BYTES < |PackedAll(ms[..c])| <= BUFFER_BYTES
    ensures var len := |PackedAll(ms[..c])| - SpiReads.READ_DATA_MAX_BYTES;
            Unpacked(PackedAll(ms[..k])[..len] + rest, c - k) == ms[k..c] <==> ms[k..c] == ms[..c - k]
  {
    hide PackedAll, FitCount, Unpacked;
    var front, len, ns := PackedAll(ms[..k]), |PackedAll(ms[..c])| - SpiReads.READ_DATA_MAX_BYTES, ms[k..c];
    PackedMonotone(ms, k, c);
    if Unpacked(front[..len] + rest, c - k) == ns {
      PrefixUnpacks(ms[..k], front[..len], rest, ns);
      assert ms[..k][..|ns|] == ms[..c - k];
    } else if ns == ms[..c - k] {
      HeadFits(ms, c - k);
      PackedMonotone(ms, c - k, k);
      assert front[..len] == PackedAll(ns);
      UnpackPacked(ns, rest);
      assert false;
    }
  }

  lemma FullChunk(ms: seq<LogMessage>, c: nat, stale: seq<byte>, rest: seq<byte>)
    requires AllShort(ms) && c <= |ms| <= LOG_QUEUE_DEPTH && |stale| == SpiReads.READ_DATA_MAX_BYTES
    requires SpiReads.READ_DATA_MAX_BYTES < |PackedAll(ms[..c])| <= BUFFER_BYTES
    requires var k := FitCount(ms, SpiReads.READ_DATA_MAX_BYTES, LOG_QUEUE_DEPTH);
             |PackedAll(ms[..k])| == SpiReads.READ_DATA_MAX_BYTES
    ensures Pulled(ms, |PackedAll(ms[..c])|, c, stale, rest) == ms[..c] <==> Repeats(ms, c)
  {
    hide PackedAll, FitCount, Unpacked, Pulled;
    var k := FitCount(ms, SpiReads.READ_DATA_MAX_BYTES, LOG_QUEUE_DEPTH);
    FullChunkBytes(ms, c, k, stale, rest);
    BeginningUnpacks(ms, c, k, rest);
    var len := |PackedAll(ms[..c])| - SpiReads.READ_DATA_MAX_BYTES;
    assert ms[..c] == ms[..k] + ms[k..c];
    SameTails(ms[..k], Unpacked(PackedAll(ms[..k])[..len] + rest, c - k), ms[k..c]);
  }

  lemma SameTails<T>(a: seq<T>, x: seq<T>, y: seq<T>)
    ensures a + x == a + y <==> x == y
  {
    assert (a + x)[|a|..] == x && (a + y)[|a|..] == y;
  }

  /** What is shorter than a response is packed into it. */
  lemma HeadFits(ms: seq<LogMessage>, j: nat)
    requires AllShort(ms) && j <= |ms| <= LOG_QUEUE_DEPTH && |PackedAll(ms[..j])| <= SpiReads.READ_DATA_MAX_BYTES
    ensures j <= FitCount(ms, SpiReads.READ_DATA_MAX_BYTES, LOG_QUEUE_DEPTH)
  {
    hide PackedAll, FitCount;
    var k := FitCount(ms, SpiReads.READ_DATA_MAX_BYTES, LOG_QUEUE_DEPTH);
    FitCountIsLongest(ms, SpiReads.READ_DATA_MAX_BYTES, LOG_QUEUE_DEPTH);
    if j > k {
      PackedMonotone(ms, k + 1, j);
    }
  }

  /** The master gets exactly the c messages that the slave reported, whatever the two buffers held before, if and
      only if they fit one response, or the rest of them repeats the head of the queue just behind a full one. */
  lemma PullExactly(ms: seq<LogMessage>, c: nat)
    requires AllShort(ms) && 0 < c <= |ms| <= LOG_QUEUE_DEPTH && |PackedAll(ms[..c])| <= BUFFER_BYTES
    ensures (forall stale: seq<byte>, rest: seq<byte> :: |stale| == SpiReads.READ_DATA_MAX_BYTES ==>
               Pulled(ms, |PackedAll(ms[..c])|, c, stale, rest) == ms[..c])
        <==> |PackedAll(ms[..c])| <= SpiReads.READ_DATA_MAX_BYTES || Repeats(ms, c)
  {
    hide PackedAll, FitCount, Pulled;
    var max, size := SpiReads.READ_DATA_MAX_BYTES, |PackedAll(ms[..c])|;
    var k := FitCount(ms, max, LOG_QUEUE_DEPTH);
    FitCountIsLongest(ms, max, LOG_QUEUE_DEPTH);
    if size > max && |PackedAll(ms[..k])| < max {
      var stale := StaleShows(ms, c, []);
      assert Pulled(ms, size, c, stale, []) != ms[..c];
    } else {
      forall stale: seq<byte>, rest: seq<byte> | |stale| == max
        ensures Pulled(ms, size, c, stale, rest) == ms[..c] <==> size <= max || Repeats(ms, c)
      {
        if size <= max {
          OneChunk(ms, c, stale, rest);
        } else {
          FullChunk(ms, c, stale, rest);
        }
      }
      var some: seq<byte> := seq(max, _ => 0);
      assert |some| == max;
      assert Pulled(ms, size, c, some, []) == ms[..c] <==> size <= max || Repeats(ms, c);
    }
  }

  /** Nine messages of 500 characters pack to 4545 bytes, of which one response holds eight: for some bytes that were
      left behind in it the master does not get the nine. */
  lemma NineLongestExample(ms: seq<LogMessage>) returns (stale: seq<byte>)
    requires |ms| == 9 && AllLongest(ms)
    ensures AllShort(ms) && |PackedAll(ms)| == 4545 && |stale| == SpiReads.READ_DATA_MAX_BYTES
    ensures Pulled(ms, 4545, 9, stale, []) != ms
  {
    hide PackedAll, FitCount, Pulled;
    LongestSize(ms);
    assert ms[..9] == ms;
    var k := FitCount(ms, SpiReads.READ_DATA_MAX_BYTES, LOG_QUEUE_DEPTH);
    FitCountIsLongest(ms, SpiReads.READ_DATA_MAX_BYTES, LOG_QUEUE_DEPTH);
    LongestSize(ms[..k]);
    CutBefore(ms, 9);
    stale := StaleShows(ms, 9, []);
  }
}
