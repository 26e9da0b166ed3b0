/**
 Chunked, acknowledged writes from the master to the slave's scratch or settings bytes.  Every attempt to
 send a chunk meets one of the fates below; which one is an arbitrary function of the attempt's number.
 */
module SpiCoprocessor {
  import opened Arith
  import opened Bytes
  import opened SpiLink

  const WRITE_DATA_MAX_BYTES: nat := 4088

  /** The write packet that the slave keeps between transactions: its CRC does not match, it is for another object,
      which says whether it can be set, or it is for this one. */
  datatype Kept = BadFrame | Other(accepted: bool) | Frame(offset: nat, data: seq<byte>)

  /** bytes is the object on the slave, active what was last put into effect. */
  datatype Slave = Slave(bytes: seq<byte>, active: seq<byte>, kept: Kept)

  predicate Fits(s: Slave) {
    s.kept.Frame? ==> s.kept.offset + |s.kept.data| <= |s.bytes|
  }

  /** SetBytes; the chunk that ends the object puts it into effect. */
  function SetBytes(s: Slave, offset: nat, data: seq<byte>): (r: Slave)
    requires offset + |data| <= |s.bytes|
    ensures |r.bytes| == |s.bytes|
  {
    var now := Overwrite(s.bytes, offset, data);
    s.(bytes := now, active := if offset + |data| == |s.bytes| then now else s.active)
  }

  /** The slave takes a write frame in, sets the bytes and acknowledges. */
  function Take(s: Slave, offset: nat, data: seq<byte>): (r: Slave)
    requires offset + |data| <= |s.bytes|
    ensures |r.bytes| == |s.bytes| && Fits(r)
  {
    SetBytes(s.(kept := Frame(offset, data)), offset, data)
  }

  /** The kept packet is applied again. */
  function Again(s: Slave): (r: Slave)
    requires Fits(s)
    ensures |r.bytes| == |s.bytes| && Fits(r)
  {
    if s.kept.Frame? then SetBytes(s, s.kept.offset, s.kept.data) else s
  }

  /** The slave after one attempt.  A truncated frame leaves the kept packet alone, so that it is applied again. */
  function AfterAttempt(s: Slave, offset: nat, data: seq<byte>, fate: Fate): (r: Slave)
    requires Fits(s) && offset + |data| <= |s.bytes| && !fate.Misrouted?
    ensures |r.bytes| == |s.bytes| && Fits(r)
  {
    match fate
    case SendError => s
    case Lost => s
    case Garbled => s.(kept := BadFrame)
    case Truncated => Again(s)
    case Muted => Again(s)
    case ReplyLost => Take(s, offset, data)
    case Replied => Take(s, offset, data)
  }

  /** The slave acknowledges the kept packet when it is applied again. */
  predicate AppliesAgain(kept: Kept) { kept.Frame? || (kept.Other? && kept.accepted) }

  /** Whether the master counts the attempt as done. */
  predicate AttemptOk(s: Slave, fate: Fate, requireAck: bool) {
    if requireAck then fate.Replied? || (fate.Truncated? && AppliesAgain(s.kept)) else !fate.SendError?
  }

  datatype Outcome = Outcome(ok: bool, slave: Slave, now: nat)

  /** Up to tries attempts, from attempt number now on. */
  function Attempts(s: Slave, offset: nat, data: seq<byte>, requireAck: bool, fate: nat -> Fate, now: nat, tries: nat):
    (r: Outcome)
    requires Fits(s) && offset + |data| <= |s.bytes| && Routed(fate)
    ensures |r.slave.bytes| == |s.bytes| && Fits(r.slave)
    decreases tries
  {
    if tries == 0 then Outcome(false, s, now)
    else
      var t := AfterAttempt(s, offset, data, fate(now));
      if AttemptOk(s, fate(now), requireAck) then Outcome(true, t, now + 1)
      else Attempts(t, offset, data, requireAck, fate, now + 1, tries - 1)
  }

  /** The chunks of a multi-transfer write, from offset on. */
  function Chunks(s: Slave, obj: seq<byte>, offset: nat, requireAck: bool, fate: nat -> Fate, now: nat): (r: Outcome)
    requires Fits(s) && offset <= |obj| <= |s.bytes| && Routed(fate)
    ensures |r.slave.bytes| == |s.bytes| && Fits(r.slave)
    decreases |obj| - offset
  {
    if offset == |obj| then Outcome(true, s, now)
    else
      var end := Min(offset + WRITE_DATA_MAX_BYTES, |obj|);
      var r := Attempts(s, offset, obj[offset..end], requireAck, fate, now, MAX_NUM_RETRIES);
      if r.ok then Chunks(r.slave, obj, end, requireAck, fate, r.now) else r
  }

  /** The promise of Write: a single transfer, or the chunk loop, whose counter is an int16_t. */
  function WriteOutcome(s: Slave, obj: seq<byte>, requireAck: bool, fate: nat -> Fate, now: nat): (r: Outcome)
    requires Fits(s) && |obj| <= |s.bytes| && Routed(fate)
  {
    if |obj| < WRITE_DATA_MAX_BYTES then Attempts(s, 0, obj, requireAck, fate, now, MAX_NUM_RETRIES)
    else if |obj| >= 32768 then Outcome(true, s, now)
    else Chunks(s, obj, 0, requireAck, fate, now)
  }

  // ----- What a successful write means -----

  /** An acknowledged attempt has delivered its chunk, from every state of the slave, exactly when the fate is
      not a truncation, which makes the slave apply and acknowledge the packet it kept. */
  lemma AckMeansDeliveredExactly(fate: Fate)
    requires !fate.Misrouted?
    ensures !fate.Truncated?
        <==> forall s: Slave, offset: nat, data: seq<byte> ::
               Fits(s) && offset + |data| <= |s.bytes| && AttemptOk(s, fate, true) ==>
                 AfterAttempt(s, offset, data, fate).bytes == Overwrite(s.bytes, offset, data)
  {
    if fate.Truncated? {
      var s := Slave([0], [], Frame(0, []));
      assert Fits(s) && AttemptOk(s, fate, true);
      assert AfterAttempt(s, 0, [1], fate).bytes[0] != Overwrite(s.bytes, 0, [1])[0];
    }
  }

  /** Writing a chunk twice is writing it once. */
  lemma ChunkIdempotent(b: seq<byte>, offset: nat, data: seq<byte>)
    requires offset + |data| <= |b|
    ensures Overwrite(Overwrite(b, offset, data), offset, data) == Overwrite(b, offset, data)
  {
  }

  /** t has the chunk, and has put the object into effect if the chunk ends it. */
  predicate Holds(t: Slave, offset: nat, data: seq<byte>, b: seq<byte>)
    requires offset + |data| <= |b|
  {
    && t.bytes == Overwrite(b, offset, data)
    && (offset + |data| == |b| ==> t.active == t.bytes)
  }

  /** However the attempts go, the slave holds the old bytes or the chunk; success, which comes exactly when some
      attempt is acknowledged, means the chunk. */
  lemma {:induction false} AttemptsDeliver(s: Slave, offset: nat, data: seq<byte>, fate: nat -> Fate, now: nat,
                                           tries: nat, b: seq<byte>)
    requires Detectable(fate) && Fits(s) && offset + |data| <= |s.bytes| == |b|
    requires s.bytes == b || Holds(s, offset, data, b)
    ensures var r := Attempts(s, offset, data, true, fate, now, tries);
            && (r.ok ==> Holds(r.slave, offset, data, b))
            && (r.slave.bytes == b || Holds(r.slave, offset, data, b))
            && (r.ok <==> exists k :: now <= k < now + tries && fate(k).Replied?)
            && (offset + |data| < |b| ==> r.slave.active == s.active)
    decreases tries
  {
    hide Overwrite;
    if tries > 0 {
      var t := AfterAttempt(s, offset, data, fate(now));
      ChunkIdempotent(b, offset, data);
      if fate(now).Replied? {
      } else {
        assert !AttemptOk(s, fate(now), true);
        AttemptsDeliver(t, offset, data, fate, now + 1, tries - 1, b);
      }
    }
  }

  /** t differs from b only where it already has the bytes of obj. */
  predicate Between(t: seq<byte>, b: seq<byte>, obj: seq<byte>) {
    |obj| <= |t| == |b| && forall i :: 0 <= i < |t| ==> t[i] == b[i] || (i < |obj| && t[i] == obj[i])
  }

  /** The chunks tile the object: after the last one every byte is there, and before that no byte is foreign. */
  lemma {:induction false} ChunksDeliver(s: Slave, obj: seq<byte>, offset: nat, fate: nat -> Fate, now: nat,
                                         b: seq<byte>)
    requires Detectable(fate) && Fits(s) && offset <= |obj| <= |s.bytes|
    requires Between(s.bytes, b, obj) && s.bytes[..offset] == obj[..offset]
    requires offset == |obj| == |b| ==> s.active == s.bytes
    ensures var r := Chunks(s, obj, offset, true, fate, now);
            && Between(r.slave.bytes, b, obj)
            && (r.ok ==> r.slave.bytes[..|obj|] == obj && (|obj| == |b| ==> r.slave.active == r.slave.bytes))
            && (|obj| < |b| ==> r.slave.active == s.active)
    decreases |obj| - offset
  {
    hide Attempts;
    if offset < |obj| {
      var end := Min(offset + WRITE_DATA_MAX_BYTES, |obj|);
      var r := Attempts(s, offset, obj[offset..end], true, fate, now, MAX_NUM_RETRIES);
      AttemptsDeliver(s, offset, obj[offset..end], fate, now, MAX_NUM_RETRIES, s.bytes);
      if r.ok {
        ChunkTiles(s.bytes, r.slave.bytes, obj, offset, end);
        ChunksDeliver(r.slave, obj, end, fate, r.now, b);
      }
    }
  }

  lemma ChunkTiles(was: seq<byte>, now: seq<byte>, obj: seq<byte>, offset: nat, end: nat)
    requires offset <= end <= |obj| <= |was| && was[..offset] == obj[..offset]
    requires now == Overwrite(was, offset, obj[offset..end])
    ensures now[..end] == obj[..end]
  {
    forall i | 0 <= i < end
      ensures now[i] == obj[i]
    {
      assert i < offset ==> was[..offset][i] == obj[..offset][i];
    }
  }

  /** If an acknowledged write of fewer than 32768 bytes returns true, the slave's bytes are the master's, all else
      is as before, and a whole object has been put into effect; a part of one never is. */
  lemma WriteDelivers(s: Slave, obj: seq<byte>, fate: nat -> Fate, now: nat)
    requires Detectable(fate) && Fits(s) && 0 < |obj| <= |s.bytes| && |obj| < 32768
    ensures var r := WriteOutcome(s, obj, true, fate, now);
            && Between(r.slave.bytes, s.bytes, obj)
            && (r.ok ==> r.slave.bytes == Overwrite(s.bytes, 0, obj) && (|obj| == |s.bytes| ==> r.slave.active == obj))
            && (|obj| < |s.bytes| ==> r.slave.active == s.active)
  {
    var r := WriteOutcome(s, obj, true, fate, now);
    if |obj| < WRITE_DATA_MAX_BYTES {
      AttemptsDeliver(s, 0, obj, fate, now, MAX_NUM_RETRIES, s.bytes);
    } else {
      ChunksDeliver(s, obj, 0, fate, now, s.bytes);
      if r.ok {
        assert forall i :: 0 <= i < |obj| ==> r.slave.bytes[..|obj|][i] == r.slave.bytes[i];
      }
    }
  }

  // ----- When a write succeeds -----

  /** The attempts succeed exactly when one of them works, and end with the first that does. */
  lemma {:induction false} AttemptsSucceedExactly(s: Slave, offset: nat, data: seq<byte>, requireAck: bool,
                                                  fate: nat -> Fate, now: nat, tries: nat)
    requires Fits(s) && offset + |data| <= |s.bytes| && Routed(fate) && (requireAck ==> Detectable(fate))
    ensures var r := Attempts(s, offset, data, requireAck, fate, now, tries);
            && (r.ok ==> r.now > now && FirstToWork(fate, requireAck, now, tries, r.now - 1))
            && (!r.ok ==> r.now == now + tries && forall k :: now <= k < now + tries ==> !Works(fate(k), requireAck))
    decreases tries
  {
    hide AfterAttempt;
    if tries > 0 {
      assert AttemptOk(s, fate(now), requireAck) <==> Works(fate(now), requireAck);
      if !Works(fate(now), requireAck) {
        AttemptsSucceedExactly(AfterAttempt(s, offset, data, fate(now)), offset, data, requireAck, fate, now + 1,
                               tries - 1);
      }
    }
  }

  /** How many transfers n bytes take. */
  function Transfers(n: nat): nat { if n < 4088 then 1 else (n + 4087) / 4088 }

  lemma {:induction false} ChunksSucceedExactly(s: Slave, obj: seq<byte>, offset: nat, requireAck: bool,
                                                fate: nat -> Fate, now: nat)
    requires Fits(s) && offset <= |obj| <= |s.bytes| && Routed(fate) && (requireAck ==> Detectable(fate))
    ensures Chunks(s, obj, offset, requireAck, fate, now).ok
        <==> EachWorks(fate, requireAck, now, (|obj| - offset + 4087) / 4088)
    decreases |obj| - offset
  {
    hide Attempts, EachWorks, FirstToWork;
    var n := (|obj| - offset + 4087) / 4088;
    if offset < |obj| {
      var end := Min(offset + WRITE_DATA_MAX_BYTES, |obj|);
      var r := Attempts(s, offset, obj[offset..end], requireAck, fate, now, MAX_NUM_RETRIES);
      AttemptsSucceedExactly(s, offset, obj[offset..end], requireAck, fate, now, MAX_NUM_RETRIES);
      if r.ok {
        FirstDecides(fate, requireAck, now, n, r.now - 1);
        assert (|obj| - end + 4087) / 4088 == n - 1;
        ChunksSucceedExactly(r.slave, obj, end, requireAck, fate, r.now);
      } else {
        NoneDecides(fate, requireAck, now, n);
      }
    } else {
      NoTransfers(fate, requireAck, now);
    }
  }

  /** A write succeeds exactly when each of its transfers has an attempt that works, that is one that is acknowledged
      or, if no acknowledgement is required, one that can be sent; or when it is too long to be sent at all. */
  lemma WriteSucceedsExactly(s: Slave, obj: seq<byte>, requireAck: bool, fate: nat -> Fate, now: nat)
    requires Fits(s) && |obj| <= |s.bytes| && Routed(fate) && (requireAck ==> Detectable(fate))
    ensures WriteOutcome(s, obj, requireAck, fate, now).ok
        <==> |obj| >= 32768 || EachWorks(fate, requireAck, now, Transfers(|obj|))
  {
    hide Attempts, Chunks, EachWorks, FirstToWork;
    if |obj| < 4088 {
      AttemptsSucceedExactly(s, 0, obj, requireAck, fate, now, MAX_NUM_RETRIES);
      var r := Attempts(s, 0, obj, requireAck, fate, now, MAX_NUM_RETRIES);
      if r.ok {
        FirstDecides(fate, requireAck, now, 1, r.now - 1);
        NoTransfers(fate, requireAck, r.now);
      } else {
        NoneDecides(fate, requireAck, now, 1);
      }
    } else if |obj| < 32768 {
      ChunksSucceedExactly(s, obj, 0, requireAck, fate, now);
    }
  }

  /** The loop counter is an int16_t, so the promise holds for an object of n bytes exactly below 32768: from there
      on Write sends nothing and returns true. */
  lemma WriteSoundExactly(n: uint16)
    requires n > 0
    ensures n < 32768
        <==> forall s: Slave, obj: seq<byte>, fate: nat -> Fate, now: nat ::
               Fits(s) && |obj| == n && n <= |s.bytes| && Detectable(fate)
               && WriteOutcome(s, obj, true, fate, now).ok ==>
                 WriteOutcome(s, obj, true, fate, now).slave.bytes == Overwrite(s.bytes, 0, obj)
  {
    if n < 32768 {
      forall s: Slave, obj: seq<byte>, fate: nat -> Fate, now: nat
        | Fits(s) && |obj| == n && n <= |s.bytes| && Detectable(fate) && WriteOutcome(s, obj, true, fate, now).ok
        ensures WriteOutcome(s, obj, true, fate, now).slave.bytes == Overwrite(s.bytes, 0, obj)
      {
        WriteDelivers(s, obj, fate, now);
      }
    } else {
      var s := Slave(seq(n, _ => 0), [], BadFrame);
      var obj: seq<byte> := seq(n, _ => 1);
      var fate: nat -> Fate := i => Lost;
      assert WriteOutcome(s, obj, true, fate, 0) == Outcome(true, s, 0);
      assert s.bytes[0] != Overwrite(s.bytes, 0, obj)[0];
    }
  }

  /** Two chunks, the second one truncated on the wire: the slave repeats and acknowledges the first, and the
      write returns true although the end of the object never arrived. */
  lemma TruncatedWriteExample(s: Slave, obj: seq<byte>)
    requires |obj| == |s.bytes| == 5000 && Fits(s) && s.bytes[4999] != obj[4999]
    ensures var r := WriteOutcome(s, obj, true, i => if i == 0 then Replied else Truncated, 0);
            r.ok && r.slave.bytes[4999] == s.bytes[4999]
  {
    var fate: nat -> Fate := i => if i == 0 then Replied else Truncated;
    var t := Take(s, 0, obj[0..4088]);
    assert Attempts(s, 0, obj[0..4088], true, fate, 0, 3) == Outcome(true, t, 1);
    var u := SetBytes(t, 0, obj[0..4088]);
    assert Attempts(t, 4088, obj[4088..5000], true, fate, 1, 3) == Outcome(true, u, 2);
    assert Chunks(u, obj, 5000, true, fate, 2) == Outcome(true, u, 2);
    assert Chunks(t, obj, 4088, true, fate, 1) == Outcome(true, u, 2);
  }
}
