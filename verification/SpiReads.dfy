/**
 Chunked reads of the slave's bytes by the master.  A read is a request and an answer; what happens to the two
 messages of an attempt is an arbitrary function of the attempt's number.
 */
module SpiReads {
  import opened Arith
  import opened Bytes
  import opened SpiLink

  const READ_DATA_MAX_BYTES: nat := 4093

  /** The read request that the slave keeps between transactions: its CRC matches only if it is a Request. */
  datatype Kept = BadRequest | Request(offset: nat, len: nat)

  predicate Fits(kept: Kept, size: nat) { kept.Request? ==> kept.offset + kept.len <= size }

  function KeptAfter(kept: Kept, offset: nat, len: nat, fate: Fate): Kept {
    match fate
    case SendError => kept
    case Lost => kept
    case Garbled => BadRequest
    case Truncated => kept
    case Muted => kept
    case Misrouted => kept
    case ReplyLost => Request(offset, len)
    case Replied => Request(offset, len)
  }

  /** The request that is answered; an answer of another length does not pass the master's CRC check. */
  function AnsweredRequest(kept: Kept, offset: nat, len: nat, fate: Fate): Kept {
    if fate.Replied? then Request(offset, len)
    else if fate.Truncated? && kept.Request? && kept.len == len then kept
    else BadRequest
  }

  /** What up to tries attempts at a chunk come to: the offset in the slave's bytes that was really read. */
  datatype Outcome = Outcome(ok: bool, from: nat, kept: Kept, now: nat)

  function Attempts(kept: Kept, offset: nat, len: nat, fate: nat -> Fate, now: nat, tries: nat): (r: Outcome)
    decreases tries
  {
    if tries == 0 then Outcome(false, 0, kept, now)
    else
      var request := AnsweredRequest(kept, offset, len, fate(now));
      var after := KeptAfter(kept, offset, len, fate(now));
      if request.Request? then Outcome(true, request.offset, after, now + 1)
      else Attempts(after, offset, len, fate, now + 1, tries - 1)
  }

  /** An answer is to the request that was made, whatever the slave kept before, exactly when the request is not cut
      short; then the slave answers the request that it kept. */
  lemma AnswerIsAskedExactly(fate: Fate)
    ensures !fate.Truncated?
        <==> forall kept, offset, len :: AnsweredRequest(kept, offset, len, fate).Request? ==>
               AnsweredRequest(kept, offset, len, fate) == Request(offset, len)
  {
    if fate.Truncated? {
      assert AnsweredRequest(Request(0, 5), 7, 5, fate) == Request(0, 5);
    }
  }

  /** Without frames cut short, a chunk is read from where it was asked for, and it is read exactly when some
      attempt is answered, the first one of them. */
  lemma {:induction false} AttemptsReadTheChunk(kept: Kept, offset: nat, len: nat, fate: nat -> Fate, now: nat,
                                                tries: nat)
    requires Detectable(fate)
    ensures var r := Attempts(kept, offset, len, fate, now, tries);
            && (r.ok ==> r.from == offset && r.now > now && FirstToWork(fate, true, now, tries, r.now - 1))
            && (!r.ok ==> r.now == now + tries && forall k :: now <= k < now + tries ==> !fate(k).Replied?)
    decreases tries
  {
    if tries > 0 && !fate(now).Replied? {
      assert !fate(now).Truncated?;
      AttemptsReadTheChunk(KeptAfter(kept, offset, len, fate(now)), offset, len, fate, now + 1, tries - 1);
    }
  }

  /** How many transfers n bytes take. */
  function Transfers(n: nat): nat { if n < 4093 then 1 else (n + 4092) / 4093 }

  /** One more transfer of a read: the others decide if it succeeds, and if it fails the read does. */
  lemma ChunkDecides(kept: Kept, offset: nat, len: nat, fate: nat -> Fate, now: nat, n: nat)
    requires Detectable(fate) && n > 0
    ensures var r := Attempts(kept, offset, len, fate, now, MAX_NUM_RETRIES);
            && (r.ok ==> r.from == offset)
            && (EachWorks(fate, true, now, n) <==> r.ok && EachWorks(fate, true, r.now, n - 1))
  {
    hide Attempts, EachWorks, FirstToWork;
    var r := Attempts(kept, offset, len, fate, now, MAX_NUM_RETRIES);
    AttemptsReadTheChunk(kept, offset, len, fate, now, MAX_NUM_RETRIES);
    if r.ok {
      FirstDecides(fate, true, now, n, r.now - 1);
    } else {
      NoneDecides(fate, true, now, n);
    }
  }

  lemma {:induction false} AttemptsStayInside(kept: Kept, offset: nat, len: nat, fate: nat -> Fate, now: nat,
                                              tries: nat, size: nat)
    requires Fits(kept, size) && offset + len <= size
    ensures var r := Attempts(kept, offset, len, fate, now, tries);
            Fits(r.kept, size) && (r.ok ==> r.from + len <= size)
    decreases tries
  {
    if tries > 0 {
      AttemptsStayInside(KeptAfter(kept, offset, len, fate(now)), offset, len, fate, now + 1, tries - 1, size);
    }
  }

  lemma AttemptsUnfold(kept: Kept, offset: nat, len: nat, fate: nat -> Fate, now: nat, tries: nat)
    requires tries > 0
    ensures Attempts(kept, offset, len, fate, now, tries)
         == var request := AnsweredRequest(kept, offset, len, fate(now));
            var after := KeptAfter(kept, offset, len, fate(now));
            if request.Request? then Outcome(true, request.offset, after, now + 1)
            else Attempts(after, offset, len, fate, now + 1, tries - 1)
  {
  }

  lemma NoAttempts(kept: Kept, offset: nat, len: nat, fate: nat -> Fate, now: nat)
    ensures !Attempts(kept, offset, len, fate, now, 0).ok
    ensures Attempts(kept, offset, len, fate, now, 0).kept == kept
    ensures Attempts(kept, offset, len, fate, now, 0).now == now
  {
  }

  class ReadLink {
    const bytes: seq<byte>   // the object on the slave, which nothing changes during a read
    const fate: nat -> Fate
    var kept: Kept
    var now: nat
    var readInProgress: bool

    ghost predicate Ready()
      reads this
    {
      Fits(kept, |bytes|) && !readInProgress
    }

    constructor (bytes: seq<byte>, fate: nat -> Fate)
      ensures Ready() && this.bytes == bytes && this.fate == fate && now == 0
    {
      this.bytes, this.fate, kept, now, readInProgress := bytes, fate, BadRequest, 0, false;
    }

    method PartialRead(obj: array<byte>, len: uint16, offset: uint16) returns (ok: bool)
      requires Fits(kept, |bytes|) && offset + len <= obj.Length && offset + len <= |bytes|
      modifies this, obj
      ensures Fits(kept, |bytes|) && readInProgress == old(readInProgress)
      ensures old(readInProgress) ==> !ok && obj[..] == old(obj[..])
      ensures !old(readInProgress) ==>
                var r := Attempts(old(kept), offset, len, fate, old(now), MAX_NUM_RETRIES);
                && ok == r.ok && kept == r.kept && now == r.now && (ok ==> r.from + len <= |bytes|)
                && obj[..] == if ok then Overwrite(old(obj[..]), offset, bytes[r.from..r.from + len])
                              else old(obj[..])
    {
      hide Attempts, AnsweredRequest, KeptAfter, Overwrite;
      if readInProgress {
        return false;
      }
      AttemptsStayInside(kept, offset, len, fate, now, MAX_NUM_RETRIES, |bytes|);
      readInProgress := true;
      ghost var all := Attempts(kept, offset, len, fate, now, MAX_NUM_RETRIES);
      var attempts: nat, from: nat := 0, 0;
      ok := false;
      while attempts < MAX_NUM_RETRIES && !ok
        invariant attempts <= MAX_NUM_RETRIES && readInProgress && obj[..] == old(obj[..])
        invariant if ok then all == Outcome(true, from, kept, now)
                  else all == Attempts(kept, offset, len, fate, now, MAX_NUM_RETRIES - attempts)
        decreases MAX_NUM_RETRIES - attempts, !ok
      {
        AttemptsUnfold(kept, offset, len, fate, now, MAX_NUM_RETRIES - attempts);
        var request := AnsweredRequest(kept, offset, len, fate(now));
        kept := KeptAfter(kept, offset, len, fate(now));
        now := now + 1;
        if request.Request? {
          ok, from := true, request.offset;
        } else {
          attempts := attempts + 1;
        }
      }
      NoAttempts(kept, offset, len, fate, now);
      if ok {
        Store(obj, offset, bytes[from..from + len]);
      }
      readInProgress := false;
    }

    /** If a read of fewer than 32768 bytes returns true over a link whose damage shows, the object's first bytes
        are the slave's and the rest is untouched, and it does so exactly when each of its transfers has an attempt
        that is answered; a longer one reads nothing and returns true. */
    method Read(obj: array<byte>, len: uint16) returns (ok: bool)
      requires Ready() && len <= obj.Length <= |bytes| && 0 < obj.Length < U16_LIMIT
      modifies this, obj
      ensures Ready()
      ensures var n := if len == 0 then obj.Length else len;
              && (Detectable(fate) && ok && n < 32768 ==> obj[..] == Overwrite(old(obj[..]), 0, bytes[..n]))
              && (Detectable(fate) ==>
                    forall i :: 0 <= i < obj.Length ==> obj[i] == old(obj[i]) || (i < n && obj[i] == bytes[i]))
              && (n >= 32768 ==> ok && obj[..] == old(obj[..]))
              && (Detectable(fate) && n < 32768 ==> (ok <==> EachWorks(fate, true, old(now), Transfers(n))))
    {
      hide Attempts, EachWorks;
      var n: uint16 := if len == 0 then obj.Length else len;
      ghost var was := obj[..];
      if n < READ_DATA_MAX_BYTES {
        if Detectable(fate) {
          ChunkDecides(kept, 0, n, fate, now, 1);
          NoTransfers(fate, true, Attempts(kept, 0, n, fate, now, MAX_NUM_RETRIES).now);
        }
        ok := PartialRead(obj, n, 0);
        return;
      }
      var remaining := I16(n);
      while remaining > 0
        invariant Ready() && remaining <= n
        invariant n >= 32768 ==> remaining < 0 && obj[..] == was
        invariant n < 32768 && Detectable(fate) ==>
                    forall i :: 0 <= i < obj.Length ==> obj[i] == if i < n - Max(remaining, 0) then bytes[i] else was[i]
        invariant n < 32768 && Detectable(fate) ==>
                    (EachWorks(fate, true, old(now), Transfers(n)) <==> EachWorks(fate, true, now, Left(remaining)))
        decreases remaining
      {
        var chunk, offset := Min(READ_DATA_MAX_BYTES, remaining), n - remaining;
        OneTransferLess(remaining);
        if Detectable(fate) {
          ChunkDecides(kept, offset, chunk, fate, now, Left(remaining));
        }
        label before:
        ok := PartialRead(obj, chunk, offset);
        if !ok {
          return;
        }
        ChunkRead(old@before(obj[..]), obj[..], bytes, was, offset, chunk, n, Detectable(fate));
        remaining := remaining - READ_DATA_MAX_BYTES;
      }
      if Detectable(fate) {
        NoTransfers(fate, true, now);
      }
      ok := true;
    }
  }

  /** How many transfers are left for the remaining bytes of the loop. */
  function Left(remaining: int): nat { if remaining <= 0 then 0 else (remaining + 4092) / 4093 }

  lemma OneTransferLess(remaining: nat)
    requires remaining > 0
    ensures Left(remaining) > 0 && Left(remaining - READ_DATA_MAX_BYTES) == Left(remaining) - 1
  {
  }

  lemma ChunkRead(before: seq<byte>, after: seq<byte>, bytes: seq<byte>, was: seq<byte>, offset: nat, chunk: nat,
                  n: nat, detectable: bool)
    requires |before| == |after| == |was| && offset + chunk <= n <= |was| <= |bytes|
    requires detectable ==> after == Overwrite(before, offset, bytes[offset..offset + chunk])
    requires detectable ==> forall i :: 0 <= i < |was| ==> before[i] == if i < offset then bytes[i] else was[i]
    ensures detectable ==> forall i :: 0 <= i < |was| ==> after[i] == if i < offset + chunk then bytes[i] else was[i]
  {
  }

  /** Two requests for chunks of one length, the second one cut short: the slave answers the first one again, and
      the master takes the answer for the second chunk. */
  lemma TruncatedReadExample(fate: nat -> Fate)
    requires fate(0).Replied? && fate(1).Truncated?
    ensures var first := Attempts(BadRequest, 0, 4093, fate, 0, MAX_NUM_RETRIES);
            Attempts(first.kept, 4093, 4093, fate, first.now, MAX_NUM_RETRIES) == Outcome(true, 0, Request(0, 4093), 2)
  {
  }
}
