/**
 What may happen to the messages of one attempt on the coprocessor link.
 */
module SpiLink {
  const MAX_NUM_RETRIES: nat := 3

  datatype Fate =
    | SendError   // the transfer fails on the master's side
    | Lost        // the slave receives nothing, or no command that it takes for this one
    | Garbled     // the slave receives a frame with a bad CRC
    | Truncated   // the slave receives the command byte, but fewer bytes than the shortest packet has
    | Muted       // likewise, but under the other write command: a reply comes only if none is awaited
    | Misrouted   // the slave receives a write of more bytes than a read request has under the read command
    | ReplyLost   // the command arrives, its acknowledgement or answer does not
    | Replied     // both arrive

  /** Damage to messages is loss or shows in the CRC. */
  ghost predicate Detectable(fate: nat -> Fate) {
    forall i :: !fate(i).Truncated? && !fate(i).Muted? && !fate(i).Misrouted?
  }

  /** No write is taken for a read: the slave copies a frame under the read command into its 8-byte read request
      before it looks at length or CRC, and a longer one overruns it. */
  ghost predicate Routed(fate: nat -> Fate) { forall i :: !fate(i).Misrouted? }

  /** Whether an attempt is done for the master: without an acknowledgement it only has to be sent. */
  predicate Works(fate: Fate, requireAck: bool) { if requireAck then fate.Replied? else !fate.SendError? }

  /** Attempt k is the first of so many from now on that works. */
  ghost predicate FirstToWork(fate: nat -> Fate, requireAck: bool, now: nat, tries: nat, k: nat) {
    now <= k < now + tries && Works(fate(k), requireAck) && forall j :: now <= j < k ==> !Works(fate(j), requireAck)
  }

  /** Each of n transfers, one behind the other, has an attempt that works among the three it is given. */
  ghost predicate EachWorks(fate: nat -> Fate, requireAck: bool, now: nat, n: nat)
    decreases n
  {
    n == 0 || exists k: nat ::
      FirstToWork(fate, requireAck, now, MAX_NUM_RETRIES, k) && EachWorks(fate, requireAck, k + 1, n - 1)
  }

  lemma FirstDecides(fate: nat -> Fate, requireAck: bool, now: nat, n: nat, k: nat)
    requires n > 0 && FirstToWork(fate, requireAck, now, MAX_NUM_RETRIES, k)
    ensures EachWorks(fate, requireAck, now, n) <==> EachWorks(fate, requireAck, k + 1, n - 1)
  {
    if EachWorks(fate, requireAck, now, n) {
      var i: nat :|
        FirstToWork(fate, requireAck, now, MAX_NUM_RETRIES, i) && EachWorks(fate, requireAck, i + 1, n - 1);
      assert i == k;
    }
  }

  lemma NoneDecides(fate: nat -> Fate, requireAck: bool, now: nat, n: nat)
    requires n > 0 && forall k :: now <= k < now + MAX_NUM_RETRIES ==> !Works(fate(k), requireAck)
    ensures !EachWorks(fate, requireAck, now, n)
  {
  }

  lemma NoTransfers(fate: nat -> Fate, requireAck: bool, now: nat)
    ensures EachWorks(fate, requireAck, now, 0)
  {
  }

  lemma {:induction false} FindFirst(fate: nat -> Fate, requireAck: bool, now: nat, tries: nat, i: nat) returns (k: nat)
    requires now <= i < now + tries && Works(fate(i), requireAck)
    ensures FirstToWork(fate, requireAck, now, tries, k)
  {
    k := now;
    while !Works(fate(k), requireAck)
      invariant now <= k <= i && forall j :: now <= j < k ==> !Works(fate(j), requireAck)
      decreases i - k
    {
      k := k + 1;
    }
  }

  /** A single transfer works exactly when one of three attempts does. */
  lemma OneWorks(fate: nat -> Fate, requireAck: bool, now: nat)
    ensures EachWorks(fate, requireAck, now, 1)
        <==> exists k :: now <= k < now + 3 && Works(fate(k), requireAck)
  {
    if i: nat :| now <= i < now + 3 && Works(fate(i), requireAck) {
      var k := FindFirst(fate, requireAck, now, MAX_NUM_RETRIES, i);
      assert EachWorks(fate, requireAck, k + 1, 0);
    }
  }

  /** Any number of transfers works as long as no three attempts in a row fail. */
  lemma {:induction false} NoThreeFail(fate: nat -> Fate, requireAck: bool, now: nat, n: nat)
    requires forall k :: now <= k ==>
               Works(fate(k), requireAck) || Works(fate(k + 1), requireAck) || Works(fate(k + 2), requireAck)
    ensures EachWorks(fate, requireAck, now, n)
    decreases n
  {
    if n > 0 {
      var i: nat := if Works(fate(now), requireAck) then now else if Works(fate(now + 1), requireAck) then now + 1
                    else now + 2;
      var k := FindFirst(fate, requireAck, now, MAX_NUM_RETRIES, i);
      NoThreeFail(fate, requireAck, k + 1, n - 1);
    }
  }
}
