/**
 The slave's queue of command requests: the master reads the request at its head, executes it, and then
 rolls the queue by one with an acknowledged write.  A roll is not idempotent, so it matters which messages
 of the link may be lost.  Other tasks on the slave enqueue requests all the while.
 */
module QueueRoll {
  import opened Arith
  import opened Queues
  import SpiLink

  const QUEUE_DEPTH: nat := 10
  const MAX_REQUESTS_PER_UPDATE: nat := 5

  /** What happens to one roll command: it is lost; it arrives and its acknowledgement is lost; both arrive; or it
      does not arrive and the slave acknowledges another packet in its place. */
  datatype RollFate = Lost | AckLost | Acked | FalseAck

  /** What lies outside, moment by moment: the requests that other tasks on the slave enqueue, whether a read gets
      through, whether an execution succeeds, and what happens to a roll command. */
  datatype World<!R> = World(arrivals: nat -> seq<R>, readOk: nat -> bool, execOk: nat -> bool, fate: nat -> RollFate)

  predicate Arrives(fate: RollFate) { fate.AckLost? || fate.Acked? }

  /** How many requests one roll command takes off the queue. */
  function Takes(queued: nat, fate: RollFate): (k: nat)
    ensures k <= 1 && k <= queued
  {
    if Arrives(fate) && queued > 0 then 1 else 0
  }

  /** Whether the master counts the command as done; an empty queue is reported with a negative acknowledgement. */
  predicate Settles(queued: nat, fate: RollFate) { fate.FalseAck? || (fate.Acked? && queued > 0) }

  /** The result of the attempts to roll by one: how many requests the slave took off its queue. */
  datatype Rolled = Rolled(ok: bool, count: nat)

  function AddCount(r: Rolled, count: nat): Rolled { r.(count := r.count + count) }

  /** Before each attempt requests arrive, as far as there is room for them. */
  function RollAttempts<R>(queued: nat, w: World<R>, moment: nat, tries: nat): (r: Rolled)
    ensures r.count <= tries
    decreases tries
  {
    if tries == 0 then Rolled(false, 0)
    else
      var q := Min(queued + |w.arrivals(moment)|, QUEUE_DEPTH);
      var k := Takes(q, w.fate(moment));
      if Settles(q, w.fate(moment)) then Rolled(true, k)
      else AddCount(RollAttempts(q - k, w, moment + 1, tries - 1), k)
  }

  /** The number of requests that arrive from one moment on and before another. */
  function Arriving<R>(w: World<R>, from: nat, to: nat): nat
    decreases to - from
  {
    if from >= to then 0 else |w.arrivals(from)| + Arriving(w, from + 1, to)
  }

  /** The command arrives while a request is queued, before the master has been deceived. */
  ghost predicate Reaches<R>(queued: nat, w: World<R>, moment: nat, j: nat) {
    && moment <= j && Arrives(w.fate(j)) && (forall k :: moment <= k < j ==> !w.fate(k).FalseAck?)
    && queued + Arriving(w, moment, j + 1) >= 1
  }

  /** The command arrives again after an acknowledgement was lost, with two requests queued by then, whether they
      were there when the roll began or came while it was being repeated. */
  ghost predicate Repeats<R>(queued: nat, w: World<R>, moment: nat, i: nat, j: nat) {
    && moment <= i < j && Arrives(w.fate(i)) && Arrives(w.fate(j))
    && (forall k :: moment <= k <= i ==> !w.fate(k).Acked?) && (forall k :: moment <= k < j ==> !w.fate(k).FalseAck?)
    && queued + Arriving(w, moment, j + 1) >= 2
  }

  ghost predicate RepeatedAfterLostAck<R>(queued: nat, w: World<R>, moment: nat, end: nat) {
    exists i: nat, j: nat :: i < j < end && Repeats(queued, w, moment, i, j)
  }

  lemma ArrivingNow<R>(w: World<R>, from: nat, to: nat)
    requires from < to
    ensures Arriving(w, from, to) == |w.arrivals(from)| + Arriving(w, from + 1, to)
    ensures to == from + 1 ==> Arriving(w, from, to) == |w.arrivals(from)|
  {
  }

  ghost predicate Reached<R>(queued: nat, w: World<R>, moment: nat, end: nat) {
    exists j: nat :: j < end && Reaches(queued, w, moment, j)
  }

  /** One moment later, q requests are queued. */
  lemma ReachesLater<R>(queued: nat, w: World<R>, moment: nat, j: nat, q: nat, next: nat)
    requires next == moment + 1 && q == Min(queued + |w.arrivals(moment)|, QUEUE_DEPTH)
    ensures Reaches(queued, w, moment, j)
        <==> if j == moment then Takes(q, w.fate(moment)) == 1
             else !w.fate(moment).FalseAck? && Reaches(q, w, next, j)
  {
    if moment <= j {
      ArrivingNow(w, moment, j + 1);
    }
  }

  lemma ReachedLater<R>(queued: nat, w: World<R>, moment: nat, end: nat, q: nat, next: nat)
    requires moment < end && next == moment + 1 && q == Min(queued + |w.arrivals(moment)|, QUEUE_DEPTH)
    ensures Reached(queued, w, moment, end)
        <==> Takes(q, w.fate(moment)) == 1 || (!w.fate(moment).FalseAck? && Reached(q, w, next, end))
  {
    ReachesLater(queued, w, moment, moment, q, next);
    if Reached(queued, w, moment, end) {
      var j: nat :| j < end && Reaches(queued, w, moment, j);
      ReachesLater(queued, w, moment, j, q, next);
    }
    if Reached(q, w, next, end) {
      var j: nat :| j < end && Reaches(q, w, next, j);
      ReachesLater(queued, w, moment, j, q, next);
    }
  }

  /** A roll takes a request exactly when a command arrives that finds one. */
  lemma {:induction false} TakesSomething<R>(queued: nat, w: World<R>, moment: nat, tries: nat)
    requires queued <= QUEUE_DEPTH
    ensures RollAttempts(queued, w, moment, tries).count > 0 <==> Reached(queued, w, moment, moment + tries)
    decreases tries
  {
    hide Reached;
    if tries > 0 {
      var q := Min(queued + |w.arrivals(moment)|, QUEUE_DEPTH);
      ReachedLater(queued, w, moment, moment + tries, q, moment + 1);
      if !Settles(q, w.fate(moment)) && Takes(q, w.fate(moment)) == 0 {
        TakesSomething(q, w, moment + 1, tries - 1);
      }
    } else {
      NeverReached(queued, w, moment);
    }
  }

  lemma NeverReached<R>(queued: nat, w: World<R>, moment: nat)
    ensures !Reached(queued, w, moment, moment)
  {
  }

  lemma RepeatsLater<R>(queued: nat, w: World<R>, moment: nat, i: nat, j: nat, q: nat, next: nat)
    requires next == moment + 1 && q == Min(queued + |w.arrivals(moment)|, QUEUE_DEPTH) && w.fate(moment).Lost?
    ensures Repeats(queued, w, moment, i, j) <==> Repeats(q, w, next, i, j)
  {
    if moment < j {
      ArrivingNow(w, moment, j + 1);
    }
  }

  lemma RepeatedLater<R>(queued: nat, w: World<R>, moment: nat, end: nat, q: nat, next: nat)
    requires next == moment + 1 && q == Min(queued + |w.arrivals(moment)|, QUEUE_DEPTH) && w.fate(moment).Lost?
    ensures RepeatedAfterLostAck(queued, w, moment, end) <==> RepeatedAfterLostAck(q, w, next, end)
  {
    hide Repeats;
    if RepeatedAfterLostAck(queued, w, moment, end) {
      var i: nat, j: nat :| i < j < end && Repeats(queued, w, moment, i, j);
      RepeatsLater(queued, w, moment, i, j, q, next);
    }
    if RepeatedAfterLostAck(q, w, next, end) {
      var i: nat, j: nat :| i < j < end && Repeats(q, w, next, i, j);
      RepeatsLater(queued, w, moment, i, j, q, next);
    }
  }

  /** After a first arrival whose acknowledgement is lost, any later one that finds a request repeats it. */
  lemma RepeatedNow<R>(queued: nat, w: World<R>, moment: nat, end: nat, left: nat, next: nat)
    requires queued >= 1 && w.fate(moment).AckLost?
    requires next == moment + 1 && left == Min(queued + |w.arrivals(moment)|, QUEUE_DEPTH) - 1
    ensures RepeatedAfterLostAck(queued, w, moment, end) <==> Reached(left, w, next, end)
  {
    if RepeatedAfterLostAck(queued, w, moment, end) {
      var i: nat, j: nat :| i < j < end && Repeats(queued, w, moment, i, j);
      ArrivingNow(w, moment, j + 1);
      assert Reaches(left, w, next, j);
    }
    if Reached(left, w, next, end) {
      var j: nat :| j < end && Reaches(left, w, next, j);
      ArrivingNow(w, moment, j + 1);
      assert Repeats(queued, w, moment, moment, j);
    }
  }

  lemma NeverRepeated<R>(queued: nat, w: World<R>, moment: nat, end: nat)
    requires end <= moment || w.fate(moment).Acked? || w.fate(moment).FalseAck?
    ensures !RepeatedAfterLostAck(queued, w, moment, end)
  {
  }

  /** One attempt, after which next is the moment and q requests had come. */
  lemma AttemptThenRest<R>(queued: nat, w: World<R>, moment: nat, tries: nat, q: nat, next: nat)
    requires tries > 0 && next == moment + 1 && q == Min(queued + |w.arrivals(moment)|, QUEUE_DEPTH)
    ensures var k := Takes(q, w.fate(moment));
            RollAttempts(queued, w, moment, tries)
            == if Settles(q, w.fate(moment)) then Rolled(true, k)
               else AddCount(RollAttempts(q - k, w, next, tries - 1), k)
  {
  }

  /** A roll by one takes more than one request off the queue exactly when a command arrives again after an
      acknowledgement was lost and a second request has come by then. */
  lemma {:induction false} RollsAtMostOnceExactly<R>(queued: nat, w: World<R>, moment: nat, tries: nat)
    requires 1 <= queued <= QUEUE_DEPTH
    ensures RollAttempts(queued, w, moment, tries).count > 1
        <==> RepeatedAfterLostAck(queued, w, moment, moment + tries)
    decreases tries
  {
    hide RollAttempts, RepeatedAfterLostAck, Reached;
    var end, next := moment + tries, moment + 1;
    if tries == 0 {
      NeverRepeated(queued, w, moment, end);
    } else {
      var q, fate := Min(queued + |w.arrivals(moment)|, QUEUE_DEPTH), w.fate(moment);
      AttemptThenRest(queued, w, moment, tries, q, next);
      if fate.Acked? || fate.FalseAck? {
        NeverRepeated(queued, w, moment, end);
      } else if fate.Lost? {
        RollsAtMostOnceExactly(q, w, next, tries - 1);
        RepeatedLater(queued, w, moment, end, q, next);
      } else {
        TakesSomething(q - 1, w, next, tries - 1);
        RepeatedNow(queued, w, moment, end, q - 1, next);
      }
    }
  }

  /** A second request need not be there when the roll begins: one that arrives between the lost acknowledgement and
      the retry leaves with the first. */
  lemma LateArrivalExample<R>(w: World<R>, moment: nat, x: R)
    requires w.fate(moment).AckLost? && w.fate(moment + 1).Acked?
    requires w.arrivals(moment) == [] && w.arrivals(moment + 1) == [x]
    ensures RollAttempts(1, w, moment, SpiLink.MAX_NUM_RETRIES) == Rolled(true, 2)
    ensures Doubled(1, w, moment)
  {
    ArrivingNow(w, moment, moment + 2);
    ArrivingNow(w, moment + 1, moment + 2);
    assert RollAttempts(0, w, moment + 1, 2) == Rolled(true, 1);
    assert Repeats(1, w, moment, moment, moment + 1);
  }

  /** Acknowledgements that get back and are for the roll itself. */
  ghost predicate AcksReliable<R>(w: World<R>) { forall k :: !w.fate(k).AckLost? && !w.fate(k).FalseAck? }

  /** With reliable acknowledgements a roll takes one request exactly when it reports success, and none otherwise. */
  lemma {:induction false} ReliableRoll<R>(queued: nat, w: World<R>, moment: nat, tries: nat)
    requires AcksReliable(w)
    ensures var r := RollAttempts(queued, w, moment, tries);
            r.count == (if r.ok then 1 else 0)
    decreases tries
  {
    if tries > 0 {
      var q := Min(queued + |w.arrivals(moment)|, QUEUE_DEPTH);
      ReliableRoll(q - Takes(q, w.fate(moment)), w, moment + 1, tries - 1);
    }
  }

  /** Some roll command in the window is acknowledged. */
  ghost predicate SomeAcked<R>(w: World<R>, moment: nat, end: nat) {
    exists k: nat :: moment <= k < end && w.fate(k).Acked?
  }

  lemma SomeAckedLater<R>(w: World<R>, moment: nat, end: nat, next: nat)
    requires moment < end && next == moment + 1
    ensures SomeAcked(w, moment, end) <==> w.fate(moment).Acked? || SomeAcked(w, next, end)
  {
  }

  lemma NoneAcked<R>(w: World<R>, moment: nat)
    ensures !SomeAcked(w, moment, moment)
  {
  }

  /** And it reports success exactly when one of its commands gets through. */
  lemma {:induction false} ReliableRollExactly<R>(queued: nat, w: World<R>, moment: nat, tries: nat)
    requires AcksReliable(w) && 1 <= queued <= QUEUE_DEPTH
    ensures RollAttempts(queued, w, moment, tries).ok <==> SomeAcked(w, moment, moment + tries)
    decreases tries
  {
    hide RollAttempts, SomeAcked;
    if tries == 0 {
      NoneAcked(w, moment);
      NoRoll(queued, w, moment);
    } else {
      var q := Min(queued + |w.arrivals(moment)|, QUEUE_DEPTH);
      AttemptThenRest(queued, w, moment, tries, q, moment + 1);
      SomeAckedLater(w, moment, moment + tries, moment + 1);
      if !w.fate(moment).Acked? {
        ReliableRollExactly(q, w, moment + 1, tries - 1);
      }
    }
  }

  lemma NoRoll<R>(queued: nat, w: World<R>, moment: nat)
    ensures RollAttempts(queued, w, moment, 0) == Rolled(false, 0)
  {
  }

  /** A false acknowledgement is what the master hears first, before any command arrives. */
  ghost predicate DeceivedFirst<R>(w: World<R>, moment: nat, end: nat) {
    exists k :: moment <= k < end && w.fate(k).FalseAck? && forall l :: moment <= l < k ==> w.fate(l).Lost?
  }

  lemma DeceivedLater<R>(w: World<R>, moment: nat, end: nat, next: nat)
    requires next == moment + 1 && w.fate(moment).Lost?
    ensures DeceivedFirst(w, moment, end) <==> DeceivedFirst(w, next, end)
  {
    if DeceivedFirst(w, moment, end) {
      var k :| moment <= k < end && w.fate(k).FalseAck? && forall l :: moment <= l < k ==> w.fate(l).Lost?;
      assert next <= k;
    }
  }

  lemma DeceivedNow<R>(w: World<R>, moment: nat, end: nat)
    requires !w.fate(moment).Lost? && moment < end
    ensures DeceivedFirst(w, moment, end) <==> w.fate(moment).FalseAck?
  {
  }

  /** A roll that reports success has taken a request, unless the master was deceived before any command arrived. */
  lemma {:induction false} SuccessTakesExactly<R>(queued: nat, w: World<R>, moment: nat, tries: nat)
    requires 1 <= queued <= QUEUE_DEPTH
    ensures var r := RollAttempts(queued, w, moment, tries);
            r.ok && r.count == 0 <==> DeceivedFirst(w, moment, moment + tries)
    decreases tries
  {
    hide DeceivedFirst;
    if tries == 0 {
      NotDeceived(w, moment);
    } else if w.fate(moment).Lost? {
      SuccessTakesExactly(Min(queued + |w.arrivals(moment)|, QUEUE_DEPTH), w, moment + 1, tries - 1);
      DeceivedLater(w, moment, moment + tries, moment + 1);
    } else {
      DeceivedNow(w, moment, moment + tries);
    }
  }

  lemma NotDeceived<R>(w: World<R>, moment: nat)
    ensures !DeceivedFirst(w, moment, moment)
  {
  }

  // ----- Whole runs -----

  /** What happens to the requests: the n-th one, which reads request, is executed, or leaves the queue. */
  datatype Event<R> = Executed(n: nat, request: R, ok: bool) | RolledOff(n: nat)

  /** How far an orderly history has come: the next request to leave, and whether it has been executed
      successfully.  Order is broken when another request is executed, or one leaves without having been. */
  datatype Progress = Broken | At(next: nat, done: bool)

  function After<R>(p: Progress, e: Event<R>): Progress {
    match p
    case Broken => Broken
    case At(next, done) =>
      match e
      case Executed(n, _, ok) => if n == next then At(next, done || ok) else Broken
      case RolledOff(n) => if n == next && done then At(next + 1, false) else Broken
  }

  function ProgressOf<R>(log: seq<Event<R>>): Progress
    decreases |log|
  {
    if log == [] then At(0, false) else After(ProgressOf(log[..|log| - 1]), log[|log| - 1])
  }

  /** Events come in queue order, and nothing happens to a request after it has left. */
  ghost predicate InQueueOrder<R(!new)>(log: seq<Event<R>>) {
    forall i, j :: 0 <= i < j < |log| ==> if log[i].RolledOff? then log[i].n < log[j].n else log[i].n <= log[j].n
  }

  ghost predicate DoneBefore<R(!new)>(log: seq<Event<R>>, n: nat, end: nat)
    requires end <= |log|
  {
    exists q :: 0 <= q < end && log[q].Executed? && log[q].n == n && log[q].ok
  }

  /** An orderly history: requests are executed in queue order, and exactly the first left ones have left, each
      once and after it has been executed successfully. */
  ghost predicate Orderly<R(!new)>(log: seq<Event<R>>, left: nat) {
    && InQueueOrder(log)
    && (forall i :: 0 <= i < |log| && log[i].RolledOff? ==> log[i].n < left && DoneBefore(log, log[i].n, i))
    && (forall m :: 0 <= m < left ==> RolledOff(m) in log)
  }

  lemma {:induction false} ProgressBounds<R(!new)>(log: seq<Event<R>>)
    requires ProgressOf(log).At?
    ensures var next := ProgressOf(log).next;
            forall i :: 0 <= i < |log| ==> log[i].n <= next && (log[i].RolledOff? ==> log[i].n < next)
    ensures InQueueOrder(log)
    decreases |log|
  {
    if log != [] {
      var k := |log| - 1;
      ProgressBounds(log[..k]);
      assert forall i :: 0 <= i < k ==> log[i] == log[..k][i];
    }
  }

  lemma {:induction false} ProgressDone<R(!new)>(log: seq<Event<R>>)
    requires ProgressOf(log).At?
    ensures ProgressOf(log).done ==> DoneBefore(log, ProgressOf(log).next, |log|)
    decreases |log|
  {
    if log != [] && ProgressOf(log).done {
      var k := |log| - 1;
      var p := ProgressOf(log[..k]);
      if p.done {
        ProgressDone(log[..k]);
        var q :| 0 <= q < k && log[..k][q].Executed? && log[..k][q].n == p.next && log[..k][q].ok;
        assert log[q] == log[..k][q];
      } else {
        assert log[k].ok;
      }
    }
  }

  lemma {:induction false} ProgressLeft<R(!new)>(log: seq<Event<R>>)
    requires ProgressOf(log).At?
    ensures forall m :: 0 <= m < ProgressOf(log).next ==> RolledOff(m) in log
    decreases |log|
  {
    if log != [] {
      var k := |log| - 1;
      var before, e := log[..k], log[k];
      ProgressLeft(before);
      forall m | 0 <= m < ProgressOf(log).next
        ensures RolledOff(m) in log
      {
        if m < ProgressOf(before).next {
          assert RolledOff(m) in before;
        } else {
          assert e == RolledOff(m);
        }
      }
    }
  }

  lemma {:induction false} ProgressExecuted<R(!new)>(log: seq<Event<R>>, i: nat)
    requires ProgressOf(log).At? && i < |log| && log[i].RolledOff?
    ensures DoneBefore(log, log[i].n, i)
    decreases |log|
  {
    var k := |log| - 1;
    var before := log[..k];
    if i < k {
      ProgressExecuted(before, i);
    } else {
      ProgressDone(before);
    }
    var q :| 0 <= q < i && before[q].Executed? && before[q].n == log[i].n && before[q].ok;
    assert log[q] == before[q];
  }

  /** Unbroken progress is an orderly history. */
  lemma ProgressIsOrder<R(!new)>(log: seq<Event<R>>)
    requires ProgressOf(log).At?
    ensures Orderly(log, ProgressOf(log).next)
  {
    hide ProgressOf, DoneBefore;
    ProgressBounds(log);
    ProgressLeft(log);
    forall i | 0 <= i < |log| && log[i].RolledOff?
      ensures DoneBefore(log, log[i].n, i)
    {
      ProgressExecuted(log, i);
    }
  }

  /** A second roll on the heels of the first breaks the order: a request leaves that was never executed. */
  lemma DoubleRollBreaksOrder<R>(log: seq<Event<R>>, n: nat)
    ensures ProgressOf(log + [RolledOff(n)] + [RolledOff(n + 1)]) == Broken
  {
    var once := log + [RolledOff(n)];
    var twice := once + [RolledOff(n + 1)];
    assert twice[..|twice| - 1] == once && once[..|once| - 1] == log;
  }

  function RollsOff<R>(n: nat, count: nat): seq<Event<R>> {
    seq(count, i requires 0 <= i < count => RolledOff(n + i))
  }

  lemma NoneOff<R>(n: nat)
    ensures RollsOff<R>(n, 0) == []
  {
  }

  lemma OneOff<R>(n: nat)
    ensures RollsOff<R>(n, 1) == [RolledOff(n)]
  {
  }

  lemma MoreOff<R>(n: nat, count: nat, more: nat)
    ensures RollsOff<R>(n, count) + RollsOff<R>(n + count, more) == RollsOff<R>(n, count + more)
  {
  }

  /** The state after count requests have been taken off. */
  function TakenOff<R>(s: Sys<R>, count: nat): Sys<R>
    requires count <= |s.queue|
  {
    s.(queue := s.queue[count..], left := s.left + s.queue[..count], log := s.log + RollsOff(|s.left|, count))
  }

  /** A roll takes more than one request exactly when a command arrives again after a lost acknowledgement while
      another request is queued. */
  ghost predicate Doubled<R>(queued: nat, w: World<R>, moment: nat) {
    RepeatedAfterLostAck(queued, w, moment, moment + SpiLink.MAX_NUM_RETRIES)
  }

  // ----- The master's loop -----

  datatype RollAt = RollAt(queued: nat, moment: nat)

  /** The slave's queue and the moment; and as history what was enqueued, what left, the events, and the rolls that
      were begun. */
  datatype Sys<R> = Sys(queue: seq<R>, moment: nat, enqueued: seq<R>, left: seq<R>, log: seq<Event<R>>,
                        rolls: seq<RollAt>)

  /** A full queue refuses what arrives. */
  function Arrived<R>(s: Sys<R>, xs: seq<R>): Sys<R> {
    var queue := FirstN(s.queue + xs, QUEUE_DEPTH);
    s.(queue := queue, moment := s.moment + 1, enqueued := s.enqueued + queue[Min(|s.queue|, |queue|)..])
  }

  function Executing<R>(s: Sys<R>, request: R, ok: bool): Sys<R> {
    s.(log := s.log + [Executed(|s.left|, request, ok)])
  }

  datatype Result<R> = Result(sys: Sys<R>, ok: bool)

  /** One roll command; requests arrive before it. */
  function Attempted<R>(s: Sys<R>, w: World<R>): Result<R> {
    var t := Arrived(s, w.arrivals(s.moment));
    Result(TakenOff(t, Takes(|t.queue|, w.fate(s.moment))), Settles(|t.queue|, w.fate(s.moment)))
  }

  function Rolls<R>(s: Sys<R>, w: World<R>, tries: nat): Result<R>
    decreases tries
  {
    if tries == 0 then Result(s, false)
    else
      var t := Attempted(s, w);
      if t.ok then t else Rolls(t.sys, w, tries - 1)
  }

  /** The acknowledged write that rolls the queue by one. */
  function Rolling<R>(s: Sys<R>, w: World<R>): Result<R> {
    Rolls(s.(rolls := s.rolls + [RollAt(|s.queue|, s.moment)]), w, SpiLink.MAX_NUM_RETRIES)
  }

  /** One turn of the loop: read the request at the head, execute it, roll the queue. */
  function Turn<R>(s: Sys<R>, w: World<R>): Result<R> {
    var read := Arrived(s, w.arrivals(s.moment));
    if read.queue == [] || !w.readOk(s.moment) then Result(read, false)
    else
      var before := Arrived(read, w.arrivals(read.moment));
      var ok := w.execOk(read.moment);
      var executed := Executing(before, read.queue[0], ok);
      if !ok then Result(executed, false) else Rolling(executed, w)
  }

  function Turns<R>(s: Sys<R>, w: World<R>, n: nat): Result<R>
    decreases n
  {
    if n == 0 then Result(s, true)
    else
      var first := Turn(s, w);
      if first.ok then Turns(first.sys, w, n - 1) else first
  }

  /** The master's Update over the requests that the slave reported. */
  function Updated<R>(s: Sys<R>, w: World<R>, reported: nat): Result<R> {
    Turns(s, w, Min(reported, MAX_REQUESTS_PER_UPDATE))
  }

  function AfterUpdates<R>(s: Sys<R>, w: World<R>, reports: seq<uint16>): Sys<R>
    decreases |reports|
  {
    if reports == [] then s else Updated(AfterUpdates(s, w, reports[..|reports| - 1]), w, reports[|reports| - 1]).sys
  }

  // ----- What every run keeps -----

  ghost predicate SomeDoubled<R(!new)>(rolls: seq<RollAt>, w: World<R>) {
    exists i :: 0 <= i < |rolls| && Doubled(rolls[i].queued, w, rolls[i].moment)
  }

  /** An execution names a request that arrived, by its place in the order of arrival. */
  predicate Named<R(==)>(log: seq<Event<R>>, enqueued: seq<R>) {
    forall i :: 0 <= i < |log| && log[i].Executed? ==> log[i].n < |enqueued| && log[i].request == enqueued[log[i].n]
  }

  /** No request is lost or reordered, and each execution was of the request it is recorded for. */
  ghost predicate Kept<R(!new)>(s: Sys<R>) {
    |s.queue| <= QUEUE_DEPTH && s.enqueued == s.left + s.queue && Named(s.log, s.enqueued)
  }

  /** Besides, the history is in order exactly as long as no roll was doubled. */
  ghost predicate Sound<R(!new)>(s: Sys<R>, w: World<R>) {
    && Kept(s)
    && (if SomeDoubled(s.rolls, w) then ProgressOf(s.log) == Broken
        else ProgressOf(s.log).At? && ProgressOf(s.log).next == |s.left|)
  }

  /** t is s some time later. */
  ghost predicate Later<R(!new)>(s: Sys<R>, t: Sys<R>) {
    s.enqueued <= t.enqueued && s.left <= t.left && s.log <= t.log && s.rolls <= t.rolls
  }

  lemma NamedSnoc<R>(log: seq<Event<R>>, enqueued: seq<R>, e: Event<R>)
    requires Named(log, enqueued)
    requires e.Executed? ==> e.n < |enqueued| && e.request == enqueued[e.n]
    ensures Named(log + [e], enqueued)
  {
  }

  lemma NamedGrows<R>(log: seq<Event<R>>, enqueued: seq<R>, more: seq<R>)
    requires Named(log, enqueued) && |enqueued| <= |more| && more[..|enqueued|] == enqueued
    ensures Named(log, more)
  {
    assert forall n :: 0 <= n < |enqueued| ==> more[..|enqueued|][n] == more[n];
  }

  lemma KeepsFront<R>(q: seq<R>, xs: seq<R>, n: nat)
    requires |q| <= n
    ensures var r := FirstN(q + xs, n);
            |r| == Min(|q| + |xs|, n) && |q| <= |r| && q <= r && r == q + r[|q|..] && r[|q|..] == xs[..|r| - |q|]
  {
    assert FirstN(q + xs, n)[..|q|] == q;
  }

  lemma ArrivedIsKept<R(!new)>(s: Sys<R>, xs: seq<R>)
    requires Kept(s)
    ensures var t := Arrived(s, xs);
            && Kept(t) && Later(s, t) && t.left == s.left && t.rolls == s.rolls && t.log == s.log && s.queue <= t.queue
            && t.moment == s.moment + 1 && |t.queue| == Min(|s.queue| + |xs|, QUEUE_DEPTH)
            && t.enqueued == s.enqueued + xs[..|t.queue| - |s.queue|]
  {
    hide FirstN, Named;
    KeepsFront(s.queue, xs, QUEUE_DEPTH);
    NamedGrows(s.log, s.enqueued, Arrived(s, xs).enqueued);
    var more := FirstN(s.queue + xs, QUEUE_DEPTH)[|s.queue|..];
    assert s.left + (s.queue + more) == (s.left + s.queue) + more;
  }

  lemma ArrivedIsSound<R(!new)>(s: Sys<R>, xs: seq<R>, w: World<R>)
    requires Sound(s, w)
    ensures var t := Arrived(s, xs);
            && Sound(t, w) && Later(s, t) && t.left == s.left && t.rolls == s.rolls && t.log == s.log
            && s.queue <= t.queue
  {
    hide ProgressOf, SomeDoubled, Arrived, Kept;
    ArrivedIsKept(s, xs);
  }

  lemma ExecutedIsSound<R(!new)>(s: Sys<R>, ok: bool, w: World<R>)
    requires Sound(s, w) && s.queue != []
    ensures var t := Executing(s, s.queue[0], ok);
            Sound(t, w) && Later(s, t) && (ok && ProgressOf(t.log).At? ==> ProgressOf(t.log) == At(|t.left|, true))
  {
    hide SomeDoubled, Named;
    var t := Executing(s, s.queue[0], ok);
    assert t.log[..|t.log| - 1] == s.log;
    assert s.queue[0] == (s.left + s.queue)[|s.left|];
    NamedSnoc(s.log, s.enqueued, Executed(|s.left|, s.queue[0], ok));
  }

  lemma {:induction false} BrokenStays<R>(log: seq<Event<R>>, more: seq<Event<R>>)
    requires ProgressOf(log) == Broken
    ensures ProgressOf(log + more) == Broken
    decreases |more|
  {
    if more == [] {
      assert log + more == log;
    } else {
      var k := |more| - 1;
      BrokenStays(log, more[..k]);
      assert (log + more)[..|log + more| - 1] == log + more[..k];
    }
  }

  /** After a successful execution a roll that takes at most one request keeps the order, and a doubled one breaks
      it. */
  lemma RolledProgress<R(!new)>(log: seq<Event<R>>, n: nat, count: nat)
    requires ProgressOf(log) == At(n, true)
    ensures var p := ProgressOf(log + RollsOff(n, count));
            if count == 0 then p == At(n, true) else if count == 1 then p == At(n + 1, false) else p == Broken
  {
    if count == 0 {
      assert log + RollsOff(n, count) == log;
    } else if count == 1 {
      assert (log + RollsOff(n, 1))[..|log|] == log;
    } else {
      DoubleRollBreaksOrder(log, n);
      BrokenStays(log + [RolledOff(n)] + [RolledOff(n + 1)], RollsOff(n + 2, count - 2));
      assert log + RollsOff(n, count)
          == log + [RolledOff(n)] + [RolledOff(n + 1)] + RollsOff(n + 2, count - 2);
    }
  }

  lemma DoubledAppended<R(!new)>(rolls: seq<RollAt>, r: RollAt, w: World<R>)
    ensures SomeDoubled(rolls + [r], w) <==> SomeDoubled(rolls, w) || Doubled(r.queued, w, r.moment)
  {
    hide Doubled;
    var more := rolls + [r];
    assert more[|rolls|] == r;
    if SomeDoubled(rolls, w) {
      var i :| 0 <= i < |rolls| && Doubled(rolls[i].queued, w, rolls[i].moment);
      assert more[i] == rolls[i];
    }
  }

  /** One roll command keeps everything but the order, and takes what it takes from the front. */
  lemma AttemptedIsKept<R(!new)>(s: Sys<R>, w: World<R>)
    requires Kept(s)
    ensures var t := Attempted(s, w).sys;
            && Kept(t) && Later(s, t) && t.rolls == s.rolls && t.moment == s.moment + 1
    ensures var t, q := Attempted(s, w), Min(|s.queue| + |w.arrivals(s.moment)|, QUEUE_DEPTH);
            var k := Takes(q, w.fate(s.moment));
            && |t.sys.queue| == q - k && |t.sys.left| == |s.left| + k && t.ok == Settles(q, w.fate(s.moment))
            && t.sys.log == s.log + RollsOff(|s.left|, k)
  {
    hide Named, Arrived, RollsOff, Takes, Settles;
    var a := Arrived(s, w.arrivals(s.moment));
    ArrivedIsKept(s, w.arrivals(s.moment));
    var k := Takes(|a.queue|, w.fate(s.moment));
    NamedRolls(a.log, a.enqueued, |a.left|, k);
    assert a.left + a.queue[..k] + a.queue[k..] == a.left + a.queue;
  }

  lemma NamedRolls<R>(log: seq<Event<R>>, enqueued: seq<R>, n: nat, count: nat)
    requires Named(log, enqueued)
    ensures Named(log + RollsOff(n, count), enqueued)
  {
    RollsAreRolls<R>(n, count);
  }

  /** The attempts on the queue are those that RollAttempts counts. */
  lemma {:induction false} RollsAreCounted<R(!new)>(s: Sys<R>, w: World<R>, tries: nat)
    requires Kept(s)
    ensures var t, r := Rolls(s, w, tries), RollAttempts(|s.queue|, w, s.moment, tries);
            && Kept(t.sys) && Later(s, t.sys) && t.sys.rolls == s.rolls && t.ok == r.ok
            && |t.sys.left| == |s.left| + r.count && t.sys.log == s.log + RollsOff(|s.left|, r.count)
    decreases tries
  {
    hide Kept, Attempted, RollsOff, Takes, Settles;
    if tries == 0 {
      NoneOff<R>(|s.left|);
    } else {
      var t := Attempted(s, w);
      AttemptedIsKept(s, w);
      if !t.ok {
        RollsAreCounted(t.sys, w, tries - 1);
        var k, more := |t.sys.left| - |s.left|, RollAttempts(|t.sys.queue|, w, t.sys.moment, tries - 1).count;
        MoreOff<R>(|s.left|, k, more);
        assert s.log + RollsOff<R>(|s.left|, k) + RollsOff<R>(|s.left| + k, more)
            == s.log + (RollsOff<R>(|s.left|, k) + RollsOff<R>(|s.left| + k, more));
      }
    }
  }

  lemma RollingIsSound<R(!new)>(s: Sys<R>, w: World<R>)
    requires Sound(s, w) && s.queue != [] && (ProgressOf(s.log).At? ==> ProgressOf(s.log) == At(|s.left|, true))
    ensures var t := Rolling(s, w).sys;
            Sound(t, w) && Later(s, t)
  {
    hide RollAttempts, Rolls, Repeats, SomeDoubled, ProgressOf, RollsOff, Named;
    var r := RollAttempts(|s.queue|, w, s.moment, SpiLink.MAX_NUM_RETRIES);
    RollsAreCounted(s.(rolls := s.rolls + [RollAt(|s.queue|, s.moment)]), w, SpiLink.MAX_NUM_RETRIES);
    RollsAtMostOnceExactly(|s.queue|, w, s.moment, SpiLink.MAX_NUM_RETRIES);
    DoubledAppended(s.rolls, RollAt(|s.queue|, s.moment), w);
    if ProgressOf(s.log).At? {
      RolledProgress(s.log, |s.left|, r.count);
    } else {
      BrokenStays(s.log, RollsOff(|s.left|, r.count));
    }
  }

  lemma RollsAreRolls<R>(n: nat, count: nat)
    ensures forall i :: 0 <= i < |RollsOff<R>(n, count)| ==> RollsOff<R>(n, count)[i].RolledOff?
  {
  }

  /** The master reads a request that is there. */
  predicate Reads<R>(s: Sys<R>, w: World<R>) {
    w.readOk(s.moment) && (s.queue != [] || w.arrivals(s.moment) != [])
  }

  lemma ExecutingKeeps<R>(s: Sys<R>, request: R, ok: bool)
    ensures var t := Executing(s, request, ok);
            && t.left == s.left && t.rolls == s.rolls && t.queue == s.queue && t.moment == s.moment
            && t.log == s.log + [Executed(|s.left|, request, ok)]
  {
  }

  lemma SoundIsKept<R(!new)>(s: Sys<R>, w: World<R>)
    requires Sound(s, w)
    ensures Kept(s) && s.enqueued == s.left + s.queue && |s.queue| <= QUEUE_DEPTH
  {
  }

  /** What a turn comes to before it rolls the queue. */
  lemma TurnReads<R(!new)>(s: Sys<R>, w: World<R>) returns (e: Sys<R>)
    requires Sound(s, w) && Reads(s, w)
    ensures var ok := w.execOk(s.moment + 1);
            && Sound(e, w) && Later(s, e) && e.queue != [] && s.queue <= e.queue
            && e.moment == s.moment + 2 && e.left == s.left && e.rolls == s.rolls
            && e.log == s.log + [Executed(|s.left|, e.queue[0], ok)]
            && Turn(s, w) == (if ok then Rolling(e, w) else Result(e, false))
            && (ok && ProgressOf(e.log).At? ==> ProgressOf(e.log) == At(|e.left|, true))
  {
    hide Sound, Arrived, Executing, Rolling, ProgressOf;
    SoundIsKept(s, w);
    ArrivedIsSound(s, w.arrivals(s.moment), w);
    ArrivedIsKept(s, w.arrivals(s.moment));
    var read := Arrived(s, w.arrivals(s.moment));
    SoundIsKept(read, w);
    ArrivedIsSound(read, w.arrivals(read.moment), w);
    ArrivedIsKept(read, w.arrivals(read.moment));
    var before := Arrived(read, w.arrivals(read.moment));
    assert before.queue[0] == read.queue[0];
    ExecutedIsSound(before, w.execOk(read.moment), w);
    ExecutingKeeps(before, read.queue[0], w.execOk(read.moment));
    e := Executing(before, read.queue[0], w.execOk(read.moment));
  }

  lemma TurnFails<R(!new)>(s: Sys<R>, w: World<R>)
    requires Sound(s, w) && !Reads(s, w)
    ensures var t := Turn(s, w);
            && Sound(t.sys, w) && Later(s, t.sys)
            && !t.ok && t.sys.left == s.left && t.sys.log == s.log && t.sys.rolls == s.rolls
  {
    hide Sound, Arrived, ProgressOf;
    SoundIsKept(s, w);
    ArrivedIsSound(s, w.arrivals(s.moment), w);
    ArrivedIsKept(s, w.arrivals(s.moment));
  }

  lemma TurnIsSound<R(!new)>(s: Sys<R>, w: World<R>)
    requires Sound(s, w)
    ensures Sound(Turn(s, w).sys, w) && Later(s, Turn(s, w).sys)
  {
    hide Sound, Turn, Rolling, ProgressOf, Reads;
    if Reads(s, w) {
      var e := TurnReads(s, w);
      if w.execOk(s.moment + 1) {
        RollingIsSound(e, w);
      }
    } else {
      TurnFails(s, w);
    }
  }

  lemma {:induction false} TurnsAreSound<R(!new)>(s: Sys<R>, w: World<R>, n: nat)
    requires Sound(s, w)
    ensures Sound(Turns(s, w, n).sys, w) && Later(s, Turns(s, w, n).sys)
    decreases n
  {
    hide Sound, Turn;
    if n > 0 {
      TurnIsSound(s, w);
      if Turn(s, w).ok {
        TurnsAreSound(Turn(s, w).sys, w, n - 1);
      }
    }
  }

  /** On every run of updates, whatever messages are lost, the history is in order exactly if no roll was doubled:
      then requests are executed in FIFO order, each that left did so once and after it was executed successfully.
      In any case what was enqueued is what left followed by what is queued. */
  lemma {:induction false} RunInOrderExactly<R(!new)>(s: Sys<R>, w: World<R>, reports: seq<uint16>)
    requires Sound(s, w)
    ensures var t := AfterUpdates(s, w, reports);
      && Sound(t, w) && Later(s, t) && t.enqueued == t.left + t.queue
      && (ProgressOf(t.log).At? <==> !SomeDoubled(t.rolls, w))
      && (!SomeDoubled(t.rolls, w) ==> Orderly(t.log, |t.left|))
    decreases |reports|
  {
    hide Turns, Orderly, SomeDoubled, ProgressOf;
    if reports != [] {
      var k := |reports| - 1;
      RunInOrderExactly(s, w, reports[..k]);
      TurnsAreSound(AfterUpdates(s, w, reports[..k]), w, Min(reports[k], MAX_REQUESTS_PER_UPDATE));
    }
    var t := AfterUpdates(s, w, reports);
    if ProgressOf(t.log).At? {
      ProgressIsOrder(t.log);
    }
  }

  /** Reliable acknowledgements are enough: then no roll is ever doubled. */
  lemma ReliableNeverDoubled<R(!new)>(rolls: seq<RollAt>, w: World<R>)
    requires AcksReliable(w)
    ensures !SomeDoubled(rolls, w)
  {
    forall i | 0 <= i < |rolls|
      ensures !Doubled(rolls[i].queued, w, rolls[i].moment)
    {
    }
  }

  // ----- How far an update gets -----

  /** No packet is acknowledged in place of a roll command. */
  ghost predicate NeverDeceived<R>(w: World<R>) { forall k :: !w.fate(k).FalseAck? }

  lemma TurnTakes<R(!new)>(s: Sys<R>, w: World<R>)
    requires Sound(s, w) && !SomeDoubled(Turn(s, w).sys.rolls, w)
    ensures var t := Turn(s, w);
            && |s.left| <= |t.sys.left| <= |s.left| + 1
            && (t.ok && NeverDeceived(w) ==> |t.sys.left| == |s.left| + 1)
  {
    hide Sound, Turn, Rolling, ProgressOf, Reads, SomeDoubled;
    if Reads(s, w) {
      var e := TurnReads(s, w);
      if w.execOk(s.moment + 1) {
        RollingTakes(e, w);
      }
    } else {
      TurnFails(s, w);
    }
  }

  lemma RollingTakes<R(!new)>(s: Sys<R>, w: World<R>)
    requires Sound(s, w) && s.queue != [] && !SomeDoubled(Rolling(s, w).sys.rolls, w)
    ensures var t := Rolling(s, w);
            && |s.left| <= |t.sys.left| <= |s.left| + 1
            && (t.ok && NeverDeceived(w) ==> |t.sys.left| == |s.left| + 1)
  {
    hide RollAttempts, Rolls, Repeats, SomeDoubled, ProgressOf, RollsOff, Named;
    RollsAreCounted(s.(rolls := s.rolls + [RollAt(|s.queue|, s.moment)]), w, SpiLink.MAX_NUM_RETRIES);
    RollsAtMostOnceExactly(|s.queue|, w, s.moment, SpiLink.MAX_NUM_RETRIES);
    DoubledAppended(s.rolls, RollAt(|s.queue|, s.moment), w);
    SuccessTakesExactly(|s.queue|, w, s.moment, SpiLink.MAX_NUM_RETRIES);
  }

  lemma EarlierNotDoubled<R(!new)>(early: seq<RollAt>, late: seq<RollAt>, w: World<R>)
    requires early <= late && !SomeDoubled(late, w)
    ensures !SomeDoubled(early, w)
  {
    hide Doubled;
    forall i | 0 <= i < |early|
      ensures !Doubled(early[i].queued, w, early[i].moment)
    {
      assert early[i] == late[i];
    }
  }

  /** Turns in which no roll is doubled take at most one request each off the queue, and exactly one when they succeed
      and nothing else was acknowledged in place of a roll. */
  lemma {:induction false} TurnsTake<R(!new)>(s: Sys<R>, w: World<R>, n: nat)
    requires Sound(s, w) && !SomeDoubled(Turns(s, w, n).sys.rolls, w)
    ensures var t := Turns(s, w, n);
            && |s.left| <= |t.sys.left| <= |s.left| + n
            && (t.ok && NeverDeceived(w) ==> |t.sys.left| == |s.left| + n)
    decreases n
  {
    hide Sound, Turn;
    if n > 0 {
      var first := Turn(s, w);
      TurnIsSound(s, w);
      if first.ok {
        TurnsAreSound(first.sys, w, n - 1);
        EarlierNotDoubled(first.sys.rolls, Turns(s, w, n).sys.rolls, w);
        TurnTakes(s, w);
        TurnsTake(first.sys, w, n - 1);
      } else {
        TurnTakes(s, w);
      }
    }
  }

  /** An update in which no roll is doubled takes at most the reported requests, and at most five, off the queue, and
      exactly that number when it returns true and nothing else was acknowledged in place of a roll. */
  lemma UpdateTakes<R(!new)>(s: Sys<R>, w: World<R>, reported: nat)
    requires Sound(s, w) && !SomeDoubled(Updated(s, w, reported).sys.rolls, w)
    ensures var t, n := Updated(s, w, reported), Min(reported, 5);
            && |s.left| <= |t.sys.left| <= |s.left| + n
            && (t.ok && NeverDeceived(w) ==> |t.sys.left| == |s.left| + n)
  {
    hide Turns, Sound, SomeDoubled;
    TurnsTake(s, w, Min(reported, MAX_REQUESTS_PER_UPDATE));
  }

  /** A turn executes the request at the head exactly when it reads one, and begins a roll exactly when that succeeds;
      otherwise it fails and takes nothing off the queue. */
  lemma TurnExactly<R(!new)>(s: Sys<R>, w: World<R>)
    requires Sound(s, w)
    ensures var t, n, ok := Turn(s, w), |s.left|, w.execOk(s.moment + 1);
            && (!Reads(s, w) ==> !t.ok && t.sys.left == s.left && t.sys.log == s.log && t.sys.rolls == s.rolls)
            && (Reads(s, w) ==>
                  && n < |t.sys.enqueued| && s.log + [Executed(n, t.sys.enqueued[n], ok)] <= t.sys.log
                  && |t.sys.rolls| == |s.rolls| + if ok then 1 else 0)
            && (Reads(s, w) && !ok ==> !t.ok && t.sys.left == s.left && |t.sys.log| == |s.log| + 1)
  {
    hide Sound, Turn, Rolling, ProgressOf, Reads;
    if Reads(s, w) {
      var e := TurnReads(s, w);
      SoundIsKept(e, w);
      if w.execOk(s.moment + 1) {
        RollingIsSound(e, w);
        RollBegins(e, w);
      }
    } else {
      TurnFails(s, w);
    }
  }

  lemma RollBegins<R(!new)>(s: Sys<R>, w: World<R>)
    requires Sound(s, w)
    ensures var t := Rolling(s, w);
            && t.sys.rolls == s.rolls + [RollAt(|s.queue|, s.moment)]
            && t.ok == RollAttempts(|s.queue|, w, s.moment, SpiLink.MAX_NUM_RETRIES).ok
  {
    hide RollAttempts, Rolls, SomeDoubled, ProgressOf, RollsOff, Named;
    RollsAreCounted(s.(rolls := s.rolls + [RollAt(|s.queue|, s.moment)]), w, SpiLink.MAX_NUM_RETRIES);
  }

  /** With reliable acknowledgements a turn succeeds exactly when it reads a request, executes it successfully, and one
      of the roll commands after that gets through. */
  lemma TurnSucceedsExactly<R(!new)>(s: Sys<R>, w: World<R>)
    requires Sound(s, w) && AcksReliable(w)
    ensures Turn(s, w).ok
        <==> Reads(s, w) && w.execOk(s.moment + 1) && SomeAcked(w, s.moment + 2, s.moment + 2 + SpiLink.MAX_NUM_RETRIES)
  {
    hide Sound, Turn, Rolling, RollAttempts, ProgressOf, SomeAcked, AcksReliable, Reads;
    if Reads(s, w) {
      var e := TurnReads(s, w);
      SoundIsKept(e, w);
      if w.execOk(s.moment + 1) {
        RollBegins(e, w);
        ReliableRollExactly(|e.queue|, w, e.moment, SpiLink.MAX_NUM_RETRIES);
      }
    } else {
      TurnFails(s, w);
    }
  }

  /** Nothing goes wrong: reads get through, executions succeed, roll commands and their acknowledgements arrive. */
  ghost predicate Undisturbed<R(!new)>(w: World<R>) {
    && (forall t :: w.readOk(t)) && (forall t :: w.execOk(t)) && (forall t :: w.fate(t).Acked?)
  }

  lemma UndisturbedTurn<R(!new)>(s: Sys<R>, w: World<R>)
    requires Sound(s, w) && Undisturbed(w) && s.queue != []
    ensures var t := Turn(s, w);
            t.ok && t.sys.left == s.left + [s.queue[0]] && s.queue[1..] <= t.sys.queue
  {
    hide Sound, Turn, Rolling, ProgressOf;
    var e := TurnReads(s, w);
    UndisturbedRoll(e, w);
  }

  lemma UndisturbedRoll<R(!new)>(s: Sys<R>, w: World<R>)
    requires Sound(s, w) && Undisturbed(w) && s.queue != []
    ensures var t := Rolling(s, w);
            t.ok && t.sys.left == s.left + [s.queue[0]] && s.queue[1..] <= t.sys.queue
  {
    hide Arrived, ProgressOf, SomeDoubled, RollsOff, Named;
    var begun := s.(rolls := s.rolls + [RollAt(|s.queue|, s.moment)]);
    ArrivedIsKept(begun, w.arrivals(s.moment));
    var t := Arrived(begun, w.arrivals(s.moment));
    assert Rolls(begun, w, SpiLink.MAX_NUM_RETRIES) == Result(TakenOff(t, 1), true);
    assert t.queue[..1] == [s.queue[0]];
  }

  lemma FrontOfRest<R>(q: seq<R>, r: seq<R>, n: nat)
    requires 0 < n <= |q| && q[1..] <= r
    ensures n - 1 <= |r| && q[..n] == [q[0]] + r[..n - 1]
  {
    assert r[..n - 1] == q[1..][..n - 1];
  }

  /** When nothing goes wrong, each turn executes and takes off the request at the head. */
  lemma {:induction false} UndisturbedTurns<R(!new)>(s: Sys<R>, w: World<R>, n: nat)
    requires Sound(s, w) && Undisturbed(w) && n <= |s.queue|
    ensures var t := Turns(s, w, n);
            t.ok && t.sys.left == s.left + s.queue[..n]
    decreases n
  {
    hide Sound, Turn, Undisturbed;
    if n > 0 {
      var first := Turn(s, w);
      UndisturbedTurn(s, w);
      TurnIsSound(s, w);
      FrontOfRest(s.queue, first.sys.queue, n);
      UndisturbedTurns(first.sys, w, n - 1);
    }
  }

  /** When nothing goes wrong, an update succeeds and executes and takes off the requests it was told of, in order, up
      to five of them. */
  lemma UndisturbedUpdate<R(!new)>(s: Sys<R>, w: World<R>, reported: nat)
    requires Sound(s, w) && Undisturbed(w) && Min(reported, 5) <= |s.queue|
    ensures var t := Updated(s, w, reported);
            t.ok && t.sys.left == s.left + s.queue[..Min(reported, 5)]
  {
    hide Turns, Sound, Undisturbed;
    UndisturbedTurns(s, w, Min(reported, MAX_REQUESTS_PER_UPDATE));
  }

  // ----- The objects -----

  /** The slave's queue and the master's loop over it; enqueued, left, log and rolls are history. */
  class RequestLink<R(0,!new)> {
    const world: World<R>
    var queue: seq<R>
    var moment: nat
    ghost var enqueued: seq<R>
    ghost var left: seq<R>
    ghost var log: seq<Event<R>>
    ghost var rolls: seq<RollAt>

    ghost function Value(): Sys<R>
      reads this
    {
      Sys(queue, moment, enqueued, left, log, rolls)
    }

    constructor (world: World<R>)
      ensures this.world == world && Value() == Sys([], 0, [], [], [], []) && Sound(Value(), world)
    {
      this.world := world;
      queue, moment, enqueued, left, log, rolls := [], 0, [], [], [], [];
    }

    /** Other tasks on the slave enqueue requests at any time; a full queue refuses them. */
    method Arrivals()
      requires |queue| <= QUEUE_DEPTH
      modifies this`queue, this`enqueued, this`moment
      ensures Value() == Arrived(old(Value()), world.arrivals(old(moment)))
    {
      var xs := world.arrivals(moment);
      ghost var was := queue;
      for i := 0 to |xs|
        invariant |queue| <= QUEUE_DEPTH && queue == FirstN(was + xs[..i], QUEUE_DEPTH)
        invariant enqueued == old(enqueued) && moment == old(moment)
      {
        assert was + xs[..i + 1] == was + xs[..i] + [xs[i]];
        if |queue| < QUEUE_DEPTH {
          queue := queue + [xs[i]];
        }
      }
      assert xs[..|xs|] == xs;
      enqueued := enqueued + queue[Min(|was|, |queue|)..];
      moment := moment + 1;
    }

    /** One roll command with its acknowledgement; requests arrive before it. */
    method RollAttempt() returns (ok: bool)
      requires |queue| <= QUEUE_DEPTH
      modifies this`queue, this`enqueued, this`moment, this`left, this`log
      ensures Result(Value(), ok) == Attempted(old(Value()), world) && |queue| <= QUEUE_DEPTH
    {
      var f := world.fate(moment);
      Arrivals();
      ok := f.FalseAck?;
      NoneOff<R>(|left|);
      if (f.AckLost? || f.Acked?) && queue != [] {
        OneOff<R>(|left|);
        log := log + [RolledOff(|left|)];
        left := left + [queue[0]];
        queue := queue[1..];
        ok := f.Acked?;
      }
    }

    /** The acknowledged write that rolls the queue by one request: the slave may take more than one off. */
    method Roll() returns (ok: bool)
      requires |queue| <= QUEUE_DEPTH
      modifies this
      ensures Result(Value(), ok) == Rolling(old(Value()), world)
    {
      hide Attempted;
      var attempts: nat := 0;
      ghost var tries := SpiLink.MAX_NUM_RETRIES;
      ok := false;
      rolls := rolls + [RollAt(|queue|, moment)];
      ghost var all := Rolls(Value(), world, tries);
      while attempts < SpiLink.MAX_NUM_RETRIES && !ok
        invariant attempts <= SpiLink.MAX_NUM_RETRIES && |queue| <= QUEUE_DEPTH
        invariant all == if ok then Result(Value(), true) else Rolls(Value(), world, tries - attempts)
        decreases SpiLink.MAX_NUM_RETRIES - attempts, !ok
      {
        ok := RollAttempt();
        if !ok {
          attempts := attempts + 1;
        }
      }
    }

    /** One request: read it, execute it, roll the queue. */
    method TakeRequest() returns (ok: bool)
      requires Sound(Value(), world)
      modifies this
      ensures Sound(Value(), world) && Result(Value(), ok) == Turn(old(Value()), world)
    {
      hide Sound, Arrived, Rolling, ProgressOf;
      TurnIsSound(Value(), world);
      ghost var s := Value();
      QueueFits(s, world);
      ArrivedIsSound(s, world.arrivals(s.moment), world);
      var readOk := world.readOk(moment);
      Arrivals();
      if queue == [] || !readOk {
        return false;
      }
      var request := queue[0];
      ghost var read := Value();
      QueueFits(read, world);
      ArrivedIsSound(read, world.arrivals(read.moment), world);
      ok := world.execOk(moment);
      Arrivals();
      log := log + [Executed(|left|, request, ok)];
      ghost var executed := Value();
      assert Arrived(read, world.arrivals(read.moment)).queue[0] == request;
      ExecutedIsSound(Arrived(read, world.arrivals(read.moment)), ok, world);
      if !ok {
        return;
      }
      QueueFits(executed, world);
      ok := Roll();
    }

    /** The loop of the master's Update over the requests that the slave reported. */
    method Update(reported: uint16) returns (ok: bool)
      requires Sound(Value(), world)
      modifies this
      ensures Sound(Value(), world) && Result(Value(), ok) == Updated(old(Value()), world, reported)
    {
      hide Sound, Turn;
      var processed: nat := 0;
      while processed < reported && processed < MAX_REQUESTS_PER_UPDATE
        invariant processed <= Min(reported, MAX_REQUESTS_PER_UPDATE) && Sound(Value(), world)
        invariant Updated(old(Value()), world, reported)
               == Turns(Value(), world, Min(reported, MAX_REQUESTS_PER_UPDATE) - processed)
      {
        ok := TakeRequest();
        if !ok {
          return;
        }
        processed := processed + 1;
      }
      ok := true;
    }

    /** A run of updates takes the objects where AfterUpdates says. */
    method RunUpdates(reports: seq<uint16>)
      requires Sound(Value(), world)
      modifies this
      ensures Sound(Value(), world) && Value() == AfterUpdates(old(Value()), world, reports)
    {
      hide Sound, Updated;
      assert reports[..0] == [];
      for i := 0 to |reports|
        invariant Sound(Value(), world) && Value() == AfterUpdates(old(Value()), world, reports[..i])
      {
        var _ := Update(reports[i]);
        assert reports[..i + 1][..i] == reports[..i];
      }
      assert reports[..|reports|] == reports;
    }
  }

  lemma QueueFits<R(!new)>(s: Sys<R>, w: World<R>)
    requires Sound(s, w)
    ensures |s.queue| <= QUEUE_DEPTH
  {
  }
}
