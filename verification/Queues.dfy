/**
 PFBQueue, the ring buffer that carries packets, log messages and command requests, refines a
 bounded FIFO sequence.  The sequence-level functions come first, then the class over an array
 with head, tail and full flag, then the laws of whole runs of operations.
 */
module Queues {
  import opened Arith

  /** What one enqueue leaves in a queue of the given capacity. */
  function Enqueued<T>(s: seq<T>, cap: nat, overwrite: bool, x: T): seq<T> {
    if |s| < cap then s + [x]
    else if overwrite && |s| > 0 then s[1..] + [x]
    else s
  }

  /** What enqueueing a whole sequence, front first, leaves in the queue. */
  function EnqueuedAll<T>(s: seq<T>, cap: nat, overwrite: bool, xs: seq<T>): seq<T>
    decreases |xs|
  {
    if xs == [] then s
    else EnqueuedAll(Enqueued(s, cap, overwrite, xs[0]), cap, overwrite, xs[1..])
  }

  function FirstN<T>(s: seq<T>, n: nat): seq<T> { if |s| <= n then s else s[..n] }

  function LastN<T>(s: seq<T>, n: nat): seq<T> { if |s| <= n then s else s[|s| - n..] }

  lemma ShortKept<T>(s: seq<T>, cap: nat)
    requires |s| <= cap
    ensures FirstN(s, cap) == s && LastN(s, cap) == s
  {
  }

  lemma EnqueuedFits<T>(s: seq<T>, cap: nat, overwrite: bool, x: T)
    requires |s| <= cap
    ensures |Enqueued(s, cap, overwrite, x)| <= cap
  {
  }

  /** Enqueueing the first element does not change which elements are kept in the end. */
  lemma KeptByOne<T>(s: seq<T>, cap: nat, overwrite: bool, xs: seq<T>)
    requires 0 < cap && |s| <= cap && xs != []
    ensures var t := Enqueued(s, cap, overwrite, xs[0]) + xs[1..];
            if overwrite then LastN(t, cap) == LastN(s + xs, cap) else FirstN(t, cap) == FirstN(s + xs, cap)
  {
    assert s + xs == (s + [xs[0]]) + xs[1..];
    if |s| == cap && overwrite {
      assert s[1..] + [xs[0]] + xs[1..] == (s + xs)[1..];
    }
  }

  /** Overwriting keeps exactly the newest elements; refusing keeps exactly the oldest. */
  lemma {:induction false} EnqueuedAllKeeps<T>(s: seq<T>, cap: nat, overwrite: bool, xs: seq<T>)
    requires 0 < cap && |s| <= cap
    ensures EnqueuedAll(s, cap, overwrite, xs)
         == if overwrite then LastN(s + xs, cap) else FirstN(s + xs, cap)
    decreases |xs|
  {
    hide FirstN, LastN, Enqueued;
    if xs == [] {
      assert s + xs == s;
      ShortKept(s, cap);
    } else {
      EnqueuedFits(s, cap, overwrite, xs[0]);
      var next := Enqueued(s, cap, overwrite, xs[0]);
      EnqueuedAllKeeps(next, cap, overwrite, xs[1..]);
      KeptByOne(s, cap, overwrite, xs);
    }
  }

  /** One turn of the ring at most. */
  function Wrap(i: nat, n: nat): nat
    requires i <= 2 * n
  {
    if i >= n then i - n else i
  }

  /** PFBQueue::IncrementIndex: the sum is taken in a uint16_t before the wrap is applied. */
  function IncrementIndex(index: uint16, increment: uint16, cap: uint16): (r: uint16)
    requires cap > 0
    ensures index < cap <= 32768 && increment <= cap ==> r == Wrap(index + increment, cap)
  {
    var sum := AddU16(index, increment);
    if sum >= cap then sum - cap else sum
  }

  /** The wrapped index is the true modular sum for every queue position exactly up to 32768 slots. */
  lemma IncrementIndexExact(cap: uint16)
    requires cap > 0
    ensures cap <= 32768 <==>
            forall index: uint16, increment: uint16 :: index < cap && increment <= cap ==>
              IncrementIndex(index, increment, cap) == (index + increment) % cap
  {
    if cap <= 32768 {
      forall index: uint16, increment: uint16 | index < cap && increment <= cap
        ensures IncrementIndex(index, increment, cap) == (index + increment) % cap
      {
        ModOfSum(index + increment, cap);
      }
    } else {
      var index: uint16 := cap - 1;
      ModOfSum(index + cap, cap);
      assert IncrementIndex(index, cap, cap) != (index + cap) % cap;
    }
  }

  lemma TimesBounds(q: int, m: int)
    requires m >= 0
    ensures (q >= 2 ==> q * m >= 2 * m) && (q <= -1 ==> q * m <= -m)
  {
    if q >= 2 {
      assert q * m == 2 * m + (q - 2) * m;
    } else if q <= -1 {
      assert q * m == -m - (-1 - q) * m;
    }
  }

  lemma ModOfSum(x: nat, m: nat)
    requires 0 < m && x < 2 * m
    ensures x % m == if x < m then x else x - m
  {
    var q, r := x / m, x % m;
    assert x == q * m + r;
    TimesBounds(q, m);
    assert q == 0 || q == 1;
  }

  /** The n elements that start at slot head, going round the end of the buffer at most once. */
  ghost function Window<T>(buf: seq<T>, head: nat, n: nat): (s: seq<T>)
    requires head < |buf| && n <= |buf|
    ensures |s| == n
    ensures forall i :: 0 <= i < n ==>
              s[i] == buf[Wrap(head + i, |buf|)]
  {
    if head + n <= |buf| then buf[head..head + n] else buf[head..] + buf[..head + n - |buf|]
  }

  /** PFBQueue::LengthUnlocked: the number of elements that a head, a tail and a full flag describe. */
  function Count(head: nat, tail: nat, isFull: bool, n: nat): (count: nat)
    requires head < n && tail < n
    ensures count <= n
  {
    if isFull then n else if head > tail then n - (head - tail) else tail - head
  }

  ghost function Ring<T>(buf: seq<T>, head: nat, tail: nat, isFull: bool): (s: seq<T>)
    requires head < |buf| && tail < |buf|
  {
    Window(buf, head, Count(head, tail, isFull, |buf|))
  }

  /** Moving the head forward by k drops the k oldest elements. */
  lemma RingDrop<T>(buf: seq<T>, head: nat, tail: nat, isFull: bool, k: nat)
    requires head < |buf| && tail < |buf| && (isFull ==> head == tail)
    requires k <= Count(head, tail, isFull, |buf|)
    ensures Wrap(head + k, |buf|) < |buf|
    ensures Ring(buf, Wrap(head + k, |buf|), tail, isFull && k == 0) == Ring(buf, head, tail, isFull)[k..]
  {
  }

  /** Writing at the tail of a ring with room appends one element. */
  lemma RingPush<T>(buf: seq<T>, head: nat, tail: nat, x: T)
    requires head < |buf| && tail < |buf|
    requires Count(head, tail, false, |buf|) < |buf|
    ensures Wrap(tail + 1, |buf|) < |buf|
    ensures var next := Wrap(tail + 1, |buf|);
            Ring(buf[tail := x], head, next, next == head) == Ring(buf, head, tail, false) + [x]
  {
  }

  /** The ring buffer of data_structures.hh; mutex-guarded operations are atomic here. */
  class PFBQueue<T(0)> {
    const bufferLength: uint16
    const overwriteWhenFull: bool
    const buffer: array<T>
    var isFull: bool
    var head: uint16
    var tail: uint16

    ghost predicate Valid()
      reads this
    {
      && 0 < bufferLength <= 32768
      && buffer.Length == bufferLength
      && head < bufferLength
      && tail < bufferLength
      && (isFull ==> head == tail)
    }

    function LengthUnlocked(): (n: uint16)
      requires Valid()
      reads this
    {
      Count(head, tail, isFull, bufferLength)
    }

    /** The abstract value: the queued elements, front first. */
    ghost function Contents(): (s: seq<T>)
      requires Valid()
      reads this, buffer
      ensures |s| == LengthUnlocked()
    {
      Ring(buffer[..], head, tail, isFull)
    }

    /** Any capacity is accepted; the operations are sound for those that IncrementIndexExact allows. */
    constructor (bufferLength: uint16, overwriteWhenFull: bool)
      ensures fresh(buffer) && buffer.Length == bufferLength
      ensures this.bufferLength == bufferLength && this.overwriteWhenFull == overwriteWhenFull
      ensures head == tail == 0 && !isFull
      ensures 0 < bufferLength <= 32768 ==> Valid() && Contents() == []
    {
      this.bufferLength := bufferLength;
      this.overwriteWhenFull := overwriteWhenFull;
      this.buffer := new T[bufferLength];
      isFull, head, tail := false, 0, 0;
    }

    method Length() returns (n: uint16)
      requires Valid()
      ensures n == |Contents()|
    {
      n := LengthUnlocked();
    }

    method IsFull() returns (b: bool)
      requires Valid()
      ensures b <==> |Contents()| == bufferLength
    {
      b := isFull;
    }

    method IsEmpty() returns (b: bool)
      requires Valid()
      ensures b <==> Contents() == []
    {
      b := !isFull && head == tail;
    }

    method Enqueue(element: T) returns (ok: bool)
      requires Valid()
      modifies this, buffer
      ensures Valid()
      ensures ok == (|old(Contents())| < bufferLength || overwriteWhenFull)
      ensures Contents() == Enqueued(old(Contents()), bufferLength, overwriteWhenFull, element)
    {
      hide Window, Ring;
      if isFull {
        if !overwriteWhenFull {
          return false;
        }
        RingDrop(buffer[..], head, tail, isFull, 1);
        head := IncrementIndex(head, 1, bufferLength);
      }
      ghost var was := buffer[..];
      RingPush(was, head, tail, element);
      buffer[tail] := element;
      tail := IncrementIndex(tail, 1, bufferLength);
      if tail == head {
        isFull := true;
      }
      assert buffer[..] == was[old(tail) := element];
      ok := true;
    }

    method Dequeue() returns (element: T, ok: bool)
      requires Valid()
      modifies this
      ensures Valid()
      ensures ok == (old(Contents()) != [])
      ensures ok ==> element == old(Contents())[0] && Contents() == old(Contents())[1..]
      ensures !ok ==> Contents() == old(Contents())
    {
      if head == tail && !isFull {
        element := buffer[head];
        return element, false;
      }
      RingDrop(buffer[..], head, tail, isFull, 1);
      element := buffer[head];
      head := IncrementIndex(head, 1, bufferLength);
      isFull := false;
      ok := true;
    }

    method Peek(index: uint16) returns (element: T, ok: bool)
      requires Valid()
      ensures ok == (index < |Contents()|)
      ensures ok ==> element == Contents()[index]
    {
      if index >= LengthUnlocked() {
        element := buffer[head];
        return element, false;
      }
      element := buffer[IncrementIndex(head, index, bufferLength)];
      ok := true;
    }

    method Discard(numElements: uint16) returns (ok: bool)
      requires Valid()
      modifies this
      ensures Valid()
      ensures ok == (numElements <= |old(Contents())|)
      ensures Contents() == if ok then old(Contents())[numElements..] else old(Contents())
    {
      hide Window, Ring;
      if numElements > LengthUnlocked() {
        return false;
      }
      RingDrop(buffer[..], head, tail, isFull, numElements);
      head := IncrementIndex(head, numElements, bufferLength);
      if numElements > 0 {
        isFull := false;
      }
      ok := true;
    }

    method Clear()
      requires Valid()
      modifies this
      ensures Valid() && Contents() == []
    {
      head, tail, isFull := 0, 0, false;
    }
  }

  /** The operations a user of a queue can issue. */
  datatype Op<T> = Enqueue(x: T) | Dequeue | Peek(index: uint16) | Discard(n: uint16) | Clear

  /** A queue with the history of every element that got in and every element that left, in order. */
  datatype Account<T> = Account(contents: seq<T>, entered: seq<T>, left: seq<T>)

  function Step<T>(a: Account<T>, cap: nat, overwrite: bool, op: Op<T>): Account<T> {
    match op
    case Enqueue(x) =>
      if |a.contents| < cap then Account(a.contents + [x], a.entered + [x], a.left)
      else if overwrite && a.contents != [] then
        Account(Enqueued(a.contents, cap, overwrite, x), a.entered + [x], a.left + [a.contents[0]])
      else a
    case Dequeue =>
      if a.contents == [] then a else Account(a.contents[1..], a.entered, a.left + [a.contents[0]])
    case Peek(_) => a
    case Discard(n) =>
      if n > |a.contents| then a else Account(a.contents[n..], a.entered, a.left + a.contents[..n])
    case Clear => Account([], a.entered, a.left + a.contents)
  }

  function Run<T>(a: Account<T>, cap: nat, overwrite: bool, ops: seq<Op<T>>): Account<T>
    decreases |ops|
  {
    if ops == [] then a else Run(Step(a, cap, overwrite, ops[0]), cap, overwrite, ops[1..])
  }

  /** One class method call moves the contents exactly as Step does, and hands out what Step says has left. */
  method Perform<T(0)>(q: PFBQueue<T>, op: Op<T>, ghost a: Account<T>) returns (out: seq<T>)
    requires q.Valid() && q.Contents() == a.contents
    modifies q, q.buffer
    ensures q.Valid() && q.Contents() == Step(a, q.bufferLength, q.overwriteWhenFull, op).contents
    ensures op.Dequeue? ==> Step(a, q.bufferLength, q.overwriteWhenFull, op).left == a.left + out
    ensures op.Peek? ==> out == if op.index < |a.contents| then [a.contents[op.index]] else []
  {
    hide Enqueued, Ring, Window;
    out := [];
    match op
    case Enqueue(x) =>
      var _ := q.Enqueue(x);
      EnqueuedIs(a.contents, q.bufferLength, q.overwriteWhenFull, x);
    case Dequeue =>
      var x, ok := q.Dequeue();
      out := if ok then [x] else [];
    case Peek(index) =>
      var x, ok := q.Peek(index);
      out := if ok then [x] else [];
    case Discard(n) => var _ := q.Discard(n);
    case Clear => q.Clear();
  }

  lemma EnqueuedIs<T>(s: seq<T>, cap: nat, overwrite: bool, x: T)
    requires |s| <= cap
    ensures |s| < cap ==> Enqueued(s, cap, overwrite, x) == s + [x]
    ensures |s| == cap && (!overwrite || s == []) ==> Enqueued(s, cap, overwrite, x) == s
  {
  }

  lemma RunUnfold<T>(a: Account<T>, cap: nat, overwrite: bool, ops: seq<Op<T>>, i: nat)
    requires i <= |ops|
    ensures Run(a, cap, overwrite, ops[i..])
         == if i == |ops| then a else Run(Step(a, cap, overwrite, ops[i]), cap, overwrite, ops[i + 1..])
  {
    if i < |ops| {
      assert ops[i..][1..] == ops[i + 1..];
    }
  }

  /** Any sequence of calls leaves in the queue what the run of the history model says. */
  method PerformAll<T(0)>(q: PFBQueue<T>, ops: seq<Op<T>>)
    requires q.Valid()
    modifies q, q.buffer
    ensures q.Valid()
    ensures q.Contents() == Run(Account(old(q.Contents()), old(q.Contents()), []), q.bufferLength, q.overwriteWhenFull,
                                ops).contents
  {
    hide Step, Run, Ring, Window;
    ghost var cap, over := q.bufferLength, q.overwriteWhenFull;
    ghost var a := Account(q.Contents(), q.Contents(), []);
    ghost var all := Run(a, cap, over, ops);
    assert ops[0..] == ops;
    for i := 0 to |ops|
      invariant q.Valid() && q.Contents() == a.contents
      invariant Run(a, cap, over, ops[i..]) == all
    {
      RunUnfold(a, cap, over, ops, i);
      var _ := Perform(q, ops[i], a);
      a := Step(a, cap, over, ops[i]);
    }
    RunUnfold(a, cap, over, ops, |ops|);
  }

  /** On every run the queue stays in bounds, and what entered is what left followed by what is held. */
  lemma {:induction false} RunConservesFifo<T>(a: Account<T>, cap: nat, overwrite: bool, ops: seq<Op<T>>)
    requires |a.contents| <= cap && a.entered == a.left + a.contents
    ensures var r := Run(a, cap, overwrite, ops);
            |r.contents| <= cap && r.entered == r.left + r.contents
    decreases |ops|
  {
    if ops != [] {
      var b := Step(a, cap, overwrite, ops[0]);
      assert b.entered == b.left + b.contents;
      RunConservesFifo(b, cap, overwrite, ops[1..]);
    }
  }
}
