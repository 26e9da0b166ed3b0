/**
 The fixed pool behind the aircraft dictionary: node blocks threaded on an intrusive free list, and a
 monotonic region that serves everything larger, or everything once the list is empty.
 */
module FixedPool {
  const NUM_BLOCKS: nat := 200
  const NIL: int := -1

  /** free lists, in order, the blocks that can be reached from head. */
  ghost predicate Threaded(head: int, next: seq<int>, free: seq<nat>)
    decreases |free|
  {
    if free == [] then head == NIL
    else head == free[0] && free[0] < |next| && Threaded(next[free[0]], next, free[1..])
  }

  predicate Distinct(s: seq<nat>) { forall i, j :: 0 <= i < j < |s| ==> s[i] != s[j] }

  /** Relinking a block that is not on the list does not disturb the list. */
  lemma {:induction false} ThreadedElsewhere(head: int, next: seq<int>, free: seq<nat>, b: nat, link: int)
    requires Threaded(head, next, free) && b !in free && b < |next|
    ensures Threaded(head, next[b := link], free)
    decreases |free|
  {
    if free != [] {
      ThreadedElsewhere(next[free[0]], next, free[1..], b, link);
    }
  }

  /** A node block, or an allocation in the monotonic region. */
  datatype Block = Node(index: nat) | Monotonic

  class FixedPoolResource {
    const next: array<int>
    var head: int
    ghost var free: seq<nat>
    ghost var monotonic: nat

    ghost predicate Valid()
      reads this, next
    {
      && next.Length == NUM_BLOCKS && |free| <= NUM_BLOCKS
      && Threaded(head, next[..], free) && Distinct(free)
      && forall i :: 0 <= i < |free| ==> free[i] < NUM_BLOCKS
    }

    constructor ()
      ensures Valid() && fresh(next) && monotonic == 0
      ensures |free| == NUM_BLOCKS && forall b :: 0 <= b < NUM_BLOCKS ==> b in free
    {
      next := new int[NUM_BLOCKS](_ => NIL);
      head := NIL;
      free := [];
      monotonic := 0;
      new;
      for i := 0 to NUM_BLOCKS
        invariant next.Length == NUM_BLOCKS && Threaded(head, next[..], free)
        invariant |free| == i && Distinct(free) && monotonic == 0
        invariant forall k :: 0 <= k < i ==> free[k] < i
        invariant forall b :: 0 <= b < i ==> b in free
      {
        ThreadedElsewhere(head, next[..], free, i, head);
        ghost var was := next[..];
        next[i] := head;
        assert next[..] == was[i := head];
        head := i;
        free := [i] + free;
      }
    }

    /** do_allocate, for a node or for something larger. */
    method Allocate(isNode: bool) returns (block: Block)
      requires Valid()
      modifies this
      ensures Valid()
      ensures isNode && old(free) != [] ==>
                block == Node(old(free)[0]) && free == old(free)[1..] && monotonic == old(monotonic)
      ensures !isNode || old(free) == [] ==> block == Monotonic && free == old(free) && monotonic == old(monotonic) + 1
    {
      if isNode && head != NIL {
        block := Node(head);
        head := next[head];
        free := free[1..];
        return;
      }
      monotonic := monotonic + 1;
      block := Monotonic;
    }

    /** do_deallocate; larger allocations are not reclaimed. */
    method Deallocate(block: Block)
      requires Valid() && (block.Node? ==> block.index < NUM_BLOCKS && block.index !in free && |free| < NUM_BLOCKS)
      modifies this, next
      ensures Valid() && monotonic == old(monotonic)
      ensures free == if block.Node? then [block.index] + old(free) else old(free)
    {
      if block.Node? {
        ThreadedElsewhere(head, next[..], free, block.index, head);
        ghost var was := next[..];
        next[block.index] := head;
        assert next[..] == was[block.index := head];
        head := block.index;
        free := [block.index] + free;
      }
    }
  }
}
