/**
 The bounded dictionary of aircraft over the fixed pool: insertion evicts the oldest entry when it is full,
 Update prunes stale entries, counts the rest and keeps track of the lowest one.
 */
module AircraftDictionary {
  import opened Arith
  import opened FixedPool
  import opened Wrappers
  import Queues
  import Reporting

  const MAX_NUM_AIRCRAFT: nat := 200
  const INT32_MAX: int := 0x7FFF_FFFF

  // ----- Identifiers -----

  datatype Kind = ModeS | UAT

  function TypeNumber(kind: Kind): nat { if kind.ModeS? then 0 else 1 }

  /** ICAOToUID: the low 28 bits of the address, with the type above them. */
  function UidOf(icao: uint32, kind: Kind): uint32 {
    icao % 0x1000_0000 + 0x1000_0000 * TypeNumber(kind)
  }

  function UidType(uid: uint32): nat { uid / 0x1000_0000 }

  function UidAddress(uid: uint32): uint32 { uid % 0x1000_0000 }

  /** An identifier gives back its type and the low 28 bits of its address, and no two aircraft of different
      types or addresses share one. */
  lemma UidRoundTrip(icao: uint32, kind: Kind, other: uint32, otherKind: Kind)
    ensures UidType(UidOf(icao, kind)) == TypeNumber(kind) && UidAddress(UidOf(icao, kind)) == icao % 0x1000_0000
    ensures UidOf(icao, kind) == UidOf(other, otherKind)
        <==> kind == otherKind && icao % 0x1000_0000 == other % 0x1000_0000
  {
  }

  // ----- Entries -----

  datatype Entry = Entry(kind: Kind, icao: uint32, lastMessage: uint32, gnssValid: bool, airborne: bool,
                         altitude: int32)

  function Uid(e: Entry): uint32 { UidOf(e.icao, e.kind) }

  function NewEntry(uid: uint32, kind: Kind): Entry { Entry(kind, UidAddress(uid), 0, false, false, 0) }

  predicate Stale(e: Entry, now: uint32, interval: uint32) { U32(now - e.lastMessage) > interval }

  /** The entry was last heard age milliseconds ago on a clock that wraps. */
  predicate HeardAgo(e: Entry, now: uint32, age: uint32) { now == U32(e.lastMessage + age) }

  /** Stale is what was last heard longer ago than the interval, also across the wrap of the clock. */
  lemma StaleExactly(e: Entry, now: uint32, age: uint32, interval: uint32)
    requires HeardAgo(e, now, age)
    ensures Stale(e, now, interval) <==> age > interval
  {
  }

  /** An entry whose GNSS altitude can stand for the receiver's: Mode S aircraft only while airborne. */
  predicate Usable(e: Entry) { e.gnssValid && (e.kind.ModeS? ==> e.airborne) }

  lemma NewEntryUid(uid: uint32, kind: Kind)
    ensures Uid(NewEntry(uid, kind)) == uid <==> UidType(uid) == TypeNumber(kind)
  {
  }

  // ----- The lowest aircraft -----

  function AltitudeOf(lowest: Option<Entry>): int { if lowest.Some? then lowest.value.altitude else INT32_MAX }

  /** What Update does to the pointer at one entry. */
  function StepLowest(lowest: Option<Entry>, e: Entry, now: uint32, interval: uint32): Option<Entry> {
    if Stale(e, now, interval) then if lowest == Some(e) then None else lowest
    else if Usable(e) && e.altitude < AltitudeOf(lowest) then Some(e)
    else lowest
  }

  function FoldLowest(es: seq<Entry>, before: Option<Entry>, now: uint32, interval: uint32): Option<Entry>
    decreases |es|
  {
    if es == [] then before
    else StepLowest(FoldLowest(es[..|es| - 1], before, now, interval), es[|es| - 1], now, interval)
  }

  /** An entry that outlives an Update and whose altitude can be used. */
  predicate Survivor(e: Entry, now: uint32, interval: uint32) { !Stale(e, now, interval) && Usable(e) }

  predicate DistinctEntries(es: seq<Entry>) { forall i, j :: 0 <= i < j < |es| ==> es[i] != es[j] }

  /** No survivor with a usable altitude is lower; a null pointer counts as the highest altitude there is. */
  predicate IsLowest(es: seq<Entry>, lowest: Option<Entry>, now: uint32, interval: uint32) {
    forall e :: e in es && Survivor(e, now, interval) ==> AltitudeOf(lowest) <= e.altitude
  }

  /** A pointer that was null or at an entry ends null or at a survivor; where it moves to, the altitude can be used. */
  lemma {:induction false} FoldIsLive(es: seq<Entry>, before: Option<Entry>, now: uint32, interval: uint32)
    requires before.Some? && before.value !in es ==> !Stale(before.value, now, interval)
    ensures var r := FoldLowest(es, before, now, interval);
            r.Some? ==> !Stale(r.value, now, interval)
                        && (r == before || (r.value in es && Survivor(r.value, now, interval)))
    decreases |es|
  {
    if es != [] {
      var k := |es| - 1;
      if before.Some? && before.value !in es[..k] && Stale(before.value, now, interval) {
        FoldWithStale(es[..k], before.value, now, interval);
      } else {
        FoldIsLive(es[..k], before, now, interval);
      }
    }
  }

  /** While a stale pointer has not been met, the fold keeps it or replaces it by a lower survivor. */
  lemma {:induction false} FoldWithStale(es: seq<Entry>, stale: Entry, now: uint32, interval: uint32)
    requires stale !in es
    ensures var r := FoldLowest(es, Some(stale), now, interval);
            r.Some? && (r.value == stale
                        || (r.value in es && Survivor(r.value, now, interval) && r.value.altitude < stale.altitude))
    decreases |es|
  {
    if es != [] {
      var k := |es| - 1;
      FoldWithStale(es[..k], stale, now, interval);
    }
  }

  /** The fold finds the lowest survivor when the pointer it starts from is null or survives. */
  lemma {:induction false} FoldFindsLowest(es: seq<Entry>, before: Option<Entry>, now: uint32, interval: uint32)
    requires before.Some? ==> !Stale(before.value, now, interval)
    ensures var r := FoldLowest(es, before, now, interval);
            IsLowest(es, r, now, interval) && (r.Some? ==> !Stale(r.value, now, interval))
            && AltitudeOf(r) <= AltitudeOf(before)
    decreases |es|
  {
    if es != [] {
      var k := |es| - 1;
      FoldFindsLowest(es[..k], before, now, interval);
    }
  }

  /** From a stale pointer the fold may miss survivors, but only such as are no lower than it was. */
  lemma {:induction false} FoldNearlyLowest(es: seq<Entry>, stale: Entry, now: uint32, interval: uint32)
    requires Stale(stale, now, interval)
    ensures var r := FoldLowest(es, Some(stale), now, interval);
            forall e :: e in es && Survivor(e, now, interval) ==>
              AltitudeOf(r) <= e.altitude || e.altitude >= stale.altitude
    ensures var r := FoldLowest(es, Some(stale), now, interval);
            r.Some? ==> r.value == stale || !Stale(r.value, now, interval)
    decreases |es|
  {
    if es != [] {
      var k := |es| - 1;
      FoldNearlyLowest(es[..k], stale, now, interval);
    }
  }

  /** Whether the pointer ends at the lowest survivor in every order of iteration can be read off before the call:
      it does exactly when the previous lowest is not pruned, or some survivor is lower than it, or no survivor
      has a usable altitude below the maximum. */
  lemma LowestExactly(es: seq<Entry>, before: Option<Entry>, now: uint32, interval: uint32)
    requires DistinctEntries(es) && (before.Some? ==> before.value in es)
    ensures (forall order: seq<Entry> :: multiset(order) == multiset(es) ==>
               IsLowest(es, FoldLowest(order, before, now, interval), now, interval))
        <==> || before.None? || !Stale(before.value, now, interval)
             || (exists e :: e in es && Survivor(e, now, interval) && e.altitude < before.value.altitude)
             || (forall e :: e in es && Survivor(e, now, interval) ==> e.altitude == INT32_MAX)
  {
    if before.None? || !Stale(before.value, now, interval) {
      forall order: seq<Entry> | multiset(order) == multiset(es)
        ensures IsLowest(es, FoldLowest(order, before, now, interval), now, interval)
      {
        FoldFindsLowest(order, before, now, interval);
        SameMembers(order, es);
      }
    } else if exists e :: e in es && Survivor(e, now, interval) && e.altitude < before.value.altitude {
      var u :| u in es && Survivor(u, now, interval) && u.altitude < before.value.altitude;
      forall order: seq<Entry> | multiset(order) == multiset(es)
        ensures IsLowest(es, FoldLowest(order, before, now, interval), now, interval)
      {
        FoldNearlyLowest(order, before.value, now, interval);
        SameMembers(order, es);
        assert u in order;
      }
    } else if exists e :: e in es && Survivor(e, now, interval) && e.altitude != INT32_MAX {
      var u :| u in es && Survivor(u, now, interval) && u.altitude != INT32_MAX;
      var order := PrunedLast(es, before.value, now, interval);
      assert !IsLowest(es, FoldLowest(order, before, now, interval), now, interval);
    } else {
      forall order: seq<Entry>
        ensures IsLowest(es, FoldLowest(order, before, now, interval), now, interval)
      {
        AltitudeBound(order, before, now, interval);
      }
    }
  }

  lemma AltitudeBound(es: seq<Entry>, before: Option<Entry>, now: uint32, interval: uint32)
    ensures AltitudeOf(FoldLowest(es, before, now, interval)) <= INT32_MAX
  {
  }

  lemma SameMembers(a: seq<Entry>, b: seq<Entry>)
    requires multiset(a) == multiset(b)
    ensures forall e :: e in a <==> e in b
  {
    forall e
      ensures e in a <==> e in b
    {
      assert e in a <==> e in multiset(a);
      assert e in b <==> e in multiset(b);
    }
  }

  /** Pruning the previous lowest at the end of the iteration leaves a null pointer, unless a lower survivor took
      over before. */
  lemma PrunedLast(es: seq<Entry>, stale: Entry, now: uint32, interval: uint32) returns (order: seq<Entry>)
    requires stale in es && Stale(stale, now, interval)
    requires DistinctEntries(es)
    requires forall e :: e in es && Survivor(e, now, interval) ==> e.altitude >= stale.altitude
    ensures multiset(order) == multiset(es)
    ensures FoldLowest(order, Some(stale), now, interval) == None
  {
    hide Stale, Usable;
    var i :| 0 <= i < |es| && es[i] == stale;
    var others := es[..i] + es[i + 1..];
    order := others + [stale];
    MovedLast(es, i);
    FoldWithStale(others, stale, now, interval);
    assert order[..|order| - 1] == others;
  }

  lemma MovedLast(es: seq<Entry>, i: nat)
    requires DistinctEntries(es) && i < |es|
    ensures var others := es[..i] + es[i + 1..];
            && multiset(others + [es[i]]) == multiset(es) && es[i] !in others
            && forall e :: e in others ==> e in es
  {
    SameBag(es[..i], es[i], es[i + 1..]);
    assert es == es[..i] + [es[i]] + es[i + 1..];
    var others := es[..i] + es[i + 1..];
    forall k | 0 <= k < |others|
      ensures others[k] != es[i] && others[k] in es
    {
      assert others[k] == es[if k < i then k else k + 1];
    }
  }

  lemma SameBag(a: seq<Entry>, e: Entry, b: seq<Entry>)
    ensures multiset(a + b + [e]) == multiset(a + [e] + b)
  {
  }

  // ----- The dictionary -----

  /** An iteration order of a hash map: each key once. */
  predicate Enumerates(order: seq<uint32>, keys: set<uint32>) {
    && (forall i, j :: 0 <= i < j < |order| ==> order[i] != order[j])
    && (forall i :: 0 <= i < |order| ==> order[i] in keys)
    && (forall uid :: uid in keys ==> uid in order)
  }

  lemma {:induction false} EnumerationLength(order: seq<uint32>, keys: set<uint32>)
    requires Enumerates(order, keys)
    ensures |order| == |keys|
    decreases |order|
  {
    if order == [] {
      assert keys == {};
    } else {
      var k := |order| - 1;
      var rest := keys - {order[k]};
      assert forall uid :: uid in rest ==> uid in order[..k];
      EnumerationLength(order[..k], rest);
    }
  }

  /** The map without one key. */
  function Without<K, V>(m: map<K, V>, k: K): map<K, V> { m - {k} }

  /** A dictionary within its capacity gives a reporting snapshot that is not cut short. */
  lemma SnapshotNeverTruncates(order: seq<uint32>, keys: set<uint32>)
    requires Enumerates(order, keys) && |keys| <= MAX_NUM_AIRCRAFT
    ensures Queues.FirstN(order, Reporting.MAX_REPORT_UIDS) == order
  {
    EnumerationLength(order, keys);
  }

  lemma MapWithout<V>(m: map<uint32, V>, k: uint32)
    requires k in m
    ensures |Without(m, k)| == |m| - 1
  {
    assert m == (m - {k})[k := m[k]];
  }

  lemma KeysWithout<V, W>(a: map<uint32, V>, b: map<uint32, W>, k: uint32)
    requires a.Keys == b.Keys
    ensures Without(a, k).Keys == Without(b, k).Keys
  {
  }

  /** Blocks and keys correspond one to one, and the blocks without an owner are the free ones. */
  ghost predicate Partition(blockOf: map<uint32, nat>, owner: map<nat, uint32>, free: seq<nat>) {
    && (forall uid :: uid in blockOf ==> blockOf[uid] in owner && owner[blockOf[uid]] == uid)
    && (forall b :: b in owner ==> b < NUM_BLOCKS && owner[b] in blockOf && blockOf[owner[b]] == b)
    && (forall b :: 0 <= b < NUM_BLOCKS ==> (b in owner <==> b !in free))
  }

  /** A node goes from the free list to a key that has none. */
  lemma PartitionGrows(blockOf: map<uint32, nat>, owner: map<nat, uint32>, free: seq<nat>, uid: uint32)
    requires Partition(blockOf, owner, free) && free != [] && Distinct(free) && uid !in blockOf
    requires free[0] < NUM_BLOCKS
    ensures free[0] !in owner
    ensures Partition(blockOf[uid := free[0]], owner[free[0] := uid], free[1..])
  {
    forall b | 0 <= b < NUM_BLOCKS
      ensures b in owner[free[0] := uid] <==> b !in free[1..]
    {
      assert b in free <==> b == free[0] || b in free[1..];
    }
  }

  /** A key gives its node back. */
  lemma PartitionShrinks(blockOf: map<uint32, nat>, owner: map<nat, uint32>, free: seq<nat>, uid: uint32)
    requires Partition(blockOf, owner, free) && uid in blockOf
    ensures blockOf[uid] < NUM_BLOCKS && blockOf[uid] !in free
    ensures Partition(Without(blockOf, uid), Without(owner, blockOf[uid]), [blockOf[uid]] + free)
  {
  }

  /** Every key is its entry's own identifier. */
  predicate Keyed(dict: map<uint32, Entry>) { forall uid :: uid in dict ==> Uid(dict[uid]) == uid }

  /** An identifier determines the type of the entry under it, and an entry keeps its identifier when it keeps
      type and address. */
  lemma KeyedKind(dict: map<uint32, Entry>, e: Entry)
    requires Keyed(dict)
    ensures Uid(e) in dict ==> dict[Uid(e)].kind == e.kind
  {
    if Uid(e) in dict {
      UidRoundTrip(dict[Uid(e)].icao, dict[Uid(e)].kind, e.icao, e.kind);
    }
  }

  lemma UidOfEntry(e: Entry)
    ensures UidType(Uid(e)) == TypeNumber(e.kind)
  {
    UidRoundTrip(e.icao, e.kind, e.icao, e.kind);
  }

  lemma KeyedAddress(dict: map<uint32, Entry>, e: Entry)
    requires Keyed(dict) && Uid(e) in dict && dict[Uid(e)].kind == e.kind
    ensures Uid(e.(icao := dict[Uid(e)].icao)) == Uid(e)
  {
  }

  lemma KeyedAfter(dict: map<uint32, Entry>, e: Entry, gone: uint32)
    requires Keyed(dict)
    ensures Keyed(dict[Uid(e) := e]) && Keyed(Without(dict, gone))
  {
    hide Uid;
  }

  // ----- One pass of Update -----

  /** The entries in the order in which the map is walked. */
  function EntriesIn(order: seq<uint32>, dict: map<uint32, Entry>): (es: seq<Entry>)
    requires forall i :: 0 <= i < |order| ==> order[i] in dict
    ensures |es| == |order|
  {
    seq(|order|, i requires 0 <= i < |order| => dict[order[i]])
  }

  /** The survivors of one kind. */
  function CountKind(es: seq<Entry>, kind: Kind, now: uint32, interval: uint32): nat
    decreases |es|
  {
    if es == [] then 0
    else
      var e := es[|es| - 1];
      CountKind(es[..|es| - 1], kind, now, interval) + (if e.kind == kind && !Stale(e, now, interval) then 1 else 0)
  }

  /** The entry that a pointer is at. */
  function Pointed(lowest: Option<uint32>, dict: map<uint32, Entry>): Option<Entry> {
    if lowest.Some? && lowest.value in dict then Some(dict[lowest.value]) else None
  }

  /** After the first i keys of the order, dict is was without the stale entries among them. */
  ghost predicate PrunedUpTo(dict: map<uint32, Entry>, was: map<uint32, Entry>, order: seq<uint32>, i: nat, now: uint32,
                             interval: uint32)
  {
    && (forall uid :: uid in dict ==> uid in was && dict[uid] == was[uid])
    && forall j :: 0 <= j < |order| && order[j] in was ==>
         (order[j] in dict <==> j >= i || !Stale(was[order[j]], now, interval))
  }

  lemma PruneStep(dict: map<uint32, Entry>, was: map<uint32, Entry>, order: seq<uint32>, i: nat, now: uint32,
                  interval: uint32)
    requires Enumerates(order, was.Keys) && PrunedUpTo(dict, was, order, i, now, interval) && i < |order|
    ensures order[i] in dict && forall uid :: uid in dict ==> uid in was && dict[uid] == was[uid]
    ensures PrunedUpTo(if Stale(was[order[i]], now, interval) then Without(dict, order[i]) else dict, was, order, i + 1,
                       now, interval)
  {
    hide Stale;
  }

  lemma PrunedAll(dict: map<uint32, Entry>, was: map<uint32, Entry>, order: seq<uint32>, now: uint32, interval: uint32)
    requires Enumerates(order, was.Keys) && PrunedUpTo(dict, was, order, |order|, now, interval)
    ensures forall uid :: uid in dict <==> uid in was && !Stale(was[uid], now, interval)
    ensures forall uid :: uid in dict ==> dict[uid] == was[uid]
  {
    hide Stale;
    forall uid
      ensures uid in dict <==> uid in was && !Stale(was[uid], now, interval)
    {
      if uid in was {
        assert uid in order;
      }
    }
  }

  lemma AgeDecides(dict: map<uint32, Entry>, was: map<uint32, Entry>, now: uint32, interval: uint32)
    requires forall uid :: uid in dict <==> uid in was && !Stale(was[uid], now, interval)
    ensures forall uid, age: uint32 :: uid in was && HeardAgo(was[uid], now, age) ==> (uid in dict <==> age <= interval)
  {
    hide Stale, HeardAgo;
    forall uid, age: uint32 | uid in was && HeardAgo(was[uid], now, age)
      ensures uid in dict <==> age <= interval
    {
      StaleExactly(was[uid], now, age, interval);
    }
  }

  lemma UsableIs(dict: map<uint32, Entry>)
    ensures forall uid :: uid in dict ==>
              (Usable(dict[uid]) <==> dict[uid].gnssValid && (dict[uid].kind == UAT || dict[uid].airborne))
  {
  }

  /** The keys of the survivors of one kind among the first i of the walk. */
  function KindKeys(was: map<uint32, Entry>, order: seq<uint32>, i: nat, kind: Kind, now: uint32, interval: uint32):
    set<uint32>
    requires i <= |order| && forall j :: 0 <= j < |order| ==> order[j] in was
  {
    set j | 0 <= j < i && was[order[j]].kind == kind && !Stale(was[order[j]], now, interval) :: order[j]
  }

  lemma KindKeysStep(was: map<uint32, Entry>, order: seq<uint32>, i: nat, kind: Kind, now: uint32, interval: uint32)
    requires i < |order| && Enumerates(order, was.Keys)
    ensures forall j :: 0 <= j < |order| ==> order[j] in was
    ensures order[i] !in KindKeys(was, order, i, kind, now, interval)
    ensures KindKeys(was, order, i + 1, kind, now, interval)
         == KindKeys(was, order, i, kind, now, interval)
            + if was[order[i]].kind == kind && !Stale(was[order[i]], now, interval) then {order[i]} else {}
  {
    hide Stale;
  }

  lemma {:induction false} CountIsSize(was: map<uint32, Entry>, order: seq<uint32>, i: nat, kind: Kind, now: uint32,
                                       interval: uint32)
    requires Enumerates(order, was.Keys) && i <= |order|
    ensures forall j :: 0 <= j < |order| ==> order[j] in was
    ensures CountKind(EntriesIn(order, was)[..i], kind, now, interval)
         == |KindKeys(was, order, i, kind, now, interval)|
    decreases i
  {
    hide Stale, KindKeys, CountKind, Enumerates;
    EntriesFound(order, was);
    if i > 0 {
      CountIsSize(was, order, i - 1, kind, now, interval);
      PassStep(EntriesIn(order, was), i - 1, None, now, interval);
      KindKeysStep(was, order, i - 1, kind, now, interval);
    } else {
      NoneCounted(was, order, kind, now, interval);
      assert EntriesIn(order, was)[..0] == [];
    }
  }

  lemma NoneCounted(was: map<uint32, Entry>, order: seq<uint32>, kind: Kind, now: uint32, interval: uint32)
    requires forall j :: 0 <= j < |order| ==> order[j] in was
    ensures KindKeys(was, order, 0, kind, now, interval) == {} && CountKind([], kind, now, interval) == 0
  {
  }

  /** The count of a kind is the number of entries of that kind that are left. */
  lemma CountsKind(dict: map<uint32, Entry>, was: map<uint32, Entry>, order: seq<uint32>, kind: Kind, now: uint32,
                   interval: uint32)
    requires Enumerates(order, was.Keys) && PrunedUpTo(dict, was, order, |order|, now, interval)
    ensures forall j :: 0 <= j < |order| ==> order[j] in was
    ensures CountKind(EntriesIn(order, was), kind, now, interval) == |set uid | uid in dict && dict[uid].kind == kind|
  {
    hide Stale, CountKind;
    PrunedAll(dict, was, order, now, interval);
    CountIsSize(was, order, |order|, kind, now, interval);
    var es := EntriesIn(order, was);
    assert es[..|order|] == es;
    var left := set uid | uid in dict && dict[uid].kind == kind;
    forall uid
      ensures uid in left <==> uid in KindKeys(was, order, |order|, kind, now, interval)
    {
      if uid in left {
        assert uid in order;
        var j :| 0 <= j < |order| && order[j] == uid;
      }
    }
    assert left == KindKeys(was, order, |order|, kind, now, interval);
  }

  /** When the previous lowest is null or survives, the pass ends at the lowest survivor with a usable altitude. */
  lemma PassFindsLowest(dict: map<uint32, Entry>, was: map<uint32, Entry>, order: seq<uint32>, before: Option<Entry>,
                        lowest: Option<uint32>, now: uint32, interval: uint32)
    requires Enumerates(order, was.Keys) && PrunedUpTo(dict, was, order, |order|, now, interval)
    requires before.Some? ==> !Stale(before.value, now, interval)
    requires lowest.Some? ==> lowest.value in dict
    requires Pointed(lowest, was) == FoldLowest(EntriesIn(order, was), before, now, interval)
    ensures forall uid :: uid in dict && Usable(dict[uid]) ==> AltitudeOf(Pointed(lowest, dict)) <= dict[uid].altitude
  {
    hide FoldLowest, Usable, Stale;
    PrunedAll(dict, was, order, now, interval);
    var es := EntriesIn(order, was);
    FoldFindsLowest(es, before, now, interval);
    forall uid | uid in dict && Usable(dict[uid])
      ensures AltitudeOf(Pointed(lowest, dict)) <= dict[uid].altitude
    {
      assert uid in order;
      var i :| 0 <= i < |order| && order[i] == uid;
      assert es[i] == dict[uid] && Survivor(es[i], now, interval);
    }
  }

  /** One more entry for the fold and the counts. */
  lemma PassStep(es: seq<Entry>, i: nat, before: Option<Entry>, now: uint32, interval: uint32)
    requires i < |es|
    ensures FoldLowest(es[..i + 1], before, now, interval)
         == StepLowest(FoldLowest(es[..i], before, now, interval), es[i], now, interval)
    ensures forall kind :: (CountKind(es[..i + 1], kind, now, interval) == CountKind(es[..i], kind, now, interval)
                            + (if es[i].kind == kind && !Stale(es[i], now, interval) then 1 else 0))
  {
    assert es[..i + 1][..i] == es[..i];
  }

  /** What the comparison of pointers and altitudes does to the key that the pointer is at. */
  function NextLowest(lowest: Option<uint32>, uid: uint32, dict: map<uint32, Entry>, now: uint32, interval: uint32):
    Option<uint32>
    requires uid in dict && (lowest.Some? ==> lowest.value in dict)
  {
    if Stale(dict[uid], now, interval) then if lowest == Some(uid) then None else lowest
    else if Usable(dict[uid]) && dict[uid].altitude < AltitudeOf(Pointed(lowest, dict)) then Some(uid)
    else lowest
  }

  lemma PointerStep(lowest: Option<uint32>, uid: uint32, dict: map<uint32, Entry>, now: uint32, interval: uint32)
    requires Keyed(dict) && uid in dict && (lowest.Some? ==> lowest.value in dict)
    ensures Pointed(NextLowest(lowest, uid, dict, now, interval), dict)
         == StepLowest(Pointed(lowest, dict), dict[uid], now, interval)
  {
    hide Uid, Stale, Usable;
    if lowest.Some? && dict[lowest.value] == dict[uid] {
      assert Uid(dict[lowest.value]) == Uid(dict[uid]);
    }
  }

  lemma PointedIs(lowest: Option<uint32>, dict: map<uint32, Entry>)
    requires lowest.Some? ==> lowest.value in dict
    ensures Pointed(lowest, dict) == if lowest.Some? then Some(dict[lowest.value]) else None
  {
  }

  lemma PointerAgrees(lowest: Option<uint32>, uid: uint32, dict: map<uint32, Entry>, was: map<uint32, Entry>,
                      now: uint32, interval: uint32)
    requires Keyed(was) && uid in dict && (lowest.Some? ==> lowest.value in dict)
    requires forall k :: k in dict ==> k in was && dict[k] == was[k]
    ensures Pointed(NextLowest(lowest, uid, dict, now, interval), was)
         == StepLowest(Pointed(lowest, was), was[uid], now, interval)
  {
    hide Stale, Usable, Keyed, StepLowest;
    PointerStep(lowest, uid, was, now, interval);
  }

  /** The walk over a keyed dictionary meets each of its entries once, and nothing else. */
  lemma KeyedDistinct(order: seq<uint32>, dict: map<uint32, Entry>)
    requires Keyed(dict) && Enumerates(order, dict.Keys)
    ensures DistinctEntries(EntriesIn(order, dict))
    ensures forall e :: e in EntriesIn(order, dict) <==> exists uid :: uid in dict && dict[uid] == e
  {
    hide Uid;
    var es := EntriesIn(order, dict);
    forall i, j | 0 <= i < j < |es|
      ensures es[i] != es[j]
    {
      assert Uid(es[i]) == order[i] && Uid(es[j]) == order[j];
    }
    forall e
      ensures e in es <==> exists uid :: uid in dict && dict[uid] == e
    {
      if uid :| uid in dict && dict[uid] == e {
        assert uid in order;
        var i :| 0 <= i < |order| && order[i] == uid;
        assert es[i] == e;
      }
    }
  }

  lemma EntriesFound(order: seq<uint32>, dict: map<uint32, Entry>)
    requires Enumerates(order, dict.Keys)
    ensures (forall i :: 0 <= i < |order| ==> order[i] in dict) && |order| == |dict|
  {
    EnumerationLength(order, dict.Keys);
  }

  lemma PassStart(dict: map<uint32, Entry>, es: seq<Entry>, order: seq<uint32>, before: Option<Entry>, now: uint32,
                  interval: uint32)
    ensures FoldLowest(es[..0], before, now, interval) == before
    ensures forall kind :: CountKind(es[..0], kind, now, interval) == 0
    ensures PrunedUpTo(dict, dict, order, 0, now, interval)
  {
  }

  lemma EntryAt(order: seq<uint32>, dict: map<uint32, Entry>, i: nat)
    requires i < |order| && forall j :: 0 <= j < |order| ==> order[j] in dict
    ensures EntriesIn(order, dict)[i] == dict[order[i]]
  {
  }

  lemma KeysLeft(dict: map<uint32, Entry>, gone: uint32)
    ensures forall uid :: uid in Without(dict, gone) <==> uid in dict && uid != gone
    ensures gone !in dict ==> Without(dict, gone) == dict
  {
  }

  lemma FreeIsDistinct(pool: FixedPoolResource)
    requires pool.Valid()
    ensures Distinct(pool.free) && (pool.free != [] ==> pool.free[0] < NUM_BLOCKS)
  {
  }

  // ----- Runs of the dictionary -----

  datatype Op = Message(e: Entry) | Insertion(e: Entry) | Tick(now: uint32)

  /** The entries, and the key of the one that lowest_aircraft_entry points to. */
  datatype Table = Table(dict: map<uint32, Entry>, lowest: Option<uint32>)

  /** Within the capacity, every key its entry's own identifier, the pointer null or live. */
  ghost predicate Sound(t: Table) {
    |t.dict| <= MAX_NUM_AIRCRAFT && Keyed(t.dict) && (t.lowest.Some? ==> t.lowest.value in t.dict)
  }

  ghost predicate Oldest(dict: map<uint32, Entry>, uid: uint32) {
    uid in dict && forall k :: k in dict ==> dict[uid].lastMessage <= dict[k].lastMessage
  }

  /** Room is made by dropping an oldest entry, and the pointer with it if it was there. */
  ghost predicate Evicts(before: Table, gone: uint32, after: Table) {
    && Oldest(before.dict, gone) && after.dict == Without(before.dict, gone)
    && after.lowest == if before.lowest == Some(gone) then None else before.lowest
  }

  /** An entry is stored under its identifier; only a new one in a full dictionary costs another its place. */
  ghost predicate Stores(before: Table, e: Entry, after: Table) {
    if Uid(e) in before.dict || |before.dict| < MAX_NUM_AIRCRAFT then
      after == Table(before.dict[Uid(e) := e], before.lowest)
    else
      exists gone, room :: Evicts(before, gone, room) && after == Table(room.dict[Uid(e) := e], room.lowest)
  }

  /** A message gives the entry its fields; the address is the one under which it was created. */
  function Merged(dict: map<uint32, Entry>, e: Entry): Entry {
    e.(icao := if Uid(e) in dict then dict[Uid(e)].icao else UidAddress(Uid(e)))
  }

  /** Exactly the stale entries go, the others keep their values, and the pointer moves as the comparison says. */
  ghost predicate Prunes(before: Table, now: uint32, interval: uint32, order: seq<uint32>, after: Table) {
    && (forall uid :: uid in after.dict <==> uid in before.dict && !Stale(before.dict[uid], now, interval))
    && (forall uid :: uid in after.dict ==> after.dict[uid] == before.dict[uid])
    && (forall i :: 0 <= i < |order| ==> order[i] in before.dict)
    && (after.lowest.Some? ==> after.lowest.value in before.dict)
    && Pointed(after.lowest, before.dict)
       == FoldLowest(EntriesIn(order, before.dict), Pointed(before.lowest, before.dict), now, interval)
  }

  ghost predicate Step(before: Table, op: Op, interval: uint32, order: seq<uint32>, after: Table) {
    match op
    case Message(e) => Stores(before, Merged(before.dict, e), after)
    case Insertion(e) => Stores(before, e, after)
    case Tick(now) => Prunes(before, now, interval, order, after)
  }

  /** A table before the first operation and one after each, the map being walked in any order at each of them. */
  ghost predicate Trace(tables: seq<Table>, ops: seq<Op>, interval: uint32,
                        iteration: (nat, set<uint32>) -> seq<uint32>)
  {
    && |tables| == |ops| + 1
    && forall i :: 0 <= i < |ops| ==>
         Step(tables[i], ops[i], interval, iteration(i, tables[i].dict.Keys), tables[i + 1])
  }

  ghost predicate Iterates(iteration: (nat, set<uint32>) -> seq<uint32>) {
    forall n: nat, keys: set<uint32> :: Enumerates(iteration(n, keys), keys)
  }

  lemma MergedUid(dict: map<uint32, Entry>, e: Entry)
    requires Keyed(dict)
    ensures Uid(Merged(dict, e)) == Uid(e)
  {
    if Uid(e) in dict {
      KeyedKind(dict, e);
      KeyedAddress(dict, e);
    } else {
      UidOfEntry(e);
      NewEntryUid(Uid(e), e.kind);
    }
  }

  lemma MapWith<V>(m: map<uint32, V>, k: uint32, v: V)
    ensures |m[k := v]| == |m| + if k in m then 0 else 1
  {
    if k in m {
      assert m[k := v].Keys == m.Keys;
    } else {
      assert m[k := v].Keys == m.Keys + {k};
    }
  }

  /** After a message the aircraft's entry is what the message says, under the low 28 bits of its address. */
  lemma MessageIsStored(before: Table, e: Entry, interval: uint32, order: seq<uint32>, after: Table)
    requires Sound(before) && Step(before, Message(e), interval, order, after)
    ensures Uid(e) in after.dict && after.dict[Uid(e)] == e.(icao := after.dict[Uid(e)].icao)
    ensures after.dict[Uid(e)].icao % 0x1000_0000 == e.icao % 0x1000_0000
  {
    hide Keyed, Without, Oldest;
    MergedUid(before.dict, e);
    UidRoundTrip(e.icao, e.kind, Merged(before.dict, e).icao, e.kind);
  }

  lemma StoresIsSound(before: Table, e: Entry, after: Table)
    requires Sound(before) && Stores(before, e, after)
    ensures Sound(after)
  {
    hide Uid, Without;
    if Uid(e) in before.dict || |before.dict| < MAX_NUM_AIRCRAFT {
      MapWith(before.dict, Uid(e), e);
      KeyedAfter(before.dict, e, 0);
    } else {
      var gone, room :| Evicts(before, gone, room) && after == Table(room.dict[Uid(e) := e], room.lowest);
      MapWithout(before.dict, gone);
      KeysLeft(before.dict, gone);
      KeyedAfter(before.dict, e, gone);
      KeyedAfter(room.dict, e, 0);
      MapWith(room.dict, Uid(e), e);
    }
  }

  /** The pointer that the comparison leaves is at a survivor: two keys never share an entry. */
  lemma PrunesIsSound(before: Table, now: uint32, interval: uint32, order: seq<uint32>, after: Table)
    requires Sound(before) && Enumerates(order, before.dict.Keys) && Prunes(before, now, interval, order, after)
    ensures Sound(after)
  {
    hide Uid, Stale, FoldLowest;
    var es, p := EntriesIn(order, before.dict), Pointed(before.lowest, before.dict);
    KeyedDistinct(order, before.dict);
    FoldIsLive(es, p, now, interval);
    assert after.dict.Keys <= before.dict.Keys;
    SubsetSize(after.dict.Keys, before.dict.Keys);
  }

  lemma SubsetSize(a: set<uint32>, b: set<uint32>)
    requires a <= b
    ensures |a| <= |b|
  {
    assert b == a + (b - a);
  }

  lemma StepIsSound(before: Table, op: Op, interval: uint32, order: seq<uint32>, after: Table)
    requires Sound(before) && Enumerates(order, before.dict.Keys) && Step(before, op, interval, order, after)
    ensures Sound(after)
  {
    hide Sound, Enumerates, Stores, Prunes, Merged;
    match op
    case Message(e) => StoresIsSound(before, Merged(before.dict, e), after);
    case Insertion(e) => StoresIsSound(before, e, after);
    case Tick(now) => PrunesIsSound(before, now, interval, order, after);
  }

  /** On every run, in whatever orders the map is walked, every table is within the capacity and keyed, and its
      pointer is null or live. */
  lemma {:induction false} TraceIsSound(tables: seq<Table>, ops: seq<Op>, interval: uint32,
                                        iteration: (nat, set<uint32>) -> seq<uint32>, n: nat)
    requires Trace(tables, ops, interval, iteration) && Iterates(iteration) && Sound(tables[0]) && n <= |ops|
    ensures Sound(tables[n])
  {
    hide Sound, Step, Enumerates;
    if n > 0 {
      TraceIsSound(tables, ops, interval, iteration, n - 1);
      StepIsSound(tables[n - 1], ops[n - 1], interval, iteration(n - 1, tables[n - 1].dict.Keys), tables[n]);
    }
  }

  /** Creating an entry and then giving it its fields is storing the merged entry. */
  lemma CreatedThenFilled(before: Table, e: Entry, between: Table, after: Table)
    requires Keyed(before.dict) && Uid(e) in between.dict
    requires Uid(e) in before.dict ==> between == before
    requires Uid(e) !in before.dict ==> Stores(before, NewEntry(Uid(e), e.kind), between)
    requires after == between.(dict := between.dict[Uid(e) := e.(icao := between.dict[Uid(e)].icao)])
    ensures Stores(before, Merged(before.dict, e), after)
  {
    hide Uid, Keyed, Without, Oldest;
    MergedUid(before.dict, e);
    if Uid(e) !in before.dict {
      UidOfEntry(e);
      NewEntryUid(Uid(e), e.kind);
      var uid, created := Uid(e), NewEntry(Uid(e), e.kind);
      if |before.dict| < MAX_NUM_AIRCRAFT {
        assert after.dict == before.dict[uid := Merged(before.dict, e)];
      } else {
        var gone, room :| Evicts(before, gone, room) && between == Table(room.dict[uid := created], room.lowest);
        assert after.dict == room.dict[uid := Merged(before.dict, e)];
      }
    }
  }

  /** The aircraft that an operation is about. */
  predicate About(op: Op, uid: uint32) { !op.Tick? && Uid(op.e) == uid }

  /** The only ways out: stale at an update, or an oldest entry when a new aircraft finds the dictionary full. */
  ghost predicate Leaves(t: Table, uid: uint32, op: Op, interval: uint32) {
    && uid in t.dict
    && if op.Tick? then Stale(t.dict[uid], op.now, interval)
       else Uid(op.e) !in t.dict && |t.dict| >= MAX_NUM_AIRCRAFT && Oldest(t.dict, uid)
  }

  /** An operation about another aircraft keeps the entry as it is or lets it leave, and does not bring it back. */
  lemma StepElsewhere(before: Table, op: Op, interval: uint32, order: seq<uint32>, after: Table, uid: uint32)
    requires Sound(before) && Step(before, op, interval, order, after) && !About(op, uid)
    ensures uid in after.dict ==> uid in before.dict && after.dict[uid] == before.dict[uid]
    ensures uid in before.dict && uid !in after.dict ==> Leaves(before, uid, op, interval)
  {
    hide Uid, Stale, FoldLowest, Merged, Keyed;
    if !op.Tick? {
      MergedUid(before.dict, op.e);
    }
  }

  /** As long as nothing is heard of an aircraft its entry does not change, and it leaves only when it is stale at
      an update or an oldest entry in the way of a new one; once gone it stays away. */
  lemma {:induction false} Undisturbed(tables: seq<Table>, ops: seq<Op>, interval: uint32,
                                       iteration: (nat, set<uint32>) -> seq<uint32>, uid: uint32, n: nat)
    requires Trace(tables, ops, interval, iteration) && Iterates(iteration) && Sound(tables[0]) && n <= |ops|
    requires forall i :: 0 <= i < n ==> !About(ops[i], uid)
    ensures uid in tables[n].dict ==> uid in tables[0].dict && tables[n].dict[uid] == tables[0].dict[uid]
    ensures uid in tables[0].dict && uid !in tables[n].dict ==>
              exists i :: 0 <= i < n && Leaves(tables[i], uid, ops[i], interval)
                          && tables[i].dict[uid] == tables[0].dict[uid]
  {
    hide Sound, Step, Enumerates, About, Leaves, Iterates;
    if n > 0 {
      Undisturbed(tables, ops, interval, iteration, uid, n - 1);
      TraceIsSound(tables, ops, interval, iteration, n - 1);
      StepElsewhere(tables[n - 1], ops[n - 1], interval, iteration(n - 1, tables[n - 1].dict.Keys), tables[n], uid);
    }
  }

  class Dictionary {
    const pool: FixedPoolResource
    const interval: uint32
    var dict: map<uint32, Entry>
    var blockOf: map<uint32, nat>
    ghost var owner: map<nat, uint32>
    var lowest: Option<uint32>   // the key of the entry that lowest_aircraft_entry points to
    var overflowed: bool
    var numModeS: nat
    var numUat: nat

    /** The pool's part: live nodes and free list partition the blocks, and only the bucket array was ever
        allocated outside them. */
    ghost predicate Stored()
      reads this, pool, pool.next
    {
      && pool.Valid() && pool.monotonic == 1
      && Partition(blockOf, owner, pool.free)
      && blockOf.Keys == dict.Keys && |dict| + |pool.free| == NUM_BLOCKS
    }

    /** The dictionary never exceeds its capacity, and every key is its entry's own identifier. */
    ghost predicate Valid()
      reads this, pool, pool.next
    {
      Stored() && |dict| <= MAX_NUM_AIRCRAFT && Keyed(dict)
    }

    /** The dictionary and its pointer as a value. */
    function Value(): Table
      reads this
    {
      Table(dict, lowest)
    }

    predicate LowestIsLive()
      reads this
    {
      lowest.Some? ==> lowest.value in dict
    }

    constructor (interval: uint32)
      ensures Valid() && LowestIsLive() && dict == map[] && fresh(pool) && fresh(pool.next)
    {
      this.interval := interval;
      pool := new FixedPoolResource();
      dict, blockOf, owner, lowest, overflowed, numModeS, numUat := map[], map[], map[], None, false, 0, 0;
      new;
      var _ := pool.Allocate(false);
    }

    method Erase(uid: uint32)
      requires Valid() && uid in dict
      modifies this`dict, this`blockOf, this`owner, pool, pool.next
      ensures Valid() && dict == Without(old(dict), uid) && |dict| == |old(dict)| - 1
    {
      hide Partition, Keyed, FixedPoolResource.Valid, Without;
      var block := blockOf[uid];
      MapWithout(dict, uid);
      KeysWithout(dict, blockOf, uid);
      PartitionShrinks(blockOf, owner, pool.free, uid);
      KeyedAfter(dict, dict[uid], uid);
      pool.Deallocate(Node(block));
      dict, blockOf, owner := Without(dict, uid), Without(blockOf, uid), Without(owner, block);
    }

    /** dict[uid] = aircraft for a key that is not there yet: the node comes from the free list. */
    method AddNode(e: Entry)
      requires Valid() && Uid(e) !in dict && |dict| < MAX_NUM_AIRCRAFT
      modifies this`dict, this`blockOf, this`owner, pool
      ensures Valid() && dict == old(dict)[Uid(e) := e]
      ensures Uid(e) in blockOf && blockOf[Uid(e)] !in old(owner)
    {
      hide Partition, Keyed, Uid, Without;
      FreeIsDistinct(pool);
      PartitionGrows(blockOf, owner, pool.free, Uid(e));
      KeyedAfter(dict, e, 0);
      hide FixedPoolResource.Valid;
      var block := pool.Allocate(true);
      dict := dict[Uid(e) := e];
      blockOf := blockOf[Uid(e) := block.index];
      owner := owner[block.index := Uid(e)];
    }

    /** The first entry in the order that has the smallest timestamp. */
    method FindOldest(order: seq<uint32>) returns (oldest: uint32)
      requires Enumerates(order, dict.Keys) && dict != map[]
      ensures oldest in dict && forall uid :: uid in dict ==> dict[oldest].lastMessage <= dict[uid].lastMessage
    {
      EnumerationLength(order, dict.Keys);
      oldest := order[0];
      for i := 1 to |order|
        invariant oldest in dict
        invariant forall k :: 0 <= k < i ==> dict[oldest].lastMessage <= dict[order[k]].lastMessage
      {
        if dict[order[i]].lastMessage < dict[oldest].lastMessage {
          oldest := order[i];
        }
      }
    }

    method RemoveOldestAircraft(order: seq<uint32>) returns (ok: bool, ghost oldest: uint32)
      requires Valid() && Enumerates(order, dict.Keys)
      modifies this, pool, pool.next
      ensures Valid() && ok == (old(dict) != map[]) && overflowed == old(overflowed)
      ensures !ok ==> Value() == old(Value())
      ensures ok ==> Evicts(old(Value()), oldest, Value()) && |dict| == |old(dict)| - 1
      ensures old(LowestIsLive()) ==> LowestIsLive()
    {
      hide Partition, Keyed, FixedPoolResource.Valid, Enumerates;
      oldest := 0;
      if |dict| == 0 {
        return false, 0;
      }
      var found := FindOldest(order);
      if lowest == Some(found) {
        lowest := None;
      }
      Erase(found);
      ok, oldest := true, found;
    }

    /** The entry is stored under its own identifier; a full dictionary loses its oldest entry first. */
    method InsertAircraft(e: Entry, order: seq<uint32>)
      requires Valid() && Enumerates(order, dict.Keys)
      modifies this, pool, pool.next
      ensures Valid() && (old(LowestIsLive()) ==> LowestIsLive())
      ensures Stores(old(Value()), e, Value()) && Uid(e) in dict && dict[Uid(e)] == e
      ensures overflowed == (old(overflowed) || (Uid(e) !in old(dict) && |old(dict)| >= MAX_NUM_AIRCRAFT))
    {
      hide Partition, Keyed, FixedPoolResource.Valid, Enumerates, Uid, Without, Oldest;
      KeyedAfter(dict, e, 0);
      if Uid(e) in dict {
        assert |dict[Uid(e) := e]| == |dict| by {
          assert dict[Uid(e) := e].Keys == dict.Keys;
        }
        dict := dict[Uid(e) := e];
        return;
      }
      if |dict| >= MAX_NUM_AIRCRAFT {
        overflowed := true;
        ghost var oldest;
        var ok;
        ok, oldest := RemoveOldestAircraft(order);
        KeysLeft(old(dict), oldest);
      }
      ghost var room := Value();
      AddNode(e);
      assert Value() == Table(room.dict[Uid(e) := e], room.lowest);
    }

    /** Look an aircraft up, or insert a new one; an entry of another type under the same key is not found. */
    method GetAircraftPtr(uid: uint32, kind: Kind, insertIfNotFound: bool, order: seq<uint32>)
        returns (found: Option<uint32>)
      requires Valid() && Enumerates(order, dict.Keys)
      modifies this, pool, pool.next
      ensures Valid() && (old(LowestIsLive()) ==> LowestIsLive())
      ensures found.Some? ==> found.value in dict && dict[found.value].kind == kind
      ensures found.Some? && UidType(uid) == TypeNumber(kind) ==> found.value == uid
      ensures uid in old(dict) ==> Value() == old(Value()) && (found.Some? <==> old(dict)[uid].kind == kind)
      ensures uid !in old(dict) && !insertIfNotFound ==> Value() == old(Value()) && found.None?
      ensures uid !in old(dict) && insertIfNotFound ==>
                found == Some(Uid(NewEntry(uid, kind))) && Stores(old(Value()), NewEntry(uid, kind), Value())
    {
      hide Partition, Keyed, FixedPoolResource.Valid, Enumerates, Uid, Without, Stores;
      if uid in dict {
        if dict[uid].kind == kind {
          return Some(uid);
        }
      } else if insertIfNotFound {
        NewEntryUid(uid, kind);
        InsertAircraft(NewEntry(uid, kind), order);
        return Some(Uid(NewEntry(uid, kind)));
      }
      found := None;
    }

    /** Removal by key leaves the pointer alone, so that it stays live exactly when it is not at that entry. */
    method RemoveAircraft(uid: uint32) returns (ok: bool)
      requires Valid()
      modifies this, pool, pool.next
      ensures Valid() && ok == (uid in old(dict)) && lowest == old(lowest)
      ensures dict == Without(old(dict), uid)
      ensures old(LowestIsLive()) ==> (LowestIsLive() <==> !ok || lowest != Some(uid))
    {
      hide Partition, Keyed, FixedPoolResource.Valid, Enumerates, Uid, Without;
      KeysLeft(dict, uid);
      if uid in dict {
        Erase(uid);
        return true;
      }
      ok := false;
    }

    /** One entry of the pass: prune it, or count it and compare it with the lowest one. */
    method VisitEntry(uid: uint32, now: uint32)
      requires Valid() && LowestIsLive() && uid in dict
      modifies this`dict, this`blockOf, this`owner, this`lowest, this`numModeS, this`numUat, pool, pool.next
      ensures Valid() && LowestIsLive()
      ensures var e, stale := old(dict)[uid], Stale(old(dict)[uid], now, interval);
              && dict == (if stale then Without(old(dict), uid) else old(dict))
              && |dict| == |old(dict)| - (if stale then 1 else 0)
              && lowest == NextLowest(old(lowest), uid, old(dict), now, interval)
              && numModeS == old(numModeS) + (if e.kind == ModeS && !stale then 1 else 0)
              && numUat == old(numUat) + (if e.kind == UAT && !stale then 1 else 0)
    {
      hide Partition, Keyed, FixedPoolResource.Valid, Uid, Without, Stale, Usable;
      var e := dict[uid];
      KeysLeft(dict, uid);
      if Stale(e, now, interval) {
        if lowest == Some(uid) {
          lowest := None;
        }
        Erase(uid);
      } else {
        if e.kind.ModeS? {
          numModeS := numModeS + 1;
        } else {
          numUat := numUat + 1;
        }
        if Usable(e) && e.altitude < AltitudeOf(Pointed(lowest, dict)) {
          lowest := Some(uid);
        }
      }
    }

    /** The pass of Update over the entries, in the map's order: stale entries go, the others are counted by type
        and compared with the lowest one. */
    method Update(now: uint32, order: seq<uint32>)
      requires Valid() && LowestIsLive() && Enumerates(order, dict.Keys)
      modifies this, pool, pool.next
      ensures Valid() && LowestIsLive() && !overflowed
      ensures forall uid :: uid in dict <==> uid in old(dict) && !Stale(old(dict)[uid], now, interval)
      ensures forall uid :: uid in dict ==> dict[uid] == old(dict)[uid]
      ensures forall uid, age: uint32 :: uid in old(dict) && HeardAgo(old(dict)[uid], now, age) ==>
                (uid in dict <==> age <= interval)
      ensures Pointed(lowest, old(dict))
           == FoldLowest(EntriesIn(order, old(dict)), Pointed(old(lowest), old(dict)), now, interval)
      ensures old(lowest).None? || !Stale(old(dict)[old(lowest).value], now, interval) ==>
                forall uid :: uid in dict && dict[uid].gnssValid && (dict[uid].kind == UAT || dict[uid].airborne) ==>
                  AltitudeOf(Pointed(lowest, dict)) <= dict[uid].altitude
      ensures numModeS == |set uid | uid in dict && dict[uid].kind == ModeS|
      ensures numUat == |set uid | uid in dict && dict[uid].kind == UAT|
    {
      hide Valid, LowestIsLive, Keyed, Enumerates, Uid, Without, FoldLowest, StepLowest, CountKind, Stale, Usable,
           PrunedUpTo, Pointed, EntriesIn, NextLowest;
      ghost var was := dict;
      StartPass();
      EntriesFound(order, was);
      ghost var es, before := EntriesIn(order, was), Pointed(lowest, was);
      PassStart(dict, es, order, before, now, interval);
      for i := 0 to |order|
        invariant Valid() && LowestIsLive() && PrunedUpTo(dict, was, order, i, now, interval) && !overflowed
        invariant lowest.Some? ==> lowest.value in dict
        invariant Pointed(lowest, was) == FoldLowest(es[..i], before, now, interval)
        invariant numModeS == CountKind(es[..i], ModeS, now, interval)
        invariant numUat == CountKind(es[..i], UAT, now, interval)
      {
        var uid := order[i];
        PruneStep(dict, was, order, i, now, interval);
        EntryAt(order, was, i);
        PassStep(es, i, before, now, interval);
        PointerAgrees(lowest, uid, dict, was, now, interval);
        VisitEntry(uid, now);
        LiveKey();
      }
      PrunedAll(dict, was, order, now, interval);
      AgeDecides(dict, was, now, interval);
      assert es[..|order|] == es;
      CountsKind(dict, was, order, ModeS, now, interval);
      CountsKind(dict, was, order, UAT, now, interval);
      if old(lowest).None? || !Stale(was[old(lowest).value], now, interval) {
        PointedIs(old(lowest), was);
        PassFindsLowest(dict, was, order, before, lowest, now, interval);
        UsableIs(dict);
      }
    }

    /** A message for an aircraft: it is looked up or created, and its fields take new values in place. */
    method Ingest(e: Entry, order: seq<uint32>)
      requires Valid() && LowestIsLive() && Enumerates(order, dict.Keys)
      modifies this, pool, pool.next
      ensures Valid() && LowestIsLive()
      ensures Stores(old(Value()), Merged(old(dict), e), Value())
    {
      hide Partition, FixedPoolResource.Valid, Enumerates, Without, Keyed, Uid, Stores;
      KeyedKind(dict, e);
      UidOfEntry(e);
      NewEntryUid(Uid(e), e.kind);
      var found := GetAircraftPtr(Uid(e), e.kind, true, order);
      ghost var between := Value();
      KeyedKind(dict, e);
      if found.Some? {
        var now := e.(icao := dict[Uid(e)].icao);
        KeyedAddress(dict, e);
        KeyedAfter(dict, now, 0);
        assert dict[Uid(e) := now].Keys == dict.Keys;
        dict := dict[Uid(e) := now];
        CreatedThenFilled(old(Value()), e, between, Value());
      }
    }

    /** Every node goes back to the free list; the pointer stays, and so is live afterwards exactly when it is null. */
    method Init()
      requires Valid()
      modifies this, pool, pool.next
      ensures Valid() && dict == map[] && lowest == old(lowest)
      ensures LowestIsLive() <==> lowest.None?
    {
      hide Partition, Keyed, FixedPoolResource.Valid, Uid, Without;
      while dict != map[]
        invariant Valid() && lowest == old(lowest)
        decreases |dict|
      {
        var uid :| uid in dict.Keys;
        Erase(uid);
      }
    }

    /** Every run of messages, insertions and updates goes through tables that follow each other step by step. */
    method Run(ops: seq<Op>, iteration: (nat, set<uint32>) -> seq<uint32>) returns (ghost tables: seq<Table>)
      requires Valid() && LowestIsLive() && Iterates(iteration)
      modifies this, pool, pool.next
      ensures Valid() && LowestIsLive()
      ensures Trace(tables, ops, interval, iteration)
      ensures tables[0] == old(Value()) && tables[|ops|] == Value()
      ensures forall i :: 0 <= i <= |ops| ==> Sound(tables[i])
    {
      hide Valid, LowestIsLive, Enumerates, Step, Sound;
      tables := [Value()];
      ValueIsSound();
      for i := 0 to |ops|
        invariant Valid() && LowestIsLive() && |tables| == i + 1
        invariant tables[0] == old(Value()) && tables[i] == Value()
        invariant forall j :: 0 <= j < i ==>
                    Step(tables[j], ops[j], interval, iteration(j, tables[j].dict.Keys), tables[j + 1])
      {
        Perform(ops[i], iteration(i, dict.Keys));
        tables := tables + [Value()];
      }
      forall i | 0 <= i <= |ops|
        ensures Sound(tables[i])
      {
        TraceIsSound(tables, ops, interval, iteration, i);
      }
    }

    method Perform(op: Op, order: seq<uint32>)
      requires Valid() && LowestIsLive() && Enumerates(order, dict.Keys)
      modifies this, pool, pool.next
      ensures Valid() && LowestIsLive() && Step(old(Value()), op, interval, order, Value())
    {
      hide Valid, LowestIsLive, Enumerates, Stores, Merged, Stale, FoldLowest, Pointed;
      match op
      case Message(e) => Ingest(e, order);
      case Insertion(e) => InsertAircraft(e, order);
      case Tick(now) =>
        EntriesFound(order, dict);
        Update(now, order);
        LiveKey();
    }

    lemma ValueIsSound()
      requires Valid() && LowestIsLive()
      ensures Sound(Value())
    {
    }

    method StartPass()
      requires Valid() && LowestIsLive()
      modifies this`overflowed, this`numModeS, this`numUat
      ensures Valid() && LowestIsLive() && Keyed(dict) && !overflowed && numModeS == numUat == 0
      ensures lowest.Some? ==> lowest.value in dict
    {
      hide Partition, FixedPoolResource.Valid, Keyed;
      overflowed, numModeS, numUat := false, 0, 0;
    }

    lemma LiveKey()
      requires LowestIsLive()
      ensures lowest.Some? ==> lowest.value in dict
    {
    }
  }
}
