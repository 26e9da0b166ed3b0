/**
 Rounds of locally decoded reports.  Five protocols walk one shared snapshot of the aircraft dictionary's keys,
 each in chunks that a time budget cuts short, while the dictionary changes between calls and sinks come and go.
 */
module Reporting {
  import opened Arith
  import opened Queues

  const CSBEE: nat := 0
  const MAVLINK1: nat := 1
  const MAVLINK2: nat := 2
  const GDL90: nat := 3
  const NUM_PROTOCOLS: nat := 5  // the last one, 4, is AircraftJSON

  const MAX_REPORT_UIDS: nat := 200
  const INTERVAL_MS: nat := 1000

  /** What goes out to the sinks of one protocol: a heartbeat, a turn for one aircraft, whose report is sent if it
      is still in the dictionary and can be written, or the marker behind the last one. */
  datatype Sent = Start | Turn(uid: nat, reported: bool) | End

  predicate HasStart(p: nat) { p == MAVLINK1 || p == MAVLINK2 || p == GDL90 }

  predicate HasEnd(p: nat) { p == CSBEE || p == MAVLINK1 || p == MAVLINK2 }

  /** What a call finds: the dictionary's keys, which aircraft can be written, and whether the CSBee statistics can. */
  datatype World = World(keys: seq<nat>, writable: nat -> bool, footer: bool)

  function Turns(w: World, uids: seq<nat>): (s: seq<Sent>)
    ensures |s| == |uids|
  {
    seq(|uids|, i requires 0 <= i < |uids| => Turn(uids[i], uids[i] in w.keys && w.writable(uids[i])))
  }

  predicate SendsEnd(p: nat, w: World) { HasEnd(p) && (p == CSBEE ==> w.footer) }

  /** The aircraft in the turns of a log, in order. */
  function Uids(log: seq<Sent>): seq<nat>
    decreases |log|
  {
    if log == [] then []
    else
      var front := Uids(log[..|log| - 1]);
      if log[|log| - 1].Turn? then front + [log[|log| - 1].uid] else front
  }

  lemma {:induction false} UidsConcat(a: seq<Sent>, b: seq<Sent>)
    ensures Uids(a + b) == Uids(a) + Uids(b)
    decreases |b|
  {
    if b == [] {
      assert a + b == a;
    } else {
      var k := |b| - 1;
      UidsConcat(a, b[..k]);
      assert (a + b)[..|a + b| - 1] == a + b[..k];
    }
  }

  lemma {:induction false} UidsOfTurns(w: World, uids: seq<nat>)
    ensures Uids(Turns(w, uids)) == uids
    decreases |uids|
  {
    if uids != [] {
      var k := |uids| - 1;
      UidsOfTurns(w, uids[..k]);
      assert Turns(w, uids)[..k] == Turns(w, uids[..k]);
      assert uids == uids[..k] + [uids[k]];
    }
  }

  // ----- One chunk -----

  /** A protocol's place in the snapshot. */
  datatype Walk = Walk(index: nat, active: bool)

  function Prelude(p: nat, index: nat): seq<Sent> { if HasStart(p) && index == 0 then [Start] else [] }

  function Postlude(p: nat, w: World, done: bool): seq<Sent> { if done && SendsEnd(p, w) then [End] else [] }

  /** One call: the budget is checked before each aircraft, so that many of them get their turn. */
  function ChunkSent(p: nat, snapshot: seq<nat>, index: nat, budget: nat, w: World): seq<Sent>
    requires index <= |snapshot|
  {
    var end := Min(index + budget, |snapshot|);
    Prelude(p, index) + Turns(w, snapshot[index..end]) + Postlude(p, w, end == |snapshot|)
  }

  function AfterChunk(snapshot: seq<nat>, index: nat, budget: nat): Walk
    requires index <= |snapshot|
  {
    var end := Min(index + budget, |snapshot|);
    Walk(end, end < |snapshot|)
  }

  // ----- Rounds -----

  datatype Status = Idle | Walking | Finished(ended: bool) | Dropped

  /** What has become of one protocol in a round. */
  datatype Course = Course(status: Status, log: seq<Sent>)

  datatype Round = Round(snapshot: seq<nat>, courses: seq<Course>)

  /** The marker goes out at most once and last. */
  predicate MarkedLast(log: seq<Sent>, ended: bool) {
    if ended then log != [] && log[|log| - 1] == End && End !in log[..|log| - 1] else End !in log
  }

  /** A protocol that finished gave every aircraft of the snapshot one turn, in order, and sent its marker once,
      behind the last turn; one that was cut short covered a prefix and sent none. */
  predicate CourseOk(p: nat, snapshot: seq<nat>, c: Course) {
    match c.status
    case Idle => c.log == []
    case Walking => Uids(c.log) <= snapshot && End !in c.log
    case Dropped => Uids(c.log) <= snapshot && End !in c.log
    case Finished(ended) =>
      && Uids(c.log) == snapshot
      && MarkedLast(c.log, ended) && (ended ==> HasEnd(p)) && (HasEnd(p) && p != CSBEE ==> ended)
  }

  predicate RoundOk(r: Round) {
    && |r.courses| == NUM_PROTOCOLS
    && forall p :: 0 <= p < NUM_PROTOCOLS ==> CourseOk(p, r.snapshot, r.courses[p])
  }

  /** A round that is over: no protocol is on its way any more. */
  predicate RoundOver(r: Round) {
    RoundOk(r) && forall p :: 0 <= p < NUM_PROTOCOLS ==> !r.courses[p].status.Walking?
  }

  /** The course of a walking protocol agrees with its index. */
  predicate InStep(p: nat, snapshot: seq<nat>, walk: Walk, c: Course) {
    && CourseOk(p, snapshot, c)
    && (walk.active <==> c.status.Walking?)
    && (walk.active ==> walk.index <= |snapshot| && Uids(c.log) == snapshot[..walk.index])
  }

  function Continued(p: nat, snapshot: seq<nat>, walk: Walk, c: Course, budget: nat, w: World): Course
    requires walk.index <= |snapshot|
  {
    Course(if AfterChunk(snapshot, walk.index, budget).active then Walking else Finished(SendsEnd(p, w)),
           c.log + ChunkSent(p, snapshot, walk.index, budget, w))
  }

  lemma ChunkUids(p: nat, snapshot: seq<nat>, index: nat, log: seq<Sent>, budget: nat, w: World)
    requires index <= |snapshot| && Uids(log) == snapshot[..index]
    ensures Uids(log + ChunkSent(p, snapshot, index, budget, w)) == snapshot[..Min(index + budget, |snapshot|)]
  {
    hide Uids, ChunkSent;
    var end := Min(index + budget, |snapshot|);
    UidsConcat(log, ChunkSent(p, snapshot, index, budget, w));
    ChunkTurns(p, snapshot, index, budget, w);
    assert snapshot[..index] + snapshot[index..end] == snapshot[..end];
  }

  lemma UidsOfMarks(p: nat, index: nat, w: World, done: bool)
    ensures Uids(Prelude(p, index)) == [] && Uids(Postlude(p, w, done)) == []
  {
    assert [Start][..0] == [] && [End][..0] == [];
  }

  lemma ChunkMarks(p: nat, snapshot: seq<nat>, index: nat, log: seq<Sent>, budget: nat, w: World)
    requires index <= |snapshot| && End !in log
    ensures MarkedLast(log + ChunkSent(p, snapshot, index, budget, w), index + budget >= |snapshot| && SendsEnd(p, w))
  {
    var end := Min(index + budget, |snapshot|);
    var body := log + (Prelude(p, index) + Turns(w, snapshot[index..end]));
    var post := Postlude(p, w, end == |snapshot|);
    assert End !in body;
    assert log + ChunkSent(p, snapshot, index, budget, w) == body + post;
    assert post != [] ==> (body + post)[..|body + post| - 1] == body;
  }

  /** A chunk keeps a walking protocol in step. */
  lemma ChunkInStep(p: nat, snapshot: seq<nat>, walk: Walk, c: Course, budget: nat, w: World)
    requires InStep(p, snapshot, walk, c) && walk.active
    ensures InStep(p, snapshot, AfterChunk(snapshot, walk.index, budget), Continued(p, snapshot, walk, c, budget, w))
  {
    hide Uids, ChunkSent;
    ChunkUids(p, snapshot, walk.index, c.log, budget, w);
    ChunkMarks(p, snapshot, walk.index, c.log, budget, w);
  }

  // ----- Heartbeats -----

  /** What a round's calls send for one protocol, until it is done. */
  function CallsSent(p: nat, snapshot: seq<nat>, index: nat, budgets: seq<nat>, worlds: seq<World>): seq<Sent>
    requires index <= |snapshot| && |worlds| == |budgets|
    decreases |budgets|
  {
    if budgets == [] then []
    else
      var walk := AfterChunk(snapshot, index, budgets[0]);
      ChunkSent(p, snapshot, index, budgets[0], worlds[0])
      + (if walk.active then CallsSent(p, snapshot, walk.index, budgets[1..], worlds[1..]) else [])
  }

  lemma StartsInChunk(p: nat, snapshot: seq<nat>, index: nat, budget: nat, w: World)
    requires index <= |snapshot|
    ensures multiset(ChunkSent(p, snapshot, index, budget, w))[Start] == if HasStart(p) && index == 0 then 1 else 0
  {
    var turns := Turns(w, snapshot[index..Min(index + budget, |snapshot|)]);
    assert Start !in turns;
  }

  /** The heartbeat goes out before the reports of its call, and only in a call that is at the beginning. */
  lemma HeartbeatFirst(p: nat, snapshot: seq<nat>, index: nat, budget: nat, w: World)
    requires index <= |snapshot|
    ensures var sent := ChunkSent(p, snapshot, index, budget, w);
            && (HasStart(p) && index == 0 ==> sent != [] && sent[0] == Start)
            && (!(HasStart(p) && index == 0) ==> Start !in sent)
  {
    hide SendsEnd;
  }

  lemma {:induction false} NoLaterStart(p: nat, snapshot: seq<nat>, index: nat, budgets: seq<nat>, worlds: seq<World>)
    requires 0 < index <= |snapshot| && |worlds| == |budgets|
    ensures multiset(CallsSent(p, snapshot, index, budgets, worlds))[Start] == 0
    decreases |budgets|
  {
    hide ChunkSent;
    if budgets != [] {
      StartsInChunk(p, snapshot, index, budgets[0], worlds[0]);
      NoLaterStart(p, snapshot, AfterChunk(snapshot, index, budgets[0]).index, budgets[1..], worlds[1..]);
    }
  }

  /** A turn sends a report exactly when its aircraft is still in the dictionary and can be written. */
  lemma TurnsReportExactly(p: nat, snapshot: seq<nat>, index: nat, budget: nat, w: World, uid: nat, reported: bool)
    requires index <= |snapshot| && Turn(uid, reported) in ChunkSent(p, snapshot, index, budget, w)
    ensures uid in snapshot && (reported <==> uid in w.keys && w.writable(uid))
  {
    var end := Min(index + budget, |snapshot|);
    var turns := Turns(w, snapshot[index..end]);
    assert Turn(uid, reported) in turns;
  }

  /** So what stays in the dictionary and can be written through all calls of a walk is reported in its turn. */
  lemma {:induction false} CallsReport(p: nat, snapshot: seq<nat>, index: nat, budgets: seq<nat>, worlds: seq<World>,
                                       uid: nat, reported: bool)
    requires index <= |snapshot| && |worlds| == |budgets|
    requires Turn(uid, reported) in CallsSent(p, snapshot, index, budgets, worlds)
    ensures exists i :: 0 <= i < |worlds| && (reported <==> uid in worlds[i].keys && worlds[i].writable(uid))
    decreases |budgets|
  {
    hide ChunkSent;
    var walk := AfterChunk(snapshot, index, budgets[0]);
    if Turn(uid, reported) in ChunkSent(p, snapshot, index, budgets[0], worlds[0]) {
      TurnsReportExactly(p, snapshot, index, budgets[0], worlds[0], uid, reported);
      assert reported <==> uid in worlds[0].keys && worlds[0].writable(uid);
    } else {
      CallsReport(p, snapshot, walk.index, budgets[1..], worlds[1..], uid, reported);
      var i :| 0 <= i < |worlds[1..]| && (reported <==> uid in worlds[1..][i].keys && worlds[1..][i].writable(uid));
      assert worlds[i + 1] == worlds[1..][i];
    }
  }

  /** The heartbeat is sent once in a round exactly when the first call gets to an aircraft, or there is none, or
      there is no second call; otherwise the second call sends it again. */
  lemma HeartbeatOnceExactly(p: nat, snapshot: seq<nat>, budgets: seq<nat>, worlds: seq<World>)
    requires HasStart(p) && budgets != [] && |worlds| == |budgets|
    ensures multiset(CallsSent(p, snapshot, 0, budgets, worlds))[Start] == 1
        <==> budgets[0] > 0 || snapshot == [] || |budgets| == 1
  {
    hide ChunkSent;
    StartsInChunk(p, snapshot, 0, budgets[0], worlds[0]);
    var walk := AfterChunk(snapshot, 0, budgets[0]);
    if walk.index > 0 {
      NoLaterStart(p, snapshot, walk.index, budgets[1..], worlds[1..]);
    } else if |budgets| > 1 {
      StartsInChunk(p, snapshot, 0, budgets[1], worlds[1]);
    }
  }

  function Sum(budgets: seq<nat>): nat
    decreases |budgets|
  {
    if budgets == [] then 0 else budgets[0] + Sum(budgets[1..])
  }

  lemma NoUids()
    ensures Uids([]) == []
  {
  }

  /** However the budgets cut the walk, the turns go to consecutive aircraft, each once: only their sum matters. */
  lemma {:induction false} CallsCover(p: nat, snapshot: seq<nat>, index: nat, budgets: seq<nat>, worlds: seq<World>)
    requires index <= |snapshot| && |worlds| == |budgets|
    ensures Uids(CallsSent(p, snapshot, index, budgets, worlds))
         == snapshot[index..Min(index + Sum(budgets), |snapshot|)]
    decreases |budgets|
  {
    hide ChunkSent, Uids;
    if budgets == [] {
      NoUids();
    } else {
      var walk := AfterChunk(snapshot, index, budgets[0]);
      var first := ChunkSent(p, snapshot, index, budgets[0], worlds[0]);
      ChunkTurns(p, snapshot, index, budgets[0], worlds[0]);
      if walk.active {
        var others := CallsSent(p, snapshot, walk.index, budgets[1..], worlds[1..]);
        UidsConcat(first, others);
        CallsCover(p, snapshot, walk.index, budgets[1..], worlds[1..]);
      } else {
        assert first + [] == first;
      }
    }
  }

  lemma CallsSentFirst(p: nat, snapshot: seq<nat>, index: nat, budgets: seq<nat>, worlds: seq<World>)
    requires index <= |snapshot| && |worlds| == |budgets| && budgets != []
    ensures CallsSent(p, snapshot, index, budgets, worlds)
         == ChunkSent(p, snapshot, index, budgets[0], worlds[0])
            + if index + budgets[0] >= |snapshot| then []
              else CallsSent(p, snapshot, index + budgets[0], budgets[1..], worlds[1..])
  {
  }

  /** The first call sends its chunk, and the walk goes on from there. */
  lemma CallsSentCons(p: nat, snapshot: seq<nat>, index: nat, budget: nat, budgets: seq<nat>, w: World,
                      worlds: seq<World>)
    requires index <= |snapshot| && |worlds| == |budgets|
    ensures var first := ChunkSent(p, snapshot, index, budget, w);
            CallsSent(p, snapshot, index, [budget] + budgets, [w] + worlds)
            == if budgets == [] || index + budget >= |snapshot| then first
               else first + CallsSent(p, snapshot, index + budget, budgets, worlds)
  {
    hide ChunkSent, CallsSent;
    var all, ws := [budget] + budgets, [w] + worlds;
    assert all[1..] == budgets && ws[1..] == worlds;
    CallsSentFirst(p, snapshot, index, all, ws);
    if budgets == [] && index + budget < |snapshot| {
      NoCallsSent(p, snapshot, index + budget);
    }
    var first := ChunkSent(p, snapshot, index, budget, w);
    assert first + [] == first;
  }

  /** One more call of a walk that is not over sends its chunk. */
  lemma {:induction false} CallsSentSnoc(p: nat, snapshot: seq<nat>, index: nat, budgets: seq<nat>, worlds: seq<World>,
                                         budget: nat, w: World)
    requires index <= |snapshot| && |worlds| == |budgets|
    requires budgets == [] || index + Sum(budgets) < |snapshot|
    ensures CallsSent(p, snapshot, index, budgets + [budget], worlds + [w])
         == CallsSent(p, snapshot, index, budgets, worlds) + ChunkSent(p, snapshot, index + Sum(budgets), budget, w)
    decreases |budgets|
  {
    hide ChunkSent, CallsSent;
    if budgets == [] {
      NoCallsSent(p, snapshot, index);
      CallsSentCons(p, snapshot, index, budget, [], w, []);
      assert budgets + [budget] == [budget] + [] && worlds + [w] == [w] + [];
    } else {
      var b, bs, v, vs := budgets[0], budgets[1..], worlds[0], worlds[1..];
      assert budgets == [b] + bs && worlds == [v] + vs;
      assert budgets + [budget] == [b] + (bs + [budget]) && worlds + [w] == [v] + (vs + [w]);
      CallsSentCons(p, snapshot, index, b, bs + [budget], v, vs + [w]);
      CallsSentCons(p, snapshot, index, b, bs, v, vs);
      CallsSentSnoc(p, snapshot, index + b, bs, vs, budget, w);
      if bs == [] {
        NoCallsSent(p, snapshot, index + b);
      }
    }
  }

  lemma NoCallsSent(p: nat, snapshot: seq<nat>, index: nat)
    requires index <= |snapshot|
    ensures CallsSent(p, snapshot, index, [], []) == []
  {
  }

  lemma ChunkTurns(p: nat, snapshot: seq<nat>, index: nat, budget: nat, w: World)
    requires index <= |snapshot|
    ensures Uids(ChunkSent(p, snapshot, index, budget, w)) == snapshot[index..Min(index + budget, |snapshot|)]
  {
    hide Uids, Turns, Prelude, Postlude;
    var end := Min(index + budget, |snapshot|);
    var pre, turns, post := Prelude(p, index), Turns(w, snapshot[index..end]), Postlude(p, w, end == |snapshot|);
    UidsConcat(pre + turns, post);
    UidsConcat(pre, turns);
    UidsOfTurns(w, snapshot[index..end]);
    UidsOfMarks(p, index, w, end == |snapshot|);
  }

  // ----- The manager -----

  /** A new round starts when somebody listens, every protocol is done, and the interval is over. */
  predicate StartsRound(walks: seq<Walk>, last: uint32, now: uint32, sinks: seq<nat>)
    requires |walks| == |sinks| == NUM_PROTOCOLS
  {
    && (exists p :: 0 <= p < NUM_PROTOCOLS && sinks[p] > 0)
    && (forall p :: 0 <= p < NUM_PROTOCOLS ==> !walks[p].active)
    && U32(now - last) >= INTERVAL_MS
  }

  function DroppedWalk(walk: Walk, sinks: nat): Walk { if sinks == 0 then walk.(active := false) else walk }

  function DroppedCourse(walk: Walk, c: Course, sinks: nat): Course {
    if walk.active && sinks == 0 then Course(Dropped, c.log) else c
  }

  function DropAll(walks: seq<Walk>, sinks: seq<nat>): (r: seq<Walk>)
    requires |walks| == |sinks|
    ensures |r| == |walks|
  {
    seq(|walks|, p requires 0 <= p < |walks| => DroppedWalk(walks[p], sinks[p]))
  }

  lemma NoTurns(w: World, uids: seq<nat>, i: nat)
    requires i <= |uids|
    ensures Turns(w, uids[i..i]) == []
  {
  }

  lemma NextTurn(w: World, uids: seq<nat>, start: nat, i: nat)
    requires start <= i < |uids|
    ensures Turns(w, uids[start..i + 1])
         == Turns(w, uids[start..i]) + [Turn(uids[i], uids[i] in w.keys && w.writable(uids[i]))]
  {
  }

  /** The loop that all the reporters share; what they send is the ghost result. */
  method WalkChunk(p: nat, uids: seq<nat>, from: nat, budget: nat, w: World) returns (walk: Walk, ghost sent: seq<Sent>)
    requires from <= |uids|
    ensures walk == AfterChunk(uids, from, budget)
    ensures sent == ChunkSent(p, uids, from, budget, w)
  {
    hide Turns, Prelude, Postlude;
    var index, used, cut := from, 0, false;
    sent := Prelude(p, from) + [];
    NoTurns(w, uids, from);
    while index < |uids| && !cut
      invariant from <= index == from + used <= |uids| && used <= budget
      invariant sent == Prelude(p, from) + Turns(w, uids[from..index])
      invariant cut ==> used == budget && index < |uids|
      decreases |uids| - index, !cut
    {
      if used >= budget {
        cut := true;
      } else {
        var uid := uids[index];
        NextTurn(w, uids, from, index);
        sent := sent + [Turn(uid, uid in w.keys && w.writable(uid))];
        index, used := index + 1, used + 1;
      }
    }
    sent := sent + Postlude(p, w, index == |uids|);
    walk := Walk(index, cut);
  }

  /** One call of UpdateReporting: the clock, the number of sinks of each protocol, and how many aircraft each
      time budget allows. */
  datatype Call = Call(now: uint32, sinks: seq<nat>, budgets: seq<nat>, world: World)

  predicate IsCall(c: Call) { |c.sinks| == |c.budgets| == NUM_PROTOCOLS }

  /** The value of the manager, with the courses of the current round and the rounds on record as history. */
  datatype Manager = Manager(uids: seq<nat>, walks: seq<Walk>, last: uint32, courses: seq<Course>, rounds: seq<Round>)

  /** The current round is on its way as promised, and all earlier ones are over and were. */
  ghost predicate Sound(m: Manager) {
    && |m.walks| == |m.courses| == NUM_PROTOCOLS && |m.uids| <= MAX_REPORT_UIDS
    && (forall p :: 0 <= p < NUM_PROTOCOLS ==> InStep(p, m.uids, m.walks[p], m.courses[p]))
    && (forall i :: 0 <= i < |m.rounds| ==> RoundOver(m.rounds[i]))
  }

  /** Every protocol that lost its sinks leaves the round. */
  function Dropping(m: Manager, sinks: seq<nat>): Manager
    requires |m.walks| == |m.courses| == |sinks|
  {
    m.(walks := DropAll(m.walks, sinks),
       courses := seq(|sinks|, p requires 0 <= p < |sinks| => DroppedCourse(m.walks[p], m.courses[p], sinks[p])))
  }

  function Starting(m: Manager, c: Call): Manager
    requires IsCall(c)
  {
    Manager(FirstN(c.world.keys, MAX_REPORT_UIDS),
            seq(NUM_PROTOCOLS, p requires 0 <= p < NUM_PROTOCOLS => Walk(0, c.sinks[p] > 0)),
            c.now,
            seq(NUM_PROTOCOLS, p requires 0 <= p < NUM_PROTOCOLS =>
              Course(if c.sinks[p] > 0 then Walking else Idle, [])),
            m.rounds + [Round(m.uids, m.courses)])
  }

  /** Whether protocol p takes its chunk. */
  predicate Walks(m: Manager, p: nat)
    requires p < |m.walks|
  {
    m.walks[p].active && m.walks[p].index <= |m.uids|
  }

  function Driving(m: Manager, c: Call): Manager
    requires |m.walks| == |m.courses| == NUM_PROTOCOLS && IsCall(c)
  {
    m.(walks := seq(NUM_PROTOCOLS, p requires 0 <= p < NUM_PROTOCOLS =>
                      if Walks(m, p) then AfterChunk(m.uids, m.walks[p].index, c.budgets[p]) else m.walks[p]),
       courses := seq(NUM_PROTOCOLS, p requires 0 <= p < NUM_PROTOCOLS =>
                        if Walks(m, p) then Continued(p, m.uids, m.walks[p], m.courses[p], c.budgets[p], c.world)
                        else m.courses[p]))
  }

  /** Whether the call begins a new round. */
  predicate Begins(m: Manager, c: Call)
    requires |m.walks| == NUM_PROTOCOLS && IsCall(c)
  {
    StartsRound(DropAll(m.walks, c.sinks), m.last, c.now, c.sinks)
  }

  function Next(m: Manager, c: Call): (r: Manager)
    requires |m.walks| == |m.courses| == NUM_PROTOCOLS && IsCall(c)
    ensures |r.walks| == |r.courses| == NUM_PROTOCOLS
  {
    var dropped := Dropping(m, c.sinks);
    Driving(if Begins(m, c) then Starting(dropped, c) else dropped, c)
  }

  predicate AreCalls(calls: seq<Call>) { forall i :: 0 <= i < |calls| ==> IsCall(calls[i]) }

  function After(m: Manager, calls: seq<Call>): (r: Manager)
    requires |m.walks| == |m.courses| == NUM_PROTOCOLS && AreCalls(calls)
    ensures |r.walks| == |r.courses| == NUM_PROTOCOLS
    decreases |calls|
  {
    if calls == [] then m else Next(After(m, calls[..|calls| - 1]), calls[|calls| - 1])
  }

  lemma DroppedInStep(p: nat, snapshot: seq<nat>, walk: Walk, c: Course)
    requires InStep(p, snapshot, walk, c) && walk.active
    ensures InStep(p, snapshot, walk.(active := false), Course(Dropped, c.log))
  {
  }

  lemma DroppingIsSound(m: Manager, sinks: seq<nat>)
    requires Sound(m) && |sinks| == NUM_PROTOCOLS
    ensures Sound(Dropping(m, sinks))
  {
    hide CourseOk;
    var d := Dropping(m, sinks);
    forall p | 0 <= p < NUM_PROTOCOLS
      ensures InStep(p, d.uids, d.walks[p], d.courses[p])
    {
      if m.walks[p].active {
        DroppedInStep(p, m.uids, m.walks[p], m.courses[p]);
      }
    }
  }

  lemma StartingIsSound(m: Manager, c: Call)
    requires Sound(m) && IsCall(c) && forall p :: 0 <= p < NUM_PROTOCOLS ==> !m.walks[p].active
    ensures Sound(Starting(m, c))
  {
  }

  lemma DrivingIsSound(m: Manager, c: Call)
    requires Sound(m) && IsCall(c)
    ensures Sound(Driving(m, c))
  {
    hide CourseOk, Continued, AfterChunk;
    var d := Driving(m, c);
    forall p | 0 <= p < NUM_PROTOCOLS
      ensures InStep(p, d.uids, d.walks[p], d.courses[p])
    {
      if Walks(m, p) {
        ChunkInStep(p, m.uids, m.walks[p], m.courses[p], c.budgets[p], c.world);
      }
    }
  }

  lemma NextIsSound(m: Manager, c: Call)
    requires Sound(m) && IsCall(c)
    ensures Sound(Next(m, c))
  {
    hide InStep, RoundOver, Driving, Dropping, Starting;
    DroppingIsSound(m, c.sinks);
    var d := Dropping(m, c.sinks);
    DroppedWalks(m, c.sinks);
    if Begins(m, c) {
      StartingIsSound(d, c);
      DrivingIsSound(Starting(d, c), c);
    } else {
      DrivingIsSound(d, c);
    }
  }

  lemma DroppedWalks(m: Manager, sinks: seq<nat>)
    requires |m.walks| == |m.courses| == |sinks|
    ensures Dropping(m, sinks).walks == DropAll(m.walks, sinks)
    ensures Dropping(m, sinks).uids == m.uids && Dropping(m, sinks).last == m.last
    ensures Dropping(m, sinks).rounds == m.rounds
  {
  }

  // ----- Whole runs -----

  predicate KeepsSinks(calls: seq<Call>, p: nat)
    requires AreCalls(calls) && p < NUM_PROTOCOLS
  {
    forall i :: 0 <= i < |calls| ==> calls[i].sinks[p] > 0
  }

  /** Every aircraft of the snapshot has had exactly one turn, in order. */
  predicate Complete(r: Round, p: nat)
    requires p < NUM_PROTOCOLS
  {
    && |r.courses| == NUM_PROTOCOLS && CourseOk(p, r.snapshot, r.courses[p])
    && r.courses[p].status.Finished? && Uids(r.courses[p].log) == r.snapshot
  }

  /** What one call does to a protocol that has sinks: it stays in the round that is on its way, and a round that
      goes on record has been completed by it if it took part. */
  lemma NextForListener(m: Manager, c: Call, p: nat)
    requires Sound(m) && IsCall(c) && p < NUM_PROTOCOLS && c.sinks[p] > 0
    ensures var r := Next(m, c);
      && (Begins(m, c) ==>
            && r.rounds == m.rounds + [Round(m.uids, Dropping(m, c.sinks).courses)]
            && r.uids == FirstN(c.world.keys, MAX_REPORT_UIDS)
            && (m.courses[p].status.Walking? || m.courses[p].status.Finished? ==> Complete(r.rounds[|m.rounds|], p))
            && (r.courses[p].status.Walking? || r.courses[p].status.Finished?))
      && (!Begins(m, c) ==>
            && r.rounds == m.rounds && r.uids == m.uids
            && (m.courses[p].status.Walking? || m.courses[p].status.Finished? ==>
                  r.courses[p].status.Walking? || r.courses[p].status.Finished?))
  {
    hide Uids, ChunkSent;
    var d := Dropping(m, c.sinks);
    assert d.courses[p] == m.courses[p] && d.walks[p] == m.walks[p];
    assert InStep(p, m.uids, m.walks[p], m.courses[p]);
  }

  /** In every reporting round of every run, each protocol that keeps its sinks gives every aircraft of the
      snapshot exactly one turn, in order, and the snapshot is that of the call that began the round: so it is
      for each round that the run begins and puts on record, and for the one it found on its way. */
  lemma {:induction false} RunCompletesRounds(m: Manager, calls: seq<Call>, p: nat)
    requires Sound(m) && AreCalls(calls) && p < NUM_PROTOCOLS && KeepsSinks(calls, p)
    ensures var r := After(m, calls);
      && Sound(r) && m.rounds <= r.rounds
      && (forall i :: |m.rounds| < i < |r.rounds| ==> Complete(r.rounds[i], p))
      && (|r.rounds| > |m.rounds| && (m.courses[p].status.Walking? || m.courses[p].status.Finished?) ==>
            Complete(r.rounds[|m.rounds|], p))
      && (|r.rounds| > |m.rounds| || m.courses[p].status.Walking? || m.courses[p].status.Finished? ==>
            r.courses[p].status.Walking? || r.courses[p].status.Finished?)
    decreases |calls|
  {
    hide Next, Begins, Complete, InStep, RoundOver;
    if calls != [] {
      var k := |calls| - 1;
      RunCompletesRounds(m, calls[..k], p);
      var before := After(m, calls[..k]);
      NextIsSound(before, calls[k]);
      NextForListener(before, calls[k], p);
    }
  }

  /** The calls of a run that begin a round. */
  function Beginnings(m: Manager, calls: seq<Call>): (s: seq<nat>)
    requires |m.walks| == |m.courses| == NUM_PROTOCOLS && AreCalls(calls)
    ensures forall i :: 0 <= i < |s| ==> s[i] < |calls|
    decreases |calls|
  {
    if calls == [] then []
    else
      var k := |calls| - 1;
      var front := Beginnings(m, calls[..k]);
      if Begins(After(m, calls[..k]), calls[k]) then front + [k] else front
  }

  /** The rounds begun by the calls b: the last snapshot is in use, the others are on record in order. */
  ghost predicate Recorded(m: Manager, r: Manager, b: seq<nat>, calls: seq<Call>)
    requires forall i :: 0 <= i < |b| ==> b[i] < |calls|
  {
    && |r.rounds| == |m.rounds| + |b|
    && (if b == [] then r.uids == m.uids && r.rounds == m.rounds
        else
          && r.uids == FirstN(calls[b[|b| - 1]].world.keys, MAX_REPORT_UIDS)
          && r.rounds[|m.rounds|].snapshot == m.uids
          && forall i :: |m.rounds| < i < |r.rounds| ==>
               r.rounds[i].snapshot == FirstN(calls[b[i - |m.rounds| - 1]].world.keys, MAX_REPORT_UIDS))
  }

  lemma RecordedWithout(m: Manager, r: Manager, s: Manager, b: seq<nat>, calls: seq<Call>, more: seq<Call>)
    requires forall i :: 0 <= i < |b| ==> b[i] < |calls|
    requires calls <= more && Recorded(m, r, b, calls) && s.uids == r.uids && s.rounds == r.rounds
    ensures Recorded(m, s, b, more)
  {
  }

  lemma RecordedWith(m: Manager, r: Manager, s: Manager, b: seq<nat>, calls: seq<Call>, c: Call)
    requires forall i :: 0 <= i < |b| ==> b[i] < |calls|
    requires Recorded(m, r, b, calls)
    requires |s.rounds| == |r.rounds| + 1 && s.rounds[..|r.rounds|] == r.rounds
    requires s.rounds[|r.rounds|].snapshot == r.uids
    requires s.uids == FirstN(c.world.keys, MAX_REPORT_UIDS)
    ensures Recorded(m, s, b + [|calls|], calls + [c])
  {
    hide FirstN;
    assert forall i :: 0 <= i < |r.rounds| ==> s.rounds[i] == s.rounds[..|r.rounds|][i];
  }

  /** The snapshots of a run are those of the calls that began its rounds, one each, and are never rebuilt in
      between. */
  lemma {:induction false} RunSnapshots(m: Manager, calls: seq<Call>)
    requires Sound(m) && AreCalls(calls)
    ensures Sound(After(m, calls)) && Recorded(m, After(m, calls), Beginnings(m, calls), calls)
    decreases |calls|
  {
    hide Begins, InStep, RoundOver, Recorded, Next;
    if calls == [] {
      NothingRecorded(m);
    } else {
      var k := |calls| - 1;
      var before, c := After(m, calls[..k]), calls[k];
      RunSnapshots(m, calls[..k]);
      NextIsSound(before, c);
      NextRecords(before, c);
      assert calls == calls[..k] + [c];
      if Begins(before, c) {
        RecordedWith(m, before, Next(before, c), Beginnings(m, calls[..k]), calls[..k], c);
      } else {
        RecordedWithout(m, before, Next(before, c), Beginnings(m, calls[..k]), calls[..k], calls);
      }
    }
  }

  lemma NothingRecorded(m: Manager)
    ensures Recorded(m, m, [], [])
  {
  }

  lemma NextRecords(m: Manager, c: Call)
    requires Sound(m) && IsCall(c)
    ensures var r := Next(m, c);
      if Begins(m, c) then
        && |r.rounds| == |m.rounds| + 1 && r.rounds[..|m.rounds|] == m.rounds && r.rounds[|m.rounds|].snapshot == m.uids
        && r.uids == FirstN(c.world.keys, MAX_REPORT_UIDS)
      else r.rounds == m.rounds && r.uids == m.uids
  {
    hide InStep, RoundOver;
  }

  /** A round begins no sooner than the interval after the last one, with somebody listening and nobody on its way;
      only then the time is taken. */
  lemma BeginsAfterInterval(m: Manager, c: Call)
    requires |m.walks| == |m.courses| == NUM_PROTOCOLS && IsCall(c)
    ensures Next(m, c).last == if Begins(m, c) then c.now else m.last
    ensures Begins(m, c) ==>
              && U32(c.now - m.last) >= 1000
              && (exists p :: 0 <= p < NUM_PROTOCOLS && c.sinks[p] > 0)
              && forall p :: 0 <= p < NUM_PROTOCOLS ==> !m.walks[p].active || c.sinks[p] == 0
  {
    var dropped := DropAll(m.walks, c.sinks);
    assert forall p :: 0 <= p < NUM_PROTOCOLS ==> dropped[p] == DroppedWalk(m.walks[p], c.sinks[p]);
  }

  /** The calls b are in order, the first at least one second after from, each other one after the one before it; the
      time noted at the end is that of the last. */
  ghost predicate Apart(from: uint32, b: seq<nat>, calls: seq<Call>, noted: uint32) {
    && (forall i :: 0 <= i < |b| ==> b[i] < |calls|)
    && (if b == [] then noted == from
        else noted == calls[b[|b| - 1]].now && U32(calls[b[0]].now - from) >= 1000)
    && forall i, j :: 0 <= i && j == i + 1 < |b| ==> b[i] < b[j] && U32(calls[b[j]].now - calls[b[i]].now) >= 1000
  }

  lemma ApartWithout(from: uint32, b: seq<nat>, calls: seq<Call>, noted: uint32, more: seq<Call>)
    requires Apart(from, b, calls, noted) && calls <= more
    ensures Apart(from, b, more, noted)
  {
  }

  lemma ApartWith(from: uint32, b: seq<nat>, calls: seq<Call>, noted: uint32, c: Call)
    requires Apart(from, b, calls, noted) && U32(c.now - noted) >= 1000
    ensures Apart(from, b + [|calls|], calls + [c], c.now)
  {
  }

  /** On every run consecutive rounds begin at least one second apart, on a clock that wraps. */
  lemma {:induction false} BeginningsApart(m: Manager, calls: seq<Call>)
    requires |m.walks| == |m.courses| == NUM_PROTOCOLS && AreCalls(calls)
    ensures Apart(m.last, Beginnings(m, calls), calls, After(m, calls).last)
    decreases |calls|
  {
    hide Begins, Next, Apart;
    if calls == [] {
      NothingBegun(m.last);
    } else {
      var k := |calls| - 1;
      var before, c := After(m, calls[..k]), calls[k];
      BeginningsApart(m, calls[..k]);
      BeginsAfterInterval(before, c);
      assert calls == calls[..k] + [c];
      if Begins(before, c) {
        ApartWith(m.last, Beginnings(m, calls[..k]), calls[..k], before.last, c);
      } else {
        ApartWithout(m.last, Beginnings(m, calls[..k]), calls[..k], before.last, calls);
      }
    }
  }

  lemma NothingBegun(from: uint32)
    ensures Apart(from, [], [], from)
  {
  }

  /** A protocol without sinks is sent nothing, and leaves the round if it was in it. */
  lemma NoSinksNothingSent(m: Manager, c: Call, p: nat)
    requires Sound(m) && IsCall(c) && p < NUM_PROTOCOLS && c.sinks[p] == 0
    ensures !Next(m, c).walks[p].active
    ensures Next(m, c).courses[p].log == if Begins(m, c) then [] else m.courses[p].log
  {
    hide InStep, RoundOver;
  }

  function BudgetsOf(calls: seq<Call>, p: nat): (b: seq<nat>)
    requires AreCalls(calls) && p < NUM_PROTOCOLS
    ensures |b| == |calls|
  {
    seq(|calls|, i requires 0 <= i < |calls| => calls[i].budgets[p])
  }

  /** A protocol on its way that keeps its sinks holds the round: until the budgets of the calls add up to what is
      left of the snapshot, no round begins and its index advances by their sum; so it gets to the end as soon as
      they do. */
  lemma {:induction false} WalkAdvances(m: Manager, calls: seq<Call>, p: nat)
    requires Sound(m) && AreCalls(calls) && p < NUM_PROTOCOLS && KeepsSinks(calls, p) && m.walks[p].active
    requires calls == [] || m.walks[p].index + Sum(BudgetsOf(calls[..|calls| - 1], p)) < |m.uids|
    ensures var r := After(m, calls);
      && r.uids == m.uids && r.rounds == m.rounds
      && (calls != [] ==> r.walks[p] == AfterChunk(m.uids, m.walks[p].index, Sum(BudgetsOf(calls, p))))
    decreases |calls|
  {
    hide InStep, RoundOver, Next, BudgetsOf, Sum;
    if calls != [] {
      var k := |calls| - 1;
      BudgetsAdd(calls, p);
      BudgetsAdd(calls[..k], p);
      assert k > 0 ==> calls[..k][..k - 1] == calls[..k - 1];
      WalkAdvances(m, calls[..k], p);
      SoundRun(m, calls[..k]);
      WalkStep(After(m, calls[..k]), calls[k], p);
    }
  }

  lemma BudgetsAdd(calls: seq<Call>, p: nat)
    requires AreCalls(calls) && p < NUM_PROTOCOLS
    ensures Sum(BudgetsOf(calls, p))
         == if calls == [] then 0 else Sum(BudgetsOf(calls[..|calls| - 1], p)) + calls[|calls| - 1].budgets[p]
  {
    if calls != [] {
      var k := |calls| - 1;
      SumSnoc(BudgetsOf(calls[..k], p), calls[k].budgets[p]);
      assert BudgetsOf(calls, p) == BudgetsOf(calls[..k], p) + [calls[k].budgets[p]];
    }
  }

  lemma {:induction false} SumSnoc(b: seq<nat>, x: nat)
    ensures Sum(b + [x]) == Sum(b) + x
    decreases |b|
  {
    if b == [] {
      assert [x][1..] == [];
    } else {
      SumSnoc(b[1..], x);
      assert (b + [x])[1..] == b[1..] + [x];
    }
  }

  lemma {:induction false} SoundRun(m: Manager, calls: seq<Call>)
    requires Sound(m) && AreCalls(calls)
    ensures Sound(After(m, calls))
    decreases |calls|
  {
    hide Next, InStep, RoundOver;
    if calls != [] {
      SoundRun(m, calls[..|calls| - 1]);
      NextIsSound(After(m, calls[..|calls| - 1]), calls[|calls| - 1]);
    }
  }

  lemma WalkStep(m: Manager, c: Call, p: nat)
    requires Sound(m) && IsCall(c) && p < NUM_PROTOCOLS && c.sinks[p] > 0 && m.walks[p].active
    ensures var r := Next(m, c);
      && r.uids == m.uids && r.rounds == m.rounds && m.walks[p].index <= |m.uids|
      && r.walks[p] == AfterChunk(m.uids, m.walks[p].index, c.budgets[p])
      && r.courses[p] == Continued(p, m.uids, m.walks[p], m.courses[p], c.budgets[p], c.world)
  {
    hide CourseOk, Continued;
    assert InStep(p, m.uids, m.walks[p], m.courses[p]);
    assert DropAll(m.walks, c.sinks)[p] == m.walks[p];
  }

  // ----- The marker and the heartbeat of a run's rounds -----

  /** If the protocol is done with the round it has sent its marker. */
  predicate Ended(c: Course) { c.status.Finished? ==> c.status.ended }

  lemma NextEnds(m: Manager, c: Call, p: nat)
    requires Sound(m) && IsCall(c) && p < NUM_PROTOCOLS && SendsEnd(p, c.world) && Ended(m.courses[p])
    ensures var r := Next(m, c);
      && Ended(r.courses[p])
      && (if Begins(m, c) then
            && |r.rounds| == |m.rounds| + 1 && r.rounds[..|m.rounds|] == m.rounds
            && |r.rounds[|m.rounds|].courses| == NUM_PROTOCOLS && Ended(r.rounds[|m.rounds|].courses[p])
          else r.rounds == m.rounds)
  {
    hide InStep, RoundOver, ChunkSent;
  }

  /** When every call can send the marker of a protocol that has one, which for CSBee takes a footer that can be
      written, the protocol has sent it in every round of the run that it completes, once and behind all turns. */
  lemma {:induction false} RunEndsRounds(m: Manager, calls: seq<Call>, p: nat)
    requires Sound(m) && AreCalls(calls) && p < NUM_PROTOCOLS && KeepsSinks(calls, p) && Ended(m.courses[p])
    requires forall i :: 0 <= i < |calls| ==> SendsEnd(p, calls[i].world)
    ensures var r := After(m, calls);
      && m.rounds <= r.rounds && Ended(r.courses[p])
      && (forall i :: |m.rounds| <= i < |r.rounds| ==>
            |r.rounds[i].courses| == NUM_PROTOCOLS && Ended(r.rounds[i].courses[p]))
      && (forall i :: |m.rounds| < i < |r.rounds| ==>
            Complete(r.rounds[i], p) && MarkedLast(r.rounds[i].courses[p].log, true))
    decreases |calls|
  {
    hide Next, Begins, InStep, RoundOver, Ended, SendsEnd, Uids, MarkedLast, Complete;
    if calls != [] {
      var k := |calls| - 1;
      RunEndsRounds(m, calls[..k], p);
      SoundRun(m, calls[..k]);
      NextEnds(After(m, calls[..k]), calls[k], p);
    }
    RunCompletesRounds(m, calls, p);
    var r := After(m, calls);
    forall i | |m.rounds| < i < |r.rounds|
      ensures Complete(r.rounds[i], p) && MarkedLast(r.rounds[i].courses[p].log, true)
    {
      CompleteIsMarked(r.rounds[i], p);
    }
  }

  lemma CompleteIsMarked(r: Round, p: nat)
    requires p < NUM_PROTOCOLS && Complete(r, p) && Ended(r.courses[p])
    ensures MarkedLast(r.courses[p].log, true)
  {
    hide Uids, MarkedLast;
  }

  function WorldsOf(calls: seq<Call>): (ws: seq<World>)
    ensures |ws| == |calls|
  {
    seq(|calls|, i requires 0 <= i < |calls| => calls[i].world)
  }

  /** What a protocol on its way has sent grows by what the calls send, until it gets to the end. */
  lemma {:induction false} WalkSends(m: Manager, calls: seq<Call>, p: nat)
    requires Sound(m) && AreCalls(calls) && p < NUM_PROTOCOLS && KeepsSinks(calls, p) && m.walks[p].active
    requires calls == [] || m.walks[p].index + Sum(BudgetsOf(calls[..|calls| - 1], p)) < |m.uids|
    ensures m.walks[p].index <= |m.uids|
    ensures After(m, calls).courses[p].log
         == m.courses[p].log + CallsSent(p, m.uids, m.walks[p].index, BudgetsOf(calls, p), WorldsOf(calls))
    decreases |calls|
  {
    hide RoundOver, Next, Sum, ChunkSent, CourseOk;
    assert InStep(p, m.uids, m.walks[p], m.courses[p]);
    if calls != [] {
      var k := |calls| - 1;
      var front, c := calls[..k], calls[k];
      var before := After(m, front);
      BudgetsAdd(front, p);
      assert k > 0 ==> front[..k - 1] == calls[..k - 1];
      WalkAdvances(m, front, p);
      WalkSends(m, front, p);
      SoundRun(m, front);
      NothingAdds(front, p);
      WalkStep(before, c, p);
      CallsSentSnoc(p, m.uids, m.walks[p].index, BudgetsOf(front, p), WorldsOf(front), c.budgets[p], c.world);
      assert BudgetsOf(calls, p) == BudgetsOf(front, p) + [c.budgets[p]];
      assert WorldsOf(calls) == WorldsOf(front) + [c.world];
    } else {
      assert m.courses[p].log + [] == m.courses[p].log;
    }
  }

  lemma NothingAdds(calls: seq<Call>, p: nat)
    requires AreCalls(calls) && p < NUM_PROTOCOLS
    ensures calls == [] ==> Sum(BudgetsOf(calls, p)) == 0
  {
  }

  lemma {:induction false} AfterCons(m: Manager, c: Call, calls: seq<Call>)
    requires |m.walks| == |m.courses| == NUM_PROTOCOLS && IsCall(c) && AreCalls(calls)
    ensures AreCalls([c] + calls) && After(m, [c] + calls) == After(Next(m, c), calls)
    decreases |calls|
  {
    hide Next;
    var all := [c] + calls;
    if calls == [] {
      assert all[..0] == [];
    } else {
      var k := |calls| - 1;
      AfterCons(m, c, calls[..k]);
      assert all[..|all| - 1] == [c] + calls[..k];
    }
  }

  lemma FirstChunkSent(m: Manager, c: Call, p: nat)
    requires Sound(m) && IsCall(c) && Begins(m, c) && p < NUM_PROTOCOLS && c.sinks[p] > 0
    ensures var r, s := Next(m, c), FirstN(c.world.keys, MAX_REPORT_UIDS);
      && r.uids == s && r.walks[p] == AfterChunk(s, 0, c.budgets[p])
      && r.courses[p].log == ChunkSent(p, s, 0, c.budgets[p], c.world)
  {
    hide InStep, RoundOver, ChunkSent;
    var chunk := ChunkSent(p, FirstN(c.world.keys, MAX_REPORT_UIDS), 0, c.budgets[p], c.world);
    assert [] + chunk == chunk;
  }

  lemma NoCalls(m: Manager)
    requires |m.walks| == |m.courses| == NUM_PROTOCOLS
    ensures After(m, []) == m
  {
  }

  lemma BudgetsCons(c: Call, calls: seq<Call>, p: nat)
    requires IsCall(c) && AreCalls(calls) && p < NUM_PROTOCOLS
    ensures AreCalls([c] + calls)
    ensures BudgetsOf([c] + calls, p) == [c.budgets[p]] + BudgetsOf(calls, p)
  {
  }

  lemma WorldsCons(c: Call, calls: seq<Call>)
    ensures WorldsOf([c] + calls) == [c.world] + WorldsOf(calls)
  {
  }

  lemma FirstCallSent(p: nat, snapshot: seq<nat>, c: Call, calls: seq<Call>)
    requires IsCall(c) && AreCalls(calls) && p < NUM_PROTOCOLS
    requires calls == [] || c.budgets[p] < |snapshot|
    ensures AreCalls([c] + calls)
    ensures var first := ChunkSent(p, snapshot, 0, c.budgets[p], c.world);
            CallsSent(p, snapshot, 0, BudgetsOf([c] + calls, p), WorldsOf([c] + calls))
            == if calls == [] then first
               else first + CallsSent(p, snapshot, c.budgets[p], BudgetsOf(calls, p), WorldsOf(calls))
  {
    hide ChunkSent, CallsSent, BudgetsOf, WorldsOf;
    BudgetsCons(c, calls, p);
    WorldsCons(c, calls);
    CallsSentCons(p, snapshot, 0, c.budgets[p], BudgetsOf(calls, p), c.world, WorldsOf(calls));
  }

  /** From the call that begins a round to the one in which it gets to the end, what a listening protocol has sent in
      the round is what its budgets make of the snapshot. */
  lemma RoundSends(m: Manager, c: Call, calls: seq<Call>, p: nat)
    requires Sound(m) && IsCall(c) && AreCalls(calls) && p < NUM_PROTOCOLS && Begins(m, c)
    requires c.sinks[p] > 0 && KeepsSinks(calls, p)
    requires var s := FirstN(c.world.keys, MAX_REPORT_UIDS);
             calls == [] || c.budgets[p] + Sum(BudgetsOf(calls[..|calls| - 1], p)) < |s|
    ensures AreCalls([c] + calls)
    ensures After(m, [c] + calls).courses[p].log
         == CallsSent(p, FirstN(c.world.keys, MAX_REPORT_UIDS), 0, BudgetsOf([c] + calls, p), WorldsOf([c] + calls))
  {
    hide Next, After, Begins, Sum, ChunkSent, CallsSent, InStep, RoundOver, CourseOk, FirstN;
    AfterCons(m, c, calls);
    NextIsSound(m, c);
    FirstChunkSent(m, c, p);
    FirstCallSent(p, FirstN(c.world.keys, MAX_REPORT_UIDS), c, calls);
    if calls != [] {
      WalkSends(Next(m, c), calls, p);
    } else {
      NoCalls(Next(m, c));
    }
  }

  /** So the heartbeat goes out once in the round exactly when its first call gets to an aircraft, or there is none,
      or one call is all there is. */
  lemma RoundHeartbeatExactly(m: Manager, c: Call, calls: seq<Call>, p: nat)
    requires Sound(m) && IsCall(c) && AreCalls(calls) && p < NUM_PROTOCOLS && Begins(m, c)
    requires c.sinks[p] > 0 && KeepsSinks(calls, p) && HasStart(p)
    requires var s := FirstN(c.world.keys, MAX_REPORT_UIDS);
             calls == [] || c.budgets[p] + Sum(BudgetsOf(calls[..|calls| - 1], p)) < |s|
    ensures AreCalls([c] + calls)
    ensures multiset(After(m, [c] + calls).courses[p].log)[Start] == 1
        <==> c.budgets[p] > 0 || c.world.keys == [] || calls == []
  {
    hide Next, Begins, Sum, CallsSent, InStep, RoundOver;
    RoundSends(m, c, calls, p);
    HeartbeatOnceExactly(p, FirstN(c.world.keys, MAX_REPORT_UIDS), BudgetsOf([c] + calls, p), WorldsOf([c] + calls));
  }

  class CommsManager {
    var reportUids: seq<nat>
    var walks: seq<Walk>
    var last: uint32
    ghost var courses: seq<Course>
    ghost var rounds: seq<Round>

    ghost function Value(): Manager
      reads this
    {
      Manager(reportUids, walks, last, courses, rounds)
    }

    constructor ()
      ensures Sound(Value()) && rounds == [] && last == 0
      ensures forall p :: 0 <= p < NUM_PROTOCOLS ==> !walks[p].active && courses[p].status.Idle?
    {
      reportUids, last := [], 0;
      walks := seq(NUM_PROTOCOLS, _ => Walk(0, false));
      courses, rounds := seq(NUM_PROTOCOLS, _ => Course(Idle, [])), [];
    }

    /** A protocol that lost its sinks leaves the round. */
    method DropLost(sinks: seq<nat>)
      requires Sound(Value()) && |sinks| == NUM_PROTOCOLS
      modifies this`walks, this`courses
      ensures Value() == Dropping(old(Value()), sinks)
    {
      hide CourseOk, InStep, RoundOver;
      for p := 0 to NUM_PROTOCOLS
        invariant |walks| == |courses| == NUM_PROTOCOLS
        invariant forall q :: 0 <= q < p ==> walks[q] == DroppedWalk(old(walks)[q], sinks[q])
        invariant forall q :: 0 <= q < p ==> courses[q] == DroppedCourse(old(walks)[q], old(courses)[q], sinks[q])
        invariant forall q :: p <= q < NUM_PROTOCOLS ==> walks[q] == old(walks)[q] && courses[q] == old(courses)[q]
      {
        if walks[p].active && sinks[p] == 0 {
          courses := courses[p := Course(Dropped, courses[p].log)];
          walks := walks[p := walks[p].(active := false)];
        }
      }
      assert walks == Dropping(old(Value()), sinks).walks;
      assert courses == Dropping(old(Value()), sinks).courses;
    }

    /** The snapshot: the keys in iteration order, as many as there is room for. */
    method TakeSnapshot(keys: seq<nat>) returns (uids: seq<nat>)
      ensures uids == FirstN(keys, MAX_REPORT_UIDS)
    {
      uids := [];
      for i := 0 to |keys|
        invariant uids == FirstN(keys[..i], MAX_REPORT_UIDS)
      {
        if |uids| < MAX_REPORT_UIDS {
          uids := uids + [keys[i]];
        }
      }
      assert keys[..|keys|] == keys;
    }

    /** The round is put on record and a new one begins for the protocols that have sinks. */
    method StartRound(c: Call)
      requires IsCall(c)
      modifies this
      ensures Value() == Starting(old(Value()), c)
    {
      last := c.now;
      rounds := rounds + [Round(reportUids, courses)];
      reportUids := TakeSnapshot(c.world.keys);
      walks := seq(NUM_PROTOCOLS, p requires 0 <= p < NUM_PROTOCOLS => Walk(0, c.sinks[p] > 0));
      courses := seq(NUM_PROTOCOLS, p requires 0 <= p < NUM_PROTOCOLS =>
        Course(if c.sinks[p] > 0 then Walking else Idle, []));
    }

    /** ReportCSBee, ReportMAVLINK, ReportGDL90 and ReportAircraftJSON: one chunk of one protocol. */
    method ReportChunk(p: nat, budget: nat, w: World)
      requires |walks| == |courses| == NUM_PROTOCOLS && p < NUM_PROTOCOLS
      requires walks[p].active && walks[p].index <= |reportUids|
      modifies this`walks, this`courses
      ensures walks == old(walks)[p := AfterChunk(reportUids, old(walks)[p].index, budget)]
      ensures courses == old(courses)[p := Continued(p, reportUids, old(walks)[p], old(courses)[p], budget, w)]
    {
      hide ChunkSent;
      var walk;
      ghost var sent;
      walk, sent := WalkChunk(p, reportUids, walks[p].index, budget, w);
      courses := courses[p := Course(if walk.active then Walking else Finished(SendsEnd(p, w)), courses[p].log + sent)];
      walks := walks[p := walk];
    }

    /** UpdateReporting, as far as the locally decoded protocols go. */
    method UpdateReporting(c: Call) returns (started: bool)
      requires Sound(Value()) && IsCall(c)
      modifies this
      ensures Sound(Value()) && Value() == Next(old(Value()), c)
      ensures started <==> Begins(old(Value()), c)
    {
      hide InStep, RoundOver, Driving, Dropping, Starting;
      NextIsSound(Value(), c);
      DroppedWalks(Value(), c.sinks);
      DroppingIsSound(Value(), c.sinks);
      DropLost(c.sinks);
      var done, any := true, false;
      for p := 0 to NUM_PROTOCOLS
        invariant Value() == Dropping(old(Value()), c.sinks)
        invariant done <==> forall q :: 0 <= q < p ==> !walks[q].active
        invariant any <==> exists q :: 0 <= q < p && c.sinks[q] > 0
      {
        done := done && !walks[p].active;
        any := any || c.sinks[p] > 0;
      }
      started := any && done && U32(c.now - last) >= INTERVAL_MS;
      if started {
        StartingIsSound(Value(), c);
        StartRound(c);
      }
      Drive(c);
    }

    /** Each protocol in the round takes its chunk, in turn. */
    method Drive(c: Call)
      requires Sound(Value()) && IsCall(c)
      modifies this`walks, this`courses
      ensures Value() == Driving(old(Value()), c)
    {
      hide CourseOk, Continued, AfterChunk, RoundOver;
      ghost var m := Value();
      WalkersInRange(m);
      for p := 0 to NUM_PROTOCOLS
        invariant |walks| == |courses| == NUM_PROTOCOLS
        invariant forall q :: 0 <= q < p ==>
                    if Walks(m, q) then
                      && walks[q] == AfterChunk(reportUids, m.walks[q].index, c.budgets[q])
                      && courses[q] == Continued(q, reportUids, m.walks[q], m.courses[q], c.budgets[q], c.world)
                    else walks[q] == m.walks[q] && courses[q] == m.courses[q]
        invariant forall q :: p <= q < NUM_PROTOCOLS ==> walks[q] == m.walks[q] && courses[q] == m.courses[q]
      {
        if walks[p].active {
          ReportChunk(p, c.budgets[p], c.world);
        }
      }
      assert walks == Driving(m, c).walks;
      assert courses == Driving(m, c).courses;
    }

    /** A run of calls takes the manager where After says. */
    method Run(calls: seq<Call>)
      requires Sound(Value()) && AreCalls(calls)
      modifies this
      ensures Sound(Value()) && Value() == After(old(Value()), calls)
    {
      hide Next, InStep, RoundOver;
      assert calls[..0] == [];
      for i := 0 to |calls|
        invariant Sound(Value()) && Value() == After(old(Value()), calls[..i])
      {
        var _ := UpdateReporting(calls[i]);
        assert calls[..i + 1][..i] == calls[..i];
      }
      assert calls[..|calls|] == calls;
    }
  }

  lemma WalkersInRange(m: Manager)
    requires Sound(m)
    ensures forall p :: 0 <= p < NUM_PROTOCOLS && m.walks[p].active ==> Walks(m, p)
  {
    hide CourseOk;
  }

  /** A protocol that still walks keeps the snapshot from being rebuilt, and one that lost its sinks does not. */
  lemma WalkerHoldsSnapshot(m: Manager, c: Call)
    requires |m.walks| == NUM_PROTOCOLS && IsCall(c) && U32(c.now - m.last) >= INTERVAL_MS
    requires exists p :: 0 <= p < NUM_PROTOCOLS && c.sinks[p] > 0
    ensures Begins(m, c) <==> forall p :: 0 <= p < NUM_PROTOCOLS ==> m.walks[p].active ==> c.sinks[p] == 0
  {
    var dropped := DropAll(m.walks, c.sinks);
    assert forall p :: 0 <= p < NUM_PROTOCOLS ==> dropped[p] == DroppedWalk(m.walks[p], c.sinks[p]);
  }
}
