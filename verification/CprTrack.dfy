/**
 The position track of a Mode S aircraft: even and odd position packets are paired for decoding, and the pair
 is thrown away when the aircraft changes between air and ground or too much time has passed.
 */
module CprTrack {
  import opened Arith
  import opened PositionFilter
  import opened Wrappers

  const DEFAULT_CPR_INTERVAL_MS: nat := 10000
  const MAX_CPR_INTERVAL_MS: nat := 30000
  const MAX_TRACK_UPDATE_INTERVAL_MS: nat := 20000
  const CPR_MAX_COUNT: nat := 131071

  /** A stored half of a pair; a timestamp of 0 means none.  The kind of message it came from, airborne or
      surface, is history: the program does not keep it. */
  datatype Cpr = Cpr(timestamp: uint32, nLat: uint32, nLon: uint32, airborne: bool)

  datatype SpeedSource = NotSet | NotAvailable | GroundSpeed | Airspeed

  datatype Track = Track(airborne: bool, speedSource: SpeedSource, speedKts: int32, even: Cpr, odd: Cpr, filter: Filter)

  /** What lies outside: the CPR decoder for a pair and a reference position, and the distance on the geoid. */
  datatype Env = Env(decode: (bool, Cpr, Cpr, Pos) -> Option<Pos>, distance: (Pos, Pos) -> nat)

  function NewTrack(): Track {
    var none := Cpr(0, 0, 0, false);
    Track(false, NotSet, 0, none, none, Filter(false, 0, 0, Pos(0, 0), Pos(0, 0)))
  }

  function ClearCPRPackets(t: Track): Track {
    t.(even := t.even.(timestamp := 0), odd := t.odd.(timestamp := 0))
  }

  /** WriteBitFlag for the airborne flag. */
  function WriteAirborne(t: Track, value: bool): Track {
    (if t.airborne != value then ClearCPRPackets(t) else t).(airborne := value)
  }

  /** GetMaxAllowedCPRIntervalMs; the division is unsigned, so a negative speed counts as a very large one. */
  function MaxAllowedInterval(t: Track, now: uint32): (ms: nat)
    ensures ms <= MAX_CPR_INTERVAL_MS
  {
    if t.speedSource.NotSet? || t.speedSource.NotAvailable?
       || U32(now - t.filter.lastTrackUpdate) > MAX_TRACK_UPDATE_INTERVAL_MS
    then DEFAULT_CPR_INTERVAL_MS
    else if t.speedKts == 0 then MAX_CPR_INTERVAL_MS
    else Min(Quotient(9500000, U32(t.speedKts)), MAX_CPR_INTERVAL_MS)
  }

  /** A known speed on a fresh track scales the allowance: 19 s at 500 knots, the cap of 30 s up to 316 knots, and
      above that 9500000 ms divided by the speed, rounded down. */
  lemma IntervalScales(t: Track, now: uint32)
    requires (t.speedSource.GroundSpeed? || t.speedSource.Airspeed?) && t.speedKts >= 0
    requires U32(now - t.filter.lastTrackUpdate) <= MAX_TRACK_UPDATE_INTERVAL_MS
    ensures MaxAllowedInterval(t, now) == MAX_CPR_INTERVAL_MS <==> t.speedKts <= 316
    ensures t.speedKts == 500 ==> MaxAllowedInterval(t, now) == 19000
    ensures t.speedKts > 316 ==>
              var ms := MaxAllowedInterval(t, now);
              ms * t.speedKts <= 9500000 < (ms + 1) * t.speedKts
  {
    hide Quotient;
    var v := t.speedKts as int;
    if v > 0 {
      QuotientBounds(9500000, v);
      QuotientOfSpeed(Quotient(9500000, v), v);
    }
  }

  /** Without a known speed, or on a track that has not been updated for 20 s, the allowance is 10 s; a negative speed
      leaves none. */
  lemma IntervalOtherwise(t: Track, now: uint32)
    ensures t.speedSource.NotSet? || t.speedSource.NotAvailable?
            || U32(now - t.filter.lastTrackUpdate) > MAX_TRACK_UPDATE_INTERVAL_MS ==>
              MaxAllowedInterval(t, now) == 10000
    ensures (t.speedSource.GroundSpeed? || t.speedSource.Airspeed?) && t.speedKts < 0
            && U32(now - t.filter.lastTrackUpdate) <= MAX_TRACK_UPDATE_INTERVAL_MS ==>
              MaxAllowedInterval(t, now) == 0
  {
    hide Quotient;
    if t.speedKts < 0 {
      QuotientSmall(9500000, U32(t.speedKts));
    }
  }

  lemma QuotientSmall(a: nat, b: nat)
    requires a < b
    ensures Quotient(a, b) == 0
  {
  }

  lemma QuotientBounds(a: nat, b: nat)
    requires b > 0
    ensures Quotient(a, b) * b <= a < (Quotient(a, b) + 1) * b
  {
  }

  lemma QuotientOfSpeed(q: nat, v: nat)
    requires q * v <= 9500000 < (q + 1) * v
    ensures q >= 30000 <==> v <= 316
    ensures v == 500 ==> q == 19000
  {
    if v <= 316 {
      Scaled(q + 1, v, 316);
    } else {
      Scaled(q, 317, v);
    }
  }

  lemma Scaled(q: nat, a: nat, b: nat)
    requires a <= b
    ensures q * a <= q * b
  {
  }

  function Quotient(a: nat, b: nat): nat { if b == 0 then 0 else a / b }

  /** SetCPRLatLon for a packet from a message of the given kind. */
  function SetCPRLatLon(t: Track, odd: bool, nLat: uint32, nLon: uint32, timestamp: uint32, kind: bool, now: uint32):
    Track
  {
    if nLat > CPR_MAX_COUNT || nLon > CPR_MAX_COUNT then t
    else
      var other := if odd then t.even else t.odd;
      var kept := if AbsDiff(timestamp, other.timestamp) > MaxAllowedInterval(t, now) then ClearCPRPackets(t) else t;
      var packet := Cpr(timestamp, nLat, nLon, kind);
      if odd then kept.(odd := packet) else kept.(even := packet)
  }

  predicate HasPair(t: Track) { t.odd.timestamp > 0 && t.even.timestamp > 0 }

  /** The time between the halves, on the circle of uint32_t. */
  function CprInterval(t: Track): nat {
    Min(U32(t.odd.timestamp - t.even.timestamp), U32(t.even.timestamp - t.odd.timestamp))
  }

  predicate CanDecode(t: Track, now: uint32) { HasPair(t) && CprInterval(t) <= MaxAllowedInterval(t, now) }

  /** What CanDecodePosition leaves behind: a pair that is too far apart makes the position invalid. */
  function CanDecodeInputs(t: Track, now: uint32): seq<Input> {
    if HasPair(t) && CprInterval(t) > MaxAllowedInterval(t, now) then [Invalidate] else []
  }

  function Feed(t: Track, inputs: seq<Input>, env: Env): Track {
    t.(filter := Run(t.filter, inputs, env.distance))
  }

  /** One call of the CPR decoder. */
  datatype Attempt = Attempt(airborne: bool, even: Cpr, odd: Cpr)

  /** The result of handling a message: the track, the decoder call if there was one, the filter inputs, and
      whether a position was published. */
  datatype Handled = Handled(track: Track, attempt: Option<Attempt>, inputs: seq<Input>, published: bool)

  function DecodePosition(t: Track, airborne: bool, ref: Pos, filterOn: bool, now: uint32, env: Env): Handled {
    if !CanDecode(t, now) then
      var inputs := CanDecodeInputs(t, now);
      Handled(Feed(t, inputs, env), None, inputs, false)
    else
      var attempt := Some(Attempt(airborne, t.even, t.odd));
      var result := env.decode(airborne, t.even, t.odd, ref);
      if result.None? then Handled(t, attempt, [], false)
      else
        var timestamp := Max(t.even.timestamp, t.odd.timestamp);
        var input := if filterOn then Candidate(timestamp, result.value) else Unfiltered(timestamp, result.value);
        Handled(Feed(t, [input], env), attempt, [input], Judge(t.filter, input, env.distance).Published?)
  }

  /** The tail that both position messages share, with the clock as read at its three places. */
  datatype Clock = Clock(store: uint32, check: uint32, decode: uint32)

  datatype Report = Report(odd: bool, nLat: uint32, nLon: uint32, timestamp: uint32)

  function HandlePosition(t: Track, kind: bool, r: Report, ref: Pos, filterOn: bool, clock: Clock, env: Env): Handled {
    var stored := SetCPRLatLon(t, r.odd, r.nLat, r.nLon, r.timestamp, kind, clock.store);
    var inputs := CanDecodeInputs(stored, clock.check);
    var checked := Feed(stored, inputs, env);
    if !CanDecode(stored, clock.check) then Handled(checked, None, inputs, false)
    else DecodePosition(checked, kind, ref, filterOn, clock.decode, env)
  }

  /** A report is accepted unless a pair that could be decoded publishes nothing. */
  predicate ReportAccepted(t: Track, kind: bool, r: Report, ref: Pos, filterOn: bool, clock: Clock, env: Env) {
    HandlePosition(t, kind, r, ref, filterOn, clock, env).published
    || !CanDecode(SetCPRLatLon(t, r.odd, r.nLat, r.nLon, r.timestamp, kind, clock.store), clock.check)
  }

  datatype Message =
    | Surface(speed: Option<int32>, surface: Report, ref: Pos)
    | Airborne(supported: bool, air: Report)
    | Velocity(source: Option<SpeedSource>, kts: Option<int32>)
    | AirGround(known: bool, value: bool)
    | Unrelated

  function WithSpeed(t: Track, source: Option<SpeedSource>, kts: Option<int32>): Track {
    t.(speedSource := if source.Some? then source.value else t.speedSource,
       speedKts := if kts.Some? then kts.value else t.speedKts)
  }

  /** ApplySurfacePositionMessage, ApplyAirbornePositionMessage (which gives up on an unsupported type code before
      it stores anything), ApplyAirborneVelocitiesMessage, and the airborne flag of identity and altitude replies. */
  function Handle(t: Track, m: Message, filterOn: bool, clock: Clock, env: Env): Handled {
    match m
    case Surface(speed, r, ref) =>
      HandlePosition(WithSpeed(WriteAirborne(t, false), Some(GroundSpeed), speed), false, r, ref, filterOn, clock, env)
    case Airborne(supported, r) =>
      if supported then HandlePosition(WriteAirborne(t, true), true, r, Pos(0, 0), filterOn, clock, env)
      else Handled(WriteAirborne(t, true), None, [], false)
    case Velocity(source, kts) => Handled(WithSpeed(WriteAirborne(t, true), source, kts), None, [], false)
    case AirGround(known, value) => Handled(if known then WriteAirborne(t, value) else t, None, [], false)
    case Unrelated => Handled(t, None, [], false)
  }

  // ----- Pairs never mix -----

  predicate InCounts(c: Cpr) { c.nLat <= CPR_MAX_COUNT && c.nLon <= CPR_MAX_COUNT }

  /** Each stored half is of the kind that the airborne flag says, with counts of 17 bits, and two stored halves are at
      most 30 s apart. */
  predicate Paired(t: Track) {
    && (t.even.timestamp > 0 ==> t.even.airborne == t.airborne && InCounts(t.even))
    && (t.odd.timestamp > 0 ==> t.odd.airborne == t.airborne && InCounts(t.odd))
    && (HasPair(t) ==> AbsDiff(t.even.timestamp, t.odd.timestamp) <= MAX_CPR_INTERVAL_MS)
  }

  /** The decoder was called for two halves of the one kind it was asked for, with counts of 17 bits, at most 30 s
      apart. */
  predicate SoundAttempt(a: Attempt) {
    && a.even.airborne == a.airborne && a.odd.airborne == a.airborne && InCounts(a.even) && InCounts(a.odd)
    && a.even.timestamp > 0 && a.odd.timestamp > 0
    && AbsDiff(a.even.timestamp, a.odd.timestamp) <= MAX_CPR_INTERVAL_MS
  }

  predicate SoundlyHandled(h: Handled) {
    Paired(h.track) && (h.attempt.Some? ==> SoundAttempt(h.attempt.value))
  }

  lemma StoringKeepsPaired(t: Track, r: Report, kind: bool, now: uint32)
    requires Paired(t) && t.airborne == kind
    ensures var s := SetCPRLatLon(t, r.odd, r.nLat, r.nLon, r.timestamp, kind, now);
            Paired(s) && s.airborne == kind
  {
    hide MaxAllowedInterval;
  }

  lemma PositionHandledSoundly(t: Track, kind: bool, r: Report, ref: Pos, filterOn: bool, clock: Clock, env: Env)
    requires Paired(t) && t.airborne == kind
    ensures SoundlyHandled(HandlePosition(t, kind, r, ref, filterOn, clock, env))
  {
    hide MaxAllowedInterval, SetCPRLatLon, Judge, Run;
    StoringKeepsPaired(t, r, kind, clock.store);
  }

  /** Every message keeps the stored halves paired, and no decode mixes kinds or stale halves. */
  lemma HandledSoundly(t: Track, m: Message, filterOn: bool, clock: Clock, env: Env)
    requires Paired(t)
    ensures SoundlyHandled(Handle(t, m, filterOn, clock, env))
  {
    hide HandlePosition;
    match m
    case Surface(speed, r, ref) =>
      PositionHandledSoundly(WithSpeed(WriteAirborne(t, false), Some(GroundSpeed), speed), false, r, ref, filterOn,
                             clock, env);
    case Airborne(supported, r) =>
      if supported {
        PositionHandledSoundly(WriteAirborne(t, true), true, r, Pos(0, 0), filterOn, clock, env);
      }
    case Velocity(source, kts) =>
    case AirGround(known, value) =>
    case Unrelated =>
  }

  // ----- Fresh pairs are decoded, stale ones are not -----

  lemma IntervalOnCircle(t: Track)
    ensures CprInterval(t) <= AbsDiff(t.odd.timestamp, t.even.timestamp)
    ensures AbsDiff(t.odd.timestamp, t.even.timestamp) <= MAX_CPR_INTERVAL_MS ==>
              CprInterval(t) == AbsDiff(t.odd.timestamp, t.even.timestamp)
  {
  }

  /** The other half of the pair than the one a report is for. */
  function Other(t: Track, odd: bool): Cpr { if odd then t.even else t.odd }

  /** Storing a half makes a pair exactly when both halves have a time and they are no farther apart than is
      allowed at that moment; the other half is then kept as it was, and the pair can be decoded at once. */
  lemma FreshPairDecodes(t: Track, r: Report, kind: bool, now: uint32)
    requires r.nLat <= CPR_MAX_COUNT && r.nLon <= CPR_MAX_COUNT
    ensures var s := SetCPRLatLon(t, r.odd, r.nLat, r.nLon, r.timestamp, kind, now);
            var near := AbsDiff(r.timestamp, Other(t, r.odd).timestamp) <= MaxAllowedInterval(t, now);
            && Other(s, !r.odd) == Cpr(r.timestamp, r.nLat, r.nLon, kind)
            && (HasPair(s) <==> r.timestamp > 0 && Other(t, r.odd).timestamp > 0 && near)
            && (HasPair(s) ==> Other(s, r.odd) == Other(t, r.odd) && CanDecode(s, now))
  {
    var s := SetCPRLatLon(t, r.odd, r.nLat, r.nLon, r.timestamp, kind, now);
    SameAllowance(t, s, now);
    IntervalOnCircle(s);
    hide MaxAllowedInterval, CprInterval;
  }

  lemma SameAllowance(t: Track, s: Track, now: uint32)
    requires s.speedSource == t.speedSource && s.speedKts == t.speedKts
    requires s.filter.lastTrackUpdate == t.filter.lastTrackUpdate
    ensures MaxAllowedInterval(s, now) == MaxAllowedInterval(t, now)
  {
  }

  /** So a report whose other half is stored, of the same kind and fresh, reaches the decoder with exactly those
      two halves. */
  lemma PairIsDecoded(t: Track, r: Report, ref: Pos, filterOn: bool, now: uint32, env: Env)
    requires r.nLat <= CPR_MAX_COUNT && r.nLon <= CPR_MAX_COUNT && r.timestamp > 0
    requires Other(t, r.odd).timestamp > 0
    requires AbsDiff(r.timestamp, Other(t, r.odd).timestamp) <= MaxAllowedInterval(t, now)
    ensures var half := Cpr(r.timestamp, r.nLat, r.nLon, t.airborne);
            HandlePosition(t, t.airborne, r, ref, filterOn, Clock(now, now, now), env).attempt
            == Some(Attempt(t.airborne, if r.odd then t.even else half, if r.odd then half else t.odd))
  {
    FreshPairDecodes(t, r, t.airborne, now);
    var s := SetCPRLatLon(t, r.odd, r.nLat, r.nLon, r.timestamp, t.airborne, now);
    CanDecodeHasNoInputs(s, now);
    RunNothing(s.filter, env.distance);
    hide CanDecode, MaxAllowedInterval, SetCPRLatLon, Run, Judge;
  }

  /** A report whose counts have more than 17 bits is dropped: the halves stay as they are. */
  lemma OverlongIgnored(t: Track, kind: bool, r: Report, ref: Pos, filterOn: bool, clock: Clock, env: Env)
    requires r.nLat > CPR_MAX_COUNT || r.nLon > CPR_MAX_COUNT
    ensures var u := HandlePosition(t, kind, r, ref, filterOn, clock, env).track;
            u.even == t.even && u.odd == t.odd
  {
    hide MaxAllowedInterval, Run, Judge, CprInterval;
  }

  /** The message that completes a pair: the aircraft was known to be in the air, or on the ground, and is there still,
      so the half that was stored is decoded together with the new one; the speed that a surface message brings counts
      already. */
  lemma CompletedPairIsDecoded(t: Track, m: Message, filterOn: bool, now: uint32, env: Env)
    requires (m.Airborne? && m.supported) || m.Surface?
    requires t.airborne == m.Airborne?
    requires var r := if m.Airborne? then m.air else m.surface;
             var u := if m.Airborne? then t else WithSpeed(t, Some(GroundSpeed), m.speed);
             && r.nLat <= CPR_MAX_COUNT && r.nLon <= CPR_MAX_COUNT && r.timestamp > 0 && Other(t, r.odd).timestamp > 0
             && AbsDiff(r.timestamp, Other(t, r.odd).timestamp) <= MaxAllowedInterval(u, now)
    ensures var r := if m.Airborne? then m.air else m.surface;
            var half := Cpr(r.timestamp, r.nLat, r.nLon, t.airborne);
            Handle(t, m, filterOn, Clock(now, now, now), env).attempt
            == Some(Attempt(t.airborne, if r.odd then t.even else half, if r.odd then half else t.odd))
  {
    hide HandlePosition, MaxAllowedInterval;
    if m.Airborne? {
      PairIsDecoded(t, m.air, Pos(0, 0), filterOn, now, env);
    } else {
      PairIsDecoded(WithSpeed(t, Some(GroundSpeed), m.speed), m.surface, m.ref, filterOn, now, env);
    }
  }

  /** What the decoder makes of a pair that is near enough goes to the filter, as one candidate at the time of the later
      half, or unfiltered; if it makes nothing of it, nothing changes. */
  lemma DecodedIsFed(t: Track, airborne: bool, ref: Pos, filterOn: bool, now: uint32, env: Env)
    requires t.even.timestamp > 0 && t.odd.timestamp > 0 && CprInterval(t) <= MaxAllowedInterval(t, now)
    ensures var h := DecodePosition(t, airborne, ref, filterOn, now, env);
            var result := env.decode(airborne, t.even, t.odd, ref);
            if result.None? then h.inputs == [] && h.track == t && !h.published
            else
              var at := Max(t.even.timestamp, t.odd.timestamp);
              var input := if filterOn then Candidate(at, result.value) else Unfiltered(at, result.value);
              && h.inputs == [input] && h.track == t.(filter := Next(t.filter, input, env.distance))
              && (h.published <==> Judge(t.filter, input, env.distance).Published?)
              && (!filterOn ==> h.published)
  {
    hide MaxAllowedInterval, CprInterval;
    var result := env.decode(airborne, t.even, t.odd, ref);
    if result.Some? {
      var at := Max(t.even.timestamp, t.odd.timestamp);
      var input := if filterOn then Candidate(at, result.value) else Unfiltered(at, result.value);
      assert [input][..0] == [];
      assert Run(t.filter, [input], env.distance) == Next(t.filter, input, env.distance);
    }
  }

  /** A stored pair that is too far apart is not decoded: the position becomes invalid and stays where it was. */
  lemma StalePairInvalidates(t: Track, airborne: bool, ref: Pos, filterOn: bool, now: uint32, env: Env)
    requires HasPair(t) && !CanDecode(t, now)
    ensures var h := DecodePosition(t, airborne, ref, filterOn, now, env);
            && h.attempt.None? && !h.published && !h.track.filter.positionValid
            && h.track.filter.published == t.filter.published
  {
    assert [Invalidate][..0] == [];
    assert Run(t.filter, [Invalidate], env.distance) == Next(t.filter, Invalidate, env.distance);
  }

  /** What is published is what the decoder made of the stored pair, at the time of its later half. */
  lemma PublishedIsDecoded(t: Track, airborne: bool, ref: Pos, filterOn: bool, now: uint32, env: Env)
    requires DecodePosition(t, airborne, ref, filterOn, now, env).published
    ensures var f := DecodePosition(t, airborne, ref, filterOn, now, env).track.filter;
            && env.decode(airborne, t.even, t.odd, ref) == Some(f.published)
            && f.positionValid && f.lastTrackUpdate == Max(t.even.timestamp, t.odd.timestamp)
  {
    hide MaxAllowedInterval, CprInterval;
    var result := env.decode(airborne, t.even, t.odd, ref);
    var timestamp := Max(t.even.timestamp, t.odd.timestamp);
    var input := if filterOn then Candidate(timestamp, result.value) else Unfiltered(timestamp, result.value);
    assert [input][..0] == [];
    assert Run(t.filter, [input], env.distance) == Next(t.filter, input, env.distance);
  }

  /** A report fails exactly when it leaves a pair that is near enough to be decoded and yet nothing is published. */
  lemma AcceptedExactly(t: Track, kind: bool, r: Report, ref: Pos, filterOn: bool, clock: Clock, env: Env)
    ensures var s := SetCPRLatLon(t, r.odd, r.nLat, r.nLon, r.timestamp, kind, clock.store);
            !ReportAccepted(t, kind, r, ref, filterOn, clock, env)
            <==> s.even.timestamp > 0 && s.odd.timestamp > 0 && CprInterval(s) <= MaxAllowedInterval(s, clock.check)
                 && !HandlePosition(t, kind, r, ref, filterOn, clock, env).published
  {
    hide MaxAllowedInterval, CprInterval, HandlePosition, SetCPRLatLon;
  }

  /** A velocity message sets the speed by which the allowance is scaled, and leaves the halves of an aircraft in the
      air alone. */
  lemma VelocityScales(t: Track, source: SpeedSource, kts: int32, filterOn: bool, clock: Clock, env: Env, now: uint32)
    requires (source.GroundSpeed? || source.Airspeed?) && kts > 316
    requires U32(now - t.filter.lastTrackUpdate) <= MAX_TRACK_UPDATE_INTERVAL_MS
    ensures var u := Handle(t, Velocity(Some(source), Some(kts)), filterOn, clock, env).track;
            var ms := MaxAllowedInterval(u, now);
            && ms * kts <= 9500000 < (ms + 1) * kts && u.airborne && u.filter == t.filter
            && (t.airborne ==> u.even == t.even && u.odd == t.odd)
  {
    IntervalScales(Handle(t, Velocity(Some(source), Some(kts)), filterOn, clock, env).track, now);
    hide MaxAllowedInterval;
  }

  // ----- Whole runs -----

  datatype Received = Received(message: Message, clock: Clock)

  function After(ms: seq<Received>, filterOn: bool, env: Env): Track
    decreases |ms|
  {
    if ms == [] then NewTrack()
    else
      var k := |ms| - 1;
      Handle(After(ms[..k], filterOn, env), ms[k].message, filterOn, ms[k].clock, env).track
  }

  /** Where a stored half comes from: a message of its kind and parity, with its time and its counts. */
  predicate IsFrom(c: Cpr, odd: bool, m: Message) {
    match m
    case Surface(_, r, _) => r == Report(odd, c.nLat, c.nLon, c.timestamp) && !c.airborne
    case Airborne(supported, r) => supported && r == Report(odd, c.nLat, c.nLon, c.timestamp) && c.airborne
    case _ => false
  }

  ghost predicate WasReceived(c: Cpr, odd: bool, ms: seq<Received>) {
    exists i :: 0 <= i < |ms| && IsFrom(c, odd, ms[i].message)
  }

  /** Handling a position message stores its packet, keeps a half, or clears it. */
  lemma PositionStores(t: Track, kind: bool, r: Report, ref: Pos, filterOn: bool, clock: Clock, env: Env)
    ensures var u := HandlePosition(t, kind, r, ref, filterOn, clock, env).track;
            && (u.even.timestamp > 0 ==>
                  u.even == t.even || (!r.odd && u.even == Cpr(r.timestamp, r.nLat, r.nLon, kind)))
            && (u.odd.timestamp > 0 ==> u.odd == t.odd || (r.odd && u.odd == Cpr(r.timestamp, r.nLat, r.nLon, kind)))
  {
    hide MaxAllowedInterval, Run, Judge, CanDecode, CanDecodeInputs;
    var stored := SetCPRLatLon(t, r.odd, r.nLat, r.nLon, r.timestamp, kind, clock.store);
    var u := HandlePosition(t, kind, r, ref, filterOn, clock, env).track;
    assert u.even == stored.even && u.odd == stored.odd;
  }

  lemma StoredFrom(t: Track, m: Message, filterOn: bool, clock: Clock, env: Env)
    ensures var u := Handle(t, m, filterOn, clock, env).track;
            && (u.even.timestamp > 0 ==> u.even == t.even || IsFrom(u.even, false, m))
            && (u.odd.timestamp > 0 ==> u.odd == t.odd || IsFrom(u.odd, true, m))
  {
    hide HandlePosition;
    match m
    case Surface(speed, r, ref) =>
      PositionStores(WithSpeed(WriteAirborne(t, false), Some(GroundSpeed), speed), false, r, ref, filterOn, clock, env);
    case Airborne(supported, r) =>
      PositionStores(WriteAirborne(t, true), true, r, Pos(0, 0), filterOn, clock, env);
    case Velocity(source, kts) =>
    case AirGround(known, value) =>
    case Unrelated =>
  }

  /** On every run from a new aircraft, a stored half is the packet of a message that was received, of the kind
      that the airborne flag says, and a stored pair is at most 30 s apart. */
  lemma {:induction false} RunStaysPaired(ms: seq<Received>, filterOn: bool, env: Env)
    ensures Paired(After(ms, filterOn, env))
    ensures var t := After(ms, filterOn, env);
            && (t.even.timestamp > 0 ==> WasReceived(t.even, false, ms))
            && (t.odd.timestamp > 0 ==> WasReceived(t.odd, true, ms))
    decreases |ms|
  {
    hide Handle;
    if ms != [] {
      var k := |ms| - 1;
      var t := After(ms[..k], filterOn, env);
      RunStaysPaired(ms[..k], filterOn, env);
      HandledSoundly(t, ms[k].message, filterOn, ms[k].clock, env);
      StoredFrom(t, ms[k].message, filterOn, ms[k].clock, env);
      var u := After(ms, filterOn, env);
      if u.even.timestamp > 0 {
        StillReceived(u.even, false, t.even, ms, k);
      }
      if u.odd.timestamp > 0 {
        StillReceived(u.odd, true, t.odd, ms, k);
      }
    }
  }

  lemma StillReceived(c: Cpr, odd: bool, before: Cpr, ms: seq<Received>, k: nat)
    requires k == |ms| - 1
    requires IsFrom(c, odd, ms[k].message) || (c == before && WasReceived(before, odd, ms[..k]))
    ensures WasReceived(c, odd, ms)
  {
    if !IsFrom(c, odd, ms[k].message) {
      var i :| 0 <= i < k && IsFrom(c, odd, ms[..k][i].message);
      assert IsFrom(c, odd, ms[i].message);
    }
  }

  /** So on every run, every call of the decoder is for two halves of one kind, at most 30 s apart, each of which
      is the packet of a message that was received. */
  lemma DecodesNeverMix(ms: seq<Received>, last: Received, filterOn: bool, env: Env)
    ensures var h := Handle(After(ms, filterOn, env), last.message, filterOn, last.clock, env);
            h.attempt.Some? ==>
              && SoundAttempt(h.attempt.value)
              && WasReceived(h.attempt.value.even, false, ms + [last])
              && WasReceived(h.attempt.value.odd, true, ms + [last])
  {
    hide Handle, After;
    var t := After(ms, filterOn, env);
    RunStaysPaired(ms, filterOn, env);
    HandledSoundly(t, last.message, filterOn, last.clock, env);
    var h := Handle(t, last.message, filterOn, last.clock, env);
    if h.attempt.Some? {
      AttemptIsStored(t, last.message, filterOn, last.clock, env);
      StoredFrom(t, last.message, filterOn, last.clock, env);
      assert (ms + [last])[..|ms|] == ms;
      StillReceived(h.attempt.value.even, false, t.even, ms + [last], |ms|);
      StillReceived(h.attempt.value.odd, true, t.odd, ms + [last], |ms|);
    }
  }

  lemma AttemptIsStored(t: Track, m: Message, filterOn: bool, clock: Clock, env: Env)
    ensures var h := Handle(t, m, filterOn, clock, env);
            h.attempt.Some? ==> h.attempt.value.even == h.track.even && h.attempt.value.odd == h.track.odd
  {
    hide MaxAllowedInterval, Run, Judge, CprInterval, SetCPRLatLon;
  }

  // ----- The filter sees a run of inputs -----

  function InputsOf(ms: seq<Received>, filterOn: bool, env: Env): seq<Input>
    decreases |ms|
  {
    if ms == [] then []
    else
      var k := |ms| - 1;
      InputsOf(ms[..k], filterOn, env)
      + Handle(After(ms[..k], filterOn, env), ms[k].message, filterOn, ms[k].clock, env).inputs
  }

  lemma RunNothing(f: Filter, distance: (Pos, Pos) -> nat)
    ensures Run(f, [], distance) == f
  {
  }

  lemma PositionFeedsFilter(t: Track, kind: bool, r: Report, ref: Pos, filterOn: bool, clock: Clock, env: Env)
    ensures var h := HandlePosition(t, kind, r, ref, filterOn, clock, env);
            h.track.filter == Run(t.filter, h.inputs, env.distance)
  {
    hide Run, Judge, CanDecode, MaxAllowedInterval, CprInterval;
    RunNothing(t.filter, env.distance);
    var stored := SetCPRLatLon(t, r.odd, r.nLat, r.nLon, r.timestamp, kind, clock.store);
    assert stored.filter == t.filter;
    if CanDecode(stored, clock.check) {
      CanDecodeHasNoInputs(stored, clock.check);
    }
  }

  lemma CanDecodeHasNoInputs(t: Track, now: uint32)
    requires CanDecode(t, now)
    ensures CanDecodeInputs(t, now) == []
  {
  }

  lemma HandleFeedsFilter(t: Track, m: Message, filterOn: bool, clock: Clock, env: Env)
    ensures var h := Handle(t, m, filterOn, clock, env);
            h.track.filter == Run(t.filter, h.inputs, env.distance)
  {
    hide HandlePosition, Run;
    RunNothing(t.filter, env.distance);
    match m
    case Surface(speed, r, ref) =>
      PositionFeedsFilter(WithSpeed(WriteAirborne(t, false), Some(GroundSpeed), speed), false, r, ref, filterOn, clock,
                          env);
    case Airborne(supported, r) =>
      PositionFeedsFilter(WriteAirborne(t, true), true, r, Pos(0, 0), filterOn, clock, env);
    case Velocity(source, kts) =>
    case AirGround(known, value) =>
    case Unrelated =>
  }

  /** The filter of an aircraft after any run of messages is the filter after the inputs that the run fed it, so
      that what is proved of runs of the filter holds of its published positions. */
  lemma {:induction false} RunFeedsFilter(ms: seq<Received>, filterOn: bool, env: Env)
    ensures After(ms, filterOn, env).filter == Run(NewTrack().filter, InputsOf(ms, filterOn, env), env.distance)
    ensures filterOn ==>
              forall i :: 0 <= i < |InputsOf(ms, filterOn, env)| ==> !InputsOf(ms, filterOn, env)[i].Unfiltered?
    decreases |ms|
  {
    hide Handle, Run;
    if ms == [] {
      RunNothing(NewTrack().filter, env.distance);
    } else {
      var k := |ms| - 1;
      var t := After(ms[..k], filterOn, env);
      RunFeedsFilter(ms[..k], filterOn, env);
      HandleFeedsFilter(t, ms[k].message, filterOn, ms[k].clock, env);
      if filterOn {
        InputsFiltered(t, ms[k].message, filterOn, ms[k].clock, env);
      }
      RunConcat(NewTrack().filter, InputsOf(ms[..k], filterOn, env),
                Handle(t, ms[k].message, filterOn, ms[k].clock, env).inputs, env.distance);
    }
  }

  lemma InputsFiltered(t: Track, m: Message, filterOn: bool, clock: Clock, env: Env)
    requires filterOn
    ensures var inputs := Handle(t, m, filterOn, clock, env).inputs;
            forall i :: 0 <= i < |inputs| ==> !inputs[i].Unfiltered?
  {
    hide MaxAllowedInterval, Run, Judge, CprInterval, SetCPRLatLon;
  }
}
