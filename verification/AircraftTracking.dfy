/**
 The aircraft objects, whose fields the messages update in place: each method moves the object's value as the
 functions of CprTrack and PositionFilter do.
 */
module AircraftTracking {
  import opened Arith
  import opened PositionFilter
  import opened Wrappers
  import Cpr = CprTrack

  class ModeSAircraft {
    var isAirborne: bool
    var positionValid: bool
    var speedSource: Cpr.SpeedSource
    var speedKts: int32
    var lastEvenPacket: Cpr.Cpr
    var lastOddPacket: Cpr.Cpr
    var lastTrackUpdate: uint32
    var lastFilterReceived: uint32
    var candidate: Pos
    var published: Pos

    function Value(): Cpr.Track
      reads this
    {
      Cpr.Track(isAirborne, speedSource, speedKts, lastEvenPacket, lastOddPacket,
                Filter(positionValid, lastTrackUpdate, lastFilterReceived, candidate, published))
    }

    constructor ()
      ensures Value() == Cpr.NewTrack()
    {
      isAirborne, positionValid, speedSource, speedKts := false, false, Cpr.NotSet, 0;
      lastEvenPacket, lastOddPacket := Cpr.Cpr(0, 0, 0, false), Cpr.Cpr(0, 0, 0, false);
      lastTrackUpdate, lastFilterReceived, candidate, published := 0, 0, Pos(0, 0), Pos(0, 0);
    }

    method ClearCPRPackets()
      modifies this
      ensures Value() == Cpr.ClearCPRPackets(old(Value()))
    {
      lastOddPacket := lastOddPacket.(timestamp := 0);
      lastEvenPacket := lastEvenPacket.(timestamp := 0);
    }

    method WriteAirborneFlag(value: bool)
      modifies this
      ensures Value() == Cpr.WriteAirborne(old(Value()), value)
    {
      if isAirborne != value {
        ClearCPRPackets();
      }
      isAirborne := value;
    }

    method SetCPRLatLon(nLat: uint32, nLon: uint32, odd: bool, timestamp: uint32, now: uint32) returns (ok: bool)
      modifies this
      ensures Value() == Cpr.SetCPRLatLon(old(Value()), odd, nLat, nLon, timestamp, old(isAirborne), now)
      ensures ok <==> nLat <= Cpr.CPR_MAX_COUNT && nLon <= Cpr.CPR_MAX_COUNT
    {
      if nLat > Cpr.CPR_MAX_COUNT || nLon > Cpr.CPR_MAX_COUNT {
        return false;
      }
      var other := if odd then lastEvenPacket else lastOddPacket;
      var delta := if timestamp > other.timestamp then timestamp - other.timestamp else other.timestamp - timestamp;
      if delta > Cpr.MaxAllowedInterval(Value(), now) {
        ClearCPRPackets();
      }
      var packet := Cpr.Cpr(timestamp, nLat, nLon, isAirborne);
      if odd {
        lastOddPacket := packet;
      } else {
        lastEvenPacket := packet;
      }
      ok := true;
    }

    method CanDecodePosition(now: uint32, ghost distance: (Pos, Pos) -> nat) returns (ok: bool)
      modifies this
      ensures ok == Cpr.CanDecode(old(Value()), now)
      ensures var t := old(Value());
              Value() == t.(filter := Run(t.filter, Cpr.CanDecodeInputs(t, now), distance))
    {
      Cpr.RunNothing(Value().filter, distance);
      RunOne(Value().filter, Invalidate, distance);
      if !(lastOddPacket.timestamp > 0 && lastEvenPacket.timestamp > 0) {
        return false;
      }
      var interval := Min(U32(lastOddPacket.timestamp - lastEvenPacket.timestamp),
                          U32(lastEvenPacket.timestamp - lastOddPacket.timestamp));
      if interval > Cpr.MaxAllowedInterval(Value(), now) {
        positionValid := false;
        return false;
      }
      ok := true;
    }

    /** The filter and the publication of a decoded position. */
    method Publish(timestamp: uint32, result: Pos, filterOn: bool, distance: (Pos, Pos) -> nat) returns (ok: bool)
      modifies this
      ensures var f := old(Value()).filter;
              var input := if filterOn then Candidate(timestamp, result) else Unfiltered(timestamp, result);
              Value() == old(Value()).(filter := Next(f, input, distance)) && ok == Judge(f, input, distance).Published?
      ensures ok ==> published == result && positionValid && lastTrackUpdate == timestamp
      ensures !ok ==> published == old(published) && positionValid == old(positionValid)
                      && lastTrackUpdate == old(lastTrackUpdate)
    {
      if filterOn {
        var elapsed: int := U32(timestamp - lastTrackUpdate);
        var maxDistance := U32(1000 * elapsed) / 1000;
        var meters := distance(candidate, result);
        if timestamp <= lastFilterReceived {
          return false;
        }
        lastFilterReceived := timestamp;
        candidate := result;
        if positionValid && meters > Max(maxDistance, DEADBAND_METERS) {
          return false;
        }
      }
      positionValid := true;
      published := result;
      lastTrackUpdate := timestamp;
      ok := true;
    }

    method DecodePosition(airborne: bool, ref: Pos, filterOn: bool, now: uint32, env: Cpr.Env) returns (ok: bool)
      modifies this
      ensures var h := Cpr.DecodePosition(old(Value()), airborne, ref, filterOn, now, env);
              Value() == h.track && ok == h.published
    {
      hide Run, Next, Judge, Cpr.MaxAllowedInterval;
      var can := CanDecodePosition(now, env.distance);
      if !can {
        return false;
      }
      Cpr.CanDecodeHasNoInputs(old(Value()), now);
      Cpr.RunNothing(old(Value()).filter, env.distance);
      var result := env.decode(airborne, lastEvenPacket, lastOddPacket, ref);
      if result.None? {
        return false;
      }
      var timestamp := Max(lastEvenPacket.timestamp, lastOddPacket.timestamp);
      ghost var input := if filterOn then Candidate(timestamp, result.value) else Unfiltered(timestamp, result.value);
      RunOne(Value().filter, input, env.distance);
      ok := Publish(timestamp, result.value, filterOn, env.distance);
    }

    /** What both position messages do with the report in them. */
    method HandleReport(r: Cpr.Report, ref: Pos, filterOn: bool, clock: Cpr.Clock, env: Cpr.Env) returns (ok: bool)
      modifies this
      ensures Value() == Cpr.HandlePosition(old(Value()), old(isAirborne), r, ref, filterOn, clock, env).track
      ensures ok == Cpr.ReportAccepted(old(Value()), old(isAirborne), r, ref, filterOn, clock, env)
    {
      hide Run, Next, Judge, Cpr.MaxAllowedInterval, Cpr.SetCPRLatLon, Cpr.CanDecode, Cpr.DecodePosition;
      var kind := isAirborne;
      var _ := SetCPRLatLon(r.nLat, r.nLon, r.odd, r.timestamp, clock.store);
      ghost var stored := Value();
      var can := CanDecodePosition(clock.check, env.distance);
      if !can {
        return true;
      }
      Cpr.CanDecodeHasNoInputs(stored, clock.check);
      Cpr.RunNothing(stored.filter, env.distance);
      ok := DecodePosition(kind, ref, filterOn, clock.decode, env);
    }

    /** ApplySurfacePositionMessage, as far as track and filter go. */
    method ApplySurfacePosition(speed: Option<int32>, r: Cpr.Report, ref: Pos, filterOn: bool, clock: Cpr.Clock,
                                env: Cpr.Env)
      returns (ok: bool)
      modifies this
      ensures var t := Cpr.WithSpeed(Cpr.WriteAirborne(old(Value()), false), Some(Cpr.GroundSpeed), speed);
              ok == Cpr.ReportAccepted(t, false, r, ref, filterOn, clock, env)
      ensures Value() == Cpr.Handle(old(Value()), Cpr.Surface(speed, r, ref), filterOn, clock, env).track
    {
      hide Cpr.HandlePosition, Cpr.ReportAccepted;
      WriteAirborneFlag(false);
      speedSource := Cpr.GroundSpeed;
      if speed.Some? {
        speedKts := speed.value;
      }
      ok := HandleReport(r, ref, filterOn, clock, env);
    }

    /** ApplyAirbornePositionMessage; a failed decode is not an error there. */
    method ApplyAirbornePosition(supported: bool, r: Cpr.Report, filterOn: bool, clock: Cpr.Clock, env: Cpr.Env)
      returns (ok: bool)
      modifies this
      ensures ok == supported
      ensures Value() == Cpr.Handle(old(Value()), Cpr.Airborne(supported, r), filterOn, clock, env).track
    {
      hide Cpr.HandlePosition, Cpr.ReportAccepted;
      WriteAirborneFlag(true);
      if !supported {
        return false;
      }
      var _ := HandleReport(r, Pos(0, 0), filterOn, clock, env);
      ok := true;
    }

    method ApplyAirborneVelocities(source: Option<Cpr.SpeedSource>, kts: Option<int32>)
      modifies this
      ensures Value() == Cpr.WithSpeed(Cpr.WriteAirborne(old(Value()), true), source, kts)
    {
      WriteAirborneFlag(true);
      if source.Some? {
        speedSource := source.value;
      }
      if kts.Some? {
        speedKts := kts.value;
      }
    }
  }

  lemma RunOne(f: Filter, input: Input, distance: (Pos, Pos) -> nat)
    ensures Run(f, [input], distance) == Next(f, input, distance)
  {
    assert [input][..0] == [];
  }

  class UATAircraft {
    var positionValid: bool
    var lastMessage: uint32
    var lastTrackUpdate: uint32
    var lastFilterReceived: uint32
    var candidate: Pos
    var published: Pos

    function Value(): Filter
      reads this
    {
      Filter(positionValid, lastTrackUpdate, lastFilterReceived, candidate, published)
    }

    constructor ()
      ensures Value() == Filter(false, 0, 0, Pos(0, 0), Pos(0, 0)) && lastMessage == 0
    {
      positionValid, lastMessage, lastTrackUpdate, lastFilterReceived := false, 0, 0, 0;
      candidate, published := Pos(0, 0), Pos(0, 0);
    }

    /** With the filter off the new position is not looked at: what is published is the stored candidate. */
    method DecodePosition(result: Pos, filterOn: bool, distance: (Pos, Pos) -> nat) returns (ok: bool)
      modifies this
      ensures var f, now := old(Value()), old(lastMessage);
              var input := if filterOn then Candidate(now, result) else Unfiltered(now, f.candidate);
              && Value() == Next(f, input, distance) && ok == Judge(f, input, distance).Published?
              && lastMessage == now
      ensures ok ==> published == (if filterOn then result else old(candidate)) && positionValid
                     && lastTrackUpdate == lastMessage
      ensures !ok ==> published == old(published) && positionValid == old(positionValid)
                      && lastTrackUpdate == old(lastTrackUpdate)
    {
      if filterOn {
        var elapsed: int := U32(lastMessage - lastTrackUpdate);
        var maxDistance := U32(1000 * elapsed) / 1000;
        var meters := distance(candidate, result);
        if lastMessage <= lastFilterReceived {
          return false;
        }
        lastFilterReceived := lastMessage;
        candidate := result;
        if positionValid && meters > Max(maxDistance, DEADBAND_METERS) {
          return false;
        }
      }
      positionValid := true;
      published := candidate;
      lastTrackUpdate := lastMessage;
      ok := true;
    }

    /** The position part of ApplyUATADSBStateVector, after the time of the message has been stored. */
    method ApplyStateVector(now: uint32, available: bool, result: Pos, distance: (Pos, Pos) -> nat)
      modifies this
      ensures lastMessage == now
      ensures Value() == Next(old(Value()), if available then Candidate(now, result) else Invalidate, distance)
    {
      lastMessage := now;
      if !available {
        positionValid := false;
      } else {
        var _ := DecodePosition(result, true, distance);
      }
    }
  }
}
