/**
 The two-sample position filter that Mode S and UAT aircraft share: a position too far from the last
 candidate is not published, but becomes the candidate that the next one is measured against.
 */
module PositionFilter {
  import opened Arith

  const DEADBAND_METERS: nat := 20000

  /** A position in 32-bit angular weighted binary. */
  datatype Pos = Pos(lat: uint32, lon: uint32)

  datatype Filter = Filter(positionValid: bool, lastTrackUpdate: uint32, lastReceived: uint32, candidate: Pos,
                           published: Pos)

  /** What happens to a filter: the position is declared invalid, or a position arrives, filtered or not. */
  datatype Input = Invalidate | Candidate(timestamp: uint32, pos: Pos) | Unfiltered(timestamp: uint32, pos: Pos)

  datatype Verdict = Cleared | Stale | Rejected | Published

  /** The distance in meters that 1000 meters per second allow, as uint32_t arithmetic computes it. */
  function AllowedMeters(elapsedMs: uint32): uint32 { U32(1000 * elapsedMs) / 1000 }

  function Limit(f: Filter, timestamp: uint32): nat {
    Max(AllowedMeters(U32(timestamp - f.lastTrackUpdate)), DEADBAND_METERS)
  }

  /** The allowance is one meter per millisecond exactly up to 4294967 ms; beyond, the product wraps. */
  lemma AllowanceExact(elapsedMs: uint32)
    ensures AllowedMeters(elapsedMs) == elapsedMs <==> elapsedMs <= 4294967
  {
    if elapsedMs > 4294967 {
      assert U32(1000 * elapsedMs) < 0x1_0000_0000;
      assert AllowedMeters(elapsedMs) <= 4294967;
    }
  }

  function Judge(f: Filter, input: Input, distance: (Pos, Pos) -> nat): Verdict {
    match input
    case Invalidate => Cleared
    case Unfiltered(_, _) => Published
    case Candidate(timestamp, pos) =>
      if timestamp <= f.lastReceived then Stale
      else if f.positionValid && distance(f.candidate, pos) > Limit(f, timestamp) then Rejected
      else Published
  }

  function Next(f: Filter, input: Input, distance: (Pos, Pos) -> nat): Filter {
    match input
    case Invalidate => f.(positionValid := false)
    case Unfiltered(timestamp, pos) => f.(positionValid := true, published := pos, lastTrackUpdate := timestamp)
    case Candidate(timestamp, pos) =>
      if timestamp <= f.lastReceived then f
      else
        var g := f.(lastReceived := timestamp, candidate := pos);
        if f.positionValid && distance(f.candidate, pos) > Limit(f, timestamp) then g
        else g.(positionValid := true, published := pos, lastTrackUpdate := timestamp)
  }

  function Run(f: Filter, inputs: seq<Input>, distance: (Pos, Pos) -> nat): Filter
    decreases |inputs|
  {
    if inputs == [] then f else Next(Run(f, inputs[..|inputs| - 1], distance), inputs[|inputs| - 1], distance)
  }

  /** The filter just before input i of a run. */
  function Before(f: Filter, inputs: seq<Input>, i: nat, distance: (Pos, Pos) -> nat): Filter
    requires i <= |inputs|
  {
    Run(f, inputs[..i], distance)
  }

  function VerdictOn(f: Filter, inputs: seq<Input>, i: nat, distance: (Pos, Pos) -> nat): Verdict
    requires i < |inputs|
  {
    Judge(Before(f, inputs, i, distance), inputs[i], distance)
  }

  lemma BeforeNext(f: Filter, inputs: seq<Input>, i: nat, distance: (Pos, Pos) -> nat)
    requires i < |inputs|
    ensures Before(f, inputs, i + 1, distance) == Next(Before(f, inputs, i, distance), inputs[i], distance)
  {
    assert inputs[..i + 1][..i] == inputs[..i];
  }

  /** A repeated or older timestamp changes nothing, and a newer one always becomes the candidate. */
  lemma StaleChangesNothing(f: Filter, timestamp: uint32, pos: Pos, distance: (Pos, Pos) -> nat)
    ensures timestamp <= f.lastReceived ==> Next(f, Candidate(timestamp, pos), distance) == f
    ensures timestamp > f.lastReceived ==>
              var g := Next(f, Candidate(timestamp, pos), distance);
              g.candidate == pos && g.lastReceived == timestamp && (g.published != f.published ==> g.published == pos)
  {
  }

  /** What is published is published at its own time and place; any other verdict keeps the published position where
      it was, and only an explicit one clears it. */
  lemma VerdictDecides(f: Filter, input: Input, distance: (Pos, Pos) -> nat)
    ensures var g := Next(f, input, distance);
      match Judge(f, input, distance)
      case Published =>
        && !input.Invalidate? && g.positionValid && g.published == input.pos && g.lastTrackUpdate == input.timestamp
        && (input.Candidate? ==> g.candidate == input.pos && g.lastReceived == input.timestamp)
      case Rejected =>
        && g.published == f.published && g.positionValid && g.lastTrackUpdate == f.lastTrackUpdate
        && input.Candidate? && g.candidate == input.pos && g.lastReceived == input.timestamp
      case Stale => g == f
      case Cleared => input.Invalidate? && !g.positionValid && g == f.(positionValid := g.positionValid)
  {
    hide Limit;
  }

  predicate NoneCleared(inputs: seq<Input>, from: nat, to: nat)
    requires to <= |inputs|
  {
    forall k :: from <= k < to ==> !inputs[k].Invalidate?
  }

  ghost predicate NonePublished(f: Filter, inputs: seq<Input>, from: nat, to: nat, distance: (Pos, Pos) -> nat)
    requires to <= |inputs|
  {
    forall k :: from <= k < to ==> !VerdictOn(f, inputs, k, distance).Published?
  }

  /** Before input j the filter shows input i, the last one that was published, as long as it is not invalidated. */
  ghost predicate Shows(f: Filter, inputs: seq<Input>, i: nat, j: nat, distance: (Pos, Pos) -> nat)
    requires j <= |inputs|
  {
    && i < j && VerdictOn(f, inputs, i, distance).Published? && !inputs[i].Invalidate?
    && NonePublished(f, inputs, i + 1, j, distance)
    && var g := Before(f, inputs, j, distance);
       && g.published == inputs[i].pos && g.lastTrackUpdate == inputs[i].timestamp
       && (g.positionValid <==> NoneCleared(inputs, i, j))
  }

  /** Nothing has been published yet. */
  ghost predicate ShowsNone(f: Filter, inputs: seq<Input>, j: nat, distance: (Pos, Pos) -> nat)
    requires j <= |inputs|
  {
    && NonePublished(f, inputs, 0, j, distance)
    && var g := Before(f, inputs, j, distance);
       && g.published == f.published && g.lastTrackUpdate == f.lastTrackUpdate
       && (g.positionValid <==> f.positionValid && NoneCleared(inputs, 0, j))
  }

  lemma ShowsNext(f: Filter, inputs: seq<Input>, i: nat, j: nat, distance: (Pos, Pos) -> nat)
    requires j < |inputs| && Shows(f, inputs, i, j, distance) && !VerdictOn(f, inputs, j, distance).Published?
    ensures Shows(f, inputs, i, j + 1, distance)
  {
    hide Before, Judge, Next;
    BeforeNext(f, inputs, j, distance);
    VerdictDecides(Before(f, inputs, j, distance), inputs[j], distance);
    JudgedInvalidate(Before(f, inputs, j, distance), inputs[j], distance);
  }

  lemma ShowsNoneNext(f: Filter, inputs: seq<Input>, j: nat, distance: (Pos, Pos) -> nat)
    requires j < |inputs| && ShowsNone(f, inputs, j, distance) && !VerdictOn(f, inputs, j, distance).Published?
    ensures ShowsNone(f, inputs, j + 1, distance)
  {
    hide Before, Judge, Next;
    BeforeNext(f, inputs, j, distance);
    VerdictDecides(Before(f, inputs, j, distance), inputs[j], distance);
    JudgedInvalidate(Before(f, inputs, j, distance), inputs[j], distance);
  }

  lemma ShowsNew(f: Filter, inputs: seq<Input>, j: nat, distance: (Pos, Pos) -> nat)
    requires j < |inputs| && VerdictOn(f, inputs, j, distance).Published?
    ensures Shows(f, inputs, j, j + 1, distance)
  {
    hide Before, Judge, Next;
    BeforeNext(f, inputs, j, distance);
    VerdictDecides(Before(f, inputs, j, distance), inputs[j], distance);
  }

  lemma JudgedInvalidate(f: Filter, input: Input, distance: (Pos, Pos) -> nat)
    ensures Judge(f, input, distance).Cleared? <==> input.Invalidate?
    ensures Judge(f, input, distance).Rejected? ==> f.positionValid
  {
    hide Limit;
  }

  /** On every run the published position is that of the last published input, at its time, and what was there before
      the run until there is one: a rejected or stale position never shows.  It is valid until it is invalidated. */
  lemma {:induction false} PublishedIsLastPublished(f: Filter, inputs: seq<Input>, j: nat,
                                                    distance: (Pos, Pos) -> nat)
    requires j <= |inputs|
    ensures ShowsNone(f, inputs, j, distance) || exists i: nat :: Shows(f, inputs, i, j, distance)
    decreases j
  {
    hide Shows, ShowsNone;
    if j == 0 {
      NothingBefore(f, inputs, distance);
    } else {
      PublishedIsLastPublished(f, inputs, j - 1, distance);
      if VerdictOn(f, inputs, j - 1, distance).Published? {
        ShowsNew(f, inputs, j - 1, distance);
      } else if ShowsNone(f, inputs, j - 1, distance) {
        ShowsNoneNext(f, inputs, j - 1, distance);
      } else {
        var i: nat :| Shows(f, inputs, i, j - 1, distance);
        ShowsNext(f, inputs, i, j - 1, distance);
      }
    }
  }

  lemma NothingBefore(f: Filter, inputs: seq<Input>, distance: (Pos, Pos) -> nat)
    ensures ShowsNone(f, inputs, 0, distance)
  {
  }

  /** With a newer timestamp, a first position and one within 20 km of the candidate are always published; one
      farther than that is published exactly when the elapsed time allows the distance. */
  lemma CloseIsPublished(f: Filter, timestamp: uint32, pos: Pos, distance: (Pos, Pos) -> nat)
    requires timestamp > f.lastReceived
    ensures !f.positionValid || distance(f.candidate, pos) <= DEADBAND_METERS ==>
              Next(f, Candidate(timestamp, pos), distance) == Filter(true, timestamp, timestamp, pos, pos)
    ensures f.positionValid && distance(f.candidate, pos) > DEADBAND_METERS ==>
              (Judge(f, Candidate(timestamp, pos), distance).Published?
               <==> distance(f.candidate, pos) <= AllowedMeters(U32(timestamp - f.lastTrackUpdate)))
  {
    hide AllowedMeters;
  }

  /** Input k is the candidate before input j: rejected, or the published input i itself, and only stale ones after. */
  ghost predicate IsLatest(f: Filter, inputs: seq<Input>, i: nat, k: nat, j: nat, distance: (Pos, Pos) -> nat)
    requires i <= k < j <= |inputs|
  {
    && inputs[k].Candidate? && Before(f, inputs, j, distance).candidate == inputs[k].pos
    && (k > i ==> VerdictOn(f, inputs, k, distance).Rejected?)
    && forall m :: k < m < j ==> VerdictOn(f, inputs, m, distance).Stale?
  }

  /** From a published candidate on, while nothing else is published and the position stays valid, the candidate
      is the last position that was not stale: the published one itself or a rejected one. */
  lemma {:induction false} CandidateIsLatest(f: Filter, inputs: seq<Input>, i: nat, j: nat, distance: (Pos, Pos) -> nat)
    requires i < j <= |inputs| && inputs[i].Candidate? && VerdictOn(f, inputs, i, distance).Published?
    requires forall k :: i < k < j ==> inputs[k].Candidate? && !VerdictOn(f, inputs, k, distance).Published?
    ensures Before(f, inputs, j, distance).positionValid
    ensures exists k :: i <= k < j && IsLatest(f, inputs, i, k, j, distance)
    decreases j
  {
    hide Before;
    BeforeNext(f, inputs, j - 1, distance);
    if i < j - 1 {
      CandidateIsLatest(f, inputs, i, j - 1, distance);
      if VerdictOn(f, inputs, j - 1, distance).Stale? {
        var k :| i <= k < j - 1 && IsLatest(f, inputs, i, k, j - 1, distance);
        assert IsLatest(f, inputs, i, k, j, distance);
      } else {
        assert IsLatest(f, inputs, i, j - 1, j, distance);
      }
    } else {
      assert IsLatest(f, inputs, i, i, j, distance);
    }
  }

  /** When two consecutive published positions lie farther apart than the limit in force at the second, the last
      position between them that was not stale is a rejected candidate within that limit of the second: a jump is
      confirmed before it shows, by the very position before it. */
  lemma JumpIsConfirmed(f: Filter, inputs: seq<Input>, i: nat, j: nat, distance: (Pos, Pos) -> nat)
    requires i < j < |inputs| && inputs[i].Candidate? && inputs[j].Candidate?
    requires VerdictOn(f, inputs, i, distance).Published? && VerdictOn(f, inputs, j, distance).Published?
    requires forall k :: i < k < j ==> inputs[k].Candidate? && !VerdictOn(f, inputs, k, distance).Published?
    requires distance(inputs[i].pos, inputs[j].pos) > Limit(Before(f, inputs, j, distance), inputs[j].timestamp)
    ensures exists k :: i < k < j && VerdictOn(f, inputs, k, distance).Rejected? && inputs[k].Candidate?
              && distance(inputs[k].pos, inputs[j].pos) <= Limit(Before(f, inputs, j, distance), inputs[j].timestamp)
              && forall m :: k < m < j ==> VerdictOn(f, inputs, m, distance).Stale?
  {
    hide Before, Limit;
    CandidateIsLatest(f, inputs, i, j, distance);
    var k :| i <= k < j && IsLatest(f, inputs, i, k, j, distance);
    assert distance(inputs[k].pos, inputs[j].pos) <= Limit(Before(f, inputs, j, distance), inputs[j].timestamp);
  }

  lemma {:induction false} RunConcat(f: Filter, a: seq<Input>, b: seq<Input>, distance: (Pos, Pos) -> nat)
    ensures Run(f, a + b, distance) == Run(Run(f, a, distance), b, distance)
    decreases |b|
  {
    if b == [] {
      assert a + b == a;
    } else {
      var k := |b| - 1;
      RunConcat(f, a, b[..k], distance);
      assert (a + b)[..|a + b| - 1] == a + b[..k];
    }
  }
}
