/**
  Filtering a feed's trips by optional criteria. Each supplied criterion is
  checked in a fixed order with an early exit, a trip is kept when it passes
  all of them, and the kept trips stay in their original order.
 */
module TripFilter {
  import opened Common
  import opened Realtime
  import opened Trips

  /**
    A criterion that the caller may give as a string, a list of strings or
    some other value, or leave out.
   */
  datatype Arg = Absent | Text(text: string) | TextList(items: seq<string>) | Other

  datatype Criteria = Criteria(
    lineId: Arg,
    travelDirection: Arg,
    trainAssigned: Option<bool>,
    underway: Option<bool>,
    shapeId: Arg,
    headedForStopId: Arg,
    updatedAfter: Option<int>,
    hasDelayAlert: Option<bool>)

  const NoCriteria: Criteria := Criteria(Absent, Absent, None, None, Absent, Absent, None, None)

  /**
    Matching a string property against a line or shape criterion. A string
    means equality and a list means membership. Any other value is refused
    with ValueError, without evaluating the property.
   */
  function TextMatches(a: Arg, value: Result<string>): Result<bool> {
    match a
    case Absent => Success(true)
    case Text(s) =>
      var v :- value;
      Success(v == s)
    case TextList(l) =>
      var v :- value;
      Success(v in l)
    case Other => Failure(ValueError)
  }

  /**
    Matching the direction against a travel-direction criterion. Any value
    other than the same string compares unequal. A trip without a shape id
    raises while computing its direction.
   */
  function DirectionMatches(a: Arg, tripId: string): Result<bool> {
    if a.Absent? then Success(true)
    else
      var d :- Direction(tripId);
      Success(a.Text? && d == Some(a.text))
  }

  /** Some stop id in `l` is one the trip is headed to. */
  function HeadedToAny(t: Trip, l: seq<string>): (r: bool)
    ensures r <==> exists i :: 0 <= i < |l| && HeadedToStop(t, l[i])
  {
    if l == [] then false
    else if HeadedToStop(t, l[0]) then true
    else
      var r := HeadedToAny(t, l[1..]);
      assert forall i :: 1 <= i < |l| ==> l[i] == l[1..][i - 1];
      r
  }

  /**
    Matching the trip's remaining stops against a headed-for-stop criterion.
    A value that is neither a string nor a list imposes no constraint: the
    source has no branch for it.
   */
  predicate HeadedMatches(a: Arg, t: Trip) {
    match a
    case Text(s) => HeadedToStop(t, s)
    case TextList(l) => HeadedToAny(t, l)
    case _ => true
  }

  /** The update-time criterion: underway, with a last position update no earlier than the given time. */
  predicate UpdatedAfterMatches(after: Option<int>, t: Trip) {
    after.None? || (Underway(t) && LastPositionUpdate(t).value >= after.value)
  }

  /**
    The travel-direction criterion against `direction` as the source writes
    it: a shape without a direction letter raises IndexError instead of
    comparing unequal.
   */
  function DirectionMatchesAsWritten(a: Arg, tripId: string): Result<bool> {
    if a.Absent? then Success(true)
    else
      var d :- DirectionAsWritten(tripId);
      Success(a.Text? && d == a.text)
  }

  /**
    The per-trip decision of `filter_trips`, given the outcome of its
    travel-direction check. The criteria are checked in the source's order
    and the first failing one decides; an error, the direction check's
    included, is raised only by a criterion that is actually reached.
   */
  function Decide(t: Trip, c: Criteria, direction: Result<bool>): Result<bool> {
    var lineOk :- TextMatches(c.lineId, Success(RouteId(t)));
    if !lineOk then Success(false)
    else
      var directionOk :- direction;
      if !directionOk then Success(false)
      else if c.trainAssigned.Some? && TrainAssigned(t) != c.trainAssigned.value then Success(false)
      else if c.underway.Some? && Underway(t) != c.underway.value then Success(false)
      else
        var shapeOk :- TextMatches(c.shapeId, ShapeId(TripId(t)));
        if !shapeOk then Success(false)
        else if !HeadedMatches(c.headedForStopId, t) then Success(false)
        else if !UpdatedAfterMatches(c.updatedAfter, t) then Success(false)
        else if c.hasDelayAlert.Some? && HasDelayAlert(t) != c.hasDelayAlert.value then Success(false)
        else Success(true)
  }

  /** Whether `filter_trips` keeps one trip, with the guarded direction. */
  function KeepTrip(t: Trip, c: Criteria): Result<bool> {
    Decide(t, c, DirectionMatches(c.travelDirection, TripId(t)))
  }

  /** Whether `filter_trips` keeps one trip, with `direction` as the source writes it. */
  function KeepTripAsWritten(t: Trip, c: Criteria): Result<bool> {
    Decide(t, c, DirectionMatchesAsWritten(c.travelDirection, TripId(t)))
  }

  /** `filter_trips` over a list of trips: the kept trips in order, or the first trip's error. */
  function FilterTrips(ts: seq<Trip>, c: Criteria): (r: Result<seq<Trip>>)
    ensures r.Success? ==> |r.value| <= |ts|
  {
    if ts == [] then Success([])
    else
      var keep :- KeepTrip(ts[0], c);
      var rest :- FilterTrips(ts[1..], c);
      Success(if keep then [ts[0]] + rest else rest)
  }

  /** `filter_trips` with `direction` as the source writes it. */
  function FilterTripsAsWritten(ts: seq<Trip>, c: Criteria): Result<seq<Trip>> {
    if ts == [] then Success([])
    else
      var keep :- KeepTripAsWritten(ts[0], c);
      var rest :- FilterTripsAsWritten(ts[1..], c);
      Success(if keep then [ts[0]] + rest else rest)
  }

  /** A string criterion as a predicate; a criterion that cannot be satisfied is false. */
  predicate TextClause(a: Arg, value: Result<string>) {
    match a
    case Absent => true
    case Text(s) => value == Success(s)
    case TextList(l) => value.Success? && value.value in l
    case Other => false
  }

  /**
    The declarative reading of the criteria: a trip matches when it meets
    every supplied criterion.
   */
  predicate Matches(t: Trip, c: Criteria) {
    && TextClause(c.lineId, Success(RouteId(t)))
    && (c.travelDirection.Absent? ||
          (c.travelDirection.Text? && Direction(TripId(t)) == Success(Some(c.travelDirection.text))))
    && (c.trainAssigned.None? || TrainAssigned(t) == c.trainAssigned.value)
    && (c.underway.None? || Underway(t) == c.underway.value)
    && TextClause(c.shapeId, ShapeId(TripId(t)))
    && HeadedMatches(c.headedForStopId, t)
    && UpdatedAfterMatches(c.updatedAfter, t)
    && (c.hasDelayAlert.None? || HasDelayAlert(t) == c.hasDelayAlert.value)
  }

  /** The trips that match, in their original order. */
  function Select(ts: seq<Trip>, c: Criteria): seq<Trip> {
    if ts == [] then []
    else
      var rest := Select(ts[1..], c);
      if Matches(ts[0], c) then [ts[0]] + rest else rest
  }

  /** The selected trips are exactly the listed trips that match. */
  lemma {:induction false} SelectMembers(ts: seq<Trip>, c: Criteria)
    ensures forall t :: t in Select(ts, c) <==> t in ts && Matches(t, c)
  {
    if ts != [] {
      SelectMembers(ts[1..], c);
      assert forall t :: t in ts <==> t == ts[0] || t in ts[1..];
    }
  }

  /** Selecting from a concatenation selects from each part, keeping their order. */
  lemma {:induction false} SelectAppend(a: seq<Trip>, b: seq<Trip>, c: Criteria)
    ensures Select(a + b, c) == Select(a, c) + Select(b, c)
  {
    if a == [] {
      assert a + b == b;
      assert Select(a, c) == [];
      assert Select(a, c) + Select(b, c) == Select(b, c);
    } else {
      var h := if Matches(a[0], c) then [a[0]] else [];
      assert a + b == [a[0]] + (a[1..] + b);
      assert a == [a[0]] + a[1..];
      SelectAppend(a[1..], b, c);
      SelectCons(a[0], a[1..] + b, c);
      SelectCons(a[0], a[1..], c);
      assert Select(a + b, c) == h + (Select(a[1..], c) + Select(b, c));
      assert Select(a, c) == h + Select(a[1..], c);
    }
  }

  /** Selecting from a list with one more trip in front. */
  lemma SelectCons(t: Trip, ts: seq<Trip>, c: Criteria)
    ensures Select([t] + ts, c) == (if Matches(t, c) then [t] else []) + Select(ts, c)
  {
    assert ([t] + ts)[1..] == ts;
  }

  /** When the decision for a trip is made without error, it is the declarative match. */
  lemma KeepTripSound(t: Trip, c: Criteria)
    requires KeepTrip(t, c).Success?
    ensures KeepTrip(t, c).value == Matches(t, c)
  {
  }

  /**
    When the decision for a trip raises: an ill-typed line criterion always
    raises ValueError. Otherwise the trip has no shape id and needed one, or
    an ill-typed shape criterion was reached.
   */
  lemma KeepTripErrors(t: Trip, c: Criteria)
    ensures c.lineId.Other? ==> KeepTrip(t, c) == Failure(ValueError)
    ensures KeepTrip(t, c).Failure? && !c.lineId.Other? ==>
      ShapeId(TripId(t)).Failure? || c.shapeId.Other?
    ensures !c.lineId.Other? && !c.shapeId.Other? && ShapeId(TripId(t)).Success? ==> KeepTrip(t, c).Success?
  {
  }

  /**
    `filter_trips` either returns exactly the matching trips in order, or
    the error of the first trip whose decision raised.
   */
  lemma {:induction false} FilterTripsSpec(ts: seq<Trip>, c: Criteria)
    ensures FilterTrips(ts, c).Success? <==> forall i :: 0 <= i < |ts| ==> KeepTrip(ts[i], c).Success?
    ensures FilterTrips(ts, c).Success? ==> FilterTrips(ts, c).value == Select(ts, c)
    ensures FilterTrips(ts, c).Failure? ==>
      exists i :: 0 <= i < |ts| && KeepTrip(ts[i], c).Failure? && FilterTrips(ts, c).error == KeepTrip(ts[i], c).error &&
        forall j :: 0 <= j < i ==> KeepTrip(ts[j], c).Success?
  {
    if ts != [] {
      FilterTripsSpec(ts[1..], c);
      assert forall i :: 1 <= i < |ts| ==> ts[i] == ts[1..][i - 1];
      if KeepTrip(ts[0], c).Success? {
        KeepTripSound(ts[0], c);
        if FilterTrips(ts[1..], c).Failure? {
          var i :| 0 <= i < |ts[1..]| && KeepTrip(ts[1..][i], c).Failure? && FilterTrips(ts[1..], c).error == KeepTrip(ts[1..][i], c).error &&
            forall j :: 0 <= j < i ==> KeepTrip(ts[1..][j], c).Success?;
          assert KeepTrip(ts[i + 1], c).Failure? && FilterTrips(ts, c).error == KeepTrip(ts[i + 1], c).error;
          assert forall j :: 0 <= j < i + 1 ==> KeepTrip(ts[j], c).Success?;
        }
      } else {
        assert FilterTrips(ts, c).error == KeepTrip(ts[0], c).error;
      }
    }
  }

  /**
    The source's decision and the guarded one differ only where the source
    raises IndexError: on a travel-direction criterion for a trip whose
    shape has no direction letter, where the guarded decision drops the trip.
   */
  lemma KeepTripAsWrittenRefined(t: Trip, c: Criteria)
    ensures KeepTripAsWritten(t, c).Success? ==> KeepTripAsWritten(t, c) == KeepTrip(t, c)
    ensures KeepTripAsWritten(t, c).Failure? && KeepTrip(t, c).Success? ==>
      && KeepTripAsWritten(t, c) == Failure(IndexError)
      && !c.travelDirection.Absent?
      && Direction(TripId(t)) == Success(None)
      && KeepTrip(t, c) == Success(false)
    ensures KeepTrip(t, c).Failure? ==> KeepTripAsWritten(t, c) == KeepTrip(t, c)
  {
    DirectionRefinesAsWritten(TripId(t));
  }

  /**
    The trip `090300_0` (shape "0") under `travel_direction="N"`: the
    source's filter raises IndexError, while the guarded filter drops it.
   */
  lemma ZeroShapeFilterRaises(t: Trip, c: Criteria)
    requires TripId(t) == "090300_0"
    requires c.lineId.Absent? && c.travelDirection == Text("N")
    ensures KeepTripAsWritten(t, c) == Failure(IndexError)
    ensures FilterTripsAsWritten([t], c) == Failure(IndexError)
    ensures KeepTrip(t, c) == Success(false)
    ensures FilterTrips([t], c) == Success([])
  {
    ZeroShapeDirection();
  }

  /** With every criterion left out, every trip is kept, in order. */
  lemma {:induction false} NoCriteriaKeepsAll(ts: seq<Trip>)
    ensures FilterTrips(ts, NoCriteria) == Success(ts)
  {
    if ts != [] {
      NoCriteriaKeepsAll(ts[1..]);
      assert [ts[0]] + ts[1..] == ts;
    }
  }

  /** An ill-typed line criterion raises ValueError as soon as there is a trip to filter, and not before. */
  lemma IllTypedLineRaises(ts: seq<Trip>, c: Criteria)
    requires c.lineId.Other?
    ensures ts == [] ==> FilterTrips(ts, c) == Success([])
    ensures ts != [] ==> FilterTrips(ts, c) == Failure(ValueError)
  {
    if ts != [] {
      KeepTripErrors(ts[0], c);
    }
  }

  /**
    Supplied criteria are conjoined: a trip matches them all exactly when it
    matches each one given on its own.
   */
  lemma MatchesIsConjunction(t: Trip, c: Criteria)
    ensures Matches(t, c) <==>
      && Matches(t, NoCriteria.(lineId := c.lineId))
      && Matches(t, NoCriteria.(travelDirection := c.travelDirection))
      && Matches(t, NoCriteria.(trainAssigned := c.trainAssigned))
      && Matches(t, NoCriteria.(underway := c.underway))
      && Matches(t, NoCriteria.(shapeId := c.shapeId))
      && Matches(t, NoCriteria.(headedForStopId := c.headedForStopId))
      && Matches(t, NoCriteria.(updatedAfter := c.updatedAfter))
      && Matches(t, NoCriteria.(hasDelayAlert := c.hasDelayAlert))
  {
  }

  /**
    A list criterion matches when one of its members does on its own; so
    an empty list matches no trip.
   */
  lemma ListCriterionIsUnion(t: Trip, l: seq<string>)
    ensures Matches(t, NoCriteria.(lineId := TextList(l))) <==>
      exists i :: 0 <= i < |l| && Matches(t, NoCriteria.(lineId := Text(l[i])))
    ensures Matches(t, NoCriteria.(shapeId := TextList(l))) <==>
      exists i :: 0 <= i < |l| && Matches(t, NoCriteria.(shapeId := Text(l[i])))
    ensures Matches(t, NoCriteria.(headedForStopId := TextList(l))) <==>
      exists i :: 0 <= i < |l| && Matches(t, NoCriteria.(headedForStopId := Text(l[i])))
    ensures l == [] ==>
      && !Matches(t, NoCriteria.(lineId := TextList(l)))
      && !Matches(t, NoCriteria.(shapeId := TextList(l)))
      && !Matches(t, NoCriteria.(headedForStopId := TextList(l)))
  {
    if Matches(t, NoCriteria.(lineId := TextList(l))) {
      var i :| 0 <= i < |l| && l[i] == RouteId(t);
      assert Matches(t, NoCriteria.(lineId := Text(l[i])));
    }
    if Matches(t, NoCriteria.(shapeId := TextList(l))) {
      var i :| 0 <= i < |l| && l[i] == ShapeId(TripId(t)).value;
      assert Matches(t, NoCriteria.(shapeId := Text(l[i])));
    }
  }

  /** An empty list criterion filters out every trip. */
  lemma {:induction false} EmptyListKeepsNothing(ts: seq<Trip>, c: Criteria)
    requires c == NoCriteria.(lineId := TextList([])) || c == NoCriteria.(headedForStopId := TextList([]))
    ensures FilterTrips(ts, c) == Success([])
  {
    if ts != [] {
      EmptyListKeepsNothing(ts[1..], c);
    }
  }

  /** A headed-for-stop criterion that is neither a string nor a list keeps every trip. */
  lemma {:induction false} IllTypedHeadedForStopKeepsAll(ts: seq<Trip>)
    ensures FilterTrips(ts, NoCriteria.(headedForStopId := Other)) == Success(ts)
  {
    if ts != [] {
      IllTypedHeadedForStopKeepsAll(ts[1..]);
      assert [ts[0]] + ts[1..] == ts;
    }
  }

  /** Every trip kept under an update-time criterion is underway and was updated no earlier than it. */
  lemma UpdatedAfterKeepsOnlyUnderway(ts: seq<Trip>, c: Criteria, t: Trip)
    requires c.updatedAfter.Some? && FilterTrips(ts, c).Success? && t in FilterTrips(ts, c).value
    ensures Underway(t) && LastPositionUpdate(t).Some? && LastPositionUpdate(t).value >= c.updatedAfter.value
  {
    FilterTripsSpec(ts, c);
    SelectMembers(ts, c);
  }
}
