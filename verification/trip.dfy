/**
  One trip: a trip update joined with the vehicle position and the alerts
  that share its key, plus the feed's generation time and the static
  tables. Everything here is derived on demand from those parts.
 */
module Trips {
  import opened Common
  import opened Text
  import opened Realtime
  import opened StaticTypes
  import opened StopTimes

  datatype Trip = Trip(
    update: TripUpdate,
    vehicle: Option<VehiclePosition>,
    alerts: seq<Alert>,
    shapes: ShapeTable,
    stations: StationTable,
    feedTime: int)

  /** Tolerance, in seconds, for position updates stamped slightly after feed generation. */
  const ClockSkewAllowance: int := 60

  function TripId(t: Trip): string {
    t.update.trip.tripId
  }

  function RouteId(t: Trip): string {
    t.update.trip.routeId
  }

  function NycTrainId(t: Trip): string {
    t.update.trip.nyct.trainId
  }

  /**
    A trip is underway when it has a vehicle position stamped no more than
    one minute after the feed was generated; a future-dated position (some
    lines publish one before departure) does not count.
   */
  predicate Underway(t: Trip)
    ensures Underway(t) <==> t.vehicle.Some? && t.vehicle.value.timestamp <= t.feedTime + 60
  {
    match t.vehicle
    case None => false
    case Some(v) => v.timestamp <= t.feedTime + ClockSkewAllowance
  }

  /** Whether a train has been assigned: the NYCT `is_assigned` flag of the trip descriptor. */
  predicate TrainAssigned(t: Trip) {
    t.update.trip.nyct.isAssigned
  }

  /** Time of the last position update; only while underway. The raw timestamp is used, uncorrected. */
  function LastPositionUpdate(t: Trip): Option<int> {
    if Underway(t) then Some(t.vehicle.value.timestamp) else None
  }

  /** The stop the train is at or heading to; only while underway. */
  function Location(t: Trip): Option<string> {
    if Underway(t) then Some(t.vehicle.value.stopId) else None
  }

  function StatusName(s: VehicleStopStatus): string {
    match s
    case IncomingAt => "INCOMING_AT"
    case StoppedAt => "STOPPED_AT"
    case InTransitTo => "IN_TRANSIT_TO"
  }

  /** The vehicle's relation to `Location`, by name; only while underway. */
  function LocationStatus(t: Trip): Option<string> {
    if Underway(t) then Some(StatusName(t.vehicle.value.currentStatus)) else None
  }

  /** The stop sequence index of `Location`; only while underway. */
  function CurrentStopSequenceIndex(t: Trip): Option<int> {
    if Underway(t) then Some(t.vehicle.value.currentStopSequence) else None
  }

  /**
    The position-derived fields are all absent unless the trip is underway,
    and are the vehicle's own fields when it is: never a stale value.
   */
  lemma PositionFieldsGated(t: Trip)
    ensures !Underway(t) ==>
      LastPositionUpdate(t).None? && Location(t).None? && LocationStatus(t).None? && CurrentStopSequenceIndex(t).None?
    ensures Underway(t) ==>
      && LastPositionUpdate(t) == Some(t.vehicle.value.timestamp)
      && Location(t) == Some(t.vehicle.value.stopId)
      && LocationStatus(t) == Some(StatusName(t.vehicle.value.currentStatus))
      && CurrentStopSequenceIndex(t) == Some(t.vehicle.value.currentStopSequence)
  {
  }

  /** The status names are the three distinct strings of the feed's enumeration. */
  lemma StatusNamesDistinct(a: VehicleStopStatus, b: VehicleStopStatus)
    ensures StatusName(a) == StatusName(b) <==> a == b
    ensures StatusName(a) in {"INCOMING_AT", "STOPPED_AT", "IN_TRANSIT_TO"}
  {
  }

  /** A position stamped more than a minute after the feed does not make a trip underway. */
  lemma FutureDatedPositionNotUnderway(t: Trip)
    requires t.vehicle.Some? && t.vehicle.value.timestamp > t.feedTime + 60
    ensures !Underway(t) && LastPositionUpdate(t).None?
  {
  }

  /**
    The shape id: the second `_`-separated piece of the trip id. A trip id
    without `_` has no second piece, and indexing it raises IndexError.
   */
  function ShapeId(tripId: string): (r: Result<string>)
    ensures r.Failure? ==> r.error == IndexError
  {
    var pieces := Split(tripId, "_");
    if |pieces| < 2 then Failure(IndexError) else Success(pieces[1])
  }

  /**
    `tripId` has its first underscore at `k`, followed by `shape`, which is
    followed by the end of the id or by another underscore.
   */
  predicate ShapeAt(tripId: string, k: nat, shape: string) {
    && k < |tripId| && tripId[k] == '_' && '_' !in tripId[..k]
    && k + 1 + |shape| <= |tripId| && tripId[k + 1..k + 1 + |shape|] == shape && '_' !in shape
    && (k + 1 + |shape| == |tripId| || tripId[k + 1 + |shape|] == '_')
  }

  /** A one-character pattern occurs exactly where that character stands. */
  lemma OccursAtChar(s: string, c: char, i: nat)
    ensures OccursAt(s, [c], i) <==> i < |s| && s[i] == c
  {
    if i < |s| && s[i] == c {
      assert s[i..i + 1] == [c];
    }
  }

  /**
    Splitting `x + y` on a character absent from `x`, where `y` is empty or
    starts with that character, gives `x` as the first piece and the split
    of the rest of `y` after it.
   */
  lemma SplitAtChar(x: string, y: string, c: char)
    requires c !in x
    requires y == [] || y[0] == c
    ensures Split(x + y, [c])[0] == x
    ensures y == [] ==> Split(x + y, [c]) == [x]
    ensures y != [] ==> Split(x + y, [c])[1..] == Split(y[1..], [c])
  {
    var s := x + y;
    forall j: nat | j < |x|
      ensures !OccursAt(s, [c], j)
    {
      OccursAtChar(s, c, j);
      assert s[j] == x[j];
    }
    OccursAtChar(s, c, |x|);
    match IndexOf(s, [c])
    case None =>
      assert y == [];
      assert s == x;
    case Some(i) =>
      assert i == |x|;
      assert s[..i] == x;
      assert s[i + 1..] == y[1..];
  }

  /**
    The first piece of a split on one character is the text up to that
    character's first occurrence, or all of it; a second piece exists
    exactly when the character occurs.
   */
  lemma FirstPieceAtChar(s: string, c: char)
    ensures var p := Split(s, [c])[0];
      && |p| <= |s| && s[..|p|] == p && c !in p
      && (|p| == |s| || s[|p|] == c)
    ensures c in s <==> |Split(s, [c])| >= 2
    ensures c in s ==> Split(s, [c])[1] == Split(s[|Split(s, [c])[0]| + 1..], [c])[0]
  {
    SplitPieces(s, [c]);
    match IndexOf(s, [c])
    case None =>
      forall j | 0 <= j < |s|
        ensures s[j] != c
      {
        OccursAtChar(s, c, j);
      }
    case Some(i) =>
      OccursAtChar(s, c, i);
      forall j | 0 <= j < i
        ensures s[..i][j] != c
      {
        OccursAtChar(s, c, j);
      }
  }

  /** Where a trip id has a shape after its first underscore, that is the shape id. */
  lemma ShapeAtIsShapeId(tripId: string, k: nat, shape: string)
    requires ShapeAt(tripId, k, shape)
    ensures ShapeId(tripId) == Success(shape)
  {
    var pieces := Split(tripId, "_");
    assert tripId == tripId[..k] + tripId[k..];
    SplitAtChar(tripId[..k], tripId[k..], '_');
    var rest := tripId[k + 1..];
    assert tripId[k..][1..] == rest;
    assert pieces[1..] == Split(rest, "_");
    var after := rest[|shape|..];
    assert rest == shape + after;
    SplitAtChar(shape, after, '_');
    assert pieces[1] == Split(rest, "_")[0];
  }

  /** A successful shape id stands after the trip id's first underscore. */
  lemma ShapeIdIsShapeAt(tripId: string)
    requires ShapeId(tripId).Success?
    ensures ShapeAt(tripId, |Split(tripId, "_")[0]|, ShapeId(tripId).value)
  {
    FirstPieceAtChar(tripId, '_');
    var k := |Split(tripId, "_")[0]|;
    var rest := tripId[k + 1..];
    FirstPieceAtChar(rest, '_');
    var shape := ShapeId(tripId).value;
    assert shape == Split(rest, "_")[0];
    assert tripId[k + 1..k + 1 + |shape|] == rest[..|shape|];
    if k + 1 + |shape| < |tripId| {
      assert tripId[k + 1 + |shape|] == rest[|shape|];
    }
  }

  /** The shape id is exactly the text after the first underscore, up to the next one or the end. */
  lemma ShapeIdSpec(tripId: string, shape: string)
    ensures ShapeId(tripId) == Success(shape) <==> exists k: nat :: ShapeAt(tripId, k, shape)
    ensures ShapeId(tripId).Failure? <==> '_' !in tripId
  {
    FirstPieceAtChar(tripId, '_');
    if ShapeId(tripId) == Success(shape) {
      ShapeIdIsShapeAt(tripId);
    }
    if k: nat :| ShapeAt(tripId, k, shape) {
      ShapeAtIsShapeId(tripId, k, shape);
    }
  }

  /** `..` when the trip id contains it, otherwise `.`: what the direction is read after. */
  function DirectionSeparator(tripId: string): string {
    if Contains(tripId, "..") then ".." else "."
  }

  /**
    `direction` as the source writes it: the first character of the second
    piece of the shape id split on the separator. A shape with no second
    piece (such as "0"), or an empty second piece, raises IndexError.
   */
  function DirectionAsWritten(tripId: string): (r: Result<string>)
    ensures r.Success? ==> |r.value| == 1
  {
    var shape :- ShapeId(tripId);
    var pieces := Split(shape, DirectionSeparator(tripId));
    if |pieces| < 2 || |pieces[1]| == 0 then Failure(IndexError) else Success([pieces[1][0]])
  }

  /**
    `direction` with the missing guard added: the first character after the
    separator, or absent when there is none.
   */
  function Direction(tripId: string): (r: Result<Option<string>>)
    ensures r.Failure? <==> ShapeId(tripId).Failure?
    ensures r.Success? && r.value.Some? ==> |r.value.value| == 1
  {
    var shape :- ShapeId(tripId);
    Success(DirectionIn(shape, DirectionSeparator(tripId)))
  }

  /** The first character of the second piece of `shape` split on `sep`, if there is one. */
  function DirectionIn(shape: string, sep: string): Option<string>
    requires |sep| > 0
  {
    var pieces := Split(shape, sep);
    if |pieces| < 2 || |pieces[1]| == 0 then None else Some([pieces[1][0]])
  }

  predicate FirstOccurrenceAt(s: string, sep: string, i: nat) {
    OccursAt(s, sep, i) && forall j: nat :: j < i ==> !OccursAt(s, sep, j)
  }

  /**
    The first separator in `shape` is at `i` and is followed by a character
    that does not begin another separator.
   */
  predicate DirectionCharAt(shape: string, sep: string, i: nat) {
    FirstOccurrenceAt(shape, sep, i) && i + |sep| < |shape| && !OccursAt(shape, sep, i + |sep|)
  }

  /**
    The direction is the character right after the first separator in the
    shape id, present exactly when that character exists and does not begin
    another separator.
   */
  lemma DirectionSpec(tripId: string)
    requires ShapeId(tripId).Success?
    ensures var shape := ShapeId(tripId).value;
      var sep := DirectionSeparator(tripId);
      && (Direction(tripId).value.Some? <==> exists i: nat :: DirectionCharAt(shape, sep, i))
      && forall i: nat :: DirectionCharAt(shape, sep, i) ==> Direction(tripId).value == Some([shape[i + |sep|]])
  {
    DirectionInSpec(ShapeId(tripId).value, DirectionSeparator(tripId));
  }

  /** `DirectionSpec` for a given shape id and a non-empty separator. */
  lemma DirectionInSpec(shape: string, sep: string)
    requires |sep| > 0
    ensures DirectionIn(shape, sep).Some? <==> exists i: nat :: DirectionCharAt(shape, sep, i)
    ensures forall i: nat :: DirectionCharAt(shape, sep, i) ==> DirectionIn(shape, sep) == Some([shape[i + |sep|]])
  {
    var pieces := Split(shape, sep);
    SplitPieces(shape, sep);
    match IndexOf(shape, sep)
    case None =>
      assert DirectionIn(shape, sep) == None;
    case Some(i) =>
      var rest := shape[i + |sep|..];
      assert pieces[1] == Split(rest, sep)[0];
      FirstPieceHead(rest, sep);
      assert OccursAt(rest, sep, 0) <==> OccursAt(shape, sep, i + |sep|) by {
        if i + |sep| + |sep| <= |shape| {
          assert rest[0..|sep|] == shape[i + |sep|..i + |sep| + |sep|];
        }
      }
      assert FirstOccurrenceAt(shape, sep, i);
      forall i': nat | FirstOccurrenceAt(shape, sep, i')
        ensures i' == i
      {
      }
      if DirectionCharAt(shape, sep, i) {
        assert |pieces[1]| > 0 && pieces[1][0] == shape[i + |sep|];
      } else {
        assert |pieces[1]| == 0;
      }
  }

  /**
    The guarded direction agrees with the source wherever the source
    returns, and is absent exactly where the source raises on a valid shape.
   */
  lemma DirectionRefinesAsWritten(tripId: string)
    ensures DirectionAsWritten(tripId).Success? ==> Direction(tripId) == Success(Some(DirectionAsWritten(tripId).value))
    ensures ShapeId(tripId).Success? && DirectionAsWritten(tripId).Failure? ==> Direction(tripId) == Success(None)
    ensures ShapeId(tripId).Failure? ==> Direction(tripId).Failure? && DirectionAsWritten(tripId).Failure?
  {
  }

  /** A pattern whose first character is missing from the text does not occur in it. */
  lemma AbsentHeadNotContained(s: string, pat: string)
    requires |pat| > 0 && pat[0] !in s
    ensures !Contains(s, pat)
  {
    ContainsMeansOccurs(s, pat);
    forall i: nat | i + |pat| <= |s|
      ensures !OccursAt(s, pat, i)
    {
      assert s[i..i + |pat|][0] == s[i];
    }
  }

  /**
    A trip whose shape id is the bare "0": the source as written raises
    IndexError for its direction, while the guarded version reports no
    direction.
   */
  lemma ZeroShapeDirection()
    ensures ShapeId("090300_0") == Success("0")
    ensures DirectionAsWritten("090300_0") == Failure(IndexError)
    ensures Direction("090300_0") == Success(None)
  {
    var tripId := "090300_0";
    assert ShapeAt(tripId, 6, "0");
    ShapeIdSpec(tripId, "0");
    AbsentHeadNotContained(tripId, "..");
    assert DirectionSeparator(tripId) == ".";
    SplitAtChar("0", [], '.');
    assert "0" + [] == "0";
  }

  /** A northbound 1 train's trip id: shape "1..N". */
  lemma NorthboundShape(tripId: string)
    requires tripId == "090300_1..N"
    ensures ShapeId(tripId) == Success("1..N")
  {
    assert ShapeAt(tripId, 6, "1..N");
    ShapeAtIsShapeId(tripId, 6, "1..N");
  }

  /** A southbound 1 train's trip id with a variant suffix: shape "1..S03R". */
  lemma SouthboundShape(tripId: string)
    requires tripId == "095650_1..S03R"
    ensures ShapeId(tripId) == Success("1..S03R")
  {
    assert ShapeAt(tripId, 6, "1..S03R");
    ShapeAtIsShapeId(tripId, 6, "1..S03R");
  }

  /** A trip id that contains `..` is read with `..` as the direction separator. */
  lemma DoubleDotSeparator(tripId: string, i: nat)
    requires OccursAt(tripId, "..", i)
    ensures DirectionSeparator(tripId) == ".."
  {
    ContainsMeansOccurs(tripId, "..");
  }

  /** In a shape of the form digit, `..`, letter, the direction letter follows the first `..`. */
  lemma LineShapeDirectionChar(shape: string)
    requires |shape| >= 4 && shape[0] != '.' && shape[1..3] == ".." && shape[3] != '.'
    ensures DirectionCharAt(shape, "..", 1)
  {
    assert shape[0..2][0] == shape[0];
    assert !OccursAt(shape, "..", 3) by {
      if 5 <= |shape| { assert shape[3..5][0] == shape[3]; }
    }
    assert OccursAt(shape, "..", 1);
  }

  /** The direction of a trip whose shape is digit, `..`, letter and so on, in a trip id containing `..`. */
  lemma LineShapeDirection(tripId: string, shape: string)
    requires ShapeId(tripId) == Success(shape) && DirectionSeparator(tripId) == ".."
    requires |shape| >= 4 && shape[0] != '.' && shape[1..3] == ".." && shape[3] != '.'
    ensures Direction(tripId) == Success(Some([shape[3]]))
  {
    LineShapeDirectionChar(shape);
    DirectionSpec(tripId);
  }

  /** A northbound 1 train: direction "N". */
  lemma NorthboundExample(tripId: string)
    requires tripId == "090300_1..N"
    ensures Direction(tripId) == Success(Some("N"))
  {
    NorthboundShape(tripId);
    DoubleDotSeparator(tripId, 8);
    LineShapeDirection(tripId, "1..N");
  }

  /** A southbound 1 train with a variant suffix: direction "S". */
  lemma SouthboundExample(tripId: string)
    requires tripId == "095650_1..S03R"
    ensures Direction(tripId) == Success(Some("S"))
  {
    SouthboundShape(tripId);
    DoubleDotSeparator(tripId, 8);
    LineShapeDirection(tripId, "1..S03R");
  }

  /**
    Headsign text: the table's headsign for the shape; failing that, the
    name of the last remaining stop; failing that, absent. Only the table's
    ValueError is caught: a trip id without a shape still raises IndexError,
    and a last stop whose row has no `stop_name` raises KeyError.
   */
  function HeadsignText(t: Trip): (r: Result<Option<string>>)
    ensures ShapeId(TripId(t)).Failure? ==> r == Failure(IndexError)
    ensures ShapeId(TripId(t)).Success? && ShapeId(TripId(t)).value in t.shapes ==>
      r == Success(Some(t.shapes[ShapeId(TripId(t)).value]))
    ensures ShapeId(TripId(t)).Success? && ShapeId(TripId(t)).value !in t.shapes ==>
      var stops := t.update.stopTimeUpdates;
      && (stops == [] ==> r == Success(None))
      && (stops != [] && stops[|stops| - 1].stopId !in t.stations ==> r == Success(None))
      && (stops != [] && stops[|stops| - 1].stopId in t.stations && "stop_name" in t.stations[stops[|stops| - 1].stopId] ==>
            r == Success(Some(t.stations[stops[|stops| - 1].stopId]["stop_name"])))
      && (stops != [] && stops[|stops| - 1].stopId in t.stations && "stop_name" !in t.stations[stops[|stops| - 1].stopId] ==>
            r == Failure(KeyError))
  {
    var shape :- ShapeId(TripId(t));
    match GetHeadsignText(t.shapes, shape)
    case Success(headsign) => Success(Some(headsign))
    case Failure(_) =>
      var stops := t.update.stopTimeUpdates;
      if |stops| == 0 then Success(None) else StopName(stops[|stops| - 1], t.stations)
  }

  /** At least one alert was correlated with this trip. */
  predicate HasDelayAlert(t: Trip) {
    |t.alerts| > 0
  }

  /** Some update in `stops` is for exactly `stopId`. */
  function AnyStopIs(stops: seq<StopTimeUpdate>, stopId: string): (r: bool)
    ensures r <==> exists i :: 0 <= i < |stops| && stops[i].stopId == stopId
  {
    if stops == [] then false
    else if stops[0].stopId == stopId then true
    else
      var r := AnyStopIs(stops[1..], stopId);
      assert forall i :: 1 <= i < |stops| ==> stops[i] == stops[1..][i - 1];
      r
  }

  /** Whether the trip's remaining stops (current one included) include exactly this stop id. */
  function HeadedToStop(t: Trip, stopId: string): (r: bool)
    ensures r <==> exists i :: 0 <= i < |t.update.stopTimeUpdates| && t.update.stopTimeUpdates[i].stopId == stopId
  {
    AnyStopIs(t.update.stopTimeUpdates, stopId)
  }

  function StopWithId(stopId: string): StopTimeUpdate {
    StopTimeUpdate(stopId, None, None, NyctStopTimeUpdate(None, None))
  }

  /**
    Stop ids match whole and exactly: a trip with remaining stops 107N,
    106N, 104N, 103N, 101N is headed to 106N but not to 106S or 106.
   */
  lemma HeadedToStopExample(t: Trip)
    requires t.update.stopTimeUpdates ==
      [StopWithId("107N"), StopWithId("106N"), StopWithId("104N"), StopWithId("103N"), StopWithId("101N")]
    ensures HeadedToStop(t, "106N")
    ensures !HeadedToStop(t, "106S")
    ensures !HeadedToStop(t, "106")
  {
    assert t.update.stopTimeUpdates[1].stopId == "106N";
  }
}
