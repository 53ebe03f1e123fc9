/**
  Correlating a feed's entities into trips. One pass over the entities
  fills three insertion-ordered dictionaries keyed by a composite trip key
  (trip updates, vehicle positions, alert lists); then one trip is made per
  trip-update key, joined with the vehicle and alerts under the same key.
 */
module Feed {
  import opened Common
  import opened Text
  import opened OrderedMap
  import opened Realtime
  import opened StaticTypes
  import opened Trips

  /** How many trailing characters of the NYCT train id go into the trip key. */
  const TrainIdSuffixLength: nat := 7

  /**
    The composite key that ties a trip update to its vehicle position and
    alerts: the trip id, a space, and the last seven characters of the NYCT
    train id (all of it when shorter).
   */
  function TripKey(d: TripDescriptor): (k: string)
    ensures |k| == |d.tripId| + 1 + (if |d.nyct.trainId| <= 7 then |d.nyct.trainId| else 7)
    ensures k[..|d.tripId|] == d.tripId && k[|d.tripId|] == ' '
    ensures var trainId := d.nyct.trainId;
      trainId == trainId[..|trainId| - (|k| - |d.tripId| - 1)] + k[|d.tripId| + 1..]
  {
    var suffix := LastChars(d.nyct.trainId, TrainIdSuffixLength);
    var k := d.tripId + " " + suffix;
    assert k[|d.tripId| + 1..] == suffix;
    k
  }

  /** A train id of seven characters or fewer goes into the key whole. */
  lemma ShortTrainIdKeptWhole(d: TripDescriptor)
    requires |d.nyct.trainId| <= 7
    ensures TripKey(d) == d.tripId + " " + d.nyct.trainId
  {
    var k := TripKey(d);
    assert k[|d.tripId| + 1..] == d.nyct.trainId;
    assert k == k[..|d.tripId|] + [k[|d.tripId|]] + k[|d.tripId| + 1..];
  }

  /** The payload an entity is filed under: trip update first, then vehicle, then alert. */
  datatype Payload =
    | TripUpdatePayload(update: TripUpdate)
    | VehiclePayload(vehicle: VehiclePosition)
    | AlertPayload(alert: Alert)
    | NoPayload

  function Classify(e: FeedEntity): (p: Payload)
    ensures p.TripUpdatePayload? <==> e.tripUpdate.Some?
    ensures p.VehiclePayload? <==> e.tripUpdate.None? && e.vehicle.Some?
    ensures p.AlertPayload? <==> e.tripUpdate.None? && e.vehicle.None? && e.alert.Some?
    ensures p.NoPayload? <==> e.tripUpdate.None? && e.vehicle.None? && e.alert.None?
  {
    if e.tripUpdate.Some? then TripUpdatePayload(e.tripUpdate.value)
    else if e.vehicle.Some? then VehiclePayload(e.vehicle.value)
    else if e.alert.Some? then AlertPayload(e.alert.value)
    else NoPayload
  }

  /** The three dictionaries filled by the pass over the entities. */
  datatype Buckets = Buckets(
    tripUpdates: AList<string, TripUpdate>,
    vehicles: AList<string, VehiclePosition>,
    alerts: AList<string, seq<Alert>>)

  const EmptyBuckets: Buckets := Buckets([], [], [])

  /** One (key, alert) pair per informed entity of the alert, in order. */
  function AlertEntries(a: Alert): (ps: seq<(string, Alert)>)
    ensures |ps| == |a.informedEntities|
    ensures forall i :: 0 <= i < |ps| ==> ps[i] == (TripKey(a.informedEntities[i].trip), a)
  {
    seq(|a.informedEntities|, i requires 0 <= i < |a.informedEntities| => (TripKey(a.informedEntities[i].trip), a))
  }

  /** Filing one entity: at most one of the three dictionaries changes. */
  function Step(b: Buckets, e: FeedEntity): Buckets {
    match Classify(e)
    case TripUpdatePayload(u) => b.(tripUpdates := Put(b.tripUpdates, TripKey(u.trip), u))
    case VehiclePayload(v) => b.(vehicles := Put(b.vehicles, TripKey(v.trip), v))
    case AlertPayload(a) => b.(alerts := AppendAll(b.alerts, AlertEntries(a)))
    case NoPayload => b
  }

  /** The pass over the entities, in feed order. */
  function Correlate(es: seq<FeedEntity>): Buckets {
    if es == [] then EmptyBuckets
    else
      var n := |es| - 1;
      Step(Correlate(es[..n]), es[n])
  }

  /** Each entity is filed in at most one dictionary, the one its precedence selects. */
  lemma StepTouchesOneBucket(b: Buckets, e: FeedEntity)
    ensures var b' := Step(b, e);
      && (e.tripUpdate.None? ==> b'.tripUpdates == b.tripUpdates)
      && (e.tripUpdate.Some? || e.vehicle.None? ==> b'.vehicles == b.vehicles)
      && (e.tripUpdate.Some? || e.vehicle.Some? || e.alert.None? ==> b'.alerts == b.alerts)
  {
  }

  /** (key, trip update) for every entity filed as a trip update, in feed order. */
  function TripUpdatePairs(es: seq<FeedEntity>): seq<(string, TripUpdate)> {
    if es == [] then []
    else
      var n := |es| - 1;
      TripUpdatePairs(es[..n]) + match Classify(es[n])
        case TripUpdatePayload(u) => [(TripKey(u.trip), u)]
        case _ => []
  }

  /** (key, vehicle) for every entity filed as a vehicle position, in feed order. */
  function VehiclePairs(es: seq<FeedEntity>): seq<(string, VehiclePosition)> {
    if es == [] then []
    else
      var n := |es| - 1;
      VehiclePairs(es[..n]) + match Classify(es[n])
        case VehiclePayload(v) => [(TripKey(v.trip), v)]
        case _ => []
  }

  /** (key, alert) for every informed entity of every entity filed as an alert, in feed order. */
  function AlertPairs(es: seq<FeedEntity>): seq<(string, Alert)> {
    if es == [] then []
    else
      var n := |es| - 1;
      AlertPairs(es[..n]) + match Classify(es[n])
        case AlertPayload(a) => AlertEntries(a)
        case _ => []
  }

  /** The trip-update dictionary is the pairs assigned in order: last write wins, first position stays. */
  lemma {:induction false} CorrelateTripUpdates(es: seq<FeedEntity>)
    ensures Correlate(es).tripUpdates == FromPairs(TripUpdatePairs(es))
  {
    if es != [] {
      var n := |es| - 1;
      CorrelateTripUpdates(es[..n]);
      var ps := TripUpdatePairs(es[..n]);
      match Classify(es[n])
      case TripUpdatePayload(u) =>
        var ps' := ps + [(TripKey(u.trip), u)];
        assert ps'[..|ps'| - 1] == ps;
      case _ =>
        assert TripUpdatePairs(es) == ps + [];
        assert ps + [] == ps;
    }
  }

  /** The vehicle dictionary is the pairs assigned in order. */
  lemma {:induction false} CorrelateVehicles(es: seq<FeedEntity>)
    ensures Correlate(es).vehicles == FromPairs(VehiclePairs(es))
  {
    if es != [] {
      var n := |es| - 1;
      CorrelateVehicles(es[..n]);
      var ps := VehiclePairs(es[..n]);
      match Classify(es[n])
      case VehiclePayload(v) =>
        var ps' := ps + [(TripKey(v.trip), v)];
        assert ps'[..|ps'| - 1] == ps;
      case _ =>
        assert VehiclePairs(es) == ps + [];
        assert ps + [] == ps;
    }
  }

  /** The alert dictionary is every (key, alert) pair appended in order. */
  lemma {:induction false} CorrelateAlerts(es: seq<FeedEntity>)
    ensures Correlate(es).alerts == AppendAll([], AlertPairs(es))
  {
    if es != [] {
      var n := |es| - 1;
      CorrelateAlerts(es[..n]);
      var ps := AlertPairs(es[..n]);
      match Classify(es[n])
      case AlertPayload(a) =>
        AppendAllConcat([], ps, AlertEntries(a));
      case _ =>
        assert AlertPairs(es) == ps + [];
        assert ps + [] == ps;
    }
  }

  /** Every trip-update pair is filed under its own trip's key. */
  lemma {:induction false} TripUpdatePairsKeyed(es: seq<FeedEntity>, p: (string, TripUpdate))
    requires p in TripUpdatePairs(es)
    ensures p.0 == TripKey(p.1.trip)
  {
    var n := |es| - 1;
    if p !in TripUpdatePairs(es[..n]) {
      match Classify(es[n])
      case TripUpdatePayload(u) =>
      case _ =>
    } else {
      TripUpdatePairsKeyed(es[..n], p);
    }
  }

  /** One trip for the trip update filed under `key`, joined with that key's vehicle and alerts. */
  function MakeTrip(b: Buckets, key: string, u: TripUpdate, shapes: ShapeTable, stations: StationTable, feedTime: int): Trip {
    Trip(u, Get(b.vehicles, key), Get(b.alerts, key).GetOr([]), shapes, stations, feedTime)
  }

  /** The feed's trips, one per trip-update key, in the dictionary's order. */
  function FeedTrips(feed: FeedMessage, shapes: ShapeTable, stations: StationTable): (ts: seq<Trip>)
    ensures |ts| == |Correlate(feed.entities).tripUpdates|
  {
    var b := Correlate(feed.entities);
    seq(|b.tripUpdates|, i requires 0 <= i < |b.tripUpdates| =>
      MakeTrip(b, b.tripUpdates[i].0, b.tripUpdates[i].1, shapes, stations, feed.header.timestamp))
  }

  /** The keys of the trip updates, each once, in order of first appearance. */
  function TripKeys(es: seq<FeedEntity>): seq<string> {
    Dedup(Keys(TripUpdatePairs(es)))
  }

  /**
    The trips of a feed: one per distinct trip-update key, ordered by each
    key's first trip update; each trip carries the last trip update for its
    key, the last vehicle position with the same key (absent if none), and
    every alert naming that key in encounter order (empty if none). Keys
    that only vehicles or alerts use make no trip.
   */
  lemma TripsSpec(feed: FeedMessage, shapes: ShapeTable, stations: StationTable)
    ensures var es := feed.entities;
      var ts := FeedTrips(feed, shapes, stations);
      var keys := TripKeys(es);
      && |ts| == |keys| == |Elements(Keys(TripUpdatePairs(es)))|
      && forall i :: 0 <= i < |ts| ==>
        && keys[i] in Keys(TripUpdatePairs(es))
        && TripKey(ts[i].update.trip) == keys[i]
        && LastValue(TripUpdatePairs(es), keys[i]) == Some(ts[i].update)
        && ts[i].vehicle == LastValue(VehiclePairs(es), keys[i])
        && ts[i].alerts == ValuesFor(AlertPairs(es), keys[i])
        && ts[i].feedTime == feed.header.timestamp
        && ts[i].shapes == shapes && ts[i].stations == stations
  {
    var es := feed.entities;
    var b := Correlate(es);
    var ts := FeedTrips(feed, shapes, stations);
    var keys := TripKeys(es);
    CorrelateTripUpdates(es);
    CorrelateVehicles(es);
    CorrelateAlerts(es);
    FromPairsKeys(TripUpdatePairs(es));
    DedupCardinality(Keys(TripUpdatePairs(es)));
    forall i | 0 <= i < |ts|
      ensures keys[i] in Keys(TripUpdatePairs(es))
      ensures TripKey(ts[i].update.trip) == keys[i]
      ensures LastValue(TripUpdatePairs(es), keys[i]) == Some(ts[i].update)
      ensures ts[i].vehicle == LastValue(VehiclePairs(es), keys[i])
      ensures ts[i].alerts == ValuesFor(AlertPairs(es), keys[i])
    {
      var key := b.tripUpdates[i].0;
      assert key == Keys(b.tripUpdates)[i] == keys[i];
      GetAt(b.tripUpdates, i);
      FromPairsGet(TripUpdatePairs(es), key);
      LastValueIsPair(TripUpdatePairs(es), key);
      TripUpdatePairsKeyed(es, (key, ts[i].update));
      FromPairsGet(VehiclePairs(es), key);
      AppendAllGet([], AlertPairs(es), key);
    }
  }

  /**
    A trip of the feed has a delay alert exactly when some informed entity
    of some alert carries its key.
   */
  lemma DelayAlertIffAlertNamesKey(feed: FeedMessage, shapes: ShapeTable, stations: StationTable, i: nat)
    requires i < |FeedTrips(feed, shapes, stations)|
    ensures var t := FeedTrips(feed, shapes, stations)[i];
      HasDelayAlert(t) <==> TripKey(t.update.trip) in Keys(AlertPairs(feed.entities))
  {
    TripsSpec(feed, shapes, stations);
    var t := FeedTrips(feed, shapes, stations)[i];
    ValuesForEmpty(AlertPairs(feed.entities), TripKey(t.update.trip));
  }

  /** The replacement periods as (route, end) pairs, in header order. */
  function PeriodPairs(h: FeedHeader): (ps: seq<(string, int)>)
    ensures |ps| == |h.nyct.tripReplacementPeriods|
    ensures forall i :: 0 <= i < |ps| ==>
      ps[i] == (h.nyct.tripReplacementPeriods[i].routeId, h.nyct.tripReplacementPeriods[i].end)
  {
    var periods := h.nyct.tripReplacementPeriods;
    seq(|periods|, i requires 0 <= i < |periods| => (periods[i].routeId, periods[i].end))
  }

  /** The end of the replacement period for each route, by assigning each period in turn. */
  function ReplacementPeriods(h: FeedHeader): AList<string, int> {
    FromPairs(PeriodPairs(h))
  }

  /**
    Each route in the header appears once, in order of its first period,
    with the end of its last period.
   */
  lemma ReplacementPeriodsSpec(h: FeedHeader, route: string)
    ensures Keys(ReplacementPeriods(h)) == Dedup(Keys(PeriodPairs(h)))
    ensures Get(ReplacementPeriods(h), route) == LastValue(PeriodPairs(h), route)
    ensures Get(ReplacementPeriods(h), route).Some? <==>
      exists i :: 0 <= i < |h.nyct.tripReplacementPeriods| && h.nyct.tripReplacementPeriods[i].routeId == route
  {
    var ps := PeriodPairs(h);
    FromPairsKeys(ps);
    FromPairsGet(ps, route);
    if Get(ReplacementPeriods(h), route).Some? {
      assert route in Keys(ps);
      var i :| 0 <= i < |ps| && Keys(ps)[i] == route;
      assert h.nyct.tripReplacementPeriods[i].routeId == route;
    }
    if i :| 0 <= i < |h.nyct.tripReplacementPeriods| && h.nyct.tripReplacementPeriods[i].routeId == route {
      assert Keys(ps)[i] == route;
    }
  }
}
