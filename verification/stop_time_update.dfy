/**
  The view of one stop-time update: predicted arrival and departure, the
  NYCT scheduled and actual tracks, whether the train is arriving on an
  unexpected track, and the stop's human-readable name.
 */
module StopTimes {
  import opened Common
  import opened Realtime
  import opened StaticTypes

  /** Predicted arrival time; absent when the update has no arrival (an unset time reads as 0). */
  function Arrival(u: StopTimeUpdate): (r: Option<int>)
    ensures r.None? <==> u.arrival.None?
    ensures u.arrival.Some? && u.arrival.value.time.Some? ==> r == u.arrival.value.time
    ensures u.arrival.Some? && u.arrival.value.time.None? ==> r == Some(0)
  {
    match u.arrival
    case None => None
    case Some(event) => Some(event.time.GetOr(0))
  }

  /** Predicted departure time; absent when the update has no departure (an unset time reads as 0). */
  function Departure(u: StopTimeUpdate): (r: Option<int>)
    ensures r.None? <==> u.departure.None?
    ensures u.departure.Some? && u.departure.value.time.Some? ==> r == u.departure.value.time
    ensures u.departure.Some? && u.departure.value.time.None? ==> r == Some(0)
  {
    match u.departure
    case None => None
    case Some(event) => Some(event.time.GetOr(0))
  }

  /** Assigning the arrival event (`Some`) or clearing it (`None`). */
  function WithArrival(u: StopTimeUpdate, event: Option<StopTimeEvent>): StopTimeUpdate {
    u.(arrival := event)
  }

  /** Assigning the departure event (`Some`) or clearing it (`None`). */
  function WithDeparture(u: StopTimeUpdate, event: Option<StopTimeEvent>): StopTimeUpdate {
    u.(departure := event)
  }

  /**
    A time written into the arrival or departure event reads back unchanged,
    clearing the event makes it absent again, and the other event is
    untouched either way.
   */
  lemma EventTimesRoundTrip(u: StopTimeUpdate, arrival: int, departure: int)
    ensures var both := WithDeparture(WithArrival(u, Some(StopTimeEvent(Some(arrival)))), Some(StopTimeEvent(Some(departure))));
      && Arrival(both) == Some(arrival)
      && Departure(both) == Some(departure)
      && Arrival(WithArrival(both, None)).None?
      && Departure(WithArrival(both, None)) == Some(departure)
      && Departure(WithDeparture(both, None)).None?
      && Arrival(WithDeparture(both, None)) == Some(arrival)
  {
  }

  function ScheduledTrack(u: StopTimeUpdate): Option<string> {
    u.nyct.scheduledTrack
  }

  function ActualTrack(u: StopTimeUpdate): Option<string> {
    u.nyct.actualTrack
  }

  /**
    True only when both tracks are known and differ: a missing track never
    counts as a mismatch.
   */
  predicate UnexpectedTrackArrival(u: StopTimeUpdate)
    ensures UnexpectedTrackArrival(u) ==> ScheduledTrack(u).Some? && ActualTrack(u).Some?
    ensures ScheduledTrack(u).Some? && ActualTrack(u).Some? ==>
      (UnexpectedTrackArrival(u) <==> ScheduledTrack(u).value != ActualTrack(u).value)
  {
    if ScheduledTrack(u).None? || ActualTrack(u).None? then false
    else ScheduledTrack(u) != ActualTrack(u)
  }

  /** Assigning the scheduled track extension field (`Some`) or clearing it (`None`). */
  function WithScheduledTrack(u: StopTimeUpdate, track: Option<string>): StopTimeUpdate {
    u.(nyct := u.nyct.(scheduledTrack := track))
  }

  /** Assigning the actual track extension field (`Some`) or clearing it (`None`). */
  function WithActualTrack(u: StopTimeUpdate, track: Option<string>): StopTimeUpdate {
    u.(nyct := u.nyct.(actualTrack := track))
  }

  /**
    Setting both tracks flags a mismatch exactly when they differ; clearing
    either track again turns the flag off, and the other track is untouched.
   */
  lemma TrackMismatchRoundTrip(u: StopTimeUpdate, scheduled: string, actual: string)
    ensures var both := WithActualTrack(WithScheduledTrack(u, Some(scheduled)), Some(actual));
      && (UnexpectedTrackArrival(both) <==> scheduled != actual)
      && !UnexpectedTrackArrival(WithActualTrack(both, None))
      && ScheduledTrack(WithActualTrack(both, None)) == Some(scheduled)
      && !UnexpectedTrackArrival(WithScheduledTrack(both, None))
      && ActualTrack(WithScheduledTrack(both, None)) == Some(actual)
  {
  }

  /**
    The stop's name from the station table: absent when the stop id is not
    in the table (the ValueError is swallowed); a row without a `stop_name`
    column still raises KeyError.
   */
  function StopName(u: StopTimeUpdate, stations: StationTable): (r: Result<Option<string>>)
    ensures r == Success(None) <==> u.stopId !in stations
    ensures r.Failure? <==> u.stopId in stations && "stop_name" !in stations[u.stopId]
    ensures r.Failure? ==> r.error == KeyError
    ensures r.Success? && r.value.Some? ==> r.value.value == stations[u.stopId]["stop_name"]
  {
    match GetStationName(stations, u.stopId)
    case Success(name) => Success(Some(name))
    case Failure(e) => if e == ValueError then Success(None) else Failure(e)
  }

  /**
    A stop-time update carrying only a stop id, for a stop the table does
    not know: the id comes back unchanged and every derived field is absent.
   */
  lemma BareStopTimeUpdate(stopId: string, stations: StationTable)
    requires stopId !in stations
    ensures var u := StopTimeUpdate(stopId, None, None, NyctStopTimeUpdate(None, None));
      && u.stopId == stopId
      && Arrival(u).None? && Departure(u).None?
      && ScheduledTrack(u).None? && ActualTrack(u).None?
      && !UnexpectedTrackArrival(u)
      && StopName(u, stations) == Success(None)
  {
  }
}
