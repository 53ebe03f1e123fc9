/**
  The decoded GTFS-realtime feed with the NYCT subway extensions, as plain
  immutable records. Optional protobuf fields whose presence the library
  tests are `Option`s; fields it reads without a presence test carry their
  protobuf default instead (an empty string, `false`, `0`). Timestamps are
  POSIX seconds.
 */
module Realtime {
  import opened Common

  /** The NYCT extension of a trip descriptor. */
  datatype NyctTripDescriptor = NyctTripDescriptor(trainId: string, isAssigned: bool)

  datatype TripDescriptor = TripDescriptor(
    tripId: string,
    routeId: string,
    startDate: string,
    nyct: NyctTripDescriptor)

  /** An arrival or departure estimate; its `time` may itself be unset (read as 0). */
  datatype StopTimeEvent = StopTimeEvent(time: Option<int>)

  /** The NYCT extension of a stop-time update: the two optional track fields. */
  datatype NyctStopTimeUpdate = NyctStopTimeUpdate(scheduledTrack: Option<string>, actualTrack: Option<string>)

  datatype StopTimeUpdate = StopTimeUpdate(
    stopId: string,
    arrival: Option<StopTimeEvent>,
    departure: Option<StopTimeEvent>,
    nyct: NyctStopTimeUpdate)

  /** A trip's progress: its descriptor and the remaining stops in order. */
  datatype TripUpdate = TripUpdate(trip: TripDescriptor, stopTimeUpdates: seq<StopTimeUpdate>)

  datatype VehicleStopStatus = IncomingAt | StoppedAt | InTransitTo

  datatype VehiclePosition = VehiclePosition(
    trip: TripDescriptor,
    timestamp: int,
    stopId: string,
    currentStatus: VehicleStopStatus,
    currentStopSequence: int)

  /** The part of an alert's informed entity that the library reads. */
  datatype EntitySelector = EntitySelector(trip: TripDescriptor)

  datatype Alert = Alert(informedEntities: seq<EntitySelector>)

  /** One feed entity; protobuf lets any subset of the three payloads be set. */
  datatype FeedEntity = FeedEntity(
    id: string,
    tripUpdate: Option<TripUpdate>,
    vehicle: Option<VehiclePosition>,
    alert: Option<Alert>)

  /** The end of the window in which the real-time data replaces the schedule for one route. */
  datatype TripReplacementPeriod = TripReplacementPeriod(routeId: string, end: int)

  datatype NyctFeedHeader = NyctFeedHeader(nyctSubwayVersion: string, tripReplacementPeriods: seq<TripReplacementPeriod>)

  datatype FeedHeader = FeedHeader(gtfsRealtimeVersion: string, timestamp: int, nyct: NyctFeedHeader)

  datatype FeedMessage = FeedMessage(header: FeedHeader, entities: seq<FeedEntity>)
}
