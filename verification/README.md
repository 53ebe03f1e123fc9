# nyct-gtfs in Dafny

A model of the deterministic core of `nyct-gtfs`, a Python library that
reads the New York City Transit subway GTFS-realtime feed. The model takes
a feed that has already been decoded and follows it through the library's
steps:

- it correlates the feed's entities into trips and filters those trips;
- it derives each trip's state (underway, shape, direction, headsign,
  delay alert, remaining stops);
- it projects each stop-time update (times, tracks, stop name);
- it applies the one-hour timestamp correction;
- it loads the two static reference tables (`trips.txt`, `stops.txt`);
- it models the reflective proxy that the library puts over the C++
  protobuf parser.

Timestamps are integer POSIX seconds. Python exceptions become
`Common.Result` with an `Error` value naming the exception class. `None`
becomes `Common.Option`. Python dictionaries whose iteration order is
observable become `OrderedMap` association lists:

- a key keeps the position of its first insertion;
- assigning to a key that is already present replaces its value in place.

One module per source file:

| module | file | models |
|---|---|---|
| `Common` | common.dfy | `Option`, `Result`, the exception classes |
| `Text` | text.dfy | `in` on strings, `str.split`, `s[-n:]` for positive `n` |
| `OrderedMap` | ordered_map.dfy | insertion-ordered `dict`, `setdefault(...).append` |
| `Realtime` | realtime.dfy | the decoded feed messages and the NYCT extensions |
| `TimeUtilities` | time_utilities.dfy | `parse_timestamp` |
| `StaticTypes` | gtfs_static_types.dfy | `TripShapes`, `Stations` |
| `StopTimes` | stop_time_update.dfy | `StopTimeUpdate` |
| `Trips` | trip.dfy | `Trip` |
| `Feed` | feed.dfy | `NYCTFeed._trip_identifier`, `trips`, `trip_replacement_periods` |
| `TripFilter` | filter.dfy | `NYCTFeed.filter_trips` |
| `CppParser` | cpp_parser_wrapper.dfy | `ProxyMessage`, `RepeatedField`, `RepeatedFieldIterator` |

The C++ parser (`nyct_gtfs_cpp`) is a `CppParser.Catalog`: a record of
total functions, one per C++ routine, which the model treats as
uninterpreted. Views over messages and repeated fields carry their memo
maps as values. Every access returns its result together with the updated
view.

Where the source and its tests disagree, the model follows the source,
except for `direction`:

- `filter_trips` raises ValueError, not the TypeError the tests expect,
  for a `line_id` or `shape_id` that is neither a string nor a list. It
  raises only once a trip is examined, so an empty feed returns `[]`.
- A `headed_for_stop_id` that is neither a string nor a list imposes no
  constraint, because the source has no branch for it. The tests expect
  TypeError.
- `direction` on the shape id `"0"` raises IndexError as written, where
  the tests expect `None`. This is the first finding below. The model
  keeps both versions and uses the guarded one everywhere else, including
  in the filter's travel-direction criterion. So `filter_trips` with a
  `travel_direction` raises IndexError in the source on such a trip, but
  drops the trip in the model. The source's filter is kept as
  `TripFilter.KeepTripAsWritten` and `TripFilter.FilterTripsAsWritten`.

## Model

Functions that only compute have no row of their own when the lemmas in
the table state their properties:

- `CppParser.Next`: stated by `CppParser.NextStep` and `CppParser.DrainFrom`.
- `TripFilter.KeepTrip`, `TripFilter.KeepTripAsWritten` and
  `TripFilter.FilterTripsAsWritten`: stated by `TripFilter.KeepTripSound`,
  `TripFilter.KeepTripErrors`, `TripFilter.KeepTripAsWrittenRefined`,
  `TripFilter.ZeroShapeFilterRaises` and `TripFilter.FilterTripsSpec`.
- `Feed.Step`, `Feed.Correlate` and `Feed.MakeTrip`: stated by
  `Feed.StepTouchesOneBucket`, the three `Feed.Correlate...` lemmas and
  `Feed.TripsSpec`.
- `StaticTypes.ShapeRow` and `StaticTypes.LoadTripShapes`: stated by
  `StaticTypes.AddShapeRowSpec`, `StaticTypes.LoadedRowsRead` and
  `StaticTypes.LoadedHeadsignFound`.
- `StaticTypes.ZipToStop`: stated by `StaticTypes.ZipToStopSpec`.
- `StaticTypes.LoadStations`: stated by `StaticTypes.LoadedStationName`
  and `StaticTypes.UnknownStationNotFound`.
- `Trips.LastPositionUpdate`, `Trips.Location`, `Trips.LocationStatus`
  and `Trips.CurrentStopSequenceIndex`: stated by
  `Trips.PositionFieldsGated` and `Trips.StatusNamesDistinct`.
- `Trips.HasDelayAlert`: stated by `Feed.DelayAlertIffAlertNamesKey`.
- `StopTimes.ScheduledTrack` and `StopTimes.ActualTrack`: stated by
  `StopTimes.UnexpectedTrackArrival` and `StopTimes.TrackMismatchRoundTrip`.

`CppParser.HasField` (nyct_gtfs/cpp_parser_wrapper.py:154-155) and
`Trips.TrainAssigned` (nyct_gtfs/trip.py:77) each read one value, from the C++
layer or from the trip descriptor, and there is nothing more to state
about them.

| member | source | states |
|---|---|---|
| `Text.IndexOfFrom` | nyct_gtfs/trip.py:278 | the first occurrence of a pattern at or after a position, or none at all |
| `Text.ContainsMeansOccurs` | nyct_gtfs/trip.py:278 | `pat in s` holds exactly when the pattern occurs at some index |
| `Text.Split` | nyct_gtfs/trip.py:268 | `str.split` always yields at least one piece |
| `Text.JoinSplit` | nyct_gtfs/trip.py:268 | joining the pieces of a split with the separator gives the original string back |
| `Text.SplitPiecesAreFree` | nyct_gtfs/trip.py:268 | no piece of a split contains the separator |
| `Text.SplitPieces` | nyct_gtfs/trip.py:278 | without an occurrence the split is the whole string; otherwise the first piece is the text before the first occurrence and the second piece is the head of the split of the rest |
| `Text.FirstPieceHead` | nyct_gtfs/trip.py:278 | the first piece is non-empty iff the text is non-empty and does not start with the separator, and it then starts with the text's first character |
| `Text.LastChars` | nyct_gtfs/feed.py:133 | for positive `n`, `s[-n:]` has length min(n, len s) and is a suffix of `s` |
| `OrderedMap.Get` | nyct_gtfs/feed.py:156-159 | a lookup finds a value exactly when the key is among the keys |
| `OrderedMap.Put` | nyct_gtfs/feed.py:143 | assignment keeps an existing key's position or appends a new key; it stores the new value and leaves every other key's value alone |
| `OrderedMap.PutKeepsDistinct` | nyct_gtfs/feed.py:143 | assignment never duplicates a key |
| `OrderedMap.Append` | nyct_gtfs/feed.py:148-150 | `setdefault(k, []).append(x)` extends the list under `k` by `x`, creates it if absent, and leaves other keys alone |
| `OrderedMap.Dedup` | nyct_gtfs/feed.py:153 | the keys of a dict have no repeats and are exactly the keys ever assigned |
| `OrderedMap.DedupFirstOccurrence` | nyct_gtfs/feed.py:153 | the keys of a dict come in the order of their first assignment |
| `OrderedMap.DedupCardinality` | nyct_gtfs/feed.py:153 | the number of distinct keys equals the number of entries |
| `OrderedMap.FromPairsKeys` | nyct_gtfs/feed.py:141-143 | assigning pairs in order orders the keys by first assignment, without repeats |
| `OrderedMap.FromPairsGet` | nyct_gtfs/feed.py:143 | after assigning pairs in order, each key holds the value of its last pair |
| `OrderedMap.GetAt` | nyct_gtfs/feed.py:153-157 | iterating the entries of a dict meets each key with the value a lookup of that key gives |
| `OrderedMap.LastValueIsPair` | nyct_gtfs/feed.py:143 | the value a key ends up with was assigned to that key |
| `OrderedMap.AppendAllConcat` | nyct_gtfs/feed.py:146-150 | appending two runs of pairs one after the other is appending their concatenation |
| `OrderedMap.AppendAllGet` | nyct_gtfs/feed.py:146-150 | after the appends, a key holds its earlier list followed by every value paired with it, in order, and is absent if it had neither |
| `OrderedMap.ValuesForEmpty` | nyct_gtfs/feed.py:148-150 | a key collects no values exactly when no pair carries it |
| `TimeUtilities.ParseTimestamp` | nyct_gtfs/time_utilities.py:22-31 | without a feed time the raw value; with one, one hour less when strictly more than thirty minutes ahead, else unchanged |
| `TimeUtilities.CorrectionIsOneHourBack` | nyct_gtfs/time_utilities.py:28-31 | the result is the raw value or one hour before it, never later |
| `TimeUtilities.CorrectedIsNotTooFarAhead` | nyct_gtfs/time_utilities.py:14-16 | a value at most ninety minutes ahead of the feed comes out at most thirty minutes ahead |
| `TimeUtilities.ThresholdIsStrict` | nyct_gtfs/time_utilities.py:28 | exactly thirty minutes ahead is not corrected; one second more is |
| `StaticTypes.AddShapeRowSpec` | nyct_gtfs/gtfs_static_types.py:16-29 | one row is accepted iff it can be read and does not contradict the headsign already stored for its shape; it then records that headsign |
| `StaticTypes.LoadedRowsRead` | nyct_gtfs/gtfs_static_types.py:16-22 | a successful load read every row: each had columns 2 and 3, a third `_` piece, and a matching explicit shape id |
| `StaticTypes.LoadedShapesHoldRows` | nyct_gtfs/gtfs_static_types.py:24-27 | after a successful load, every row's shape maps to that row's headsign |
| `StaticTypes.LoadedShapesHoldOnlyRows` | nyct_gtfs/gtfs_static_types.py:24-27 | after a successful load, every shape in the table is named by some row |
| `StaticTypes.AgreeingRowsLoad` | nyct_gtfs/gtfs_static_types.py:24-29 | rows that can all be read and agree on each shape's headsign load successfully |
| `StaticTypes.LoadShapeRowsSpec` | nyct_gtfs/gtfs_static_types.py:12-29 | loading succeeds iff every row reads and rows of one shape agree on its headsign; the table then holds exactly the shapes the rows name, with their headsigns |
| `StaticTypes.GetHeadsignText` | nyct_gtfs/gtfs_static_types.py:49-51 | ValueError iff the shape is unknown, otherwise its stored headsign |
| `StaticTypes.LoadedHeadsignFound` | nyct_gtfs/gtfs_static_types.py:14-27 | after a successful load that skips the header row, any data row's shape looks up to that row's headsign |
| `StaticTypes.ZipToStopSpec` | nyct_gtfs/gtfs_static_types.py:67-68 | the zipped row holds exactly the headings within the shorter length, each with the value in its last column |
| `StaticTypes.LoadStationRowsSpec` | nyct_gtfs/gtfs_static_types.py:61-69 | loading stops fails iff some data row is empty; otherwise each id maps to the zipped last row with that id, and an id no row carries is absent |
| `StaticTypes.GetStationName` | nyct_gtfs/gtfs_static_types.py:88-90 | ValueError for an unknown stop, KeyError for a row without `stop_name`, otherwise that column |
| `StaticTypes.LoadedStationName` | nyct_gtfs/gtfs_static_types.py:61-69 | after loading, a stop's name is the `stop_name` column of the last row with that id |
| `StaticTypes.UnknownStationNotFound` | nyct_gtfs/gtfs_static_types.py:88-89 | after loading, an id that no data row carries raises ValueError |
| `StopTimes.Arrival` | nyct_gtfs/stop_time_update.py:55-58 | absent iff the update has no arrival; otherwise the arrival time, 0 when unset |
| `StopTimes.Departure` | nyct_gtfs/stop_time_update.py:73-76 | absent iff the update has no departure; otherwise the departure time, 0 when unset |
| `StopTimes.EventTimesRoundTrip` | nyct_gtfs/stop_time_update.py:55-76 | a time written into the arrival or departure event reads back unchanged; clearing the event makes it absent; the other event is untouched |
| `StopTimes.UnexpectedTrackArrival` | nyct_gtfs/stop_time_update.py:156-159 | true only when both tracks are present, and then exactly when they differ |
| `StopTimes.TrackMismatchRoundTrip` | nyct_gtfs/stop_time_update.py:104-159 | setting both tracks flags a mismatch iff they differ; clearing either track again clears the flag and leaves the other track in place |
| `StopTimes.StopName` | nyct_gtfs/stop_time_update.py:167-170 | absent iff the stop is not in the table; KeyError iff its row lacks `stop_name`; otherwise that name |
| `StopTimes.BareStopTimeUpdate` | nyct_gtfs/stop_time_update.py:41 | an update with only a stop id returns that id unchanged, with every other derived field absent and no mismatch |
| `Trips.Underway` | nyct_gtfs/trip.py:57-67 | underway iff there is a vehicle position stamped at most 60 s after the feed time |
| `Trips.PositionFieldsGated` | nyct_gtfs/trip.py:177-237 | the four position fields are all absent unless underway, and are the vehicle's own fields when underway |
| `Trips.StatusNamesDistinct` | nyct_gtfs/trip.py:214-219 | the status names are the three distinct names of the feed's enumeration |
| `Trips.FutureDatedPositionNotUnderway` | nyct_gtfs/trip.py:62-67 | a position stamped more than a minute after the feed does not make the trip underway |
| `Trips.ShapeId` | nyct_gtfs/trip.py:268 | a missing second piece raises IndexError |
| `Trips.ShapeIdSpec` | nyct_gtfs/trip.py:268 | the shape id is exactly the text between the first `_` and the next `_` or the end; it fails iff the trip id has no `_` |
| `Trips.DirectionAsWritten` | nyct_gtfs/trip.py:278 | the direction as the source computes it is one character when it exists |
| `Trips.Direction` | nyct_gtfs/trip.py:278 | the guarded direction fails exactly when the shape id does; a present direction is one character |
| `Trips.DirectionSpec` | nyct_gtfs/trip.py:278 | the direction is present iff the first separator in the shape is followed by a character that does not start another separator, and it is that character |
| `Trips.DirectionInSpec` | nyct_gtfs/trip.py:278 | the same statement for a given shape and separator |
| `Trips.DirectionRefinesAsWritten` | nyct_gtfs/trip.py:278 | the guarded direction agrees with the source wherever the source returns, and is absent exactly where the source raises on a valid shape |
| `Trips.ZeroShapeDirection` | nyct_gtfs/trip.py:278 | for trip id `090300_0` the shape is `"0"`, the source raises IndexError, and the guarded direction is absent |
| `Trips.NorthboundShape` | nyct_gtfs/trip.py:268 | `090300_1..N` has shape `1..N` |
| `Trips.SouthboundShape` | nyct_gtfs/trip.py:268 | `095650_1..S03R` has shape `1..S03R` |
| `Trips.DoubleDotSeparator` | nyct_gtfs/trip.py:278 | a trip id containing `..` uses `..` as the direction separator |
| `Trips.LineShapeDirection` | nyct_gtfs/trip.py:278 | for a shape of the form line, `..`, letter, the direction is that letter |
| `Trips.NorthboundExample` | nyct_gtfs/trip.py:278 | `090300_1..N` travels `N` |
| `Trips.SouthboundExample` | nyct_gtfs/trip.py:278 | `095650_1..S03R` travels `S` |
| `Trips.HeadsignText` | nyct_gtfs/trip.py:303-308 | the table's headsign for the shape; otherwise the last stop's name; otherwise absent; a trip id without a shape raises IndexError, and a last stop whose row lacks `stop_name` raises KeyError |
| `Trips.AnyStopIs` | nyct_gtfs/trip.py:337 | true iff some update's stop id equals the given id |
| `Trips.HeadedToStop` | nyct_gtfs/trip.py:329-337 | true iff some remaining stop has exactly this id |
| `Trips.HeadedToStopExample` | nyct_gtfs/trip.py:337 | stop ids match whole: `106N` matches, while `106S` and `106` do not |
| `Feed.TripKey` | nyct_gtfs/feed.py:132-133 | the key is the trip id, a space, and the train id's last seven characters, or the whole train id when it is shorter |
| `Feed.ShortTrainIdKeptWhole` | nyct_gtfs/feed.py:133 | a train id of at most seven characters is kept whole |
| `Feed.Classify` | nyct_gtfs/feed.py:142-146 | an entity is filed as a trip update if it has one, else as a vehicle, else as an alert |
| `Feed.AlertEntries` | nyct_gtfs/feed.py:147-150 | one key per informed entity of an alert, in order, each paired with the alert |
| `Feed.StepTouchesOneBucket` | nyct_gtfs/feed.py:141-150 | filing an entity changes at most the dictionary its precedence selects |
| `Feed.CorrelateTripUpdates` | nyct_gtfs/feed.py:142-143 | the trip-update dictionary is the trip-update pairs assigned in feed order |
| `Feed.CorrelateVehicles` | nyct_gtfs/feed.py:144-145 | the vehicle dictionary is the vehicle pairs assigned in feed order |
| `Feed.CorrelateAlerts` | nyct_gtfs/feed.py:146-150 | the alert dictionary is every (key, alert) pair appended in feed order |
| `Feed.TripUpdatePairsKeyed` | nyct_gtfs/feed.py:143 | every trip update is filed under its own trip's key |
| `Feed.FeedTrips` | nyct_gtfs/feed.py:152-171 | one trip per entry of the trip-update dictionary |
| `Feed.TripsSpec` | nyct_gtfs/feed.py:138-171 | one trip per distinct trip-update key, ordered by first occurrence; each carries the last update for its key, the last vehicle with that key or none, and every alert naming that key in order; keys without a trip update make no trip |
| `Feed.DelayAlertIffAlertNamesKey` | nyct_gtfs/feed.py:158-159 | a trip of the feed has a delay alert iff some informed entity of some alert carries its key |
| `Feed.PeriodPairs` | nyct_gtfs/feed.py:113-115 | one (route, end) pair per replacement period, in header order |
| `Feed.ReplacementPeriodsSpec` | nyct_gtfs/feed.py:111-116 | each route appears once, in order of its first period, with the end of its last period, and only routes that have a period appear |
| `TripFilter.HeadedToAny` | nyct_gtfs/feed.py:231-235 | a list of stops matches iff the trip is headed to one of them |
| `TripFilter.FilterTrips` | nyct_gtfs/feed.py:192-249 | the result never has more trips than the input |
| `TripFilter.SelectMembers` | nyct_gtfs/feed.py:178 | the selected trips are exactly the input trips that meet every criterion |
| `TripFilter.SelectAppend` | nyct_gtfs/feed.py:192-249 | selection works trip by trip, keeping order across a concatenation |
| `TripFilter.KeepTripSound` | nyct_gtfs/feed.py:195-247 | the per-trip decision, when it does not raise, is the conjunction of the criteria |
| `TripFilter.KeepTripErrors` | nyct_gtfs/feed.py:195-225 | with the guarded direction: an ill-typed line criterion always raises ValueError; otherwise only a trip without a shape id or an ill-typed shape criterion can raise; with neither, the decision never raises |
| `TripFilter.KeepTripAsWrittenRefined` | nyct_gtfs/feed.py:205-207 | the source's per-trip decision and the guarded one agree except where the source raises IndexError: a travel-direction criterion on a trip whose shape has no direction letter, which the guarded decision drops |
| `TripFilter.ZeroShapeFilterRaises` | nyct_gtfs/feed.py:205-207 | with `travel_direction="N"`, the source's filter raises IndexError on trip `090300_0`, while the guarded filter returns no trips |
| `TripFilter.FilterTripsSpec` | nyct_gtfs/feed.py:192-249 | filtering succeeds iff no trip's decision raises, and then returns exactly the matching trips in order; otherwise it raises the first failing trip's error |
| `TripFilter.NoCriteriaKeepsAll` | nyct_gtfs/feed.py:192-249 | with no criterion given, every trip is returned, in order |
| `TripFilter.IllTypedLineRaises` | nyct_gtfs/feed.py:202-203 | an ill-typed line criterion raises ValueError once there is a trip, and an empty feed returns nothing |
| `TripFilter.MatchesIsConjunction` | nyct_gtfs/feed.py:178 | a trip meets all the given criteria iff it meets each one given alone |
| `TripFilter.ListCriterionIsUnion` | nyct_gtfs/feed.py:199-235 | a list criterion for line, shape or stop matches iff one of its members matches alone; an empty list matches nothing |
| `TripFilter.EmptyListKeepsNothing` | nyct_gtfs/feed.py:199-201 | an empty list of lines or of stops filters out every trip |
| `TripFilter.IllTypedHeadedForStopKeepsAll` | nyct_gtfs/feed.py:227-235 | a stop criterion that is neither a string nor a list keeps every trip |
| `TripFilter.UpdatedAfterKeepsOnlyUnderway` | nyct_gtfs/feed.py:237-241 | every trip kept under an update-time criterion is underway and was last updated no earlier than that time |
| `CppParser.RoutineFor` | nyct_gtfs/cpp_parser_wrapper.py:130-143 | UINT64, UINT32, BOOL and ENUM use the uint routine; INT64 and INT32 the int routine; DOUBLE and FLOAT the double routine; STRING and MESSAGE their own; any other kind has none |
| `CppParser.NewRepeatedField` | nyct_gtfs/cpp_parser_wrapper.py:22-28 | the length is read once from the size query, and no element is decoded yet |
| `CppParser.Extract` | nyct_gtfs/cpp_parser_wrapper.py:142-149 | a kind without a routine raises TypeError; a message becomes a fresh non-extension view; anything else is the routine's raw value |
| `CppParser.Resolve` | nyct_gtfs/cpp_parser_wrapper.py:122-149 | kind 0 raises AttributeError; a repeated field becomes an undecoded repeated field; otherwise the kind dispatch |
| `CppParser.GetAttr` | nyct_gtfs/cpp_parser_wrapper.py:118-152 | attribute access keeps the view over the same message; afterwards the attribute is memoised exactly when the access succeeded, with the returned value, and no other memo entry changes |
| `CppParser.GetExtension` | nyct_gtfs/cpp_parser_wrapper.py:78-116 | bracket access raises ValueError off an extension root and changes nothing; on a root the extension is memoised exactly when the access succeeded, with the returned value, and no other memo entry changes |
| `CppParser.Extensions` | nyct_gtfs/cpp_parser_wrapper.py:157-159 | a fresh extension-root view over the same message |
| `CppParser.GetAttrIsResolve` | nyct_gtfs/cpp_parser_wrapper.py:118-152 | on a coherent view, attribute access returns the fresh resolution, keeps the view coherent, and changes nothing when it fails |
| `CppParser.GetExtensionIsResolve` | nyct_gtfs/cpp_parser_wrapper.py:78-116 | the same for bracket access on an extension root |
| `CppParser.GetAttrMemoised` | nyct_gtfs/cpp_parser_wrapper.py:119-120 | a second access to the same attribute returns the first result and leaves the view as it was |
| `CppParser.GetExtensionMemoised` | nyct_gtfs/cpp_parser_wrapper.py:83-84 | a second access to the same extension returns the first result and leaves the view as it was |
| `CppParser.ExtensionRootRequired` | nyct_gtfs/cpp_parser_wrapper.py:80-81 | bracket access on a view that is not an extension root raises ValueError; through `Extensions` it resolves on the same message |
| `CppParser.NewViewCoherent` | nyct_gtfs/cpp_parser_wrapper.py:72-76 | a fresh view's memo is coherent |
| `CppParser.FetchItem` | nyct_gtfs/cpp_parser_wrapper.py:43-66 | element fetch raises TypeError iff the kind has no routine; a message element becomes a fresh view; any other element is the repeated routine's raw value, unchanged |
| `CppParser.GetItemAsWritten` | nyct_gtfs/cpp_parser_wrapper.py:36-68 | the source's element access raises IndexError only at or above len or below -len; otherwise slot `len + index` for a negative index is memoised exactly when the access succeeds, a miss asks the C++ layer for the raw index, and no other slot changes |
| `CppParser.GetItem` | nyct_gtfs/cpp_parser_wrapper.py:36-68 | bounded element access raises IndexError outside [0, len) and changes nothing; inside, the element's own slot is memoised exactly when the access succeeds, a miss is the fresh fetch, and no other slot changes |
| `CppParser.GetItemIsFetch` | nyct_gtfs/cpp_parser_wrapper.py:36-68 | on a coherent field, bounded element access raises IndexError outside [0, len) and otherwise returns the fresh fetch; the field stays the same field and stays coherent |
| `CppParser.NewRepeatedFieldCoherent` | nyct_gtfs/cpp_parser_wrapper.py:27-28 | a new repeated field is well formed and coherent |
| `CppParser.GetItemAgreesOnNonNegative` | nyct_gtfs/cpp_parser_wrapper.py:36-41 | for non-negative indices the source's access and the bounded one agree |
| `CppParser.NegativeIndexPoisonsMemo` | nyct_gtfs/cpp_parser_wrapper.py:36-67 | reading element -1 of a two-element field caches the C++ answer for -1 in slot 1; a later read of element 1 returns it, which is not element 1 |
| `CppParser.Iter` | nyct_gtfs/cpp_parser_wrapper.py:33-34 | each iteration starts at index 0 over the same field |
| `CppParser.NextStep` | nyct_gtfs/cpp_parser_wrapper.py:12-18 | before the end, one step yields the current element and advances; at the end it raises StopIteration and resets the index to 0 |
| `CppParser.DrainFrom` | nyct_gtfs/cpp_parser_wrapper.py:12-18 | from index k, the remaining elements come in order, then StopIteration, with the iterator back at 0 |
| `CppParser.IterationRestarts` | nyct_gtfs/cpp_parser_wrapper.py:4-18 | a fresh iterator yields elements 0 to len-1 in order and then StopIteration, and is back at 0, so iterating again starts over |

## Left out

- Fetching the feed over the network (`refresh`), feed-URL validation, and
  protobuf decoding (`load_gtfs_bytes`, `FeedMessage`). The model starts
  from a decoded `Realtime.FeedMessage`.
- The bodies of the C++ routines. They are the uninterpreted functions of
  `CppParser.Catalog`.
- CSV tokenising and file opening for the static tables. Rows arrive
  already split into fields.
- `datetime.fromtimestamp` and its local-time and daylight-saving
  conversion. All times are POSIX seconds, compared directly.
- `start_date` (`strptime`) and `departure_time` (float arithmetic on the
  trip id).
- `stop_time_updates` wraps each update in a `StopTimeUpdate` object; the
  model reads the updates directly.
- `__str__` and `__repr__`. They are presentation only.
- Object identity. Views are snapshot values, not shared objects:
  - a nested message view;
  - a `RepeatedField` that `GetAttr` or `GetExtension` memoises;
  - the field an `Iterator` holds from `Iter`.

  The model does not share one memo between two references to the same
  Python object. A second `GetAttr` returns the memoised field value, not
  the one the caller updated by an element access. So the negative-index
  finding below is reproduced only when the caller threads the updated
  field value through its accesses. In Python, `msg.entity[-1]` followed
  by `msg.entity[1]` shares the one field object.
- The C++ repeated-element routines are total functions of
  `CppParser.Catalog` (`getRepeatedScalar`, `getRepeatedMessage`). They
  answer every index, including a negative one. The model cannot express a
  C++ routine that raises on an out-of-range index. If it raised, the
  source would propagate that error and memoise nothing.
- Python truthiness. The boolean criteria of `filter_trips` are modelled
  as optional booleans; the source compares them with `!=`, so other
  values are not modelled. A `travel_direction` that is not a string is
  unequal to every direction and keeps no trip. This is modelled, via
  `Other`.
- Floating-point values from the C++ layer are abstract reals.
- `CppParser.NewRepeatedField`: the size of an extension's repeated field
  is queried with the empty field name and without the extension number,
  as the source does. What the C++ layer answers to that query is left to
  the catalog.
- `CppParser.IterationRestarts`: stated only for fields whose kind has a
  routine. For any other kind every element access raises TypeError, and
  the iterator passes that error through with its index already advanced.
- `CppParser.DrainFrom`: stated, like `IterationRestarts`, for coherent
  fields whose kind has a routine.
- `TripFilter.KeepTrip`: uses the guarded `direction`, so on a trip whose
  shape has no direction letter a `travel_direction` criterion drops the
  trip where the source raises IndexError (nyct_gtfs/feed.py:205-207 through
  nyct_gtfs/trip.py:278). The source's behaviour is `TripFilter.KeepTripAsWritten`.
- `TripFilter.KeepTripErrors`: states the errors of the guarded decision.
  It does not list the IndexError that the source's decision also raises
  for such a trip; `TripFilter.KeepTripAsWrittenRefined` states that one.
- `TripFilter.FilterTrips`: its own contract gives only the size bound.
  The full statement is `TripFilter.FilterTripsSpec`.

## Findings

| source | as written | input that shows it | evidently intended | confidence | as-written member | corrected member |
|---|---|---|---|---|---|---|
| nyct_gtfs/trip.py:278 | `direction` takes `split(...)[1][0]` with no guard, so a shape id with no separator, or with nothing after it, raises IndexError | trip id `090300_0` (shape id `"0"`) | `direction` is `None` when the shape id has no direction letter, as the repository's own tests for a `"0"` shape expect | not executed | `Trips.DirectionAsWritten`, shown by `Trips.ZeroShapeDirection`; in the filter, `TripFilter.KeepTripAsWritten`, shown by `TripFilter.ZeroShapeFilterRaises` | `Trips.Direction`, with `Trips.DirectionSpec` and `Trips.DirectionRefinesAsWritten`; in the filter, `TripFilter.KeepTrip`, with `TripFilter.KeepTripAsWrittenRefined` |
| nyct_gtfs/cpp_parser_wrapper.py:36-68 | `RepeatedField.__getitem__` checks only `index >= len`. A negative index reaches the memo list Python-style at slot `len + index`, but the C++ layer is asked for the raw negative index, and the answer is memoised in slot `len + index` | a two-element INT64 field: read index -1, then index 1; this shows the bug only if the C++ routine answers index -1 with something other than element 1 (the model's `IndexEchoCatalog` returns -1). The C++ source is not part of this model: if the routine wraps negative indices the memo stays correct, and if it raises nothing is memoised | any index outside [0, len) raises IndexError, so the memo always holds the element at its own index | not executed; depends on the C++ routine's answer for a negative index | `CppParser.GetItemAsWritten`, shown by `CppParser.NegativeIndexPoisonsMemo` | `CppParser.GetItem`, with `CppParser.GetItemIsFetch` |
