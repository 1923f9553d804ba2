# Car-sharing reservation generator, modelled in Dafny

This project models the core of a car-sharing simulator. The simulator turns a synthetic population's daily plans into car-sharing bookings, in these steps:

- **Plans to activity rows** (`Activities`). The population plan file is read into one row per located act. Each row carries the person's attributes, the act's position in the plan, its purpose and its start time. An act without a start time inherits the end time carried from earlier acts.
- **Activity rows to trips** (`Activities`). Rows are sorted by (person, activity index). Each row is joined with the row before it as its origin. The car-access, employment and purpose columns are normalised, and rows without an origin are dropped.
- **Decision times** (`DecisionTime`). Each trip's decision time is its arrival minus an approximate drive time (at 50 km/h by default) and a 10-minute buffer. Trips that cover no distance are dropped. A repeat-until-stable loop then raises every decision time that falls before its same-person predecessor's, setting it to the predecessor's time plus 2 minutes.
- **Mode assignment** (`Engine`, `Stations`). This is an event loop over trips in decision-time order.
  - Before each trip, vehicles whose return is due by then are parked at their stations.
  - A person who holds a borrowed vehicle keeps it for the trip. They hand it back at the pickup station when the destination's station or location is where they picked it up.
  - Anyone else gets the predictor's mode. If the precomputed origin station is empty, the nearest station with a vehicle replaces it. A hard cutoff turns car sharing into the private car when the station is more than half the trip distance away. When no station has a vehicle at all, the source's `idxmin` raises; the model lets the cutoff choose the private car instead.
  - A car-sharing choice borrows the last vehicle parked at the station.
- **Reservations** (`Reservations`).
  - A repeat-until-stable merge loop links consecutive legs in which the same person drives the same vehicle with no hand-back in between.
  - Each maximal chain becomes one booking: its first leg gives the start fields, its last leg the end fields, and distances are summed.
  - A booking whose vehicle never came back gets a non-negative recovery delay and is returned to its pickup station.
  - Kilometres and hours are derived for every booking.
- **The run** (`Pipeline`): station features, sort, decision times, mode assignment, reservations, in the order the generator script runs them.

Calls the model cannot see are parameters:
- the mode-choice model (`predict`);
- planar distance from a trip's origin to a station (`geo`);
- the station-feature computation (`nearest`);
- distance between two activity points (`dist`);
- the random one-way delays (`delay`).

Times are whole seconds and distances whole metres.

## Model

| member | source | states |
|---|---|---|
| DecisionTime.DecisionTimeOf | carsharing/car_sharing_patterns.py:30-40 | The decision time lies before the arrival by the buffer plus the drive time. The drive time is the distance at the given speed, rounded down to whole seconds. |
| DecisionTime.TravelledPositions | carsharing/car_sharing_patterns.py:43 | Lists, in strictly ascending order, exactly the positions of the rows with positive distance. |
| DecisionTime.KeepTravelledIsFilter | carsharing/car_sharing_patterns.py:43 | The k-th kept row is the input row at the k-th travelled position, so the kept rows are the positive-distance rows, in order and with their multiplicity. |
| DecisionTime.KeepPermutation | carsharing/car_sharing_patterns.py:43 | Dropping zero-distance rows from two permutations of one table leaves two permutations of each other. |
| DecisionTime.FixInversions | carsharing/car_sharing_patterns.py:46-66 | The loop terminates with no same-person row deciding before its predecessor, and leaves an already consistent table unchanged. |
| DecisionTime.FixKeepsRow | carsharing/car_sharing_patterns.py:48-66 | The correction changes only decision times, never lowers one, and never touches a person's first row. |
| DecisionTime.FixMatchesSequential | carsharing/car_sharing_patterns.py:48-66 | The simultaneous passes compute the same times as a left-to-right reference: a row keeps its time, or else decides 2 minutes after its corrected same-person predecessor when that one decides later. |
| DecisionTime.CorrectedRowTrailsByPadding | carsharing/car_sharing_patterns.py:58-66 | Every row whose time changed has a same-person predecessor and now decides exactly 2 minutes after it. |
| DecisionTime.OrderCheckIff | carsharing/car_sharing_patterns.py:69-71 | Once no same-person row decides before its predecessor, the table is in (person, decision time) order exactly when persons appear in ascending order. |
| DecisionTime.DeriveDecisionTime | carsharing/car_sharing_patterns.py:17-73 | Fails with a configuration error exactly when neither distance column is present. Otherwise it fails the closing order check exactly when the travelled rows are not in person order. On success the result is the travelled input rows, one for one and in order, each with the left-to-right reference decision time. That time is no earlier than the row's own estimate, and the result is in (person, decision time) order. |
| DecisionTime.StampAsWritten | carsharing/car_sharing_patterns.py:35-40 | As written, a row's decision time is known exactly when its row label is a position of the table. A row whose label equals its position gets its own stamped decision time. |
| DecisionTime.AlignedPassLosesTime | carsharing/car_sharing_patterns.py:48-66 | As written, when no row's label is below its position, a pass that corrects anything leaves some corrected row without a time, because the padding list is labelled 0..m-1 and is added by label. |
| DecisionTime.MissingStaysMissing | carsharing/car_sharing_patterns.py:48-66 | A missing decision time compares false both ways, so the loop as written never restores it. |
| DecisionTime.DeriveDecisionTimeAsWritten | carsharing/car_sharing_patterns.py:17-73 | As written, a table without the `distance` column itself fails. A table that comes through keeps its travelled rows apart from their decision times, and is in (person, decision time) order with no inversion. |
| DecisionTime.AlignedAsWritten | carsharing/car_sharing_patterns.py:35-71 | With row labels 0..n-1 in table order, the stage as written succeeds exactly when no decision time needs correcting and the travelled rows are in person order. It then equals the intended stage. Any correction makes it fail. |
| DecisionTime.DecisionTimeLostAsWritten | carsharing/car_sharing_patterns.py:60-71 | On one person's three trips labelled 0, 1, 2, deciding at 10000, 9880 and 20000 s, the stage as written fails its closing check, while the intended stage moves the second trip to 10120 s. |
| DecisionTime.FeatDistanceOnlyRejectedAsWritten | carsharing/car_sharing_patterns.py:21-28 | A table holding only `feat_distance` is always rejected as written. The intended stage accepts it exactly when its travelled rows are in person order. |
| Stations.Find | carsharing/car_sharing_patterns.py:116 | A station is found at its first position exactly when some station carries that number. |
| Stations.Park | carsharing/car_sharing_patterns.py:105 | Parking appends the vehicle to its station's list, leaves other stations alone and adds exactly that vehicle to the parked fleet. |
| Stations.Take | carsharing/car_sharing_patterns.py:198 | Borrowing removes the station's last vehicle; the parked fleet loses exactly that vehicle. |
| Stations.NearestAvailable | carsharing/car_sharing_patterns.py:161-174 | Returns none exactly when no station holds a vehicle. Otherwise it returns a station holding one at minimal distance, the first such in table order. |
| Stations.Schedule | carsharing/car_sharing_patterns.py:137-148 | The stable re-sort places the new return after every return due no later and before the first one due later. The queue stays sorted and gains exactly that return. |
| Stations.Drain | carsharing/car_sharing_patterns.py:97-109 | Applies the leading returns that are due, stops at the first return due later, and keeps every vehicle either parked or queued. |
| Stations.DrainAppendsInQueueOrder | carsharing/car_sharing_patterns.py:99-105 | Each station's list gains exactly the drained vehicles bound for it, in queue order. |
| Stations.DrainKeepsLaterReturns | carsharing/car_sharing_patterns.py:99-109 | In a sorted queue, the returns left behind are exactly those due later than now. |
| Engine.PickDock | carsharing/car_sharing_patterns.py:160-183 | Keeps the precomputed station when it holds a vehicle. Otherwise picks a nearest station that holds one, at its `geo` distance; none exactly when no station holds one. |
| Engine.HardCutoff | carsharing/car_sharing_patterns.py:186-193 | The outcome is car sharing exactly when the predictor chose it and a station is available within half the trip distance. A cut-off choice becomes the private car; other modes pass through. |
| Engine.StepWith | carsharing/car_sharing_patterns.py:95-211 | Fails exactly when the trip's origin station is unknown. Otherwise it keeps the state invariant and the station table, emits a leg for the trip, and keeps the fleet when sessions are recognised by presence. |
| Engine.HeldTripIgnoresPredictor | carsharing/car_sharing_patterns.py:118-158 | A person holding a vehicle gets the same outcome whatever the predictor and geometry say. |
| Engine.HeldTrip | carsharing/car_sharing_patterns.py:118-158 | A held trip is a car-sharing leg on the held vehicle. It hands the vehicle back at the pickup station, queueing its return for the arrival time, exactly when the destination station or location matches the pickup. Otherwise nothing changes. |
| Engine.FreshTrip | carsharing/car_sharing_patterns.py:160-211 | The mode is the hard cutoff applied to the predictor's choice on the trip as seen with the picked station. A non-car-sharing outcome leaves the drained state as it is and logs no vehicle or station. A car-sharing outcome takes the last vehicle of the picked station, logs that station as the start, and opens a session for the person with that vehicle at the trip's origin. No other station changes. |
| Engine.RepickOnlyWhenEmpty | carsharing/car_sharing_patterns.py:161-177 | The origin station is replaced only when it is empty, and then by the nearest station holding a vehicle (first among equals). |
| Engine.BorrowedVehicleWasFree | carsharing/car_sharing_patterns.py:197-201 | With each vehicle present once, a borrowed vehicle is neither held by anyone nor waiting to be returned. |
| Engine.RunFailsIff | carsharing/car_sharing_patterns.py:95-116 | The loop fails exactly when some trip's origin station is unknown. |
| Engine.RunLegsFollowTrips | carsharing/car_sharing_patterns.py:95-211 | The loop emits one leg per trip, in order, each carrying its trip with at most the origin station replaced. |
| Engine.RunConservesFleet | carsharing/car_sharing_patterns.py:95-211 | With sessions recognised by presence, no vehicle appears or vanishes over the loop. |
| Engine.ByDecision | carsharing/car_sharing_patterns.py:78 | The trips are a permutation of the input, in decision-time order. |
| Engine.ByPersonActivity | carsharing/car_sharing_patterns.py:224 | The legs are a permutation of the input, in (person, activity index) order. |
| Engine.AssignModeWith | carsharing/car_sharing_patterns.py:76-225 | Fails exactly when some origin station is unknown. Otherwise it emits one leg per trip, in (person, activity index) order, over the same station table. |
| Engine.CarriesIffUnpicked | carsharing/car_sharing_patterns.py:177 | A leg carries a trip exactly when the two agree once the origin station is cleared. |
| Engine.AssignModeCoversTrips | carsharing/car_sharing_patterns.py:219-225 | There are as many legs as trips, one to one: with origin stations cleared, the legs' trips are a permutation of the input trips. |
| Engine.AssignModeConservesFleet | carsharing/car_sharing_patterns.py:76-225 | Starting with every vehicle parked, the final parked, held and queued vehicles are exactly the starting inventory. |
| Engine.AssignMode | carsharing/car_sharing_patterns.py:76-225 | The corrected loop always ends with its fleet equal to the starting inventory. |
| Engine.TruthinessAgreesWithoutStationZero | carsharing/car_sharing_patterns.py:119-120 | With no station numbered 0, the truth-value session test and the presence test give identical runs. |
| Engine.AsWrittenAgreesWithoutStationZero | carsharing/car_sharing_patterns.py:119-120 | With no station numbered 0, the loop as written equals the corrected loop. |
| Engine.StationZeroLosesVehicle | carsharing/car_sharing_patterns.py:119-120 | As written, a session started at station 0 is missed on the next trip; the person borrows again and the first vehicle drops out of the fleet. |
| Engine.StationZeroKeepsVehicle | carsharing/car_sharing_patterns.py:119-158 | Corrected, the same trips continue the session on the held vehicle, which stays accounted for. |
| Reservations.ReachClosedForm | carsharing/car_sharing_patterns.py:248-277 | After k passes a row points k rows further along its chain, capped at the chain's last row. |
| Reservations.PassAdvances | carsharing/car_sharing_patterns.py:250-277 | One pass moves every row one link further. The rows it merges are the linked rows more than k rows before their chain's end. |
| Reservations.StopOrProgress | carsharing/car_sharing_patterns.py:248-281 | An unchanged merge vector means every row points at its chain's end. A changed one means fewer passes than rows have run. |
| Reservations.MergeTargets | carsharing/car_sharing_patterns.py:243-281 | The loop terminates with every row pointing at the last row of its maximal chain. A row points at itself exactly when it does not link to the next. |
| Reservations.GroupsPartitionShared | carsharing/car_sharing_patterns.py:283-303 | Grouping by target, in target order, yields the car-sharing rows each exactly once, in table order. |
| Reservations.GroupsAreChains | carsharing/car_sharing_patterns.py:284-303 | Every group is the row range of one maximal chain. |
| Reservations.ChainBooking | carsharing/car_sharing_patterns.py:288-311 | A chain's booking takes its trips in order, the first leg's decision time and pickup station, the last leg's arrival and hand-back station, and the summed distance. Every leg is the same person on the same vehicle, with no hand-back inside. |
| Reservations.AggregatesKeepTrips | carsharing/car_sharing_patterns.py:289-303 | The bookings' trip lists, read in order, are the groups' trips in group order. |
| Reservations.CloseOneWays | carsharing/car_sharing_patterns.py:314-337 | Every booking ends at its pickup station. A one-way booking only gains time; any other booking is unchanged. |
| Reservations.DelaysInBookingOrder | carsharing/car_sharing_patterns.py:322-334 | The j-th one-way booking, in booking order, receives the j-th drawn delay, clipped at zero. |
| Reservations.ClosingKeepsTrips | carsharing/car_sharing_patterns.py:314-337 | Closing one-way bookings keeps every booking's trips. |
| Reservations.Book | carsharing/car_sharing_patterns.py:339-343 | Kilometres are the distance over 1000; hours are the reserved interval over 3600 seconds. |
| Reservations.DeriveReservationsAsWritten | carsharing/car_sharing_patterns.py:316-343 | As written the stage never returns a table. It fails at the one-way ratio exactly when no leg is car sharing, and at the duration step otherwise. |
| Reservations.DeriveReservations | carsharing/car_sharing_patterns.py:228-353 | Every booking is a closed maximal chain of legs that starts and ends at the same station. The bookings' trips, read in order, are the car-sharing legs in table order. |
| Activities.ActRowsFailIff | carsharing/activities_to_trips.py:17-36 | Reading a plan fails exactly when an act with coordinates lacks an attribute its row reads. |
| Activities.ActRowsFollowPlan | carsharing/activities_to_trips.py:17-36 | Each act with coordinates, and only those, becomes one row, in plan order. The row carries the person's attributes and the act's position, type and coordinates. |
| Activities.ActRowsStartTimes | carsharing/activities_to_trips.py:16-34 | A row's start time is the act's own, else the end time of the latest earlier located act that had one, else midnight. |
| Activities.PersonRows | carsharing/activities_to_trips.py:15-36 | A person's plan fails exactly when it is a list with an incomplete located act; a single-act plan contributes no rows. |
| Activities.PersonRowsFollowPlan | carsharing/activities_to_trips.py:15-36 | Each located act of a listed plan is the row at its place, with its start time. |
| Activities.CollectRows | carsharing/activities_to_trips.py:12-37 | Collecting fails exactly when some person's plan fails. Otherwise the rows are each person's rows, person after person, each block at its running offset. |
| Activities.CountsNothing | carsharing/activities_to_trips.py:15-19 | A readable person contributes no row exactly when the plan is a single act or no act of the list has coordinates. |
| Activities.NothingCollected | carsharing/activities_to_trips.py:12-37 | Without a failing plan, the collected table is empty exactly when nobody contributes a row. |
| Activities.XmlToActivities | carsharing/activities_to_trips.py:8-42 | Reading the population fails exactly when some person's plan fails, or when nobody has a located act, since the coordinate columns are then missing. Otherwise the rows are each person's rows, person after person. |
| Activities.SingleActEmitsNothing | carsharing/activities_to_trips.py:15 | A person whose plan is a single act leaves the result unchanged. |
| Activities.CarAccess | carsharing/activities_to_trips.py:50-53 | "always" maps to 1, "never" to 0, anything else to 0.5, in both directions. |
| Activities.Employment | carsharing/activities_to_trips.py:54 | "yes" maps to 1, "no" to 0, anything else to missing, in both directions. |
| Activities.Purpose | carsharing/activities_to_trips.py:55-57 | The result is one of the four categories or "other"; a purpose is kept exactly when it is a category. |
| Activities.PurposeIdempotent | carsharing/activities_to_trips.py:55-57 | Normalising a purpose twice equals normalising it once. |
| Activities.ByKey | carsharing/activities_to_trips.py:46 | The rows are a permutation of the input, in (person, activity index) order. |
| Activities.ActivitiesToTripsWith | carsharing/activities_to_trips.py:45-68 | Trips come in (person, activity index) order, none at activity index 0, each with a normalised purpose. |
| Activities.TripsAreKeptRows | carsharing/activities_to_trips.py:46-59 | A sorted row becomes a trip exactly when the drop rule keeps it. The trip takes from that row its person, sex and age, its car access and employment as shaped, and its destination, purpose and start time. Its origin, origin purpose and distance come from the row before it, and are absent on the table's first row. |
| Activities.CrossPersonTrip | carsharing/activities_to_trips.py:47-59 | As written, a person whose first act has no coordinates gets a trip from another person's last activity. With the per-person rule they get none. |
| Activities.ActivitiesToTrips | carsharing/activities_to_trips.py:45-68 | Every trip has an origin, an origin purpose and a distance. |
| Activities.TripsStayWithPerson | carsharing/activities_to_trips.py:47-59 | Every trip's origin is an activity of the same person. |
| Pipeline.LocateAll | generate_car_sharing_data.py:76 | Station features replace only the four station columns of each trip. |
| Pipeline.ByPersonActivity | generate_car_sharing_data.py:79 | The trips are a permutation of the input, in (person, activity index) order. |
| Pipeline.Decided | generate_car_sharing_data.py:76-82 | With the intended decision-time stage, the first three steps fail exactly when no distance column is present. Otherwise they yield the located input trips that cover a distance, each exactly once up to its decision time. The table is in (person, activity index) order with no inversion, and every decision time is no earlier than the trip's own estimate. |
| Pipeline.ModesFollowInput | generate_car_sharing_data.py:76-85 | Legs covering the decided trips are the travelled input trips one to one, up to decision time and origin station. |
| Pipeline.Modes | generate_car_sharing_data.py:85 | Mode assignment, with sessions recognised by presence, fails exactly when an origin station is unknown. Otherwise it yields one leg per trip, sorted, carrying the trips' positive distances. |
| Pipeline.Generate | generate_car_sharing_data.py:76-99 | Over the intended stages, the run fails exactly when a stage fails. Otherwise the modes are the travelled input trips one to one, up to decision time and origin station, in (person, activity index) order. Every booking is a closed chain that starts and ends at one station, and the bookings' trips are the car-sharing legs in order. |
| Common.LabelInjective | carsharing/car_sharing_patterns.py:188-208 | On well-formed modes, two modes are equal exactly when their labels are, and a mode is car sharing exactly when its label is the car-sharing label. |

## Left out

- Reading the plan file, the CSV tables and the station table: the model starts from parsed people, trips and station lists.
- A file with exactly one person: xmltodict then yields that person as a mapping rather than a list. The model takes a sequence of people.
- Geometry and point construction: distances come in through the `dist`, `geo` and `nearest` parameters.
- `compute_dist_to_station` and the other feature code: these are not part of this model; `nearest` stands for them.
- The mode-choice model, which is the `predict` parameter.
- The random draw of one-way delays: the `delay` parameter supplies the j-th draw, and the model clips it at zero.
- Progress prints, timing and diagnostics.
- Floating point: times are whole seconds and distances whole metres.
- DecisionTime.DecisionTimeOf: the drive time in float minutes, converted through a timedelta, is modelled as an integer number of seconds rounded down.
- Pandas index alignment: the code combines Series built by position, and labelled 0..m-1, with label-indexed frames at car_sharing_patterns.py:39, 60-65 and 334. Pandas aligns these by label. At line 39 this agrees with position while the labels are 0..n-1 in table order. At 60-65 and 334 it does not agree even then: only the selected rows whose labels fall below the number selected get a value, and the others get a missing time. The decision-time stage as written models this (`DeriveDecisionTimeAsWritten`, see Findings). The intended stages apply the values by position.
- Reservations.DelaysInBookingOrder: gives every one-way booking its delay. As written, line 334 adds the delays by label, so a one-way booking whose label is not below the number of one-way bookings gets a missing return time. This missing value is not modelled.
- DecisionTime.DeriveDecisionTimeAsWritten: a table that passes the closing check with some decision time missing is reported as `MissingDecisionTime`. The source returns that table, and the model does not follow missing times into the later stages. Duplicate row labels, which the file reader never produces, are not modelled.
- Row labels are modelled as positions. The merge loop compares row labels; after the sort these are the original labels. The model uses positions instead, which makes the same comparisons because labels are unique.
- Booking order: the source groups by label, so its bookings come in label order. The model lists bookings in table order. The set of bookings, and which trips each holds, are the same either way. Only `reservation_no` numbering and the pairing of delays with one-way bookings follow this order.
- Sort ties: `sort_values` uses an unstable sort, so the order among equal decision times is unspecified. The model uses a stable insertion sort.
- Engine.PickDock: when no station holds a vehicle the model yields no station, and the hard cutoff then chooses the car, as the `pd.isna` test at car_sharing_patterns.py:190 evidently intends. The source instead stops at line 174: `idxmin` on an empty series raises ValueError. The `pd.isna` test never sees that case.
- Engine.AssignModeWith: the re-picked station's distance is seen by the predictor and the cutoff, but is not written back to the table. Only the station number is written back, as at car_sharing_patterns.py:177.
- Pipeline.Generate: runs the corrected stages, through `Pipeline.Decided` and `Pipeline.Modes` below and the corrected reservation stage. As written, the reservation stage never returns a table (see Findings), so the script stops where the model's run succeeds.
- Pipeline.Decided: runs the intended decision-time stage. It renames `feat_distance` to `distance`, where the script fails at car_sharing_patterns.py:28 on a table with only `feat_distance`. It also applies corrections by position, where the script loses corrected times (see Findings).
- Pipeline.Modes: runs mode assignment with sessions recognised by the presence of the person's entry. The script tests the truth value of the stored station number at car_sharing_patterns.py:120, which misses a session started at station 0 (see Findings).
- Reservations.DeriveReservations: returns an empty table when no leg is car sharing. The source's ratio report at car_sharing_patterns.py:320 divides by zero there; `DeriveReservationsAsWritten` models that failure.
- Pipeline.ByPersonActivity: person ids are ordered as text, here and in `Engine.ByPersonActivity` and `Activities.ByKey`. After `read_csv` the source's ids may be numbers, which order "9" before "10", whereas text order puts "10" first. The proofs use only that the order is total, apart from the worked examples over ids "a" and "b".
- Mode labels: the model compares `Mode` values, while the source compares label strings. The two agree on well-formed modes (`Common.LabelInjective`). A predictor returning another mode under the car-sharing or private-car label is not modelled.
- The geodataframe conversion at activities_to_trips.py:39-41 and the `__main__` block: coordinates stay as the plan file's strings. Only its failure on a table without coordinate columns is modelled (`XmlToActivities`).
- The generator script's argument handling, plotting, station simulation and training scripts.

## Findings

| source | as written | input that shows it | evidently intended | confidence | as-written member | corrected member |
|---|---|---|---|---|---|---|
| carsharing/car_sharing_patterns.py:119-120 | An open session is detected by the truth value of the stored pickup station number, so a session started at station 0 reads as none | Person "a" borrows vehicle 7 at station 0 and keeps it. On their next trip station 0 is empty, so they borrow vehicle 8 at station 1, and vehicle 7 is lost from the fleet | A session is detected by the presence of the person's entry | high; not executed | Engine.StationZeroLosesVehicle | Engine.StationZeroKeepsVehicle |
| carsharing/car_sharing_patterns.py:21-28 | The rename maps the misspelled column "feat_distane", so a table with only `feat_distance` fails at the `distance` lookup | Any trip table holding `feat_distance` but no `distance` column | Rename `feat_distance` to `distance` | high; not executed | DecisionTime.FeatDistanceOnlyRejectedAsWritten | DecisionTime.DeriveDecisionTime |
| carsharing/car_sharing_patterns.py:60-71 | The padding list is labelled 0..m-1 and added to the predecessors' times by row label. A corrected row whose label is not below the number of corrected rows gets a missing time, and the first row is never corrected, so with labels 0..n-1 every correcting pass loses a time. A missing time is never compared again, and the closing check sorts it last | One person, three 1000 m trips labelled 0, 1, 2, arriving at 10672, 10552 and 20672 s at 50 km/h, so deciding at 10000, 9880 and 20000 s: the second time goes missing and the closing check fails | Each corrected row decides two minutes after its predecessor, applied by position | high; not executed | DecisionTime.DecisionTimeLostAsWritten | DecisionTime.DeriveDecisionTime |
| carsharing/car_sharing_patterns.py:341-343 | The reserved interval is computed on the whole column, and `.total_seconds()` is then called on that column of time spans. A Series offers it only through its `.dt` accessor, so the call raises | Any trip table with at least one car-sharing leg reaches line 343 and stops there | `.dt.total_seconds()`, giving each booking's hours | high; not executed | Reservations.DeriveReservationsAsWritten | Reservations.Book |
| carsharing/activities_to_trips.py:47-59 | The origin columns are shifted over the whole table, and only activity index 0 is dropped | Rows a/0, a/1, b/1, where person b's act 0 has no coordinates: b's trip starts at a's last activity | Each trip's origin is the previous activity of the same person | medium; not executed | Activities.CrossPersonTrip | Activities.TripsStayWithPerson |
