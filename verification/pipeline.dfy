/** The simulation run end to end, in the order the generator script fixes:
    station features, the (person, activity index) sort, decision times,
    mode assignment, reservations. */
module Pipeline {
  import opened Common
  import Order
  import Sorting
  import DecisionTime
  import Engine
  import Reservations
  import Stations

  /** The average drive speed the script leaves at its default, in km/h. */
  const AverageSpeed: int := 50

  /** What the station-feature step computes for one trip: the nearest
      station to its origin and to its destination, and the distance to
      each. */
  datatype Nearest = Nearest(origin: StationId, originDist: int, dest: StationId, destDist: int)

  datatype StageError = Config(config: DecisionTime.ConfigError) | Station(engine: Engine.EngineError)

  /** The two tables the run writes: one leg per trip, and the bookings. */
  datatype Output = Output(modes: seq<Engine.Leg>, reservations: seq<Reservations.Booking>)

  /** A trip with its station features replaced. */
  function Located(t: Trip, n: Nearest): (r: Trip)
    ensures r.(originStation := t.originStation, originStationDist := t.originStationDist,
               destStation := t.destStation, destStationDist := t.destStationDist) == t
    ensures r.originStation == n.origin && r.destStation == n.dest
  {
    t.(originStation := n.origin, originStationDist := n.originDist, destStation := n.dest, destStationDist := n.destDist)
  }

  function LocateAll(trips: seq<Trip>, nearest: Trip -> Nearest): (r: seq<Trip>)
    ensures |r| == |trips|
    ensures forall i :: 0 <= i < |r| ==> r[i] == Located(trips[i], nearest(trips[i]))
  {
    seq(|trips|, i requires 0 <= i < |trips| => Located(trips[i], nearest(trips[i])))
  }

  predicate TripLe(a: Trip, b: Trip)
  {
    Order.KeyLe(a.person, a.activityIndex, b.person, b.activityIndex)
  }

  /** The trip table in (person, activity index) order. */
  function ByPersonActivity(trips: seq<Trip>): (r: seq<Trip>)
    ensures multiset(r) == multiset(trips)
    ensures forall i, j :: 0 <= i < j < |r| ==> TripLe(r[i], r[j])
  {
    Order.KeyOrderIsPreorder((t: Trip) => t.person, (t: Trip) => t.activityIndex, TripLe);
    Sorting.InsertionSort(trips, TripLe)
  }

  /** A trip with its decision time cleared: everything the decision
      stage may not change. */
  function Plain(t: Trip): (r: Trip)
    ensures r.decision == 0 && r.(decision := t.decision) == t
  {
    t.(decision := 0)
  }

  /** The table after the first three steps: the located trips that cover
      a positive distance, each exactly once, in (person, activity index)
      order, with corrected decision times no earlier than their own
      estimates. The sort leaves every person's rows contiguous, so the
      stage's closing order check cannot fail. */
  function Decided(columns: DecisionTime.DistanceColumns, trips: seq<Trip>, nearest: Trip -> Nearest)
    : (r: Result<seq<Trip>, DecisionTime.ConfigError>)
    ensures r.Err? <==> columns == DecisionTime.NoDistanceColumn
    ensures r.Ok? ==> |r.value| <= |trips| && DecisionTime.NoInversion(r.value)
    ensures r.Ok? ==> forall i :: 0 <= i < |r.value| ==>
                        r.value[i].distance > 0 && r.value[i].decision >= DecisionTime.DecisionTimeOf(r.value[i], AverageSpeed)
    ensures r.Ok? ==> forall i, j :: 0 <= i < j < |r.value| ==> TripLe(r.value[i], r.value[j])
    ensures r.Ok? ==> multiset(Sorting.Map(r.value, Plain))
                      == multiset(Sorting.Map(DecisionTime.KeepTravelled(LocateAll(trips, nearest)), Plain))
  {
    var sorted := ByPersonActivity(LocateAll(trips, nearest));
    assert |sorted| == |trips| by {
      assert |multiset(sorted)| == |multiset(LocateAll(trips, nearest))|;
    }
    SortedTravelled(sorted);
    var r := DecisionTime.DeriveDecisionTime(DecisionTime.TripTable(columns, sorted), AverageSpeed);
    if r.Err? then r
    else
      DecidedRows(sorted, r.value);
      DecisionTime.KeepPermutation(sorted, LocateAll(trips, nearest));
      Sorting.MapPermutation(DecisionTime.KeepTravelled(sorted), DecisionTime.KeepTravelled(LocateAll(trips, nearest)), Plain);
      r
  }

  /** The travelled rows of a (person, activity index) sorted table keep
      that order, so they are in person order. */
  lemma SortedTravelled(sorted: seq<Trip>)
    requires forall i, j :: 0 <= i < j < |sorted| ==> TripLe(sorted[i], sorted[j])
    ensures var kept := DecisionTime.KeepTravelled(sorted);
            && (forall i, j :: 0 <= i < j < |kept| ==> TripLe(kept[i], kept[j]))
            && DecisionTime.PersonsSorted(kept)
  {
    var kept := DecisionTime.KeepTravelled(sorted);
    var ps := DecisionTime.TravelledPositions(sorted);
    DecisionTime.KeepTravelledIsFilter(sorted);
    forall i, j | 0 <= i < j < |kept|
      ensures TripLe(kept[i], kept[j]) && Order.StrLe(kept[i].person, kept[j].person)
    {
      assert kept[i] == sorted[ps[i]] && kept[j] == sorted[ps[j]] && ps[i] < ps[j];
      Order.StrLeTotal(kept[i].person, kept[j].person);
    }
  }

  /** The decided rows are the travelled rows of the sorted table with new
      decision times. */
  lemma DecidedRows(sorted: seq<Trip>, rows: seq<Trip>)
    requires forall i, j :: 0 <= i < j < |sorted| ==> TripLe(sorted[i], sorted[j])
    requires var kept := DecisionTime.Stamp(DecisionTime.KeepTravelled(sorted), AverageSpeed);
             |rows| == |kept| && forall i :: 0 <= i < |kept| ==>
               rows[i] == kept[i].(decision := DecisionTime.SequentialDecision(kept, i))
    ensures forall i, j :: 0 <= i < j < |rows| ==> TripLe(rows[i], rows[j])
    ensures Sorting.Map(rows, Plain) == Sorting.Map(DecisionTime.KeepTravelled(sorted), Plain)
  {
    var travelled := DecisionTime.KeepTravelled(sorted);
    SortedTravelled(sorted);
    assert forall i :: 0 <= i < |rows| ==> rows[i] == travelled[i].(decision := rows[i].decision);
  }

  /** Mode assignment with sessions recognised by presence: one leg per
      trip, in (person, activity index) order. */
  function Modes(docks: seq<Stations.Dock>, ts: seq<Trip>, predict: Trip -> Mode, geo: (Trip, StationId) -> int)
    : (r: Result<seq<Engine.Leg>, Engine.EngineError>)
    ensures r.Err? <==> !Engine.AllKnown(docks, ts)
    ensures r.Ok? ==> |r.value| == |ts| && Engine.Covers(r.value, ts)
    ensures r.Ok? ==> forall i, j :: 0 <= i < j < |r.value| ==> TripLe(r.value[i].trip, r.value[j].trip)
    ensures r.Ok? && (forall i :: 0 <= i < |ts| ==> ts[i].distance > 0) ==>
              forall i :: 0 <= i < |r.value| ==> r.value[i].trip.distance > 0
  {
    var o := Engine.AssignMode(docks, ts, predict, geo);
    Engine.AssignModeCoversTrips(Engine.Membership, docks, ts, predict, geo);
    if o.Err? then Err(o.error)
    else
      CarriedDistance(o.value.legs, ts);
      Ok(o.value.legs)
  }

  /** A leg carries its trip's distance. */
  lemma CarriedDistance(legs: seq<Engine.Leg>, ts: seq<Trip>)
    requires Engine.Covers(legs, ts)
    ensures (forall i :: 0 <= i < |ts| ==> ts[i].distance > 0) ==>
              forall i :: 0 <= i < |legs| ==> legs[i].trip.distance > 0
  {
    assert LegsFromTrips(legs, ts);
    if forall i :: 0 <= i < |ts| ==> ts[i].distance > 0 {
      forall i | 0 <= i < |legs|
        ensures legs[i].trip.distance > 0
      {
        var t := CarriedTrip(legs, ts, i);
        assert legs[i].trip.distance == t.distance;
      }
    }
  }

  /** Every leg carries some trip, the half of a covering a leg's distance
      comes from. */
  predicate LegsFromTrips(legs: seq<Engine.Leg>, ts: seq<Trip>)
  {
    forall l :: l in legs ==> exists t :: t in ts && Engine.Carries(l, t)
  }

  /** The trip a leg carries. */
  lemma CarriedTrip(legs: seq<Engine.Leg>, ts: seq<Trip>, i: nat) returns (t: Trip)
    requires LegsFromTrips(legs, ts) && i < |legs|
    ensures t in ts && Engine.Carries(legs[i], t)
  {
    assert legs[i] in legs;
    t :| t in ts && Engine.Carries(legs[i], t);
  }

  /** A located trip with the two fields the run may rewrite cleared: its
      decision time and its origin station. */
  function Shape(t: Trip): Trip
  {
    t.(decision := 0, originStation := NoStation)
  }

  function LegShape(l: Engine.Leg): Trip
  {
    Shape(l.trip)
  }

  /** Legs that cover the decided trips, which in turn are the travelled
      input rows with new decision times, are those input rows one to one,
      up to decision time and origin station. */
  lemma ModesFollowInput(modes: seq<Engine.Leg>, ts: seq<Trip>, input: seq<Trip>)
    requires Engine.Covers(modes, ts)
    requires multiset(Sorting.Map(ts, Plain)) == multiset(Sorting.Map(input, Plain))
    ensures multiset(Sorting.Map(modes, LegShape)) == multiset(Sorting.Map(input, Shape))
  {
    var a := Sorting.Map(modes, Engine.LegKey);
    var b := Sorting.Map(ts, Engine.Unpicked);
    Sorting.MapPermutation(a, b, Plain);
    Sorting.MapPermutation(Sorting.Map(ts, Plain), Sorting.Map(input, Plain), Engine.Unpicked);
    assert Sorting.Map(modes, LegShape) == Sorting.Map(a, Plain);
    assert Sorting.Map(b, Plain) == Sorting.Map(Sorting.Map(ts, Plain), Engine.Unpicked);
    assert Sorting.Map(Sorting.Map(input, Plain), Engine.Unpicked) == Sorting.Map(input, Shape);
  }

  /** Runs the stages in order. `nearest` stands for the station-feature
      computation, `predict` for the mode choice model, `geo` for the
      distance from a trip's origin to a station, `delay` for the random
      one-way buffers. The legs are the travelled input trips one to one,
      each with its decision time and at most its origin station rewritten.
      The reservation stage is the corrected one: as written it never
      returns (`Reservations.DeriveReservationsAsWritten`). */
  method Generate(columns: DecisionTime.DistanceColumns, trips: seq<Trip>, nearest: Trip -> Nearest,
                  docks: seq<Stations.Dock>, predict: Trip -> Mode, geo: (Trip, StationId) -> int, delay: nat -> Time)
    returns (r: Result<Output, StageError>)
    ensures r.Err? <==> Decided(columns, trips, nearest).Err?
                        || !Engine.AllKnown(docks, Decided(columns, trips, nearest).value)
    ensures r.Ok? ==> var ts := Decided(columns, trips, nearest).value;
                      && |r.value.modes| == |ts|
                      && Engine.Covers(r.value.modes, ts)
                      && forall i :: 0 <= i < |r.value.modes| ==> r.value.modes[i].trip.distance > 0
    ensures r.Ok? ==> forall i, j :: 0 <= i < j < |r.value.modes| ==> TripLe(r.value.modes[i].trip, r.value.modes[j].trip)
    ensures r.Ok? ==> multiset(Sorting.Map(r.value.modes, LegShape))
                      == multiset(Sorting.Map(DecisionTime.KeepTravelled(LocateAll(trips, nearest)), Shape))
    ensures r.Ok? ==> forall j :: 0 <= j < |r.value.reservations| ==>
                        var b := r.value.reservations[j].res;
                        b.startStation == b.endStation && Reservations.BookingOfChain(r.value.modes, b)
    ensures r.Ok? ==> Reservations.AllTripIds(Reservations.Reserved(r.value.reservations))
                      == Reservations.TripIds(r.value.modes, Reservations.Shared(r.value.modes, 0))
  {
    var decided := Decided(columns, trips, nearest);
    if decided.Err? {
      return Err(Config(decided.error));
    }
    var legs := Modes(docks, decided.value, predict, geo);
    if legs.Err? {
      return Err(Station(legs.error));
    }
    ModesFollowInput(legs.value, decided.value, DecisionTime.KeepTravelled(LocateAll(trips, nearest)));
    var bs := Reservations.DeriveReservations(legs.value, delay);
    return Ok(Output(legs.value, bs));
  }
}
