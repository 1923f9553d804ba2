/** The mode-assignment event loop. Trips are taken in decision-time order;
    before each one, the returns due by then are parked. A person who holds
    a borrowed vehicle keeps it (and may hand it back at the pickup
    station); anyone else is offered the predictor's choice, subject to a
    hard cutoff, and a final car-sharing choice borrows the last vehicle of
    the chosen station. */
module Engine {
  import opened Common
  import opened Stations
  import Sorting
  import Order

  /** An open borrow session: the vehicle, the station it came from and the
      location it was picked up at. */
  datatype Loan = Loan(vehicle: VehicleId, station: StationId, location: LocationId)

  datatype State = State(docks: seq<Dock>, loans: map<PersonId, Loan>, queue: seq<Return>)

  /** The four columns the loop emits for one trip, next to the trip as the
      table holds it afterwards. */
  datatype Leg = Leg(trip: Trip, mode: Mode, vehicle: VehicleId, startStation: StationId, endStation: StationId)

  /** The leg is about trip `t`: only the origin station may differ, when
      the loop re-picked it. */
  predicate Carries(leg: Leg, t: Trip)
  {
    leg.trip.(originStation := t.originStation) == t
  }

  /** A trip whose precomputed origin station is not in the station table. */
  datatype EngineError = UnknownStation(station: StationId)

  /** How an open session is recognised: by the presence of the person's
      entry, or by the truth value of the stored pickup station number as
      the source tests it (a pickup at station 0 reads as no session). */
  datatype LoanCheck = Membership | Truthiness

  /** Where a fresh trip would borrow from: position in the table, station
      number and distance from the trip's origin. */
  datatype Pick = Pick(pos: nat, station: StationId, dist: int)

  // ---------------------------------------------------------------------
  // State invariant and the fleet
  // ---------------------------------------------------------------------

  predicate Valid(s: State)
  {
    && (forall j :: 0 <= j < |s.queue| ==> Known(s.docks, s.queue[j].station))
    && SortedByDue(s.queue)
    && (forall p :: p in s.loans ==> Known(s.docks, s.loans[p].station))
  }

  /** The vehicles out on loan, counted with multiplicity. */
  ghost function LoanBag(loans: map<PersonId, Loan>): multiset<VehicleId>
    decreases |loans|
  {
    if |loans| == 0 then multiset{}
    else
      var p :| p in loans;
      multiset{loans[p].vehicle} + LoanBag(loans - {p})
  }

  lemma {:induction false} LoanBagRemove(loans: map<PersonId, Loan>, p: PersonId)
    requires p in loans
    ensures LoanBag(loans) == multiset{loans[p].vehicle} + LoanBag(loans - {p})
    decreases |loans|
  {
    var q :| q in loans && LoanBag(loans) == multiset{loans[q].vehicle} + LoanBag(loans - {q});
    if q != p {
      var both := loans - {p} - {q};
      assert loans - {q} - {p} == both;
      assert |loans - {q}| == |loans| - 1;
      assert |loans - {p}| == |loans| - 1;
      LoanBagRemove(loans - {q}, p);
      LoanBagRemove(loans - {p}, q);
    }
  }

  /** A vehicle is out on loan exactly when some session holds it. */
  lemma {:induction false} LoanBagHolds(loans: map<PersonId, Loan>, v: VehicleId)
    ensures v in LoanBag(loans) <==> exists p :: p in loans && loans[p].vehicle == v
    decreases |loans|
  {
    if |loans| > 0 {
      var q :| q in loans;
      LoanBagRemove(loans, q);
      assert |loans - {q}| == |loans| - 1;
      LoanBagHolds(loans - {q}, v);
      if v in LoanBag(loans - {q}) {
        var p :| p in loans - {q} && (loans - {q})[p].vehicle == v;
        assert p in loans && loans[p].vehicle == v;
      }
      if exists p :: p in loans && loans[p].vehicle == v {
        var p :| p in loans && loans[p].vehicle == v;
        if p != q {
          assert p in loans - {q} && (loans - {q})[p].vehicle == v;
        }
      }
    }
  }

  lemma LoanBagAdd(loans: map<PersonId, Loan>, p: PersonId, l: Loan)
    requires p !in loans
    ensures LoanBag(loans[p := l]) == LoanBag(loans) + multiset{l.vehicle}
  {
    LoanBagRemove(loans[p := l], p);
    assert loans[p := l] - {p} == loans;
  }

  /** Every vehicle in the system: parked, out on loan or waiting to be
      returned. */
  ghost function Fleet(s: State): multiset<VehicleId>
  {
    DockBag(s.docks) + LoanBag(s.loans) + QueueBag(s.queue)
  }

  /** The two session checks agree unless a session started at station 0;
      with no station numbered 0 in the table, none can. */
  predicate Conserving(check: LoanCheck, s: State)
  {
    check == Membership || !Known(s.docks, 0)
  }

  // ---------------------------------------------------------------------
  // One trip
  // ---------------------------------------------------------------------

  predicate LoanHeld(check: LoanCheck, loans: map<PersonId, Loan>, p: PersonId)
  {
    p in loans && (check == Membership || loans[p].station != 0)
  }

  /** The trip of a person who already holds a vehicle. */
  function ContinueLoan(s: State, t: Trip): (r: (State, Leg))
    requires t.person in s.loans
  {
    var l := s.loans[t.person];
    if l.station == t.destStation || l.location == t.destLocation then
      (State(s.docks, s.loans - {t.person}, Schedule(s.queue, Return(t.arrival, l.station, l.vehicle))),
       Leg(t, Carsharing, l.vehicle, NoStation, l.station))
    else
      (s, Leg(t, Carsharing, l.vehicle, NoStation, NoStation))
  }

  /** The precomputed origin station when it holds a vehicle; otherwise the
      nearest station that does, by the geometry distance `geo`. */
  function PickDock(docks: seq<Dock>, t: Trip, k: nat, geo: (Trip, StationId) -> int): (r: Option<Pick>)
    requires k < |docks| && docks[k].id == t.originStation
    ensures r.Some? ==> r.value.pos < |docks| && HasVehicle(docks[r.value.pos])
                        && r.value.station == docks[r.value.pos].id
    ensures HasVehicle(docks[k]) ==> r == Some(Pick(k, t.originStation, t.originStationDist))
    ensures !HasVehicle(docks[k]) && r.Some? ==>
              r.value.dist == geo(t, r.value.station)
              && forall j :: 0 <= j < |docks| && HasVehicle(docks[j]) ==> r.value.dist <= geo(t, docks[j].id)
    ensures r.None? <==> forall j :: 0 <= j < |docks| ==> !HasVehicle(docks[j])
  {
    if HasVehicle(docks[k]) then Some(Pick(k, t.originStation, t.originStationDist))
    else
      match NearestAvailable(docks, s => geo(t, s))
      case None => None
      case Some(j) => Some(Pick(j, docks[j].id, geo(t, docks[j].id)))
  }

  /** The row the predictor sees: a re-picked station replaces the origin
      station and its distance; with nothing available the station is
      undefined. */
  function Seen(t: Trip, k: nat, docks: seq<Dock>, pick: Option<Pick>): Trip
    requires k < |docks|
  {
    if HasVehicle(docks[k]) then t
    else match pick
      case None => t.(originStation := NoStation)
      case Some(p) => t.(originStation := p.station, originStationDist := p.dist)
  }

  /** A proposed car-sharing trip falls back to the private car when the
      station is more than half the trip distance away or undefined. */
  function HardCutoff(m: Mode, pick: Option<Pick>, t: Trip): (r: Mode)
    ensures r != Carsharing ==> r == m || (m == Carsharing && r == Car)
    ensures r == Carsharing <==> m == Carsharing && pick.Some? && 2 * pick.value.dist <= t.distance
  {
    if m == Carsharing && (pick.None? || 2 * pick.value.dist > t.distance) then Car else m
  }

  /** The trip of a person without a session. */
  function Fresh(s: State, t: Trip, k: nat, predict: Trip -> Mode, geo: (Trip, StationId) -> int): (r: (State, Leg))
    requires k < |s.docks| && s.docks[k].id == t.originStation
  {
    var pick := PickDock(s.docks, t, k, geo);
    var seen := Seen(t, k, s.docks, pick);
    var m := HardCutoff(predict(seen), pick, t);
    var out := t.(originStation := seen.originStation);
    if m == Carsharing then
      var (docks', v) := Take(s.docks, pick.value.pos);
      (State(docks', s.loans[t.person := Loan(v, pick.value.station, t.originLocation)], s.queue),
       Leg(out, Carsharing, v, pick.value.station, NoStation))
    else
      (s, Leg(out, m, NoVehicle, NoStation, NoStation))
  }

  /** Drains the due queue, then handles the trip. The origin station is
      looked up before anything else, so an unknown one fails the run even
      for a person who holds a vehicle. */
  function StepWith(check: LoanCheck, s: State, t: Trip, predict: Trip -> Mode, geo: (Trip, StationId) -> int)
    : (r: Result<(State, Leg), EngineError>)
    requires Valid(s)
    ensures r.Err? <==> !Known(s.docks, t.originStation)
    ensures r.Ok? ==> Valid(r.value.0) && Ids(r.value.0.docks) == Ids(s.docks)
    ensures r.Ok? ==> Carries(r.value.1, t)
    ensures r.Ok? && Conserving(check, s) ==> Fleet(r.value.0) == Fleet(s)
  {
    var s1 := Drained(s, t.decision);
    KnownFollowsIds(s.docks, s1.docks);
    match Find(s1.docks, t.originStation)
    case None => Err(UnknownStation(t.originStation))
    case Some(k) =>
      if LoanHeld(check, s1.loans, t.person) then
        ContinueLoanKeeps(s1, t);
        Ok(ContinueLoan(s1, t))
      else
        assert Conserving(check, s) ==> t.person !in s1.loans by {
          if check == Truthiness && t.person in s1.loans {
            assert s1.loans[t.person].station == 0;
            assert Known(s1.docks, 0);
          }
        }
        FreshKeeps(s1, t, k, predict, geo);
        Ok(Fresh(s1, t, k, predict, geo))
  }

  lemma DrainKeepsFleet(s: State, now: Time)
    requires Valid(s)
    ensures var r := Drain(s.docks, s.queue, now);
            Fleet(State(r.0, s.loans, r.1)) == Fleet(s)
  {
    var r := Drain(s.docks, s.queue, now);
    var loaned := LoanBag(s.loans);
    calc {
      Fleet(State(r.0, s.loans, r.1));
      DockBag(r.0) + loaned + QueueBag(r.1);
      DockBag(r.0) + QueueBag(r.1) + loaned;
      DockBag(s.docks) + QueueBag(s.queue) + loaned;
      Fleet(s);
    }
  }

  lemma DrainKeepsValid(s: State, now: Time)
    requires Valid(s)
    ensures var r := Drain(s.docks, s.queue, now);
            Valid(State(r.0, s.loans, r.1)) && Ids(r.0) == Ids(s.docks)
  {
    var r := Drain(s.docks, s.queue, now);
    KnownFollowsIds(s.docks, r.0);
    SuffixStaysValid(s.docks, r.0, s.queue, |s.queue| - |r.1|);
  }

  /** What is left of a sorted queue of known stations stays so. */
  lemma SuffixStaysValid(docks: seq<Dock>, docks': seq<Dock>, q: seq<Return>, d: nat)
    requires forall id :: Known(docks, id) == Known(docks', id)
    requires forall j :: 0 <= j < |q| ==> Known(docks, q[j].station)
    requires SortedByDue(q) && d <= |q|
    ensures forall j :: 0 <= j < |q[d..]| ==> Known(docks', q[d..][j].station)
    ensures SortedByDue(q[d..])
  {
    var rest := q[d..];
    forall j | 0 <= j < |rest|
      ensures Known(docks', rest[j].station)
    {
      assert rest[j] == q[d + j];
    }
    forall i, j | 0 <= i < j < |rest|
      ensures rest[i].due <= rest[j].due
    {
      assert rest[i] == q[d + i] && rest[j] == q[d + j];
    }
  }

  lemma ContinueLoanKeeps(s: State, t: Trip)
    requires Valid(s) && t.person in s.loans
    ensures Valid(ContinueLoan(s, t).0)
    ensures ContinueLoan(s, t).0.docks == s.docks
    ensures Fleet(ContinueLoan(s, t).0) == Fleet(s)
    ensures ContinueLoan(s, t).1.trip == t
  {
    var l := s.loans[t.person];
    if l.station == t.destStation || l.location == t.destLocation {
      HandBackKeepsFleet(s, t.person, Return(t.arrival, l.station, l.vehicle));
      HandBackKeepsValid(s, t.person, Return(t.arrival, l.station, l.vehicle));
    }
  }

  /** Ending a session and queueing its vehicle moves the vehicle from the
      loans to the queue. */
  lemma HandBackKeepsFleet(s: State, p: PersonId, ret: Return)
    requires p in s.loans && ret.vehicle == s.loans[p].vehicle
    ensures Fleet(State(s.docks, s.loans - {p}, Schedule(s.queue, ret))) == Fleet(s)
  {
    LoanBagRemove(s.loans, p);
    var rest := LoanBag(s.loans - {p});
    var v := multiset{ret.vehicle};
    calc {
      Fleet(State(s.docks, s.loans - {p}, Schedule(s.queue, ret)));
      DockBag(s.docks) + rest + (QueueBag(s.queue) + v);
      DockBag(s.docks) + (v + rest) + QueueBag(s.queue);
      Fleet(s);
    }
  }

  lemma HandBackKeepsValid(s: State, p: PersonId, ret: Return)
    requires Valid(s) && p in s.loans && ret.station == s.loans[p].station
    ensures Valid(State(s.docks, s.loans - {p}, Schedule(s.queue, ret)))
  {
    var q' := Schedule(s.queue, ret);
    forall j | 0 <= j < |q'|
      ensures Known(s.docks, q'[j].station)
    {
      assert q'[j] in multiset(q');
      assert q'[j] == ret || q'[j] in s.queue;
    }
  }

  lemma FreshKeeps(s: State, t: Trip, k: nat, predict: Trip -> Mode, geo: (Trip, StationId) -> int)
    requires Valid(s)
    requires k < |s.docks| && s.docks[k].id == t.originStation
    ensures Valid(Fresh(s, t, k, predict, geo).0)
    ensures Ids(Fresh(s, t, k, predict, geo).0.docks) == Ids(s.docks)
    ensures Carries(Fresh(s, t, k, predict, geo).1, t)
    ensures t.person !in s.loans ==> Fleet(Fresh(s, t, k, predict, geo).0) == Fleet(s)
  {
    var pick := PickDock(s.docks, t, k, geo);
    var seen := Seen(t, k, s.docks, pick);
    var m := HardCutoff(predict(seen), pick, t);
    if m == Carsharing {
      var pos := pick.value.pos;
      var l := Loan(Take(s.docks, pos).1, pick.value.station, t.originLocation);
      assert Fresh(s, t, k, predict, geo).0 == State(Take(s.docks, pos).0, s.loans[t.person := l], s.queue);
      BorrowKeepsValid(s, pos, t.person, l);
      if t.person !in s.loans {
        BorrowKeepsFleet(s, pos, t.person, l);
      }
    }
  }

  /** Borrowing moves one vehicle from a station into a new session. */
  lemma BorrowKeepsFleet(s: State, pos: nat, p: PersonId, l: Loan)
    requires pos < |s.docks| && HasVehicle(s.docks[pos])
    requires p !in s.loans && l.vehicle == Take(s.docks, pos).1
    ensures Fleet(State(Take(s.docks, pos).0, s.loans[p := l], s.queue)) == Fleet(s)
  {
    var taken := Take(s.docks, pos);
    LoanBagAdd(s.loans, p, l);
    var v := multiset{l.vehicle};
    calc {
      Fleet(State(taken.0, s.loans[p := l], s.queue));
      DockBag(taken.0) + (LoanBag(s.loans) + v) + QueueBag(s.queue);
      (DockBag(taken.0) + v) + LoanBag(s.loans) + QueueBag(s.queue);
      Fleet(s);
    }
  }

  lemma BorrowKeepsValid(s: State, pos: nat, p: PersonId, l: Loan)
    requires Valid(s)
    requires pos < |s.docks| && HasVehicle(s.docks[pos]) && l.station == s.docks[pos].id
    ensures Valid(State(Take(s.docks, pos).0, s.loans[p := l], s.queue))
    ensures Ids(Take(s.docks, pos).0) == Ids(s.docks)
  {
    var docks' := Take(s.docks, pos).0;
    KnownFollowsIds(s.docks, docks');
    assert Known(s.docks, l.station) by {
      assert Ids(s.docks)[pos] == l.station;
    }
  }

  // ---------------------------------------------------------------------
  // The loop
  // ---------------------------------------------------------------------

  /** Handles the trips in the given order, threading the state. */
  function RunWith(check: LoanCheck, s: State, ts: seq<Trip>, predict: Trip -> Mode, geo: (Trip, StationId) -> int)
    : (r: Result<(State, seq<Leg>), EngineError>)
    requires Valid(s)
    ensures r.Ok? ==> Valid(r.value.0) && Ids(r.value.0.docks) == Ids(s.docks) && |r.value.1| == |ts|
    decreases |ts|
  {
    if |ts| == 0 then Ok((s, []))
    else
      var step :- StepWith(check, s, ts[0], predict, geo);
      var rest :- RunWith(check, step.0, ts[1..], predict, geo);
      Ok((rest.0, [step.1] + rest.1))
  }

  /** Every trip's precomputed origin station is in the table. */
  predicate AllKnown(docks: seq<Dock>, ts: seq<Trip>)
  {
    forall i :: 0 <= i < |ts| ==> Known(docks, ts[i].originStation)
  }

  /** The run fails exactly when some trip's origin station is unknown. */
  lemma {:induction false} RunFailsIff(check: LoanCheck, s: State, ts: seq<Trip>, predict: Trip -> Mode,
                                       geo: (Trip, StationId) -> int)
    requires Valid(s)
    ensures RunWith(check, s, ts, predict, geo).Err? <==> !AllKnown(s.docks, ts)
    decreases |ts|
  {
    if |ts| > 0 {
      var step := StepWith(check, s, ts[0], predict, geo);
      if step.Ok? {
        var s1 := step.value.0;
        KnownFollowsIds(s.docks, s1.docks);
        RunFailsIff(check, s1, ts[1..], predict, geo);
        AllKnownCons(s.docks, s1.docks, ts);
      }
    }
  }

  lemma AllKnownCons(docks: seq<Dock>, docks': seq<Dock>, ts: seq<Trip>)
    requires |ts| > 0 && Known(docks, ts[0].originStation)
    requires forall id :: Known(docks, id) == Known(docks', id)
    ensures AllKnown(docks, ts) == AllKnown(docks', ts[1..])
  {
    if !AllKnown(docks, ts) {
      var i :| 0 <= i < |ts| && !Known(docks, ts[i].originStation);
      assert ts[1..][i - 1] == ts[i];
    }
    if !AllKnown(docks', ts[1..]) {
      var i :| 0 <= i < |ts| - 1 && !Known(docks', ts[1..][i].originStation);
      assert ts[1..][i] == ts[i + 1];
    }
  }

  /** Every leg carries its trip, with at most the origin station replaced. */
  lemma {:induction false} RunLegsFollowTrips(check: LoanCheck, s: State, ts: seq<Trip>, predict: Trip -> Mode,
                                              geo: (Trip, StationId) -> int)
    requires Valid(s)
    requires RunWith(check, s, ts, predict, geo).Ok?
    ensures var legs := RunWith(check, s, ts, predict, geo).value.1;
            forall i :: 0 <= i < |ts| ==> Carries(legs[i], ts[i])
    decreases |ts|
  {
    if |ts| > 0 {
      var legs := RunWith(check, s, ts, predict, geo).value.1;
      var r1 := StepWith(check, s, ts[0], predict, geo);
      assert r1.Ok?;
      var step := r1.value;
      var rest := RunWith(check, step.0, ts[1..], predict, geo).value.1;
      assert legs == [step.1] + rest;
      assert Carries(legs[0], ts[0]);
      RunLegsFollowTrips(check, step.0, ts[1..], predict, geo);
      CarriesTail(legs, ts, step.1, rest);
    }
  }

  lemma CarriesTail(legs: seq<Leg>, ts: seq<Trip>, first: Leg, rest: seq<Leg>)
    requires |ts| > 0 && legs == [first] + rest && |rest| == |ts| - 1
    requires Carries(first, ts[0])
    requires forall i :: 0 <= i < |ts| - 1 ==> Carries(rest[i], ts[1..][i])
    ensures forall i :: 0 <= i < |ts| ==> Carries(legs[i], ts[i])
  {
    forall i | 1 <= i < |ts|
      ensures Carries(legs[i], ts[i])
    {
      assert legs[i] == rest[i - 1] && ts[i] == ts[1..][i - 1];
    }
  }

  /** With sessions recognised correctly, no vehicle appears or vanishes. */
  lemma {:induction false} RunConservesFleet(check: LoanCheck, s: State, ts: seq<Trip>, predict: Trip -> Mode,
                                             geo: (Trip, StationId) -> int)
    requires Valid(s) && Conserving(check, s)
    requires RunWith(check, s, ts, predict, geo).Ok?
    ensures Fleet(RunWith(check, s, ts, predict, geo).value.0) == Fleet(s)
    decreases |ts|
  {
    if |ts| > 0 {
      var step := StepWith(check, s, ts[0], predict, geo).value;
      KnownFollowsIds(s.docks, step.0.docks);
      RunConservesFleet(check, step.0, ts[1..], predict, geo);
    }
  }

  /** Trips in the order the loop takes them: by decision time, ties in
      table order. */
  function ByDecision(trips: seq<Trip>): (r: seq<Trip>)
    ensures multiset(r) == multiset(trips)
    ensures forall i, j :: 0 <= i < j < |r| ==> r[i].decision <= r[j].decision
  {
    var le := (a: Trip, b: Trip) => a.decision <= b.decision;
    Sorting.InsertionSort(trips, le)
  }

  /** Legs back in (person, activity index) order. */
  function ByPersonActivity(legs: seq<Leg>): (r: seq<Leg>)
    ensures multiset(r) == multiset(legs)
    ensures forall i, j :: 0 <= i < j < |r| ==>
              Order.KeyLe(r[i].trip.person, r[i].trip.activityIndex, r[j].trip.person, r[j].trip.activityIndex)
  {
    var le := (a: Leg, b: Leg) => Order.KeyLe(a.trip.person, a.trip.activityIndex, b.trip.person, b.trip.activityIndex);
    Order.KeyOrderIsPreorder((l: Leg) => l.trip.person, (l: Leg) => l.trip.activityIndex, le);
    Sorting.InsertionSort(legs, le)
  }

  /** The result of the loop: the table's legs, and the state it ends in
      (vehicles still out, returns still pending). */
  datatype Outcome = Outcome(final: State, legs: seq<Leg>)

  /** Assigns a mode to every trip, starting from the station inventory with
      nobody holding a vehicle and nothing queued. */
  function AssignModeWith(check: LoanCheck, docks: seq<Dock>, trips: seq<Trip>, predict: Trip -> Mode,
                          geo: (Trip, StationId) -> int): (r: Result<Outcome, EngineError>)
    ensures r.Err? <==> !AllKnown(docks, trips)
    ensures r.Ok? ==> |r.value.legs| == |trips| && Ids(r.value.final.docks) == Ids(docks)
    ensures r.Ok? ==> forall i, j :: 0 <= i < j < |r.value.legs| ==>
              Order.KeyLe(r.value.legs[i].trip.person, r.value.legs[i].trip.activityIndex,
                          r.value.legs[j].trip.person, r.value.legs[j].trip.activityIndex)
  {
    var s := State(docks, map[], []);
    var ordered := ByDecision(trips);
    var run := RunWith(check, s, ordered, predict, geo);
    OrderedRunFailsIff(check, docks, trips, predict, geo);
    if run.Err? then Err(run.error)
    else
      var legs := ByPersonActivity(run.value.1);
      SameLength(ordered, trips);
      SameLength(legs, run.value.1);
      Ok(Outcome(run.value.0, legs))
  }

  lemma SameLength<T>(a: seq<T>, b: seq<T>)
    requires multiset(a) == multiset(b)
    ensures |a| == |b|
  {
    assert |multiset(a)| == |a| && |multiset(b)| == |b|;
  }

  lemma OrderedRunFailsIff(check: LoanCheck, docks: seq<Dock>, trips: seq<Trip>, predict: Trip -> Mode,
                           geo: (Trip, StationId) -> int)
    ensures RunWith(check, State(docks, map[], []), ByDecision(trips), predict, geo).Err? <==> !AllKnown(docks, trips)
  {
    var s := State(docks, map[], []);
    var ordered := ByDecision(trips);
    RunFailsIff(check, s, ordered, predict, geo);
    AllKnownPermutation(docks, ordered, trips);
  }

  lemma AllKnownPermutation(docks: seq<Dock>, a: seq<Trip>, b: seq<Trip>)
    requires multiset(a) == multiset(b)
    ensures AllKnown(docks, a) == AllKnown(docks, b)
  {
    InMultiset(a, b);
    if !AllKnown(docks, a) {
      var i :| 0 <= i < |a| && !Known(docks, a[i].originStation);
      assert a[i] in b;
    }
    if !AllKnown(docks, b) {
      var j :| 0 <= j < |b| && !Known(docks, b[j].originStation);
      assert b[j] in a;
    }
  }

  /** A trip without its origin station: what a leg must carry unchanged. */
  function Unpicked(t: Trip): Trip
  {
    t.(originStation := NoStation)
  }

  function LegKey(l: Leg): Trip
  {
    Unpicked(l.trip)
  }

  /** A leg carries a trip exactly when the two agree away from the origin
      station. */
  lemma CarriesIffUnpicked(l: Leg, t: Trip)
    ensures Carries(l, t) <==> LegKey(l) == Unpicked(t)
  {
    if LegKey(l) == Unpicked(t) {
      assert l.trip.(originStation := t.originStation) == Unpicked(l.trip).(originStation := t.originStation);
    }
  }

  /** Every trip has its leg and every leg its trip, and the legs match the
      trips one to one: every trip occurs among the legs' trips (away from
      the origin station) exactly as often as in the trip table. */
  predicate Covers(legs: seq<Leg>, trips: seq<Trip>)
  {
    && (forall t :: t in trips ==> exists l :: l in legs && Carries(l, t))
    && (forall l :: l in legs ==> exists t :: t in trips && Carries(l, t))
    && multiset(Sorting.Map(legs, LegKey)) == multiset(Sorting.Map(trips, Unpicked))
  }

  /** Exactly one leg per trip: as many legs as trips, every trip has its
      leg and every leg its trip, one to one. */
  lemma AssignModeCoversTrips(check: LoanCheck, docks: seq<Dock>, trips: seq<Trip>, predict: Trip -> Mode,
                              geo: (Trip, StationId) -> int)
    ensures var r := AssignModeWith(check, docks, trips, predict, geo);
            r.Ok? ==> |r.value.legs| == |trips| && Covers(r.value.legs, trips)
  {
    var s := State(docks, map[], []);
    var ordered := ByDecision(trips);
    var run := RunWith(check, s, ordered, predict, geo);
    AssignModeRuns(check, docks, trips, predict, geo);
    if run.Ok? {
      RunLegsFollowTrips(check, s, ordered, predict, geo);
      CoversAfterSorting(trips, ordered, run.value.1, ByPersonActivity(run.value.1));
    }
  }

  lemma CoversAfterSorting(trips: seq<Trip>, ordered: seq<Trip>, runLegs: seq<Leg>, legs: seq<Leg>)
    requires multiset(ordered) == multiset(trips) && multiset(legs) == multiset(runLegs)
    requires |runLegs| == |ordered|
    requires forall i :: 0 <= i < |ordered| ==> Carries(runLegs[i], ordered[i])
    ensures Covers(legs, trips)
  {
    InMultiset(ordered, trips);
    InMultiset(legs, runLegs);
    assert Sorting.Map(runLegs, LegKey) == Sorting.Map(ordered, Unpicked) by {
      forall i | 0 <= i < |ordered|
        ensures LegKey(runLegs[i]) == Unpicked(ordered[i])
      {
        CarriesIffUnpicked(runLegs[i], ordered[i]);
      }
    }
    Sorting.MapPermutation(legs, runLegs, LegKey);
    Sorting.MapPermutation(ordered, trips, Unpicked);
    forall t | t in trips
      ensures exists l :: l in legs && Carries(l, t)
    {
      var i :| 0 <= i < |ordered| && ordered[i] == t;
      assert runLegs[i] in legs && Carries(runLegs[i], t);
    }
    forall l | l in legs
      ensures exists t :: t in trips && Carries(l, t)
    {
      var i :| 0 <= i < |runLegs| && runLegs[i] == l;
      assert ordered[i] in trips && Carries(l, ordered[i]);
    }
  }

  /** Starting with every vehicle parked, the vehicles parked, out on loan
      and queued at the end are exactly the starting inventory. */
  lemma AssignModeConservesFleet(check: LoanCheck, docks: seq<Dock>, trips: seq<Trip>, predict: Trip -> Mode,
                                 geo: (Trip, StationId) -> int)
    requires check == Membership || !Known(docks, 0)
    ensures var r := AssignModeWith(check, docks, trips, predict, geo);
            r.Ok? ==> Fleet(r.value.final) == DockBag(docks)
  {
    AssignModeRuns(check, docks, trips, predict, geo);
    OrderedRunConserves(check, docks, ByDecision(trips), predict, geo);
    InitialFleet(docks);
  }

  /** The outcome is the ordered run, its legs re-sorted. */
  lemma AssignModeRuns(check: LoanCheck, docks: seq<Dock>, trips: seq<Trip>, predict: Trip -> Mode,
                       geo: (Trip, StationId) -> int)
    ensures var run := RunWith(check, State(docks, map[], []), ByDecision(trips), predict, geo);
            AssignModeWith(check, docks, trips, predict, geo)
              == if run.Ok? then Ok(Outcome(run.value.0, ByPersonActivity(run.value.1))) else Err(run.error)
  {
  }

  lemma OrderedRunConserves(check: LoanCheck, docks: seq<Dock>, ts: seq<Trip>, predict: Trip -> Mode,
                            geo: (Trip, StationId) -> int)
    requires check == Membership || !Known(docks, 0)
    ensures var run := RunWith(check, State(docks, map[], []), ts, predict, geo);
            run.Ok? ==> Fleet(run.value.0) == Fleet(State(docks, map[], []))
  {
    var s := State(docks, map[], []);
    if RunWith(check, s, ts, predict, geo).Ok? {
      RunConservesFleet(check, s, ts, predict, geo);
    }
  }

  /** Before the first trip every vehicle is parked. */
  lemma InitialFleet(docks: seq<Dock>)
    ensures Fleet(State(docks, map[], [])) == DockBag(docks)
  {
    assert LoanBag(map[]) == multiset{};
  }

  lemma InMultiset<T>(a: seq<T>, b: seq<T>)
    requires multiset(a) == multiset(b)
    ensures forall x :: x in a <==> x in b
  {
    forall x
      ensures x in a <==> x in b
    {
      assert x in a <==> x in multiset(a);
      assert x in b <==> x in multiset(b);
    }
  }

  /** The loop as the source runs it: a session whose pickup station is
      numbered 0 goes unnoticed. */
  function AssignModeAsWritten(docks: seq<Dock>, trips: seq<Trip>, predict: Trip -> Mode,
                               geo: (Trip, StationId) -> int): (r: Result<Outcome, EngineError>)
  {
    AssignModeWith(Truthiness, docks, trips, predict, geo)
  }

  /** The loop with sessions recognised by presence, which keeps every
      vehicle accounted for. */
  function AssignMode(docks: seq<Dock>, trips: seq<Trip>, predict: Trip -> Mode,
                      geo: (Trip, StationId) -> int): (r: Result<Outcome, EngineError>)
    ensures r.Ok? ==> Fleet(r.value.final) == DockBag(docks)
  {
    AssignModeConservesFleet(Membership, docks, trips, predict, geo);
    AssignModeWith(Membership, docks, trips, predict, geo)
  }

  // ---------------------------------------------------------------------
  // Per-trip outcomes
  // ---------------------------------------------------------------------

  /** The state a trip sees after the due returns are parked. */
  function Drained(s: State, now: Time): (r: State)
    requires Valid(s)
    ensures Valid(r) && Ids(r.docks) == Ids(s.docks) && r.loans == s.loans
    ensures Fleet(r) == Fleet(s)
  {
    DrainKeepsValid(s, now);
    DrainKeepsFleet(s, now);
    var d := Drain(s.docks, s.queue, now);
    State(d.0, s.loans, d.1)
  }

  /** A person holding a vehicle keeps it for this trip whatever the
      predictor and the geometry would say. */
  lemma HeldTripIgnoresPredictor(check: LoanCheck, s: State, t: Trip, p1: Trip -> Mode, p2: Trip -> Mode,
                                 g1: (Trip, StationId) -> int, g2: (Trip, StationId) -> int)
    requires Valid(s)
    requires LoanHeld(check, s.loans, t.person)
    ensures StepWith(check, s, t, p1, g1) == StepWith(check, s, t, p2, g2)
  {
  }

  /** The held trip is a car-sharing leg with the held vehicle and no start
      station. It ends the session at the pickup station, queueing the
      vehicle's return for the arrival time, exactly when the destination's
      station or location is where the vehicle was picked up; otherwise
      nothing changes. */
  lemma HeldTrip(check: LoanCheck, s: State, t: Trip, predict: Trip -> Mode, geo: (Trip, StationId) -> int)
    requires Valid(s) && Known(s.docks, t.originStation)
    requires LoanHeld(check, s.loans, t.person)
    ensures var l := s.loans[t.person];
            var s1 := Drained(s, t.decision);
            var (s', leg) := StepWith(check, s, t, predict, geo).value;
            && leg.mode == Carsharing && leg.vehicle == l.vehicle && leg.startStation == NoStation
            && s'.docks == s1.docks
            && ((l.station == t.destStation || l.location == t.destLocation) ==>
                  leg.endStation == l.station && s'.loans == s.loans - {t.person}
                  && s'.queue == Schedule(s1.queue, Return(t.arrival, l.station, l.vehicle)))
            && (!(l.station == t.destStation || l.location == t.destLocation) ==>
                  leg.endStation == NoStation && s' == s1)
  {
    var s1 := Drained(s, t.decision);
    assert StepWith(check, s, t, predict, geo) == Ok(ContinueLoan(s1, t)) by {
      KnownFollowsIds(s.docks, s1.docks);
    }
    ContinueLoanOutcome(s1, t);
  }

  lemma ContinueLoanOutcome(s: State, t: Trip)
    requires t.person in s.loans
    ensures var l := s.loans[t.person];
            var (s', leg) := ContinueLoan(s, t);
            && leg.mode == Carsharing && leg.vehicle == l.vehicle && leg.startStation == NoStation
            && s'.docks == s.docks
            && ((l.station == t.destStation || l.location == t.destLocation) ==>
                  leg.endStation == l.station && s'.loans == s.loans - {t.person}
                  && s'.queue == Schedule(s.queue, Return(t.arrival, l.station, l.vehicle)))
            && (!(l.station == t.destStation || l.location == t.destLocation) ==>
                  leg.endStation == NoStation && s' == s)
  {
  }

  /** A person without a recognised session: the predictor sees the trip
      with the station it would borrow from (`PickDock`), and the mode is
      its choice after the hard cutoff. A non-car-sharing mode changes
      nothing; car sharing borrows the last vehicle parked at the picked
      station, and at no other, and opens a session for the person with
      it. */
  lemma FreshTrip(check: LoanCheck, s: State, t: Trip, predict: Trip -> Mode, geo: (Trip, StationId) -> int)
    requires Valid(s) && Known(s.docks, t.originStation)
    requires !LoanHeld(check, s.loans, t.person)
    ensures var s1 := Drained(s, t.decision);
            var k := Find(s.docks, t.originStation).value;
            var pick := PickDock(s1.docks, t, k, geo);
            var (s', leg) := StepWith(check, s, t, predict, geo).value;
            && leg.mode == HardCutoff(predict(Seen(t, k, s1.docks, pick)), pick, t)
            && (leg.mode != Carsharing ==>
                  s' == s1 && leg.vehicle == NoVehicle && leg.startStation == NoStation && leg.endStation == NoStation)
            && (leg.mode == Carsharing ==>
                  var j := pick.value.pos;
                  && leg.startStation == pick.value.station == s1.docks[j].id
                  && leg.endStation == NoStation
                  && s'.loans == s1.loans[t.person := Loan(leg.vehicle, leg.startStation, t.originLocation)]
                  && s'.queue == s1.queue
                  && s1.docks[j].vehicles == s'.docks[j].vehicles + [leg.vehicle]
                  && forall i :: 0 <= i < |s1.docks| && i != j ==> s'.docks[i] == s1.docks[i])
  {
    var s1 := Drained(s, t.decision);
    KnownFollowsIds(s.docks, s1.docks);
    var k := Find(s1.docks, t.originStation).value;
    assert k == Find(s.docks, t.originStation).value;
    assert StepWith(check, s, t, predict, geo) == Ok(Fresh(s1, t, k, predict, geo));
    var pick := PickDock(s1.docks, t, k, geo);
    var m := HardCutoff(predict(Seen(t, k, s1.docks, pick)), pick, t);
    if m == Carsharing {
      var j := pick.value.pos;
      var taken := Take(s1.docks, j);
      assert s1.docks[j].vehicles == taken.0[j].vehicles + [taken.1];
    }
  }

  /** The station a fresh trip borrows from is its precomputed origin
      station whenever that one holds a vehicle; only an empty one is
      replaced, by the nearest station (first in table order among equals)
      that holds a vehicle. */
  lemma RepickOnlyWhenEmpty(s: State, t: Trip, k: nat, predict: Trip -> Mode, geo: (Trip, StationId) -> int)
    requires k < |s.docks| && s.docks[k].id == t.originStation
    ensures var leg := Fresh(s, t, k, predict, geo).1;
            HasVehicle(s.docks[k]) ==> leg.trip == t
    ensures var leg := Fresh(s, t, k, predict, geo).1;
            !HasVehicle(s.docks[k]) && leg.trip.originStation != NoStation ==>
              exists j :: 0 <= j < |s.docks| && HasVehicle(s.docks[j]) && s.docks[j].id == leg.trip.originStation
                && (forall i :: 0 <= i < |s.docks| && HasVehicle(s.docks[i]) ==> geo(t, s.docks[j].id) <= geo(t, s.docks[i].id))
                && (forall i :: 0 <= i < j && HasVehicle(s.docks[i]) ==> geo(t, s.docks[j].id) < geo(t, s.docks[i].id))
  {
    if !HasVehicle(s.docks[k]) {
      var r := NearestAvailable(s.docks, st => geo(t, st));
      if r.Some? {
        var j := r.value;
        assert PickDock(s.docks, t, k, geo) == Some(Pick(j, s.docks[j].id, geo(t, s.docks[j].id)));
      }
    }
  }

  /** With each vehicle present once, a fresh borrow takes a vehicle nobody
      holds and nobody is about to return: no vehicle is lent twice. */
  lemma BorrowedVehicleWasFree(s: State, t: Trip, k: nat, predict: Trip -> Mode, geo: (Trip, StationId) -> int)
    requires k < |s.docks| && s.docks[k].id == t.originStation
    requires forall v :: Fleet(s)[v] <= 1
    ensures var leg := Fresh(s, t, k, predict, geo).1;
            leg.mode == Carsharing ==>
              (forall p :: p in s.loans ==> s.loans[p].vehicle != leg.vehicle)
              && (forall j :: 0 <= j < |s.queue| ==> s.queue[j].vehicle != leg.vehicle)
  {
    var leg := Fresh(s, t, k, predict, geo).1;
    if leg.mode == Carsharing {
      var pick := PickDock(s.docks, t, k, geo).value;
      var taken := Take(s.docks, pick.pos);
      var v := taken.1;
      assert leg.vehicle == v;
      assert DockBag(s.docks)[v] >= 1 by {
        assert DockBag(taken.0) + multiset{v} == DockBag(s.docks);
      }
      assert LoanBag(s.loans)[v] == 0 && QueueBag(s.queue)[v] == 0 by {
        assert Fleet(s)[v] == DockBag(s.docks)[v] + LoanBag(s.loans)[v] + QueueBag(s.queue)[v];
      }
      LoanBagHolds(s.loans, v);
      forall j | 0 <= j < |s.queue|
        ensures s.queue[j].vehicle != v
      {
        QueueBagHolds(s.queue, j);
      }
    }
  }

  lemma {:induction false} QueueBagHolds(q: seq<Return>, j: nat)
    requires j < |q|
    ensures q[j].vehicle in QueueBag(q)
  {
    if j > 0 {
      QueueBagHolds(q[1..], j - 1);
    }
  }

  // ---------------------------------------------------------------------
  // Station 0
  // ---------------------------------------------------------------------

  /** With no station numbered 0 no session can start there, so the
      truth-value test and the presence test decide every trip alike. */
  lemma {:induction false} TruthinessAgreesWithoutStationZero(s: State, ts: seq<Trip>, predict: Trip -> Mode,
                                                              geo: (Trip, StationId) -> int)
    requires Valid(s) && !Known(s.docks, 0)
    ensures RunWith(Truthiness, s, ts, predict, geo) == RunWith(Membership, s, ts, predict, geo)
    decreases |ts|
  {
    if |ts| > 0 {
      StepAgreesWithoutStationZero(s, ts[0], predict, geo);
      var step := StepWith(Membership, s, ts[0], predict, geo);
      if step.Ok? {
        KnownFollowsIds(s.docks, step.value.0.docks);
        TruthinessAgreesWithoutStationZero(step.value.0, ts[1..], predict, geo);
      }
    }
  }

  lemma StepAgreesWithoutStationZero(s: State, t: Trip, predict: Trip -> Mode, geo: (Trip, StationId) -> int)
    requires Valid(s) && !Known(s.docks, 0)
    ensures StepWith(Truthiness, s, t, predict, geo) == StepWith(Membership, s, t, predict, geo)
  {
    var s1 := Drained(s, t.decision);
    KnownFollowsIds(s.docks, s1.docks);
    if t.person in s1.loans {
      assert Known(s1.docks, s1.loans[t.person].station);
    }
  }

  lemma AsWrittenAgreesWithoutStationZero(docks: seq<Dock>, trips: seq<Trip>, predict: Trip -> Mode,
                                          geo: (Trip, StationId) -> int)
    requires !Known(docks, 0)
    ensures AssignModeAsWritten(docks, trips, predict, geo) == AssignMode(docks, trips, predict, geo)
  {
    TruthinessAgreesWithoutStationZero(State(docks, map[], []), ByDecision(trips), predict, geo);
    AssignModeRuns(Truthiness, docks, trips, predict, geo);
    AssignModeRuns(Membership, docks, trips, predict, geo);
  }

  /** A trip of person "a" from station 0 to station 1. */
  function ZeroTrip(id: int, decision: Time, destLocation: LocationId): Trip
  {
    Trip(id, "a", id, decision + 100, 1000, decision, 0, 10, 1, 10, 4, destLocation)
  }

  /** With nothing queued, draining leaves the state as it is. */
  lemma DrainNothing(s: State, now: Time)
    requires Valid(s) && s.queue == []
    ensures Drained(s, now) == s
  {
    assert InsertionPoint(s.queue, now) == 0;
    assert s.queue[..0] == [] && s.queue[0..] == [];
  }

  /** With nothing queued, a step is the held-trip or fresh-trip rule
      applied to the state as it is. */
  lemma StepOnEmptyQueue(check: LoanCheck, s: State, t: Trip, k: nat, predict: Trip -> Mode,
                         geo: (Trip, StationId) -> int)
    requires Valid(s) && s.queue == [] && Find(s.docks, t.originStation) == Some(k)
    ensures StepWith(check, s, t, predict, geo)
            == Ok(if LoanHeld(check, s.loans, t.person) then ContinueLoan(s, t) else Fresh(s, t, k, predict, geo))
  {
    DrainNothing(s, t.decision);
  }

  lemma FindFirstOfTwo(docks: seq<Dock>)
    requires |docks| == 2 && docks[0].id == 0 && docks[1].id == 1
    ensures Find(docks, 0) == Some(0)
  {
    assert Ids(docks) == [0, 1];
  }

  /** Taking from a station with a single vehicle empties it. */
  lemma TakeOnly(docks: seq<Dock>, k: nat)
    requires k < |docks| && |docks[k].vehicles| == 1
    ensures Take(docks, k) == (docks[k := Dock(docks[k].id, [])], docks[k].vehicles[0])
  {
    assert docks[k].vehicles[..0] == [];
  }

  /** The first trip borrows vehicle 7 at station 0. */
  lemma ZeroFirstFresh(predict: Trip -> Mode, geo: (Trip, StationId) -> int)
    requires predict(ZeroTrip(1, 0, 5)) == Carsharing
    ensures Fresh(State([Dock(0, [7]), Dock(1, [8])], map[], []), ZeroTrip(1, 0, 5), 0, predict, geo)
            == (State([Dock(0, []), Dock(1, [8])], map["a" := Loan(7, 0, 4)], []),
                Leg(ZeroTrip(1, 0, 5), Carsharing, 7, 0, NoStation))
  {
    var docks := [Dock(0, [7]), Dock(1, [8])];
    assert PickDock(docks, ZeroTrip(1, 0, 5), 0, geo) == Some(Pick(0, 0, 10));
    assert Take(docks, 0) == ([Dock(0, []), Dock(1, [8])], 7) by {
      TakeOnly(docks, 0);
      assert docks[0 := Dock(0, [])] == [Dock(0, []), Dock(1, [8])];
    }
  }

  /** The second trip without a recognised session: station 0 is empty, so
      vehicle 8 is borrowed at station 1 and replaces the session record. */
  lemma ZeroSecondFresh(predict: Trip -> Mode, geo: (Trip, StationId) -> int)
    requires forall t :: predict(t) == Carsharing
    requires forall t, st :: geo(t, st) == 10
    ensures var t := ZeroTrip(2, 1000, 6);
            Fresh(State([Dock(0, []), Dock(1, [8])], map["a" := Loan(7, 0, 4)], []), t, 0, predict, geo)
            == (State([Dock(0, []), Dock(1, [])], map["a" := Loan(8, 1, 4)], []),
                Leg(t.(originStation := 1), Carsharing, 8, 1, NoStation))
  {
    var t := ZeroTrip(2, 1000, 6);
    var docks := [Dock(0, []), Dock(1, [8])];
    var pick := Some(Pick(1, 1, 10));
    assert PickDock(docks, t, 0, geo) == pick by {
      assert NearestAvailable(docks, st => geo(t, st)) == Some(1);
    }
    assert Seen(t, 0, docks, pick) == t.(originStation := 1, originStationDist := 10);
    assert HardCutoff(predict(Seen(t, 0, docks, pick)), pick, t) == Carsharing;
    assert Take(docks, 1) == ([Dock(0, []), Dock(1, [])], 8) by {
      TakeOnly(docks, 1);
      assert docks[1 := Dock(1, [])] == [Dock(0, []), Dock(1, [])];
    }
    assert map["a" := Loan(7, 0, 4)]["a" := Loan(8, 1, 4)] == map["a" := Loan(8, 1, 4)];
  }

  /** Person "a" borrows vehicle 7 at station 0 and drives on without
      returning it. At the next trip the truth-value test misses the
      session, so "a" borrows vehicle 8 at station 1 and the session record
      for vehicle 7 is overwritten: vehicle 7 is then neither parked, nor
      held, nor queued. */
  lemma StationZeroLosesVehicle(predict: Trip -> Mode, geo: (Trip, StationId) -> int)
    requires forall t :: predict(t) == Carsharing
    requires forall t, st :: geo(t, st) == 10
    ensures var s0 := State([Dock(0, [7]), Dock(1, [8])], map[], []);
            var s1 := State([Dock(0, []), Dock(1, [8])], map["a" := Loan(7, 0, 4)], []);
            var s2 := State([Dock(0, []), Dock(1, [])], map["a" := Loan(8, 1, 4)], []);
            var t1, t2 := ZeroTrip(1, 0, 5), ZeroTrip(2, 1000, 6);
            && StepWith(Truthiness, s0, t1, predict, geo) == Ok((s1, Leg(t1, Carsharing, 7, 0, NoStation)))
            && StepWith(Truthiness, s1, t2, predict, geo) == Ok((s2, Leg(t2.(originStation := 1), Carsharing, 8, 1, NoStation)))
            && 7 in Fleet(s0) && 7 in Fleet(s1) && 7 !in Fleet(s2)
  {
    var s0 := State([Dock(0, [7]), Dock(1, [8])], map[], []);
    var s1 := State([Dock(0, []), Dock(1, [8])], map["a" := Loan(7, 0, 4)], []);
    var s2 := State([Dock(0, []), Dock(1, [])], map["a" := Loan(8, 1, 4)], []);
    ZeroFirstStep(Truthiness, predict, geo);
    ZeroSecondStepAsWritten(predict, geo);
    FleetOfTwo(s0, s1, s2);
  }

  /** The same two trips with sessions recognised by presence: the second
      trip continues the session on vehicle 7, which stays accounted for. */
  lemma StationZeroKeepsVehicle(predict: Trip -> Mode, geo: (Trip, StationId) -> int)
    requires forall t :: predict(t) == Carsharing
    ensures var s0 := State([Dock(0, [7]), Dock(1, [8])], map[], []);
            var s1 := State([Dock(0, []), Dock(1, [8])], map["a" := Loan(7, 0, 4)], []);
            var t1, t2 := ZeroTrip(1, 0, 5), ZeroTrip(2, 1000, 6);
            && StepWith(Membership, s0, t1, predict, geo) == Ok((s1, Leg(t1, Carsharing, 7, 0, NoStation)))
            && StepWith(Membership, s1, t2, predict, geo) == Ok((s1, Leg(t2, Carsharing, 7, NoStation, NoStation)))
            && 7 in Fleet(s1)
  {
    var s0 := State([Dock(0, [7]), Dock(1, [8])], map[], []);
    var s1 := State([Dock(0, []), Dock(1, [8])], map["a" := Loan(7, 0, 4)], []);
    var s2 := State([Dock(0, []), Dock(1, [])], map["a" := Loan(8, 1, 4)], []);
    ZeroFirstStep(Membership, predict, geo);
    ZeroSecondStepCorrected(predict, geo);
    FleetOfTwo(s0, s1, s2);
  }

  /** The first trip under either test. */
  lemma ZeroFirstStep(check: LoanCheck, predict: Trip -> Mode, geo: (Trip, StationId) -> int)
    requires forall t :: predict(t) == Carsharing
    ensures var s0 := State([Dock(0, [7]), Dock(1, [8])], map[], []);
            var s1 := State([Dock(0, []), Dock(1, [8])], map["a" := Loan(7, 0, 4)], []);
            var t1 := ZeroTrip(1, 0, 5);
            StepWith(check, s0, t1, predict, geo) == Ok((s1, Leg(t1, Carsharing, 7, 0, NoStation)))
  {
    var s0 := State([Dock(0, [7]), Dock(1, [8])], map[], []);
    FindFirstOfTwo(s0.docks);
    ZeroFirstFresh(predict, geo);
    StepOnEmptyQueue(check, s0, ZeroTrip(1, 0, 5), 0, predict, geo);
  }

  /** The second trip under the truth-value test: the session is missed. */
  lemma ZeroSecondStepAsWritten(predict: Trip -> Mode, geo: (Trip, StationId) -> int)
    requires forall t :: predict(t) == Carsharing
    requires forall t, st :: geo(t, st) == 10
    ensures var s1 := State([Dock(0, []), Dock(1, [8])], map["a" := Loan(7, 0, 4)], []);
            var s2 := State([Dock(0, []), Dock(1, [])], map["a" := Loan(8, 1, 4)], []);
            var t2 := ZeroTrip(2, 1000, 6);
            StepWith(Truthiness, s1, t2, predict, geo)
              == Ok((s2, Leg(t2.(originStation := 1), Carsharing, 8, 1, NoStation)))
  {
    var s1 := State([Dock(0, []), Dock(1, [8])], map["a" := Loan(7, 0, 4)], []);
    assert Find(s1.docks, 0) == Some(0) by {
      FindFirstOfTwo(s1.docks);
    }
    assert Valid(s1) by {
      assert Known(s1.docks, 0);
    }
    assert !LoanHeld(Truthiness, s1.loans, "a");
    ZeroSecondFresh(predict, geo);
    StepOnEmptyQueue(Truthiness, s1, ZeroTrip(2, 1000, 6), 0, predict, geo);
  }

  /** The second trip under the presence test: "a" keeps vehicle 7. */
  lemma ZeroSecondStepCorrected(predict: Trip -> Mode, geo: (Trip, StationId) -> int)
    ensures var s1 := State([Dock(0, []), Dock(1, [8])], map["a" := Loan(7, 0, 4)], []);
            var t2 := ZeroTrip(2, 1000, 6);
            StepWith(Membership, s1, t2, predict, geo) == Ok((s1, Leg(t2, Carsharing, 7, NoStation, NoStation)))
  {
    var s1 := State([Dock(0, []), Dock(1, [8])], map["a" := Loan(7, 0, 4)], []);
    var t2 := ZeroTrip(2, 1000, 6);
    assert Find(s1.docks, 0) == Some(0) by {
      FindFirstOfTwo(s1.docks);
    }
    assert Valid(s1) by {
      assert Known(s1.docks, 0);
    }
    assert ContinueLoan(s1, t2) == (s1, Leg(t2, Carsharing, 7, NoStation, NoStation));
    StepOnEmptyQueue(Membership, s1, t2, 0, predict, geo);
  }

  lemma ParkedSeven()
    ensures 7 in DockBag([Dock(0, [7]), Dock(1, [8])])
  {
    var docks := [Dock(0, [7]), Dock(1, [8])];
    assert docks[..1] == [Dock(0, [7])] && docks[..1][..0] == [];
    assert DockBag(docks[..1]) == multiset{7};
  }

  lemma NoneParked()
    ensures DockBag([Dock(0, []), Dock(1, [])]) == multiset{}
  {
    var docks := [Dock(0, []), Dock(1, [])];
    assert docks[..1] == [Dock(0, [])] && docks[..1][..0] == [];
    assert DockBag(docks[..1]) == multiset{};
  }

  lemma OneLoan(p: PersonId, l: Loan)
    ensures LoanBag(map[p := l]) == multiset{l.vehicle}
  {
    LoanBagRemove(map[p := l], p);
    assert map[p := l] - {p} == map[];
    assert LoanBag(map[]) == multiset{};
  }

  /** Vehicle 7 is in the starting fleet and with the session holder, and
      nowhere once both stations are empty and the only session holds 8. */
  lemma FleetOfTwo(s0: State, s1: State, s2: State)
    requires s0 == State([Dock(0, [7]), Dock(1, [8])], map[], [])
    requires s1 == State([Dock(0, []), Dock(1, [8])], map["a" := Loan(7, 0, 4)], [])
    requires s2 == State([Dock(0, []), Dock(1, [])], map["a" := Loan(8, 1, 4)], [])
    ensures 7 in Fleet(s0) && 7 in Fleet(s1) && 7 !in Fleet(s2)
  {
    ParkedSeven();
    OneLoan("a", Loan(7, 0, 4));
    OneLoan("a", Loan(8, 1, 4));
    NoneParked();
    assert Fleet(s2) == multiset{8};
  }
}
