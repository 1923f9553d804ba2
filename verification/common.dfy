/** Shared vocabulary of the car-sharing simulator model: failure-compatible
    wrappers, identifiers, the mode labels and the trip record that flows
    through the three stages of the reservation engine. */
module Common {

  datatype Option<T> = None | Some(value: T)

  /** Success or failure; usable with `:-`. */
  datatype Result<T, E> = Ok(value: T) | Err(error: E) {
    predicate IsFailure() {
      Err?
    }

    function PropagateFailure<U>(): Result<U, E>
      requires Err?
    {
      Err(error)
    }

    function Extract(): T
      requires Ok?
    {
      value
    }
  }

  type PersonId = string
  type StationId = int
  type VehicleId = int
  type LocationId = int
  /** Simulated instants and durations, in whole seconds. */
  type Time = int

  /** The sentinel the engine writes for "no station" and "no vehicle". */
  const NoStation: StationId := -1
  const NoVehicle: VehicleId := -1

  /** Mode labels: the car-sharing label, the private-car label the hard
      cutoff substitutes, and any other label a predictor may return. */
  datatype Mode = Carsharing | Car | OtherMode(name: string)

  /** The label the mode table holds. */
  function Label(m: Mode): string
  {
    match m
    case Carsharing => "Mode::CarsharingMobility"
    case Car => "Mode::Car"
    case OtherMode(name) => name
  }

  /** A predictor label for another mode is neither of the two labels the
      engine itself compares against. */
  predicate WellFormedMode(m: Mode)
  {
    m.OtherMode? ==> m.name != "Mode::CarsharingMobility" && m.name != "Mode::Car"
  }

  /** On well-formed modes, comparing modes is comparing labels: the engine's
      tests on `Carsharing` are the string tests on the label. */
  lemma LabelInjective(a: Mode, b: Mode)
    requires WellFormedMode(a) && WellFormedMode(b)
    ensures Label(a) == Label(b) <==> a == b
    ensures Label(a) == "Mode::CarsharingMobility" <==> a == Carsharing
  {
    assert "Mode::CarsharingMobility" != "Mode::Car" by {
      assert |"Mode::CarsharingMobility"| != |"Mode::Car"|;
    }
  }

  /** One row of the trip table. Geometry is represented by its precomputed
      consequences: the nearest stations of origin and destination, the
      distances to them, and location identifiers. */
  datatype Trip = Trip(
    id: int,
    person: PersonId,
    activityIndex: int,
    arrival: Time,               // started_at_destination
    distance: int,               // metres between origin and destination
    decision: Time,              // mode_decision_time
    originStation: StationId,    // closest_station_origin
    originStationDist: int,      // distance_to_station_origin
    destStation: StationId,      // closest_station_destination
    destStationDist: int,        // distance_to_station_destination
    originLocation: LocationId,  // location_id_origin
    destLocation: LocationId     // location_id_destination
  )
}
