/** From a population plan file to activity rows, and from activity rows to
    trips. Each person's plan is a list of acts carrying string attributes;
    an act with coordinates becomes one activity row, and consecutive
    activity rows in (person, activity index) order become one trip. */
module Activities {
  import opened Common
  import Sorting
  import Order

  /** The attributes of one element of the plan file, by name. */
  type Attrs = map<string, string>

  /** A plan with a single act is read as that act alone, not as a list. */
  datatype Plan = SingleAct(act: Attrs) | ActList(acts: seq<Attrs>)

  datatype Person = Person(attrs: Attrs, plan: Plan)

  datatype ActivityRow = ActivityRow(
    person: string,
    sex: string,
    age: string,
    employed: string,
    carAvail: string,
    activityIndex: nat,   // position of the act in the person's plan
    purpose: string,
    startTime: string,
    x: string,
    y: string
  )

  /** An attribute the row needs is absent. */
  datatype ParseError = MissingKey(key: string)

  const DayStart: string := "00:00:00"

  // ---------------------------------------------------------------------
  // Plan file to activity rows
  // ---------------------------------------------------------------------

  /** Only acts with an x coordinate become rows. */
  predicate Emitted(act: Attrs)
  {
    "@x" in act
  }

  /** Every attribute an emitted act's row reads is present. */
  predicate Complete(attrs: Attrs, act: Attrs)
  {
    && "@id" in attrs && "@sex" in attrs && "@age" in attrs && "@employed" in attrs && "@car_avail" in attrs
    && "@type" in act && "@y" in act
  }

  /** The end time an act without a start time falls back to: that of the
      latest emitted act before position `j` that has one, else the start
      of the day. */
  function LastEnd(acts: seq<Attrs>, j: nat): string
    requires j <= |acts|
  {
    if j == 0 then DayStart
    else if Emitted(acts[j - 1]) && "@end_time" in acts[j - 1] then acts[j - 1]["@end_time"]
    else LastEnd(acts, j - 1)
  }

  function StartOf(acts: seq<Attrs>, j: nat): string
    requires j < |acts|
  {
    if "@start_time" in acts[j] then acts[j]["@start_time"] else LastEnd(acts, j)
  }

  /** Positions, from `i` on, of the acts that become rows. */
  function EmittedFrom(acts: seq<Attrs>, i: nat): (js: seq<nat>)
    ensures forall k :: 0 <= k < |js| ==> i <= js[k] < |acts| && Emitted(acts[js[k]])
    ensures forall k, l :: 0 <= k < l < |js| ==> js[k] < js[l]
    ensures forall j :: i <= j < |acts| && Emitted(acts[j]) ==> j in js
    decreases |acts| - i
  {
    if i >= |acts| then []
    else (if Emitted(acts[i]) then [i] else []) + EmittedFrom(acts, i + 1)
  }

  /** `row` is the act at position `j` of the person with attributes
      `attrs`. */
  predicate RowOf(attrs: Attrs, acts: seq<Attrs>, j: nat, row: ActivityRow)
    requires j < |acts| && Emitted(acts[j]) && Complete(attrs, acts[j])
  {
    && row.person == attrs["@id"] && row.sex == attrs["@sex"] && row.age == attrs["@age"]
    && row.employed == attrs["@employed"] && row.carAvail == attrs["@car_avail"]
    && row.activityIndex == j && row.purpose == acts[j]["@type"]
    && row.x == acts[j]["@x"] && row.y == acts[j]["@y"]
  }

  /** The first attribute, in the order a row reads them, that is absent. */
  function FirstMissing(attrs: Attrs, act: Attrs): (k: string)
    requires !Complete(attrs, act)
    ensures k !in (if k in {"@type", "@y"} then act else attrs)
  {
    if "@id" !in attrs then "@id"
    else if "@sex" !in attrs then "@sex"
    else if "@age" !in attrs then "@age"
    else if "@employed" !in attrs then "@employed"
    else if "@car_avail" !in attrs then "@car_avail"
    else if "@type" !in act then "@type"
    else "@y"
  }

  /** The rows of one person's act list from position `i` on; `prevEnd` is
      the fallback start time carried from the earlier acts. */
  function ActRows(attrs: Attrs, acts: seq<Attrs>, i: nat, prevEnd: string): (r: Result<seq<ActivityRow>, ParseError>)
    ensures r.Err? ==> exists j :: i <= j < |acts| && Emitted(acts[j]) && !Complete(attrs, acts[j])
    decreases |acts| - i
  {
    if i >= |acts| then Ok([])
    else
      var act := acts[i];
      if !Emitted(act) then ActRows(attrs, acts, i + 1, prevEnd)
      else if !Complete(attrs, act) then Err(MissingKey(FirstMissing(attrs, act)))
      else
        var rest :- ActRows(attrs, acts, i + 1, NextEnd(act, prevEnd));
        Ok([MakeRow(attrs, act, i, prevEnd)] + rest)
  }

  /** The end time carried past an emitted act. */
  function NextEnd(act: Attrs, prevEnd: string): string
  {
    if "@end_time" in act then act["@end_time"] else prevEnd
  }

  function MakeRow(attrs: Attrs, act: Attrs, i: nat, prevEnd: string): ActivityRow
    requires Emitted(act) && Complete(attrs, act)
  {
    ActivityRow(attrs["@id"], attrs["@sex"], attrs["@age"], attrs["@employed"], attrs["@car_avail"], i,
                act["@type"], if "@start_time" in act then act["@start_time"] else prevEnd, act["@x"], act["@y"])
  }

  /** One step of the reading, as an equation. */
  lemma ActRowsStep(attrs: Attrs, acts: seq<Attrs>, i: nat, prevEnd: string)
    requires i < |acts| && ActRows(attrs, acts, i, prevEnd).Ok?
    ensures !Emitted(acts[i]) ==> ActRows(attrs, acts, i, prevEnd) == ActRows(attrs, acts, i + 1, prevEnd)
    ensures Emitted(acts[i]) ==>
              && Complete(attrs, acts[i])
              && ActRows(attrs, acts, i + 1, NextEnd(acts[i], prevEnd)).Ok?
              && ActRows(attrs, acts, i, prevEnd).value
                 == [MakeRow(attrs, acts[i], i, prevEnd)] + ActRows(attrs, acts, i + 1, NextEnd(acts[i], prevEnd)).value
  {
  }

  /** Reading fails exactly when an emitted act lacks an attribute. */
  lemma {:induction false} ActRowsFailIff(attrs: Attrs, acts: seq<Attrs>, i: nat, prevEnd: string)
    ensures ActRows(attrs, acts, i, prevEnd).Err?
            <==> exists j :: i <= j < |acts| && Emitted(acts[j]) && !Complete(attrs, acts[j])
    decreases |acts| - i
  {
    if i < |acts| {
      ActRowsFailIff(attrs, acts, i + 1, if Emitted(acts[i]) then NextEnd(acts[i], prevEnd) else prevEnd);
    }
  }

  /** `rows` are the rows of the acts at positions `js`, one for one. */
  predicate FollowsPlan(attrs: Attrs, acts: seq<Attrs>, js: seq<nat>, rows: seq<ActivityRow>)
    requires forall k :: 0 <= k < |js| ==> js[k] < |acts| && Emitted(acts[js[k]])
  {
    && |rows| == |js|
    && forall k :: 0 <= k < |js| ==> Complete(attrs, acts[js[k]]) && RowOf(attrs, acts, js[k], rows[k])
  }

  /** Every emitted act becomes one row, in plan order, carrying the
      person's attributes, the act's position, type and coordinates. */
  lemma {:induction false} ActRowsFollowPlan(attrs: Attrs, acts: seq<Attrs>, i: nat, prevEnd: string)
    requires ActRows(attrs, acts, i, prevEnd).Ok?
    ensures FollowsPlan(attrs, acts, EmittedFrom(acts, i), ActRows(attrs, acts, i, prevEnd).value)
    decreases |acts| - i
  {
    if i < |acts| {
      ActRowsStep(attrs, acts, i, prevEnd);
      var prevEnd' := if Emitted(acts[i]) then NextEnd(acts[i], prevEnd) else prevEnd;
      ActRowsFollowPlan(attrs, acts, i + 1, prevEnd');
      if Emitted(acts[i]) {
        FollowsPlanCons(attrs, acts, i, EmittedFrom(acts, i + 1), MakeRow(attrs, acts[i], i, prevEnd),
                        ActRows(attrs, acts, i + 1, prevEnd').value);
        assert EmittedFrom(acts, i) == [i] + EmittedFrom(acts, i + 1);
      } else {
        assert EmittedFrom(acts, i) == EmittedFrom(acts, i + 1);
      }
    }
  }

  lemma FollowsPlanCons(attrs: Attrs, acts: seq<Attrs>, i: nat, js: seq<nat>, row: ActivityRow, rows: seq<ActivityRow>)
    requires i < |acts| && Emitted(acts[i]) && Complete(attrs, acts[i]) && RowOf(attrs, acts, i, row)
    requires forall k :: 0 <= k < |js| ==> js[k] < |acts| && Emitted(acts[js[k]])
    requires FollowsPlan(attrs, acts, js, rows)
    ensures FollowsPlan(attrs, acts, [i] + js, [row] + rows)
  {
    var js', rows' := [i] + js, [row] + rows;
    forall k | 0 <= k < |js'|
      ensures Complete(attrs, acts[js'[k]]) && RowOf(attrs, acts, js'[k], rows'[k])
    {
      if k > 0 {
        assert js'[k] == js[k - 1] && rows'[k] == rows[k - 1];
      }
    }
  }

  /** A row's start time is the act's own, or else the end time of the
      latest earlier emitted act that has one, or else the start of the
      day. */
  lemma {:induction false} ActRowsStartTimes(attrs: Attrs, acts: seq<Attrs>, i: nat)
    requires i <= |acts| && ActRows(attrs, acts, i, LastEnd(acts, i)).Ok?
    ensures var js := EmittedFrom(acts, i);
            var rows := ActRows(attrs, acts, i, LastEnd(acts, i)).value;
            |rows| == |js| && forall k :: 0 <= k < |js| ==> rows[k].startTime == StartOf(acts, js[k])
    decreases |acts| - i
  {
    if i < |acts| {
      ActRowsStep(attrs, acts, i, LastEnd(acts, i));
      assert LastEnd(acts, i + 1) == if Emitted(acts[i]) then NextEnd(acts[i], LastEnd(acts, i)) else LastEnd(acts, i);
      ActRowsStartTimes(attrs, acts, i + 1);
      var js, js' := EmittedFrom(acts, i), EmittedFrom(acts, i + 1);
      var rows, rows' := ActRows(attrs, acts, i, LastEnd(acts, i)).value,
                         ActRows(attrs, acts, i + 1, LastEnd(acts, i + 1)).value;
      if Emitted(acts[i]) {
        assert js == [i] + js';
        forall k | 0 <= k < |js|
          ensures rows[k].startTime == StartOf(acts, js[k])
        {
          if k > 0 {
            assert js[k] == js'[k - 1] && rows[k] == rows'[k - 1];
          }
        }
      } else {
        assert js == js';
      }
    }
  }

  /** A person's plan fails to read when some emitted act lacks an
      attribute its row needs. */
  predicate Fails(p: Person)
  {
    p.plan.ActList? && exists j :: 0 <= j < |p.plan.acts| && Emitted(p.plan.acts[j]) && !Complete(p.attrs, p.plan.acts[j])
  }

  /** The rows a person contributes: none for a single-act plan. */
  function PersonRows(p: Person): (r: Result<seq<ActivityRow>, ParseError>)
    ensures r.Err? <==> Fails(p)
    ensures r.Ok? && p.plan.SingleAct? ==> r.value == []
  {
    match p.plan
    case SingleAct(_) => Ok([])
    case ActList(acts) =>
      ActRowsFailIff(p.attrs, acts, 0, DayStart);
      ActRows(p.attrs, acts, 0, DayStart)
  }

  /** How many rows a person contributes; none when their plan fails. */
  function RowCount(p: Person): nat
  {
    if Fails(p) then 0 else |PersonRows(p).value|
  }

  /** How many rows the first `p` people contribute. */
  function RowsBefore(people: seq<Person>, p: nat): nat
    requires p <= |people|
  {
    if p == 0 then 0 else RowsBefore(people, p - 1) + RowCount(people[p - 1])
  }

  lemma {:induction false} RowsBeforeTail(people: seq<Person>, p: nat)
    requires 0 < p <= |people|
    ensures RowsBefore(people, p) == RowCount(people[0]) + RowsBefore(people[1..], p - 1)
    decreases p
  {
    if p > 1 {
      RowsBeforeTail(people, p - 1);
      assert people[1..][p - 2] == people[p - 1];
    }
  }

  /** `rows` are the people's rows, person after person: person `p`'s
      rows occupy the positions after the rows of everyone before them. */
  predicate RowsInPlace(people: seq<Person>, rows: seq<ActivityRow>)
  {
    && |rows| == RowsBefore(people, |people|)
    && forall p :: 0 <= p < |people| && !Fails(people[p]) ==>
         RowsBefore(people, p + 1) <= |rows|
         && rows[RowsBefore(people, p)..RowsBefore(people, p + 1)] == PersonRows(people[p]).value
  }

  /** The rows of the people, person after person. */
  function CollectRows(people: seq<Person>): (r: Result<seq<ActivityRow>, ParseError>)
    ensures r.Err? <==> exists p :: 0 <= p < |people| && Fails(people[p])
    ensures r.Ok? ==> RowsInPlace(people, r.value)
  {
    if |people| == 0 then Ok([])
    else
      var first :- PersonRows(people[0]);
      var rest :- CollectRows(people[1..]);
      assert forall p :: 0 < p < |people| ==> people[p] == people[1..][p - 1];
      CollectStep(people, first, rest);
      Ok(first + rest)
  }

  lemma CollectStep(people: seq<Person>, first: seq<ActivityRow>, rest: seq<ActivityRow>)
    requires |people| > 0 && PersonRows(people[0]) == Ok(first)
    requires RowsInPlace(people[1..], rest)
    ensures RowsInPlace(people, first + rest)
  {
    RowsBeforeTail(people, |people|);
    forall p | 0 <= p < |people| && !Fails(people[p])
      ensures RowsBefore(people, p + 1) <= |first + rest|
      ensures (first + rest)[RowsBefore(people, p)..RowsBefore(people, p + 1)] == PersonRows(people[p]).value
    {
      CollectAt(people, first, rest, p);
    }
  }

  /** One person's slice of `CollectStep`. */
  lemma CollectAt(people: seq<Person>, first: seq<ActivityRow>, rest: seq<ActivityRow>, p: nat)
    requires |people| > 0 && PersonRows(people[0]) == Ok(first)
    requires RowsInPlace(people[1..], rest)
    requires p < |people| && !Fails(people[p])
    ensures RowsBefore(people, p + 1) <= |first + rest|
    ensures (first + rest)[RowsBefore(people, p)..RowsBefore(people, p + 1)] == PersonRows(people[p]).value
  {
    var tail := people[1..];
    RowsBeforeTail(people, p + 1);
    if p == 0 {
      Sorting.SliceOfAppend(first, rest, 0, 0);
      assert (first + rest)[0..|first|] == first;
    } else {
      assert RowsBefore(people, p) == |first| + RowsBefore(tail, p - 1) by {
        RowsBeforeTail(people, p);
      }
      assert tail[p - 1] == people[p];
      var a, b := RowsBefore(tail, p - 1), RowsBefore(tail, p);
      assert b <= |rest| && rest[a..b] == PersonRows(tail[p - 1]).value;
      Sorting.SliceOfAppend(first, rest, a, b);
    }
  }

  /** A person contributes no row: a single-act plan, or a list without an
      act that has coordinates. */
  predicate EmitsNothing(p: Person)
  {
    p.plan.SingleAct? || forall j :: 0 <= j < |p.plan.acts| ==> !Emitted(p.plan.acts[j])
  }

  /** The error of reading a population in which nobody has a located
      act: the table then has no coordinate column to read. */
  const NoCoordinates: ParseError := MissingKey("x")

  /** The activity rows of the whole population, person after person. The
      coordinate columns are read from the collected table, which fails
      when nobody contributed a row. */
  function XmlToActivities(people: seq<Person>): (r: Result<seq<ActivityRow>, ParseError>)
    ensures r.Err? <==> (exists p :: 0 <= p < |people| && Fails(people[p]))
                        || forall p :: 0 <= p < |people| ==> EmitsNothing(people[p])
    ensures r.Ok? ==> RowsInPlace(people, r.value)
  {
    var rows :- CollectRows(people);
    NothingCollected(people);
    if |rows| == 0 then Err(NoCoordinates) else Ok(rows)
  }

  /** Without a failing plan, nobody contributes a row exactly when every
      person emits nothing. */
  lemma {:induction false} NothingCollected(people: seq<Person>)
    requires forall p :: 0 <= p < |people| ==> !Fails(people[p])
    ensures RowsBefore(people, |people|) == 0 <==> forall p :: 0 <= p < |people| ==> EmitsNothing(people[p])
    decreases |people|
  {
    if |people| > 0 {
      var n := |people| - 1;
      NothingCollected(people[..n]);
      assert forall p :: 0 <= p < n ==> people[..n][p] == people[p];
      assert RowsBefore(people, n) == RowsBefore(people[..n], n) by {
        RowsBeforePrefix(people, n, n);
      }
      CountsNothing(people[n]);
    }
  }

  lemma {:induction false} RowsBeforePrefix(people: seq<Person>, n: nat, p: nat)
    requires p <= n <= |people|
    ensures RowsBefore(people, p) == RowsBefore(people[..n], p)
    decreases p
  {
    if p > 0 {
      RowsBeforePrefix(people, n, p - 1);
      assert people[..n][p - 1] == people[p - 1];
    }
  }

  /** A readable person contributes no row exactly when they emit nothing. */
  lemma CountsNothing(p: Person)
    requires !Fails(p)
    ensures RowCount(p) == 0 <==> EmitsNothing(p)
  {
    if p.plan.ActList? {
      RowCountIsEmitted(p);
      NoneEmittedFrom(p.plan.acts, 0);
    }
  }

  lemma RowCountIsEmitted(p: Person)
    requires p.plan.ActList? && !Fails(p)
    ensures RowCount(p) == |EmittedFrom(p.plan.acts, 0)|
  {
    PersonRowsFollowPlan(p);
  }

  /** No act from `i` on is listed as emitted exactly when none of them
      has coordinates. */
  lemma {:induction false} NoneEmittedFrom(acts: seq<Attrs>, i: nat)
    requires i <= |acts|
    ensures EmittedFrom(acts, i) == [] <==> forall j :: i <= j < |acts| ==> !Emitted(acts[j])
    decreases |acts| - i
  {
    if i < |acts| {
      NoneEmittedFrom(acts, i + 1);
    }
  }

  /** Each emitted act of a listed plan becomes the row at its place, and
      its start time is its own or the end time carried from before. */
  lemma PersonRowsFollowPlan(p: Person)
    requires p.plan.ActList? && !Fails(p)
    ensures var js := EmittedFrom(p.plan.acts, 0);
            var rows := PersonRows(p).value;
            && |rows| == |js|
            && forall k :: 0 <= k < |js| ==>
                 Complete(p.attrs, p.plan.acts[js[k]])
                 && RowOf(p.attrs, p.plan.acts, js[k], rows[k]) && rows[k].startTime == StartOf(p.plan.acts, js[k])
  {
    ActRowsFollowPlan(p.attrs, p.plan.acts, 0, DayStart);
    ActRowsStartTimes(p.attrs, p.plan.acts, 0);
  }

  /** A person with a single act contributes nothing, however complete. */
  lemma SingleActEmitsNothing(p: Person, rest: seq<Person>)
    requires p.plan.SingleAct?
    ensures CollectRows([p] + rest) == CollectRows(rest)
    ensures XmlToActivities([p] + rest) == XmlToActivities(rest)
  {
    assert ([p] + rest)[1..] == rest;
    assert PersonRows(p) == Ok([]);
    if CollectRows(rest).Ok? {
      assert [] + CollectRows(rest).value == CollectRows(rest).value;
    }
  }

  // ---------------------------------------------------------------------
  // Activity rows to trips
  // ---------------------------------------------------------------------

  /** A location, by its two coordinates as the plan file writes them. */
  datatype Point = Point(x: string, y: string)

  /** One trip: the activity it leads to, and the activity row before it
      in (person, activity index) order as its origin. The origin fields
      are absent on the very first row of the table. */
  datatype TripRow = TripRow(
    person: string,
    sex: string,
    age: string,
    employed: Option<int>,
    carAccess: real,
    activityIndex: nat,
    purposeOrigin: Option<string>,
    purposeDestination: string,
    startTimeDestination: string,
    origin: Option<Point>,
    destination: Point,
    distance: Option<real>
  )

  /** Car availability as a number: certain, none, or sometimes. */
  function CarAccess(s: string): (r: real)
    ensures r == 1.0 <==> s == "always"
    ensures r == 0.0 <==> s == "never"
    ensures r == 0.5 <==> s != "always" && s != "never"
  {
    if s == "always" then 1.0 else if s == "never" then 0.0 else 0.5
  }

  /** Employment as a number; any other answer is missing. */
  function Employment(s: string): (r: Option<int>)
    ensures r == Some(1) <==> s == "yes"
    ensures r == Some(0) <==> s == "no"
    ensures r.None? <==> s != "yes" && s != "no"
  {
    if s == "yes" then Some(1) else if s == "no" then Some(0) else None
  }

  /** The purposes kept as they are; every other purpose is "other". */
  const Categories: set<string> := {"home", "work", "leisure", "shopping"}

  function Purpose(s: string): (r: string)
    ensures r in Categories || r == "other"
    ensures s in Categories <==> r == s && r != "other"
  {
    if s in Categories then s else "other"
  }

  /** Normalising a purpose twice changes nothing more. */
  lemma PurposeIdempotent(s: string)
    ensures Purpose(Purpose(s)) == Purpose(s)
  {
  }

  function Place(r: ActivityRow): Point
  {
    Point(r.x, r.y)
  }

  /** Rows compare by person identifier, then activity index. */
  predicate RowLe(a: ActivityRow, b: ActivityRow)
  {
    Order.KeyLe(a.person, a.activityIndex, b.person, b.activityIndex)
  }

  lemma RowLeIsPreorder()
    ensures Sorting.TotalPreorder(RowLe)
  {
    Order.KeyOrderIsPreorder((r: ActivityRow) => r.person, (r: ActivityRow) => r.activityIndex, RowLe);
  }

  /** The activity table in (person, activity index) order. */
  function ByKey(rows: seq<ActivityRow>): (r: seq<ActivityRow>)
    ensures multiset(r) == multiset(rows)
    ensures Sorting.SortedBy(r, RowLe)
  {
    RowLeIsPreorder();
    Sorting.InsertionSort(rows, RowLe)
  }

  /** Which rows of the sorted table become trips. The table is shifted by
      one row as a whole, so dropping only activity index 0 keeps a trip
      whose origin is another person's last activity whenever a person's
      first act has no coordinates; dropping every row without a
      predecessor of the same person keeps trips within one person. */
  datatype DropRule = DropIndexZero | DropFirstOfPerson

  predicate Kept(rule: DropRule, sorted: seq<ActivityRow>, p: nat)
    requires p < |sorted|
  {
    && sorted[p].activityIndex != 0
    && (rule.DropFirstOfPerson? ==> p > 0 && sorted[p - 1].person == sorted[p].person)
  }

  /** The trip ending at row `p` of the sorted table. */
  function TripAt(sorted: seq<ActivityRow>, p: nat, dist: (Point, Point) -> real): TripRow
    requires p < |sorted|
  {
    var r := sorted[p];
    TripRow(r.person, r.sex, r.age, Employment(r.employed), CarAccess(r.carAvail), r.activityIndex,
            if p == 0 then None else Some(sorted[p - 1].purpose),
            Purpose(r.purpose), r.startTime,
            if p == 0 then None else Some(Place(sorted[p - 1])),
            Place(r),
            if p == 0 then None else Some(dist(Place(sorted[p - 1]), Place(r))))
  }

  /** Positions, from `p` on, of the rows that become trips. */
  function KeptFrom(rule: DropRule, sorted: seq<ActivityRow>, p: nat): (ps: seq<nat>)
    ensures forall k :: 0 <= k < |ps| ==> p <= ps[k] < |sorted| && Kept(rule, sorted, ps[k])
    ensures forall k, l :: 0 <= k < l < |ps| ==> ps[k] < ps[l]
    ensures forall q :: p <= q < |sorted| && Kept(rule, sorted, q) ==> q in ps
    decreases |sorted| - p
  {
    if p >= |sorted| then []
    else (if Kept(rule, sorted, p) then [p] else []) + KeptFrom(rule, sorted, p + 1)
  }

  /** Sorts the activity rows, joins each with the row before it, shapes
      the attributes and drops the rows `rule` drops. `dist` is the
      planar distance between two points. */
  function ActivitiesToTripsWith(rule: DropRule, rows: seq<ActivityRow>, dist: (Point, Point) -> real): (ts: seq<TripRow>)
    ensures forall k :: 0 <= k < |ts| ==> ts[k].activityIndex != 0
    ensures forall k, l :: 0 <= k < l < |ts| ==>
              Order.KeyLe(ts[k].person, ts[k].activityIndex, ts[l].person, ts[l].activityIndex)
    ensures forall k :: 0 <= k < |ts| ==>
              ts[k].purposeDestination in Categories || ts[k].purposeDestination == "other"
  {
    var sorted := ByKey(rows);
    var ps := KeptFrom(rule, sorted, 0);
    seq(|ps|, k requires 0 <= k < |ps| => TripAt(sorted, ps[k], dist))
  }

  /** The trips as the code writes them. */
  function ActivitiesToTripsAsWritten(rows: seq<ActivityRow>, dist: (Point, Point) -> real): seq<TripRow>
  {
    ActivitiesToTripsWith(DropIndexZero, rows, dist)
  }

  /** The trips, each within one person. */
  function ActivitiesToTrips(rows: seq<ActivityRow>, dist: (Point, Point) -> real): (ts: seq<TripRow>)
    ensures forall k :: 0 <= k < |ts| ==> ts[k].origin.Some? && ts[k].purposeOrigin.Some? && ts[k].distance.Some?
  {
    ActivitiesToTripsWith(DropFirstOfPerson, rows, dist)
  }

  /** A row becomes a trip exactly when the rule keeps it. The trip takes
      its person's attributes, with car access and employment shaped, and
      its destination, purpose and start time from that row; its origin,
      origin purpose and distance come from the row before it, and are
      absent on the table's first row. */
  lemma TripsAreKeptRows(rule: DropRule, rows: seq<ActivityRow>, dist: (Point, Point) -> real)
    ensures var sorted := ByKey(rows);
            var ps := KeptFrom(rule, sorted, 0);
            var ts := ActivitiesToTripsWith(rule, rows, dist);
            && |ts| == |ps|
            && (forall q :: 0 <= q < |sorted| ==> (Kept(rule, sorted, q) <==> q in ps))
            && (forall k :: 0 <= k < |ps| ==>
                  var r := sorted[ps[k]];
                  && ts[k].person == r.person && ts[k].activityIndex == r.activityIndex
                  && ts[k].destination == Place(r) && ts[k].startTimeDestination == r.startTime
                  && ts[k].purposeDestination == Purpose(r.purpose)
                  && ts[k].sex == r.sex && ts[k].age == r.age
                  && ts[k].carAccess == CarAccess(r.carAvail) && ts[k].employed == Employment(r.employed)
                  && (ps[k] > 0 ==> && ts[k].origin == Some(Place(sorted[ps[k] - 1]))
                                    && ts[k].purposeOrigin == Some(sorted[ps[k] - 1].purpose)
                                    && ts[k].distance == Some(dist(Place(sorted[ps[k] - 1]), Place(r))))
                  && (ps[k] == 0 ==> ts[k].origin.None? && ts[k].purposeOrigin.None? && ts[k].distance.None?))
  {
  }

  /** With the per-person rule every trip starts at an activity of the same
      person. */
  lemma {:induction false} TripsStayWithPerson(rows: seq<ActivityRow>, dist: (Point, Point) -> real)
    ensures var sorted := ByKey(rows);
            var ts := ActivitiesToTrips(rows, dist);
            forall k :: 0 <= k < |ts| ==>
              exists q :: 0 <= q && q + 1 < |sorted| && sorted[q].person == ts[k].person
                          && ts[k].origin == Some(Place(sorted[q]))
  {
    var sorted := ByKey(rows);
    var ps := KeptFrom(DropFirstOfPerson, sorted, 0);
    var ts := ActivitiesToTrips(rows, dist);
    forall k | 0 <= k < |ts|
      ensures exists q :: 0 <= q && q + 1 < |sorted| && sorted[q].person == ts[k].person
                          && ts[k].origin == Some(Place(sorted[q]))
    {
      var q := ps[k] - 1;
      assert Kept(DropFirstOfPerson, sorted, ps[k]);
    }
  }

  /** Two people: "a" with acts 0 and 1 located, "b" whose act 0 has no
      coordinates and act 1 does. */
  function CrossRow(person: string, index: nat, purpose: string, x: string): ActivityRow
  {
    ActivityRow(person, "m", "30", "yes", "always", index, purpose, DayStart, x, "0")
  }

  function CrossRows(): seq<ActivityRow>
  {
    [CrossRow("a", 0, "home", "1"), CrossRow("a", 1, "work", "2"), CrossRow("b", 1, "home", "3")]
  }

  lemma CrossRowsSorted()
    ensures ByKey(CrossRows()) == CrossRows()
  {
    var rows := CrossRows();
    RowLeIsPreorder();
    assert Order.StrLe("a", "b");
    assert Sorting.SortedBy(rows, RowLe);
    Sorting.SortSorted(rows, RowLe);
  }

  lemma CrossRowsKept()
    ensures KeptFrom(DropIndexZero, CrossRows(), 0) == [1, 2]
    ensures KeptFrom(DropFirstOfPerson, CrossRows(), 0) == [1]
  {
    CrossRowsKeptByIndex();
    CrossRowsKeptByPerson();
  }

  lemma CrossRowsKeptByIndex()
    ensures KeptFrom(DropIndexZero, CrossRows(), 0) == [1, 2]
  {
    var rows := CrossRows();
    assert KeptFrom(DropIndexZero, rows, 3) == [];
    assert Kept(DropIndexZero, rows, 2) && Kept(DropIndexZero, rows, 1) && !Kept(DropIndexZero, rows, 0);
  }

  lemma CrossRowsKeptByPerson()
    ensures KeptFrom(DropFirstOfPerson, CrossRows(), 0) == [1]
  {
    var rows := CrossRows();
    assert rows[1].person != rows[2].person;
    assert !Kept(DropFirstOfPerson, rows, 2) && Kept(DropFirstOfPerson, rows, 1) && !Kept(DropFirstOfPerson, rows, 0);
    assert KeptFrom(DropFirstOfPerson, rows, 3) == [];
    assert KeptFrom(DropFirstOfPerson, rows, 2) == [];
  }

  /** As written, person "b" gets a trip from person "a"'s last activity;
      with the per-person rule it gets none. */
  lemma CrossPersonTrip(dist: (Point, Point) -> real)
    ensures var written := ActivitiesToTripsAsWritten(CrossRows(), dist);
            var corrected := ActivitiesToTrips(CrossRows(), dist);
            && |written| == 2 && written[1].person == "b" && written[1].origin == Some(Point("2", "0"))
            && |corrected| == 1 && corrected[0].person == "a"
  {
    var rows := CrossRows();
    CrossRowsSorted();
    CrossRowsKept();
  }
}
