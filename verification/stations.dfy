/** Station inventory and return scheduler. The inventory is the station
    table in its own order, each station holding the list of vehicles parked
    there; returning appends to the list and borrowing pops its last
    element. Pending returns wait in a queue kept sorted by due time. */
module Stations {
  import opened Common

  datatype Dock = Dock(id: StationId, vehicles: seq<VehicleId>)
  datatype Return = Return(due: Time, station: StationId, vehicle: VehicleId)

  predicate DistinctIds(docks: seq<Dock>)
  {
    forall i, j :: 0 <= i < j < |docks| ==> docks[i].id != docks[j].id
  }

  /** The station identifiers, in table order. */
  function Ids(docks: seq<Dock>): (ids: seq<StationId>)
    ensures |ids| == |docks|
    ensures forall k :: 0 <= k < |docks| ==> ids[k] == docks[k].id
  {
    seq(|docks|, k requires 0 <= k < |docks| => docks[k].id)
  }

  function IndexFrom(ids: seq<StationId>, id: StationId, i: nat): (r: Option<nat>)
    ensures r.Some? ==> i <= r.value < |ids| && ids[r.value] == id
    ensures r.Some? ==> forall k :: i <= k < r.value ==> ids[k] != id
    ensures r.None? <==> forall k :: i <= k < |ids| ==> ids[k] != id
    decreases |ids| - i
  {
    if i >= |ids| then None
    else if ids[i] == id then Some(i)
    else IndexFrom(ids, id, i + 1)
  }

  /** Position of the station `id` (the first one carrying that id). */
  function Find(docks: seq<Dock>, id: StationId): (r: Option<nat>)
    ensures r.Some? ==> r.value < |docks| && docks[r.value].id == id
    ensures r.Some? ==> forall k :: 0 <= k < r.value ==> docks[k].id != id
    ensures r.None? <==> forall k :: 0 <= k < |docks| ==> docks[k].id != id
  {
    IndexFrom(Ids(docks), id, 0)
  }

  predicate Known(docks: seq<Dock>, id: StationId)
  {
    Find(docks, id).Some?
  }

  /** Every vehicle parked anywhere, counted with multiplicity. */
  ghost function DockBag(docks: seq<Dock>): multiset<VehicleId>
  {
    if |docks| == 0 then multiset{}
    else DockBag(docks[..|docks| - 1]) + multiset(docks[|docks| - 1].vehicles)
  }

  /** Replacing one station's list changes the parked vehicles by exactly
      the difference of the two lists. */
  lemma {:induction false} DockBagUpdate(docks: seq<Dock>, k: nat, vs: seq<VehicleId>)
    requires k < |docks|
    ensures DockBag(docks[k := Dock(docks[k].id, vs)]) + multiset(docks[k].vehicles)
         == DockBag(docks) + multiset(vs)
  {
    var n := |docks|;
    var docks' := docks[k := Dock(docks[k].id, vs)];
    var old' := multiset(docks[k].vehicles);
    if k == n - 1 {
      assert docks'[..n - 1] == docks[..n - 1];
      calc {
        DockBag(docks') + old';
        DockBag(docks[..n - 1]) + multiset(vs) + old';
        DockBag(docks) + multiset(vs);
      }
    } else {
      var front := docks[..n - 1];
      assert docks'[..n - 1] == front[k := Dock(docks[k].id, vs)];
      assert docks'[n - 1] == docks[n - 1];
      DockBagUpdate(front, k, vs);
      var last := multiset(docks[n - 1].vehicles);
      calc {
        DockBag(docks') + old';
        DockBag(front[k := Dock(docks[k].id, vs)]) + last + old';
        DockBag(front[k := Dock(docks[k].id, vs)]) + old' + last;
        DockBag(front) + multiset(vs) + last;
        DockBag(docks) + multiset(vs);
      }
    }
  }

  lemma MultisetCancel<T>(a: multiset<T>, b: multiset<T>, c: multiset<T>)
    requires a + c == b + c
    ensures a == b
  {
    assert forall x :: a[x] == (a + c)[x] - c[x] == (b + c)[x] - c[x] == b[x];
  }

  /** Parks `v` at the end of the list of station `id`. */
  function Park(docks: seq<Dock>, id: StationId, v: VehicleId): (r: seq<Dock>)
    requires Known(docks, id)
    ensures Ids(r) == Ids(docks)
    ensures DockBag(r) == DockBag(docks) + multiset{v}
    ensures forall k :: 0 <= k < |docks| && docks[k].id != id ==> r[k] == docks[k]
    ensures DistinctIds(docks) ==> forall k :: 0 <= k < |docks| && docks[k].id == id ==>
              r[k].vehicles == docks[k].vehicles + [v]
  {
    var k := Find(docks, id).value;
    var vs := docks[k].vehicles + [v];
    var r := docks[k := Dock(docks[k].id, vs)];
    DockBagUpdate(docks, k, vs);
    assert multiset(vs) == multiset(docks[k].vehicles) + multiset{v};
    MultisetCancel(DockBag(r), DockBag(docks) + multiset{v}, multiset(docks[k].vehicles));
    r
  }

  /** Borrows the last vehicle of the station at position `k`. */
  function Take(docks: seq<Dock>, k: nat): (r: (seq<Dock>, VehicleId))
    requires k < |docks| && |docks[k].vehicles| > 0
    ensures Ids(r.0) == Ids(docks)
    ensures docks[k].vehicles == r.0[k].vehicles + [r.1]
    ensures forall j :: 0 <= j < |docks| && j != k ==> r.0[j] == docks[j]
    ensures DockBag(r.0) + multiset{r.1} == DockBag(docks)
  {
    var vs := docks[k].vehicles;
    var v := vs[|vs| - 1];
    var rest := vs[..|vs| - 1];
    assert vs == rest + [v];
    assert multiset(vs) == multiset(rest) + multiset{v};
    var r := docks[k := Dock(docks[k].id, rest)];
    DockBagUpdate(docks, k, rest);
    MultisetCancel(DockBag(r) + multiset{v}, DockBag(docks), multiset(rest));
    (r, v)
  }

  // ---------------------------------------------------------------------
  // Nearest station with an available vehicle
  // ---------------------------------------------------------------------

  predicate HasVehicle(d: Dock)
  {
    |d.vehicles| > 0
  }

  function NearestFrom(docks: seq<Dock>, dist: StationId -> int, i: nat): (r: Option<nat>)
    ensures r.None? <==> forall j :: i <= j < |docks| ==> !HasVehicle(docks[j])
    ensures r.Some? ==> i <= r.value < |docks| && HasVehicle(docks[r.value])
    ensures r.Some? ==> forall j :: i <= j < |docks| && HasVehicle(docks[j]) ==>
              dist(docks[r.value].id) <= dist(docks[j].id)
    ensures r.Some? ==> forall j :: i <= j < r.value && HasVehicle(docks[j]) ==>
              dist(docks[r.value].id) < dist(docks[j].id)
    decreases |docks| - i
  {
    if i >= |docks| then None
    else
      var rest := NearestFrom(docks, dist, i + 1);
      if !HasVehicle(docks[i]) then rest
      else if rest.None? || dist(docks[i].id) <= dist(docks[rest.value].id) then Some(i)
      else rest
  }

  /** Among the stations that hold a vehicle, the position of the first one
      at minimal distance; None when no station holds a vehicle. */
  function NearestAvailable(docks: seq<Dock>, dist: StationId -> int): (r: Option<nat>)
    ensures r.None? <==> forall j :: 0 <= j < |docks| ==> !HasVehicle(docks[j])
    ensures r.Some? ==> r.value < |docks| && HasVehicle(docks[r.value])
    ensures r.Some? ==> forall j :: 0 <= j < |docks| && HasVehicle(docks[j]) ==>
              dist(docks[r.value].id) <= dist(docks[j].id)
    ensures r.Some? ==> forall j :: 0 <= j < r.value && HasVehicle(docks[j]) ==>
              dist(docks[r.value].id) < dist(docks[j].id)
  {
    NearestFrom(docks, dist, 0)
  }

  // ---------------------------------------------------------------------
  // The return queue
  // ---------------------------------------------------------------------

  predicate SortedByDue(q: seq<Return>)
  {
    forall i, j :: 0 <= i < j < |q| ==> q[i].due <= q[j].due
  }

  /** Every queued vehicle, counted with multiplicity. */
  ghost function QueueBag(q: seq<Return>): multiset<VehicleId>
  {
    if |q| == 0 then multiset{} else multiset{q[0].vehicle} + QueueBag(q[1..])
  }

  lemma {:induction false} QueueBagAppend(a: seq<Return>, b: seq<Return>)
    ensures QueueBag(a + b) == QueueBag(a) + QueueBag(b)
  {
    if |a| == 0 {
      assert a + b == b;
    } else {
      assert (a + b)[0] == a[0];
      assert (a + b)[1..] == a[1..] + b;
      QueueBagAppend(a[1..], b);
    }
  }

  /** Number of leading returns due no later than `due`: where a return due
      then is placed, after every earlier-or-equal one. */
  function InsertionPoint(q: seq<Return>, due: Time): (k: nat)
    ensures k <= |q|
    ensures forall j :: 0 <= j < k ==> q[j].due <= due
    ensures k < |q| ==> q[k].due > due
  {
    if |q| == 0 || q[0].due > due then 0
    else 1 + InsertionPoint(q[1..], due)
  }

  /** Queues a return: appending it and re-sorting stably by due time
      places it after every return due no later and before the first one
      due later. */
  function Schedule(q: seq<Return>, r: Return): (q': seq<Return>)
    ensures exists k :: 0 <= k <= |q| && q' == q[..k] + [r] + q[k..]
              && (forall j :: 0 <= j < k ==> q[j].due <= r.due)
              && (k < |q| ==> q[k].due > r.due)
    ensures multiset(q') == multiset(q) + multiset{r}
    ensures QueueBag(q') == QueueBag(q) + multiset{r.vehicle}
    ensures SortedByDue(q) ==> SortedByDue(q')
  {
    var k := InsertionPoint(q, r.due);
    ScheduleCounts(q, r, k);
    ScheduleSorted(q, r, k);
    q[..k] + [r] + q[k..]
  }

  lemma ScheduleCounts(q: seq<Return>, r: Return, k: nat)
    requires k <= |q|
    ensures multiset(q[..k] + [r] + q[k..]) == multiset(q) + multiset{r}
    ensures QueueBag(q[..k] + [r] + q[k..]) == QueueBag(q) + multiset{r.vehicle}
  {
    var a, b := q[..k], q[k..];
    assert q == a + b;
    SpliceMultiset(a, r, b);
    SpliceQueueBag(a, r, b);
  }

  lemma SpliceMultiset(a: seq<Return>, r: Return, b: seq<Return>)
    ensures multiset(a + [r] + b) == multiset(a + b) + multiset{r}
  {
  }

  lemma SpliceQueueBag(a: seq<Return>, r: Return, b: seq<Return>)
    ensures QueueBag(a + [r] + b) == QueueBag(a + b) + multiset{r.vehicle}
  {
    assert QueueBag([r]) == multiset{r.vehicle} by {
      assert [r][1..] == [];
    }
    QueueBagAppend(a + [r], b);
    QueueBagAppend(a, [r]);
    QueueBagAppend(a, b);
  }

  lemma ScheduleSorted(q: seq<Return>, r: Return, k: nat)
    requires k == InsertionPoint(q, r.due)
    ensures SortedByDue(q) ==> SortedByDue(q[..k] + [r] + q[k..])
  {
    var q' := q[..k] + [r] + q[k..];
    if SortedByDue(q) {
      SortedSplice(q, r, k);
    }
  }

  lemma SortedSplice(q: seq<Return>, r: Return, k: nat)
    requires SortedByDue(q)
    requires k == InsertionPoint(q, r.due)
    ensures SortedByDue(q[..k] + [r] + q[k..])
  {
    var q' := q[..k] + [r] + q[k..];
    forall i, j | 0 <= i < j < |q'|
      ensures q'[i].due <= q'[j].due
    {
      if j < k || i > k {
      } else if i == k {
        assert q'[j] == q[j - 1];
        assert q[k].due > r.due;
        assert q[k].due <= q[j - 1].due;
      } else if j == k {
        assert q'[i] == q[i];
      } else {
        assert q'[i] == q[i] && q'[j] == q[j - 1];
      }
    }
  }

  /** The vehicles of `rs` bound for station `id`, in queue order. */
  function VehiclesFor(rs: seq<Return>, id: StationId): seq<VehicleId>
  {
    if |rs| == 0 then []
    else (if rs[0].station == id then [rs[0].vehicle] else []) + VehiclesFor(rs[1..], id)
  }

  /** Parks every vehicle of `rs` at its station, in order. */
  function ParkAll(docks: seq<Dock>, rs: seq<Return>): (r: seq<Dock>)
    requires forall j :: 0 <= j < |rs| ==> Known(docks, rs[j].station)
    ensures Ids(r) == Ids(docks)
    ensures DockBag(r) == DockBag(docks) + QueueBag(rs)
    decreases |rs|
  {
    if |rs| == 0 then docks
    else
      var parked := Park(docks, rs[0].station, rs[0].vehicle);
      KnownFollowsIds(docks, parked);
      ParkAll(parked, rs[1..])
  }

  /** Applies every queued return due at or before `now`, in queue order,
      stopping at the first one due later. */
  function Drain(docks: seq<Dock>, q: seq<Return>, now: Time): (r: (seq<Dock>, seq<Return>))
    requires forall j :: 0 <= j < |q| ==> Known(docks, q[j].station)
    ensures Ids(r.0) == Ids(docks)
    ensures |r.1| <= |q| && r.1 == q[|q| - |r.1|..]
    ensures forall j :: 0 <= j < |q| - |r.1| ==> q[j].due <= now
    ensures |r.1| > 0 ==> r.1[0].due > now
    ensures DockBag(r.0) + QueueBag(r.1) == DockBag(docks) + QueueBag(q)
  {
    var n := InsertionPoint(q, now);
    assert q == q[..n] + q[n..];
    QueueBagAppend(q[..n], q[n..]);
    (ParkAll(docks, q[..n]), q[n..])
  }

  /** Stations are recognised by their identifiers alone. */
  lemma KnownFollowsIds(a: seq<Dock>, b: seq<Dock>)
    requires Ids(a) == Ids(b)
    ensures forall id :: Known(a, id) == Known(b, id)
  {
  }

  /** In a sorted queue, the returns a drain leaves behind are exactly the
      ones due after `now`. */
  lemma DrainKeepsLaterReturns(docks: seq<Dock>, q: seq<Return>, now: Time)
    requires forall j :: 0 <= j < |q| ==> Known(docks, q[j].station)
    requires SortedByDue(q)
    ensures forall j :: 0 <= j < |q| ==>
              (q[j] in Drain(docks, q, now).1 <== q[j].due > now)
    ensures forall x :: x in Drain(docks, q, now).1 ==> x in q && x.due > now
  {
    var rest := Drain(docks, q, now).1;
    var d := |q| - |rest|;
    forall j | 0 <= j < |q| && q[j].due > now
      ensures q[j] in rest
    {
      assert j >= d;
      assert rest[j - d] == q[j];
    }
    forall x | x in rest
      ensures x in q && x.due > now
    {
      var i :| 0 <= i < |rest| && rest[i] == x;
      assert rest[i] == q[d + i];
      assert rest[0].due <= x.due;
    }
  }

  /** Each drained vehicle is appended to its own station's list, in queue
      order; stations with no due return are untouched. */
  lemma DrainAppendsInQueueOrder(docks: seq<Dock>, q: seq<Return>, now: Time)
    requires forall j :: 0 <= j < |q| ==> Known(docks, q[j].station)
    requires DistinctIds(docks)
    ensures var r := Drain(docks, q, now);
            forall k :: 0 <= k < |docks| ==>
              r.0[k].vehicles == docks[k].vehicles + VehiclesFor(q[..|q| - |r.1|], docks[k].id)
  {
    var n := InsertionPoint(q, now);
    DrainParksDuePrefix(docks, q, now);
    forall k | 0 <= k < |docks|
      ensures ParkAll(docks, q[..n])[k].vehicles == docks[k].vehicles + VehiclesFor(q[..n], docks[k].id)
    {
      ParkAllAppends(docks, q[..n], k);
    }
  }

  lemma DrainParksDuePrefix(docks: seq<Dock>, q: seq<Return>, now: Time)
    requires forall j :: 0 <= j < |q| ==> Known(docks, q[j].station)
    ensures var n := InsertionPoint(q, now);
            Drain(docks, q, now).0 == ParkAll(docks, q[..n]) && |q| - |Drain(docks, q, now).1| == n
  {
  }

  lemma {:induction false} ParkAllAppends(docks: seq<Dock>, rs: seq<Return>, k: nat)
    requires forall j :: 0 <= j < |rs| ==> Known(docks, rs[j].station)
    requires DistinctIds(docks)
    requires k < |docks|
    ensures ParkAll(docks, rs)[k].vehicles == docks[k].vehicles + VehiclesFor(rs, docks[k].id)
    decreases |rs|
  {
    if |rs| == 0 {
      assert docks[k].vehicles + [] == docks[k].vehicles;
    } else {
      var parked := Park(docks, rs[0].station, rs[0].vehicle);
      var id := docks[k].id;
      var head := if rs[0].station == id then [rs[0].vehicle] else [];
      var tail := VehiclesFor(rs[1..], id);
      assert parked[k].id == id && parked[k].vehicles == docks[k].vehicles + head by {
        assert parked[k].id == Ids(parked)[k] == Ids(docks)[k] == id;
      }
      assert ParkAll(docks, rs)[k].vehicles == parked[k].vehicles + tail by {
        KnownFollowsIds(docks, parked);
        ParkKeepsDistinct(docks, rs[0].station, rs[0].vehicle);
        ParkAllAppends(parked, rs[1..], k);
      }
      AppendChain(ParkAll(docks, rs)[k].vehicles, parked[k].vehicles, docks[k].vehicles, head, tail);
    }
  }

  lemma AppendChain<T>(r: seq<T>, p: seq<T>, a: seq<T>, head: seq<T>, tail: seq<T>)
    requires r == p + tail && p == a + head
    ensures r == a + (head + tail)
  {
  }

  lemma ParkKeepsDistinct(docks: seq<Dock>, id: StationId, v: VehicleId)
    requires Known(docks, id)
    requires DistinctIds(docks)
    ensures DistinctIds(Park(docks, id, v))
  {
    var r := Park(docks, id, v);
    assert forall k :: 0 <= k < |docks| ==> r[k].id == Ids(r)[k] == Ids(docks)[k] == docks[k].id;
  }
}
