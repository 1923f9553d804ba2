/** Turning the annotated trip table into car-sharing bookings. Adjacent
    legs of one person that drive the same borrowed vehicle without handing
    it back in between are merged into one booking; each booking is then
    aggregated from its legs, and a booking whose vehicle was never handed
    back is closed with a non-negative recovery delay and a return to its
    pickup station. */
module Reservations {
  import opened Common
  import Engine

  type Row = Engine.Leg

  // ---------------------------------------------------------------------
  // Links and chains
  // ---------------------------------------------------------------------

  /** Row `i` continues into row `i + 1`: same person, both car-sharing, the
      same vehicle, no hand-back after row `i` and no pickup at row `i + 1`. */
  predicate Linked(rows: seq<Row>, i: nat)
  {
    && i + 1 < |rows|
    && rows[i].trip.person == rows[i + 1].trip.person
    && rows[i].mode == Carsharing
    && rows[i + 1].mode == Carsharing
    && rows[i].vehicle == rows[i + 1].vehicle
    && rows[i].endStation == NoStation
    && rows[i + 1].startStation == NoStation
  }

  /** The last row of the maximal run of links that starts at row `i`. */
  function ChainEnd(rows: seq<Row>, i: nat): (e: nat)
    requires i < |rows|
    ensures i <= e < |rows| && !Linked(rows, e)
    ensures forall j :: i <= j < e ==> Linked(rows, j)
    decreases |rows| - i
  {
    if Linked(rows, i) then ChainEnd(rows, i + 1) else i
  }

  /** Where row `i` points after `k` merge passes: `k` links further along
      its chain, or the chain's last row if that comes first. */
  function Reach(rows: seq<Row>, i: nat, k: nat): nat
    requires i < |rows|
    decreases k
  {
    if k == 0 || !Linked(rows, i) then i else Reach(rows, i + 1, k - 1)
  }

  /** A row inside a chain ends where the chain's first row ends. */
  lemma {:induction false} ChainInterior(rows: seq<Row>, i: nat, j: nat)
    requires i <= j < |rows| && j <= ChainEnd(rows, i)
    ensures ChainEnd(rows, j) == ChainEnd(rows, i)
    decreases j - i
  {
    if i < j {
      ChainInterior(rows, i + 1, j);
    }
  }

  /** Later rows never end earlier. */
  lemma {:induction false} ChainEndMonotone(rows: seq<Row>, i: nat, j: nat)
    requires i <= j < |rows|
    ensures ChainEnd(rows, i) <= ChainEnd(rows, j)
    decreases j - i
  {
    if i < j && Linked(rows, i) {
      ChainEndMonotone(rows, i + 1, j);
    }
  }

  /** After `k` passes row `i` points `k` rows further, capped at the end
      of its chain. */
  lemma {:induction false} ReachClosedForm(rows: seq<Row>, i: nat, k: nat)
    requires i < |rows|
    ensures Reach(rows, i, k) == if i + k <= ChainEnd(rows, i) then i + k else ChainEnd(rows, i)
    decreases k
  {
    if k > 0 && Linked(rows, i) {
      ReachClosedForm(rows, i + 1, k - 1);
    }
  }

  // ---------------------------------------------------------------------
  // The merge loop
  // ---------------------------------------------------------------------

  /** One pass's merge condition for row `i` under the current targets: the
      row links to the next and does not yet point where the next points. */
  predicate Merges(rows: seq<Row>, t: seq<nat>, i: nat)
    requires |t| == |rows| && i < |rows|
  {
    Linked(rows, i) && t[i] != t[i + 1]
  }

  /** Every merging row takes the next row's target, all at once. */
  function Pass(rows: seq<Row>, t: seq<nat>): (r: (seq<bool>, seq<nat>))
    requires |t| == |rows|
    ensures |r.0| == |rows| && |r.1| == |rows|
    ensures forall i :: 0 <= i < |rows| ==> r.0[i] == Merges(rows, t, i)
    ensures forall i :: 0 <= i < |rows| ==> r.1[i] == if Merges(rows, t, i) then t[i + 1] else t[i]
  {
    (seq(|rows|, i requires 0 <= i < |rows| => Merges(rows, t, i)),
     seq(|rows|, i requires 0 <= i < |rows| => if Merges(rows, t, i) then t[i + 1] else t[i]))
  }

  /** The rows that merge in pass `k + 1`: the linked rows more than `k`
      rows before the end of their chain. */
  predicate MergesInPass(rows: seq<Row>, i: nat, k: nat)
    requires i < |rows|
  {
    Linked(rows, i) && i + k < ChainEnd(rows, i)
  }

  /** A pass moves every row one link further along its chain. */
  lemma PassAdvances(rows: seq<Row>, t: seq<nat>, k: nat)
    requires |t| == |rows|
    requires forall i :: 0 <= i < |rows| ==> t[i] == Reach(rows, i, k)
    ensures forall i :: 0 <= i < |rows| ==> Pass(rows, t).1[i] == Reach(rows, i, k + 1)
    ensures forall i :: 0 <= i < |rows| ==> (Pass(rows, t).0[i] <==> MergesInPass(rows, i, k))
  {
    forall i | 0 <= i < |rows|
      ensures Pass(rows, t).1[i] == Reach(rows, i, k + 1)
      ensures Pass(rows, t).0[i] <==> MergesInPass(rows, i, k)
    {
      if Linked(rows, i) {
        ReachClosedForm(rows, i, k);
        ReachClosedForm(rows, i + 1, k);
        ReachClosedForm(rows, i, k + 1);
      }
    }
  }

  /** Two passes with the same merge vector mean the later one merged
      nothing: a chain with a row merging in pass `k` has a row that merges
      in pass `k` and not in pass `k + 1`. */
  lemma RepeatMeansNothingMerges(rows: seq<Row>, k: nat, i: nat)
    requires k >= 1 && i < |rows| && MergesInPass(rows, i, k - 1)
    ensures exists j :: 0 <= j < |rows| && MergesInPass(rows, j, k - 1) && !MergesInPass(rows, j, k)
  {
    var e := ChainEnd(rows, i);
    var j := e - k;
    ChainInterior(rows, i, j);
    assert MergesInPass(rows, j, k - 1) && !MergesInPass(rows, j, k);
  }

  /** `cond` is the merge vector of pass `k` (before the first pass, the
      all-set vector the loop starts from). */
  predicate MergeVector(rows: seq<Row>, cond: seq<bool>, k: nat)
  {
    && |cond| == |rows|
    && (k == 0 ==> forall i :: 0 <= i < |rows| ==> cond[i])
    && (k >= 1 ==> forall i :: 0 <= i < |rows| ==> (cond[i] <==> MergesInPass(rows, i, k - 1)))
  }

  /** Comparing pass `k + 1`'s merge vector with pass `k`'s: a change means
      some chain still has at least `k + 1` links, so fewer passes than rows
      have run; no change means every row already points at the end of its
      chain. */
  lemma StopOrProgress(rows: seq<Row>, prev: seq<bool>, cond: seq<bool>, k: nat)
    requires MergeVector(rows, prev, k) && MergeVector(rows, cond, k + 1)
    ensures cond != prev ==> k + 1 <= |rows|
    ensures cond == prev ==> forall i :: 0 <= i < |rows| ==> Reach(rows, i, k + 1) == ChainEnd(rows, i)
  {
    var n := |rows|;
    if k == 0 && n > 0 {
      assert !cond[n - 1];
    }
    if k >= 1 && exists i :: 0 <= i < n && prev[i] {
      var i :| 0 <= i < n && prev[i];
      RepeatMeansNothingMerges(rows, k, i);
      var j :| 0 <= j < n && MergesInPass(rows, j, k - 1) && !MergesInPass(rows, j, k);
      assert cond[j] != prev[j];
      assert j + k - 1 < ChainEnd(rows, j) < n;
    }
    if cond == prev {
      forall i | 0 <= i < n
        ensures Reach(rows, i, k + 1) == ChainEnd(rows, i)
      {
        ReachClosedForm(rows, i, k + 1);
        if k >= 1 {
          assert !prev[i];
        }
      }
    }
  }

  /** Every row's merge target. The loop repeats passes until the merge
      vector equals the previous pass's (initially all set), and ends with
      every row pointing at the last row of its chain. */
  method MergeTargets(rows: seq<Row>) returns (t: seq<nat>)
    ensures |t| == |rows|
    ensures forall i :: 0 <= i < |rows| ==> t[i] == ChainEnd(rows, i)
    ensures forall i :: 0 <= i < |rows| ==> (t[i] == i <==> !Linked(rows, i))
  {
    var n := |rows|;
    t := seq(n, i requires 0 <= i < n => i);
    var condOld := seq(n, i requires 0 <= i < n => true);
    var cond := seq(n, i requires 0 <= i < n => false);
    var changed := cond != condOld;
    ghost var k: nat := 0;
    assert n > 0 ==> cond[0] != condOld[0];
    while changed
      invariant |t| == n && MergeVector(rows, condOld, k)
      invariant forall i :: 0 <= i < n ==> t[i] == Reach(rows, i, k)
      invariant k == 0 ==> (changed <==> n > 0)
      invariant changed ==> k <= n
      invariant !changed ==> forall i :: 0 <= i < n ==> t[i] == ChainEnd(rows, i)
      decreases n + 1 - k
    {
      PassAdvances(rows, t, k);
      var p := Pass(rows, t);
      cond, t := p.0, p.1;
      assert MergeVector(rows, cond, k + 1);
      StopOrProgress(rows, condOld, cond, k);
      changed := cond != condOld;
      condOld := cond;
      k := k + 1;
    }
    forall i | 0 <= i < n
      ensures t[i] == i <==> !Linked(rows, i)
    {
      EndIsSelf(rows, i);
    }
  }

  /** A row is the end of its own chain exactly when it does not link on. */
  lemma EndIsSelf(rows: seq<Row>, i: nat)
    requires i < |rows|
    ensures ChainEnd(rows, i) == i <==> !Linked(rows, i)
  {
    if Linked(rows, i) {
      assert ChainEnd(rows, i) == ChainEnd(rows, i + 1);
    }
  }

  /** The targets the loop ends with, as a table column. */
  function ChainTargets(rows: seq<Row>): (t: seq<nat>)
    ensures |t| == |rows|
    ensures forall i :: 0 <= i < |rows| ==> t[i] == ChainEnd(rows, i)
  {
    seq(|rows|, i requires 0 <= i < |rows| => ChainEnd(rows, i))
  }

  // ---------------------------------------------------------------------
  // Grouping by target
  // ---------------------------------------------------------------------

  /** The first row of the maximal run of links that ends at row `e`. */
  function ChainStart(rows: seq<Row>, e: nat): (a: nat)
    requires e < |rows|
    ensures a <= e && (a == 0 || !Linked(rows, a - 1))
    ensures forall j :: a <= j < e ==> Linked(rows, j)
  {
    if e > 0 && Linked(rows, e - 1) then ChainStart(rows, e - 1) else e
  }

  /** Rows `a` to `e` form one maximal chain of car-sharing legs. */
  predicate IsChain(rows: seq<Row>, a: nat, e: nat)
  {
    && a <= e < |rows|
    && rows[e].mode == Carsharing
    && (a == 0 || !Linked(rows, a - 1))
    && !Linked(rows, e)
    && forall j :: a <= j < e ==> Linked(rows, j)
  }

  function Range(a: nat, b: nat): (r: seq<nat>)
    requires a <= b
    ensures |r| == b - a && forall k :: 0 <= k < |r| ==> r[k] == a + k
  {
    seq(b - a, k requires 0 <= k < b - a => a + k)
  }

  lemma RangeCons(a: nat, b: nat)
    requires a < b
    ensures [a] + Range(a + 1, b) == Range(a, b)
  {
    var r := [a] + Range(a + 1, b);
    assert |r| == |Range(a, b)|;
    forall k | 0 <= k < |r|
      ensures r[k] == Range(a, b)[k]
    {
      if k > 0 {
        assert r[k] == Range(a + 1, b)[k - 1];
      }
    }
  }

  /** The car-sharing rows from row `i` on whose target is `target`, in
      table order. */
  function Members(rows: seq<Row>, t: seq<nat>, target: nat, i: nat): (m: seq<nat>)
    requires |t| == |rows|
    ensures forall k :: 0 <= k < |m| ==> i <= m[k] < |rows| && rows[m[k]].mode == Carsharing && t[m[k]] == target
    decreases |rows| - i
  {
    if i >= |rows| then []
    else (if rows[i].mode == Carsharing && t[i] == target then [i] else []) + Members(rows, t, target, i + 1)
  }

  /** Grouping the car-sharing rows by target, groups in ascending target
      order, starting from target `target`. */
  function Groups(rows: seq<Row>, t: seq<nat>, target: nat): (gs: seq<seq<nat>>)
    requires |t| == |rows|
    ensures forall j :: 0 <= j < |gs| ==> |gs[j]| > 0 && forall k :: 0 <= k < |gs[j]| ==> gs[j][k] < |rows|
    decreases |rows| - target
  {
    if target >= |rows| then []
    else
      var m := Members(rows, t, target, 0);
      (if |m| > 0 then [m] else []) + Groups(rows, t, target + 1)
  }

  function Flatten(gs: seq<seq<nat>>): seq<nat>
  {
    if |gs| == 0 then [] else gs[0] + Flatten(gs[1..])
  }

  /** The car-sharing rows from row `i` on, in table order. */
  function Shared(rows: seq<Row>, i: nat): (m: seq<nat>)
    ensures forall k :: 0 <= k < |m| ==> i <= m[k] < |rows| && rows[m[k]].mode == Carsharing
    ensures forall j :: i <= j < |rows| && rows[j].mode == Carsharing ==> j in m
    decreases |rows| - i
  {
    if i >= |rows| then []
    else (if rows[i].mode == Carsharing then [i] else []) + Shared(rows, i + 1)
  }

  /** The car-sharing rows from row `i` on whose target is `target` or later. */
  function AtLeast(rows: seq<Row>, t: seq<nat>, target: nat, i: nat): seq<nat>
    requires |t| == |rows|
    decreases |rows| - i
  {
    if i >= |rows| then []
    else (if rows[i].mode == Carsharing && t[i] >= target then [i] else []) + AtLeast(rows, t, target, i + 1)
  }

  predicate Monotone(t: seq<nat>)
  {
    forall j, k :: 0 <= j <= k < |t| ==> t[j] <= t[k]
  }

  lemma {:induction false} MembersAbove(rows: seq<Row>, t: seq<nat>, target: nat, i: nat)
    requires |t| == |rows|
    requires forall k :: i <= k < |rows| ==> t[k] > target
    ensures Members(rows, t, target, i) == []
    decreases |rows| - i
  {
    if i < |rows| {
      MembersAbove(rows, t, target, i + 1);
      assert t[i] > target;
      assert Members(rows, t, target, i) == Members(rows, t, target, i + 1);
    }
  }

  lemma {:induction false} AtLeastAbove(rows: seq<Row>, t: seq<nat>, target: nat, i: nat)
    requires |t| == |rows|
    requires forall k :: i <= k < |rows| ==> t[k] > target
    ensures AtLeast(rows, t, target, i) == AtLeast(rows, t, target + 1, i)
    decreases |rows| - i
  {
    if i < |rows| {
      AtLeastAbove(rows, t, target, i + 1);
      var head: seq<nat> := if rows[i].mode == Carsharing then [i] else [];
      assert t[i] > target;
      assert AtLeast(rows, t, target, i) == head + AtLeast(rows, t, target, i + 1);
      assert AtLeast(rows, t, target + 1, i) == head + AtLeast(rows, t, target + 1, i + 1);
    }
  }

  /** With targets ascending along the table, the rows with target at least
      `target` are those with target `target` followed by the later ones. */
  lemma {:induction false} SplitLabel(rows: seq<Row>, t: seq<nat>, target: nat, i: nat)
    requires |t| == |rows| && Monotone(t)
    ensures AtLeast(rows, t, target, i) == Members(rows, t, target, i) + AtLeast(rows, t, target + 1, i)
    decreases |rows| - i
  {
    if i < |rows| {
      SplitLabel(rows, t, target, i + 1);
      if rows[i].mode == Carsharing && t[i] > target {
        assert forall k :: i + 1 <= k < |rows| ==> t[k] > target by {
          forall k | i + 1 <= k < |rows|
            ensures t[k] > target
          {
            assert t[i] <= t[k];
          }
        }
      }
      SplitStep(rows, t, target, i);
    }
  }

  /** One row of `SplitLabel`: the split at row `i + 1` extends to row `i`. */
  lemma SplitStep(rows: seq<Row>, t: seq<nat>, target: nat, i: nat)
    requires |t| == |rows| && i < |rows|
    requires AtLeast(rows, t, target, i + 1) == Members(rows, t, target, i + 1) + AtLeast(rows, t, target + 1, i + 1)
    requires rows[i].mode == Carsharing && t[i] > target ==> forall k :: i + 1 <= k < |rows| ==> t[k] > target
    ensures AtLeast(rows, t, target, i) == Members(rows, t, target, i) + AtLeast(rows, t, target + 1, i)
  {
    if rows[i].mode == Carsharing && t[i] == target {
      SplitAtTarget(rows, t, target, i);
    } else if rows[i].mode == Carsharing && t[i] > target {
      SplitAboveTarget(rows, t, target, i);
    } else {
      assert AtLeast(rows, t, target, i) == AtLeast(rows, t, target, i + 1);
      assert Members(rows, t, target, i) == Members(rows, t, target, i + 1);
      assert AtLeast(rows, t, target + 1, i) == AtLeast(rows, t, target + 1, i + 1);
    }
  }

  lemma SplitAtTarget(rows: seq<Row>, t: seq<nat>, target: nat, i: nat)
    requires |t| == |rows| && i < |rows| && rows[i].mode == Carsharing && t[i] == target
    requires AtLeast(rows, t, target, i + 1) == Members(rows, t, target, i + 1) + AtLeast(rows, t, target + 1, i + 1)
    ensures AtLeast(rows, t, target, i) == Members(rows, t, target, i) + AtLeast(rows, t, target + 1, i)
  {
    var m, later := Members(rows, t, target, i + 1), AtLeast(rows, t, target + 1, i + 1);
    assert AtLeast(rows, t, target, i) == [i] + AtLeast(rows, t, target, i + 1);
    assert Members(rows, t, target, i) == [i] + m;
    assert AtLeast(rows, t, target + 1, i) == later;
    AppendAssoc([i], m, later);
  }

  lemma SplitAboveTarget(rows: seq<Row>, t: seq<nat>, target: nat, i: nat)
    requires |t| == |rows| && i < |rows| && rows[i].mode == Carsharing && t[i] > target
    requires forall k :: i + 1 <= k < |rows| ==> t[k] > target
    ensures AtLeast(rows, t, target, i) == Members(rows, t, target, i) + AtLeast(rows, t, target + 1, i)
  {
    MembersAbove(rows, t, target, i + 1);
    AtLeastAbove(rows, t, target, i + 1);
    assert AtLeast(rows, t, target, i) == [i] + AtLeast(rows, t, target, i + 1);
    assert Members(rows, t, target, i) == Members(rows, t, target, i + 1);
    assert AtLeast(rows, t, target + 1, i) == [i] + AtLeast(rows, t, target + 1, i + 1);
  }

  lemma AppendAssoc<T>(a: seq<T>, b: seq<T>, c: seq<T>)
    ensures (a + b) + c == a + (b + c)
  {
  }

  lemma {:induction false} AtLeastBeyond(rows: seq<Row>, t: seq<nat>, target: nat, i: nat)
    requires |t| == |rows| && forall k :: 0 <= k < |t| ==> t[k] < target
    ensures AtLeast(rows, t, target, i) == []
    decreases |rows| - i
  {
    if i < |rows| {
      AtLeastBeyond(rows, t, target, i + 1);
    }
  }

  lemma {:induction false} AtLeastZero(rows: seq<Row>, t: seq<nat>, i: nat)
    requires |t| == |rows|
    ensures AtLeast(rows, t, 0, i) == Shared(rows, i)
    decreases |rows| - i
  {
    if i < |rows| {
      AtLeastZero(rows, t, i + 1);
      var head: seq<nat> := if rows[i].mode == Carsharing then [i] else [];
      assert AtLeast(rows, t, 0, i) == head + AtLeast(rows, t, 0, i + 1);
      assert Shared(rows, i) == head + Shared(rows, i + 1);
    }
  }

  /** The groups, read one after the other, are the rows with target
      `target` or later. */
  lemma {:induction false} GroupsFlatten(rows: seq<Row>, t: seq<nat>, target: nat)
    requires |t| == |rows| && Monotone(t)
    requires forall k :: 0 <= k < |t| ==> t[k] < |rows|
    ensures Flatten(Groups(rows, t, target)) == AtLeast(rows, t, target, 0)
    decreases |rows| - target
  {
    if target >= |rows| {
      AtLeastBeyond(rows, t, target, 0);
      assert Groups(rows, t, target) == [];
    } else {
      FlattenStep(rows, t, target);
      GroupsFlatten(rows, t, target + 1);
      SplitLabel(rows, t, target, 0);
    }
  }

  /** The groups from `target` on read as the members of `target` followed
      by the later groups. */
  lemma FlattenStep(rows: seq<Row>, t: seq<nat>, target: nat)
    requires |t| == |rows| && target < |rows|
    ensures Flatten(Groups(rows, t, target)) == Members(rows, t, target, 0) + Flatten(Groups(rows, t, target + 1))
  {
    var m := Members(rows, t, target, 0);
    var rest := Groups(rows, t, target + 1);
    if |m| > 0 {
      assert Groups(rows, t, target) == [m] + rest;
      FlattenCons(m, rest);
    } else {
      assert Groups(rows, t, target) == rest;
      assert m + Flatten(rest) == Flatten(rest);
    }
  }

  lemma FlattenCons(m: seq<nat>, rest: seq<seq<nat>>)
    ensures Flatten([m] + rest) == m + Flatten(rest)
  {
    assert ([m] + rest)[0] == m && ([m] + rest)[1..] == rest;
  }

  /** Every car-sharing row lands in exactly one booking group, and reading
      the groups in order gives the car-sharing rows in table order. */
  lemma GroupsPartitionShared(rows: seq<Row>)
    ensures Flatten(Groups(rows, ChainTargets(rows), 0)) == Shared(rows, 0)
  {
    var t := ChainTargets(rows);
    forall j, k | 0 <= j <= k < |t|
      ensures t[j] <= t[k]
    {
      ChainEndMonotone(rows, j, k);
    }
    GroupsFlatten(rows, t, 0);
    AtLeastZero(rows, t, 0);
  }

  /** A run of links closed by an unlinked row ends there. */
  lemma {:induction false} ChainEndOfRun(rows: seq<Row>, j: nat, e: nat)
    requires j <= e < |rows| && !Linked(rows, e)
    requires forall k :: j <= k < e ==> Linked(rows, k)
    ensures ChainEnd(rows, j) == e
    decreases e - j
  {
    if j < e {
      ChainEndOfRun(rows, j + 1, e);
    }
  }

  /** The rows from `i` on that point at the unlinked car-sharing row `e`
      are the rest of the chain ending at `e`. */
  lemma {:induction false} MembersShape(rows: seq<Row>, e: nat, i: nat)
    requires e < |rows| && rows[e].mode == Carsharing && !Linked(rows, e)
    ensures var a := ChainStart(rows, e);
            Members(rows, ChainTargets(rows), e, i)
              == if i <= e then Range(if i < a then a else i, e + 1) else []
    decreases |rows| - i
  {
    var t := ChainTargets(rows);
    var a := ChainStart(rows, e);
    if i >= |rows| {
    } else if i > e {
      MembersPastEnd(rows, e, i);
    } else {
      MembersShape(rows, e, i + 1);
      if i < a {
        MembersBeforeStart(rows, e, i);
      } else {
        MembersInRun(rows, e, i);
        RangeCons(i, e + 1);
      }
    }
  }

  /** A row before the chain ending at `e` points elsewhere. */
  lemma MembersBeforeStart(rows: seq<Row>, e: nat, i: nat)
    requires e < |rows| && i < ChainStart(rows, e)
    ensures Members(rows, ChainTargets(rows), e, i) == Members(rows, ChainTargets(rows), e, i + 1)
  {
    assert ChainEnd(rows, i) < ChainStart(rows, e);
  }

  /** A row of the chain ending at `e` points at `e`. */
  lemma MembersInRun(rows: seq<Row>, e: nat, i: nat)
    requires e < |rows| && rows[e].mode == Carsharing && !Linked(rows, e)
    requires ChainStart(rows, e) <= i <= e
    ensures Members(rows, ChainTargets(rows), e, i) == [i] + Members(rows, ChainTargets(rows), e, i + 1)
  {
    ChainEndOfRun(rows, i, e);
    assert rows[i].mode == Carsharing by {
      if i < e {
        assert Linked(rows, i);
      }
    }
  }

  /** No row after `e` points at `e`. */
  lemma {:induction false} MembersPastEnd(rows: seq<Row>, e: nat, i: nat)
    requires e < i
    ensures Members(rows, ChainTargets(rows), e, i) == []
    decreases |rows| - i
  {
    if i < |rows| {
      MembersPastEnd(rows, e, i + 1);
    }
  }

  /** A non-empty group is exactly one maximal chain. */
  lemma GroupIsChain(rows: seq<Row>, target: nat)
    requires target < |rows| && |Members(rows, ChainTargets(rows), target, 0)| > 0
    ensures var a := ChainStart(rows, target);
            IsChain(rows, a, target) && Members(rows, ChainTargets(rows), target, 0) == Range(a, target + 1)
  {
    var m := Members(rows, ChainTargets(rows), target, 0);
    var i := m[0];
    assert ChainEnd(rows, i) == target;
    assert rows[target].mode == Carsharing by {
      if i < target {
        assert Linked(rows, target - 1);
      }
    }
    MembersShape(rows, target, 0);
  }

  /** The group is the row range of one maximal chain. */
  predicate ChainGroup(rows: seq<Row>, g: seq<nat>)
  {
    exists a: nat, e: nat | a <= e < |rows| :: IsChain(rows, a, e) && g == Range(a, e + 1)
  }

  predicate AllChainGroups(rows: seq<Row>, gs: seq<seq<nat>>)
  {
    forall j :: 0 <= j < |gs| ==> ChainGroup(rows, gs[j])
  }

  /** Every booking group is one maximal chain. */
  lemma {:induction false} GroupsAreChains(rows: seq<Row>, target: nat)
    ensures AllChainGroups(rows, Groups(rows, ChainTargets(rows), target))
    decreases |rows| - target
  {
    if target < |rows| {
      var gs := Groups(rows, ChainTargets(rows), target);
      var rest := Groups(rows, ChainTargets(rows), target + 1);
      var m := Members(rows, ChainTargets(rows), target, 0);
      GroupsAreChains(rows, target + 1);
      if |m| > 0 {
        GroupIsChain(rows, target);
        assert gs == [m] + rest;
        var a := ChainStart(rows, target);
        assert IsChain(rows, a, target) && m == Range(a, target + 1);
        assert ChainGroup(rows, m);
        forall j | 0 <= j < |gs|
          ensures ChainGroup(rows, gs[j])
        {
          if j > 0 {
            assert gs[j] == rest[j - 1];
          }
        }
      } else {
        assert gs == rest;
      }
    }
  }

  // ---------------------------------------------------------------------
  // Aggregation
  // ---------------------------------------------------------------------

  /** One booking before the one-way correction: the trips it covers, who
      and which vehicle, the reserved interval and the stations. */
  datatype Reservation = Reservation(
    tripIds: seq<int>,
    person: PersonId,
    vehicle: VehicleId,
    originStationDist: int,     // of the first leg
    destStationDist: int,       // of the last leg
    from: Time,                 // decision time of the first leg
    to: Time,                   // arrival time of the last leg
    distance: int,              // summed over the legs
    startStation: StationId,    // of the first leg
    endStation: StationId       // of the last leg
  )

  function TripIds(rows: seq<Row>, g: seq<nat>): (ids: seq<int>)
    requires forall k :: 0 <= k < |g| ==> g[k] < |rows|
    ensures |ids| == |g| && forall k :: 0 <= k < |g| ==> ids[k] == rows[g[k]].trip.id
  {
    seq(|g|, k requires 0 <= k < |g| => rows[g[k]].trip.id)
  }

  function DistanceSum(rows: seq<Row>, g: seq<nat>): int
    requires forall k :: 0 <= k < |g| ==> g[k] < |rows|
  {
    if |g| == 0 then 0 else rows[g[0]].trip.distance + DistanceSum(rows, g[1..])
  }

  /** The booking a group of legs makes: first-leg fields, last-leg fields,
      summed distance. */
  function Aggregate(rows: seq<Row>, g: seq<nat>): Reservation
    requires |g| > 0 && forall k :: 0 <= k < |g| ==> g[k] < |rows|
  {
    var first, last := rows[g[0]], rows[g[|g| - 1]];
    Reservation(TripIds(rows, g), first.trip.person, first.vehicle, first.trip.originStationDist,
                last.trip.destStationDist, first.trip.decision, last.trip.arrival, DistanceSum(rows, g),
                first.startStation, last.endStation)
  }

  function Aggregates(rows: seq<Row>, gs: seq<seq<nat>>): (rs: seq<Reservation>)
    requires forall j :: 0 <= j < |gs| ==> |gs[j]| > 0 && forall k :: 0 <= k < |gs[j]| ==> gs[j][k] < |rows|
    ensures |rs| == |gs| && forall j :: 0 <= j < |gs| ==> rs[j] == Aggregate(rows, gs[j])
  {
    seq(|gs|, j requires 0 <= j < |gs| => Aggregate(rows, gs[j]))
  }

  /** The trip identifiers of all bookings, one booking after another. */
  function AllTripIds(rs: seq<Reservation>): seq<int>
  {
    if |rs| == 0 then [] else rs[0].tripIds + AllTripIds(rs[1..])
  }

  /** Aggregating keeps every trip of every group, in group order. */
  lemma {:induction false} AggregatesKeepTrips(rows: seq<Row>, gs: seq<seq<nat>>)
    requires forall j :: 0 <= j < |gs| ==> |gs[j]| > 0 && forall k :: 0 <= k < |gs[j]| ==> gs[j][k] < |rows|
    ensures forall k :: 0 <= k < |Flatten(gs)| ==> Flatten(gs)[k] < |rows|
    ensures AllTripIds(Aggregates(rows, gs)) == TripIds(rows, Flatten(gs))
  {
    if |gs| > 0 {
      AggregatesKeepTrips(rows, gs[1..]);
      assert Aggregates(rows, gs)[1..] == Aggregates(rows, gs[1..]);
      TripIdsAppend(rows, gs[0], Flatten(gs[1..]));
    }
  }

  lemma TripIdsAppend(rows: seq<Row>, a: seq<nat>, b: seq<nat>)
    requires forall k :: 0 <= k < |a| ==> a[k] < |rows|
    requires forall k :: 0 <= k < |b| ==> b[k] < |rows|
    ensures forall k :: 0 <= k < |a + b| ==> (a + b)[k] < |rows|
    ensures TripIds(rows, a + b) == TripIds(rows, a) + TripIds(rows, b)
  {
  }

  /** The sum over a chain's rows. */
  function ChainDistance(rows: seq<Row>, a: nat, e: nat): int
    requires a <= e < |rows|
    decreases e - a
  {
    rows[a].trip.distance + if a == e then 0 else ChainDistance(rows, a + 1, e)
  }

  /** The booking a maximal chain makes: the first leg opened it, with its
      decision time, pickup station, person and vehicle; every later leg is
      the same person driving the same vehicle with no hand-back in
      between; the last leg closes it, with its arrival time and hand-back
      station (none if the vehicle was never handed back). */
  lemma ChainBooking(rows: seq<Row>, a: nat, e: nat)
    requires IsChain(rows, a, e)
    ensures var r := Aggregate(rows, Range(a, e + 1));
            && r.tripIds == seq(e + 1 - a, k requires 0 <= k < e + 1 - a => rows[a + k].trip.id)
            && r.from == rows[a].trip.decision && r.to == rows[e].trip.arrival
            && r.startStation == rows[a].startStation && r.endStation == rows[e].endStation
            && r.distance == ChainDistance(rows, a, e)
            && (forall j :: a <= j <= e ==>
                  rows[j].mode == Carsharing && rows[j].trip.person == r.person && rows[j].vehicle == r.vehicle)
            && (forall j :: a <= j < e ==> rows[j].endStation == NoStation)
            && (forall j :: a < j <= e ==> rows[j].startStation == NoStation)
  {
    ChainSameHolder(rows, a, e);
    ChainDistanceSum(rows, a, e);
    forall j | a < j <= e
      ensures rows[j].startStation == NoStation
    {
      assert Linked(rows, j - 1);
    }
    forall j | a <= j < e
      ensures rows[j].endStation == NoStation
    {
      assert Linked(rows, j);
    }
  }

  lemma {:induction false} ChainSameHolder(rows: seq<Row>, a: nat, e: nat)
    requires a <= e < |rows| && rows[e].mode == Carsharing
    requires forall j :: a <= j < e ==> Linked(rows, j)
    ensures forall j :: a <= j <= e ==>
              rows[j].mode == Carsharing && rows[j].trip.person == rows[a].trip.person
              && rows[j].vehicle == rows[a].vehicle
    decreases e - a
  {
    if a < e {
      ChainSameHolder(rows, a + 1, e);
      assert Linked(rows, a);
    }
  }

  lemma {:induction false} ChainDistanceSum(rows: seq<Row>, a: nat, e: nat)
    requires a <= e < |rows|
    ensures DistanceSum(rows, Range(a, e + 1)) == ChainDistance(rows, a, e)
    decreases e - a
  {
    assert Range(a, e + 1)[1..] == Range(a + 1, e + 1);
    if a < e {
      ChainDistanceSum(rows, a + 1, e);
    } else {
      assert Range(a + 1, e + 1) == [];
    }
  }

  // ---------------------------------------------------------------------
  // One-way correction and the derived columns
  // ---------------------------------------------------------------------

  /** A recovery delay drawn for a one-way booking, clipped at zero. */
  function Clip(d: Time): (r: Time)
    ensures r >= 0 && r >= d && (d >= 0 ==> r == d)
  {
    if d < 0 then 0 else d
  }

  predicate OneWay(r: Reservation)
  {
    r.startStation != r.endStation
  }

  /** The number of one-way bookings among the first `i`. */
  function OneWaysBefore(rs: seq<Reservation>, i: nat): nat
    requires i <= |rs|
  {
    if i == 0 then 0 else OneWaysBefore(rs, i - 1) + if OneWay(rs[i - 1]) then 1 else 0
  }

  /** `b` is `r` closed: returned to its pickup station, no earlier, and
      otherwise unchanged. */
  predicate Closes(b: Reservation, r: Reservation)
  {
    && b == r.(to := b.to, endStation := r.startStation)
    && b.to >= r.to
    && (!OneWay(r) ==> b == r)
  }

  /** Closes every one-way booking: the `j`-th one-way booking from here on
      receives the clipped delay `delay(next + j)` and is returned to its
      pickup station. */
  function CloseOneWays(rs: seq<Reservation>, delay: nat -> Time, next: nat): (out: seq<Reservation>)
    ensures |out| == |rs|
    ensures forall i {:trigger out[i]} :: 0 <= i < |rs| ==> Closes(out[i], rs[i]) && !OneWay(out[i])
    decreases |rs|
  {
    if |rs| == 0 then []
    else
      var r := rs[0];
      if OneWay(r) then
        [r.(to := r.to + Clip(delay(next)), endStation := r.startStation)] + CloseOneWays(rs[1..], delay, next + 1)
      else
        [r] + CloseOneWays(rs[1..], delay, next)
  }

  /** The delays are drawn in booking order, one per one-way booking. */
  lemma {:induction false} DelaysInBookingOrder(rs: seq<Reservation>, delay: nat -> Time, next: nat, i: nat)
    requires i < |rs| && OneWay(rs[i])
    ensures CloseOneWays(rs, delay, next)[i].to == rs[i].to + Clip(delay(next + OneWaysBefore(rs, i)))
    decreases i
  {
    if i == 0 {
      assert CloseOneWays(rs, delay, next)[0].to == rs[0].to + Clip(delay(next));
    } else {
      var n' := if OneWay(rs[0]) then next + 1 else next;
      var rest := rs[1..];
      assert rest[i - 1] == rs[i];
      DelaysInBookingOrder(rest, delay, n', i - 1);
      CloseOneWaysShift(rs, delay, next, i);
      OneWaysBeforeTail(rs, i);
    }
  }

  lemma CloseOneWaysShift(rs: seq<Reservation>, delay: nat -> Time, next: nat, i: nat)
    requires 0 < i < |rs|
    ensures CloseOneWays(rs, delay, next)[i]
            == CloseOneWays(rs[1..], delay, if OneWay(rs[0]) then next + 1 else next)[i - 1]
  {
    CloseOneWaysTail(rs, delay, next);
    assert CloseOneWays(rs, delay, next)[1..][i - 1] == CloseOneWays(rs, delay, next)[i];
  }

  lemma CloseOneWaysTail(rs: seq<Reservation>, delay: nat -> Time, next: nat)
    requires |rs| > 0
    ensures CloseOneWays(rs, delay, next)[1..]
            == CloseOneWays(rs[1..], delay, if OneWay(rs[0]) then next + 1 else next)
  {
  }

  lemma {:induction false} OneWaysBeforeTail(rs: seq<Reservation>, i: nat)
    requires 0 < i <= |rs|
    ensures OneWaysBefore(rs, i) == (if OneWay(rs[0]) then 1 else 0) + OneWaysBefore(rs[1..], i - 1)
    decreases i
  {
    if i > 1 {
      OneWaysBeforeTail(rs, i - 1);
    }
  }

  lemma {:induction false} ClosingKeepsTrips(rs: seq<Reservation>, delay: nat -> Time, next: nat)
    ensures AllTripIds(CloseOneWays(rs, delay, next)) == AllTripIds(rs)
    decreases |rs|
  {
    if |rs| > 0 {
      var next' := if OneWay(rs[0]) then next + 1 else next;
      ClosingKeepsTrips(rs[1..], delay, next');
      CloseOneWaysTail(rs, delay, next);
    }
  }

  /** A booking with the two derived columns: kilometres driven and the
      reserved duration in hours. */
  datatype Booking = Booking(res: Reservation, driveKm: real, hours: real)

  function Book(r: Reservation): (b: Booking)
    ensures b.res == r
    ensures b.driveKm * 1000.0 == r.distance as real
    ensures b.hours * 3600.0 == (r.to - r.from) as real
  {
    Booking(r, r.distance as real / 1000.0, (r.to - r.from) as real / 3600.0)
  }

  function Bookings(rs: seq<Reservation>): (bs: seq<Booking>)
    ensures |bs| == |rs| && forall j :: 0 <= j < |rs| ==> bs[j] == Book(rs[j])
  {
    seq(|rs|, j requires 0 <= j < |rs| => Book(rs[j]))
  }

  // ---------------------------------------------------------------------
  // The whole stage
  // ---------------------------------------------------------------------

  /** The booking was made by one maximal chain of legs and then closed. */
  predicate BookingOfChain(rows: seq<Row>, b: Reservation)
  {
    exists a: nat, e: nat | a <= e < |rows| :: IsChain(rows, a, e) && Closes(b, Aggregate(rows, Range(a, e + 1)))
  }

  function Reserved(bs: seq<Booking>): (rs: seq<Reservation>)
    ensures |rs| == |bs| && forall j :: 0 <= j < |bs| ==> rs[j] == bs[j].res
  {
    seq(|bs|, j requires 0 <= j < |bs| => bs[j].res)
  }

  /** The bookings of an annotated trip table (rows in person, activity
      order), with `delay` supplying the recovery delays of one-way
      bookings. Every booking is one maximal chain of legs, closed at its
      pickup station; every car-sharing leg is in exactly one booking, and
      reading the bookings in order gives the car-sharing legs in table
      order. */
  method DeriveReservations(rows: seq<Row>, delay: nat -> Time) returns (bs: seq<Booking>)
    ensures bs == Bookings(CloseOneWays(Aggregates(rows, Groups(rows, ChainTargets(rows), 0)), delay, 0))
    ensures forall j :: 0 <= j < |bs| ==> bs[j].res.startStation == bs[j].res.endStation
    ensures forall j :: 0 <= j < |bs| ==> BookingOfChain(rows, bs[j].res)
    ensures AllTripIds(Reserved(bs)) == TripIds(rows, Shared(rows, 0))
  {
    var t := MergeTargets(rows);
    assert t == ChainTargets(rows);
    var groups := Groups(rows, t, 0);
    var rs := Aggregates(rows, groups);
    var closed := CloseOneWays(rs, delay, 0);
    bs := Bookings(closed);
    assert Reserved(bs) == closed;
    GroupsPartitionShared(rows);
    AggregatesKeepTrips(rows, groups);
    ClosingKeepsTrips(rs, delay, 0);
    GroupsAreChains(rows, 0);
    forall j | 0 <= j < |bs|
      ensures BookingOfChain(rows, bs[j].res)
    {
      assert ChainGroup(rows, groups[j]);
      var a: nat, e: nat :| a <= e < |rows| && IsChain(rows, a, e) && groups[j] == Range(a, e + 1);
      assert Closes(bs[j].res, Aggregate(rows, Range(a, e + 1)));
    }
  }

  // ---------------------------------------------------------------------
  // The last step as written
  // ---------------------------------------------------------------------

  /** Why the stage as written stops: the one-way ratio it reports divides
      by the number of bookings, and the duration step asks the column of
      time spans itself for its total seconds, which only the column's
      date-time accessor provides. */
  datatype StageFailure = NoBookings | NoTotalSeconds

  /** The stage as written: the closed bookings are computed as in
      `DeriveReservations`, then the ratio report fails on an empty table,
      and the duration step fails on any other. */
  function DeriveReservationsAsWritten(rows: seq<Row>, delay: nat -> Time): (r: Result<seq<Booking>, StageFailure>)
    ensures r.Err?
    ensures r.error == NoBookings <==> Shared(rows, 0) == []
  {
    var closed := CloseOneWays(Aggregates(rows, Groups(rows, ChainTargets(rows), 0)), delay, 0);
    GroupsPartitionShared(rows);
    AggregatesKeepTrips(rows, Groups(rows, ChainTargets(rows), 0));
    ClosingKeepsTrips(Aggregates(rows, Groups(rows, ChainTargets(rows), 0)), delay, 0);
    NoBookingsNoTrips(closed);
    if |closed| == 0 then Err(NoBookings) else Err(NoTotalSeconds)
  }

  /** Bookings always hold trips, so there are none exactly when no trip
      ids are listed. */
  lemma NoBookingsNoTrips(rs: seq<Reservation>)
    requires forall j :: 0 <= j < |rs| ==> |rs[j].tripIds| > 0
    ensures |rs| == 0 <==> AllTripIds(rs) == []
  {
  }
}
