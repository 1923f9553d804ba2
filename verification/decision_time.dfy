/** Stage 1 of the engine: the instant each traveller decides on a mode.
    The decision time is the arrival time minus an approximate drive time
    and a fixed deliberation buffer. Trips that cover no distance are
    dropped. A repeat-until-stable correction then raises any decision time
    that falls before its same-person predecessor's. */
module DecisionTime {
  import opened Common
  import Order
  import Sorting

  /** Deliberation buffer (10 minutes). */
  const DecisionBuffer: Time := 600
  /** Padding used to resolve an inversion (2 minutes). */
  const Padding: Time := 120

  /** Which distance column the trip table carries. */
  datatype DistanceColumns = DistanceColumn | FeatDistanceColumn | NoDistanceColumn

  /** The trip table. Each row's `distance` holds the value of whichever
      distance column is present. */
  datatype TripTable = TripTable(columns: DistanceColumns, rows: seq<Trip>)

  /** Stage 1 fails when no distance column is present, or when its closing
      check finds the result out of (person, decision time) order. As
      written, the stage can also pass its check with some decision times
      missing; the model reports that outcome as `MissingDecisionTime`. */
  datatype ConfigError = MissingDistance | NotSortedByPerson | MissingDecisionTime

  /** Decision time of one trip at an average speed of `speed` km/h:
      arrival minus the drive time (rounded down to whole seconds) minus the
      buffer. */
  function DecisionTimeOf(t: Trip, speed: int): (d: Time)
    requires speed > 0
    ensures t.distance >= 0 ==> d <= t.arrival - DecisionBuffer
    ensures var b := 1000 * speed;
            var drive := t.arrival - DecisionBuffer - d;
            drive * b <= 3600 * t.distance < drive * b + b
  {
    var b := 1000 * speed;
    FloorDivision(3600 * t.distance, b);
    t.arrival - ((3600 * t.distance) / b + DecisionBuffer)
  }

  lemma FloorDivision(a: int, b: int)
    requires b > 0
    ensures (a / b) * b <= a < (a / b) * b + b
    ensures a >= 0 ==> a / b >= 0
  {
  }

  function Stamp(rows: seq<Trip>, speed: int): (r: seq<Trip>)
    requires speed > 0
    ensures |r| == |rows|
    ensures forall i :: 0 <= i < |rows| ==> r[i] == rows[i].(decision := DecisionTimeOf(rows[i], speed))
  {
    seq(|rows|, i requires 0 <= i < |rows| => rows[i].(decision := DecisionTimeOf(rows[i], speed)))
  }

  /** `ps` lists, in ascending order, exactly the positions of the rows
      that cover a positive distance. */
  predicate ListsTravelled(rows: seq<Trip>, ps: seq<nat>)
  {
    && |ps| <= |rows|
    && (forall k :: 0 <= k < |ps| ==> ps[k] < |rows| && rows[ps[k]].distance > 0)
    && (forall k, l :: 0 <= k < l < |ps| ==> ps[k] < ps[l])
    && (forall j :: 0 <= j < |rows| && rows[j].distance > 0 ==> j in ps)
  }

  /** Positions of the rows that cover a positive distance, ascending. */
  function TravelledPositions(rows: seq<Trip>): (ps: seq<nat>)
    ensures ListsTravelled(rows, ps)
  {
    if |rows| == 0 then []
    else
      var n := |rows| - 1;
      var init := TravelledPositions(rows[..n]);
      PositionsStep(rows, init);
      if rows[n].distance > 0 then init + [n] else init
  }

  /** `init` lists the travelled positions of all rows but the last; adding
      the last row's position when it travels lists them all. */
  lemma PositionsStep(rows: seq<Trip>, init: seq<nat>)
    requires |rows| > 0 && ListsTravelled(rows[..|rows| - 1], init)
    ensures ListsTravelled(rows, if rows[|rows| - 1].distance > 0 then init + [|rows| - 1] else init)
  {
    Unslice(rows, init);
    if rows[|rows| - 1].distance > 0 {
      AppendPosition(rows, init);
    } else {
      SkipPosition(rows, init);
    }
  }

  /** The listing of all rows but the last, restated over `rows`. */
  lemma Unslice(rows: seq<Trip>, init: seq<nat>)
    requires |rows| > 0 && ListsTravelled(rows[..|rows| - 1], init)
    ensures |init| < |rows|
    ensures forall k :: 0 <= k < |init| ==> init[k] < |rows| - 1 && rows[init[k]].distance > 0
    ensures forall k, l :: 0 <= k < l < |init| ==> init[k] < init[l]
    ensures forall j :: 0 <= j < |rows| - 1 && rows[j].distance > 0 ==> j in init
  {
    var n := |rows| - 1;
    forall k | 0 <= k < |init|
      ensures init[k] < n && rows[init[k]].distance > 0
    {
      assert rows[init[k]] == rows[..n][init[k]];
    }
    forall j | 0 <= j < n && rows[j].distance > 0
      ensures j in init
    {
      assert rows[..n][j] == rows[j];
    }
  }

  /** A last row that does not travel adds no position. */
  lemma SkipPosition(rows: seq<Trip>, init: seq<nat>)
    requires |rows| > 0 && rows[|rows| - 1].distance <= 0 && |init| < |rows|
    requires forall k :: 0 <= k < |init| ==> init[k] < |rows| - 1 && rows[init[k]].distance > 0
    requires forall k, l :: 0 <= k < l < |init| ==> init[k] < init[l]
    requires forall j :: 0 <= j < |rows| - 1 && rows[j].distance > 0 ==> j in init
    ensures ListsTravelled(rows, init)
  {
  }

  /** Appending the position of a travelling last row. */
  lemma AppendPosition(rows: seq<Trip>, init: seq<nat>)
    requires |rows| > 0 && rows[|rows| - 1].distance > 0 && |init| < |rows|
    requires forall k :: 0 <= k < |init| ==> init[k] < |rows| - 1 && rows[init[k]].distance > 0
    requires forall k, l :: 0 <= k < l < |init| ==> init[k] < init[l]
    requires forall j :: 0 <= j < |rows| - 1 && rows[j].distance > 0 ==> j in init
    ensures ListsTravelled(rows, init + [|rows| - 1])
  {
    var n := |rows| - 1;
    var ps := init + [n];
    forall k | 0 <= k < |ps|
      ensures ps[k] < |rows| && rows[ps[k]].distance > 0
    {
      if k < |init| {
        assert ps[k] == init[k];
      }
    }
    forall k, l | 0 <= k < l < |ps|
      ensures ps[k] < ps[l]
    {
      assert ps[k] == init[k];
      if l < |init| {
        assert ps[l] == init[l];
      }
    }
    forall j | 0 <= j < |rows| && rows[j].distance > 0
      ensures j in ps
    {
      if j == n {
        assert ps[|init|] == n;
      } else {
        assert j in init;
      }
    }
  }

  /** Keeps, in order, the rows that cover a positive distance. */
  function KeepTravelled(rows: seq<Trip>): (r: seq<Trip>)
    ensures |r| <= |rows|
  {
    if |rows| == 0 then []
    else
      var n := |rows| - 1;
      var init := KeepTravelled(rows[..n]);
      if rows[n].distance > 0 then init + [rows[n]] else init
  }

  /** The kept rows are exactly the rows at the travelled positions: the
      k-th kept row is the row at the k-th position, in ascending order,
      whose row covers a positive distance. */
  lemma {:induction false} KeepTravelledIsFilter(rows: seq<Trip>)
    ensures |KeepTravelled(rows)| == |TravelledPositions(rows)|
    ensures forall k :: 0 <= k < |KeepTravelled(rows)| ==> KeepTravelled(rows)[k] == rows[TravelledPositions(rows)[k]]
    decreases |rows|
  {
    if |rows| > 0 {
      var n := |rows| - 1;
      var init := rows[..n];
      KeepTravelledIsFilter(init);
      var ps := TravelledPositions(init);
      var kept := KeepTravelled(init);
      forall k | 0 <= k < |kept|
        ensures kept[k] == rows[ps[k]]
      {
        assert rows[ps[k]] == init[ps[k]];
      }
      if rows[n].distance > 0 {
        assert KeepTravelled(rows) == kept + [rows[n]];
        assert TravelledPositions(rows) == ps + [n];
      } else {
        assert KeepTravelled(rows) == kept;
        assert TravelledPositions(rows) == ps;
      }
    }
  }

  /** Dropping rows commutes with stamping them: the stamp does not touch
      distances. */
  lemma {:induction false} KeepStamped(rows: seq<Trip>, speed: int)
    requires speed > 0
    ensures KeepTravelled(Stamp(rows, speed)) == Stamp(KeepTravelled(rows), speed)
    decreases |rows|
  {
    if |rows| > 0 {
      var n := |rows| - 1;
      var stamped := Stamp(rows, speed);
      assert stamped[..n] == Stamp(rows[..n], speed);
      KeepStamped(rows[..n], speed);
      if rows[n].distance > 0 {
        assert Stamp(KeepTravelled(rows), speed) == Stamp(KeepTravelled(rows[..n]), speed) + [stamped[n]];
      }
    }
  }

  /** Dropping rows from a concatenation drops them from each part. */
  lemma {:induction false} KeepAppend(a: seq<Trip>, b: seq<Trip>)
    ensures KeepTravelled(a + b) == KeepTravelled(a) + KeepTravelled(b)
    decreases |b|
  {
    if |b| > 0 {
      var n := |b| - 1;
      var last := if b[n].distance > 0 then [b[n]] else [];
      assert (a + b)[..|a| + n] == a + b[..n];
      assert KeepTravelled(a + b) == KeepTravelled(a + b[..n]) + last;
      assert KeepTravelled(b) == KeepTravelled(b[..n]) + last;
      KeepAppend(a, b[..n]);
    } else {
      assert a + b == a;
    }
  }

  lemma KeepRemoveAt(s: seq<Trip>, m: nat)
    requires m < |s|
    ensures multiset(KeepTravelled(s))
            == multiset(KeepTravelled(s[..m] + s[m + 1..])) + multiset(KeepTravelled([s[m]]))
  {
    var pre, x, post := s[..m], [s[m]], s[m + 1..];
    var kp, kx, kq := KeepTravelled(pre), KeepTravelled(x), KeepTravelled(post);
    assert KeepTravelled(s) == kp + kx + kq by {
      Sorting.SplitAt(s, m);
      KeepAppend(pre + x, post);
      KeepAppend(pre, x);
    }
    assert KeepTravelled(pre + post) == kp + kq by {
      KeepAppend(pre, post);
    }
    assert multiset(kp + kx + kq) == multiset(kp + kq) + multiset(kx);
  }

  lemma KeepFirst(s: seq<Trip>)
    requires |s| > 0
    ensures multiset(KeepTravelled(s)) == multiset(KeepTravelled(s[1..])) + multiset(KeepTravelled([s[0]]))
  {
    Sorting.SplitFirst(s);
    KeepAppend([s[0]], s[1..]);
  }

  /** The rows kept from two permutations of a table are permutations of
      each other. */
  lemma {:induction false} KeepPermutation(a: seq<Trip>, b: seq<Trip>)
    requires multiset(a) == multiset(b)
    ensures multiset(KeepTravelled(a)) == multiset(KeepTravelled(b))
    decreases |a|
  {
    if |a| > 0 {
      var x := a[0];
      assert x in multiset(b);
      var m :| 0 <= m < |b| && b[m] == x;
      var a' := a[1..];
      var b' := b[..m] + b[m + 1..];
      assert multiset(a') == multiset(b') by {
        Sorting.RemoveFirst(a);
        Sorting.RemoveAt(b, m);
      }
      KeepPermutation(a', b');
      KeepFirst(a);
      KeepRemoveAt(b, m);
    }
  }

  // ---------------------------------------------------------------------
  // The inversion-correction loop
  // ---------------------------------------------------------------------

  /** Row `i` decides before its same-person predecessor. */
  predicate Inverted(s: seq<Trip>, i: int)
  {
    0 < i < |s| && s[i - 1].person == s[i].person && s[i - 1].decision > s[i].decision
  }

  predicate NoInversion(s: seq<Trip>)
  {
    forall i :: 0 < i < |s| && s[i - 1].person == s[i].person ==> s[i - 1].decision <= s[i].decision
  }

  /** One pass of the loop: every inverted row, simultaneously, is set to
      its predecessor's (old) decision time plus the padding. */
  function CorrectionPass(s: seq<Trip>): seq<Trip>
  {
    seq(|s|, i requires 0 <= i < |s| =>
      if Inverted(s, i) then s[i].(decision := s[i - 1].decision + Padding) else s[i])
  }

  function FirstInversionFrom(s: seq<Trip>, i: nat): (f: nat)
    ensures f <= |s|
    ensures f < |s| ==> i <= f && Inverted(s, f)
    ensures forall j :: i <= j < f ==> !Inverted(s, j)
    decreases |s| - i
  {
    if i >= |s| then |s|
    else if Inverted(s, i) then i
    else FirstInversionFrom(s, i + 1)
  }

  /** Position of the first inversion, or |s| when there is none. */
  function FirstInversion(s: seq<Trip>): (f: nat)
    ensures f <= |s|
    ensures f == |s| <==> NoInversion(s)
    ensures f < |s| ==> 0 < f && Inverted(s, f) && forall j :: 0 <= j < f ==> !Inverted(s, j)
  {
    var f := FirstInversionFrom(s, 1);
    assert f == |s| ==> NoInversion(s) by {
      if f == |s| {
        forall i | 0 < i < |s| && s[i - 1].person == s[i].person
          ensures s[i - 1].decision <= s[i].decision
        {
          assert !Inverted(s, i);
        }
      }
    }
    f
  }

  /** A pass resolves the first inversion without creating an earlier one,
      so the first inversion moves strictly to the right. */
  lemma PassAdvances(s: seq<Trip>)
    requires FirstInversion(s) < |s|
    ensures FirstInversion(s) < FirstInversion(CorrectionPass(s))
  {
    var f := FirstInversion(s);
    var p := CorrectionPass(s);
    forall j | 0 < j <= f
      ensures !Inverted(p, j)
    {
      PassBelowFirst(s, f, j);
    }
    var g := FirstInversion(p);
    assert g == |p| || (0 < g && Inverted(p, g));
  }

  /** Below the first inversion a pass changes nothing, and at it the row
      lands after its predecessor. */
  lemma PassBelowFirst(s: seq<Trip>, f: nat, j: nat)
    requires f == FirstInversion(s) < |s| && 0 < j <= f
    ensures !Inverted(CorrectionPass(s), j)
  {
    var p := CorrectionPass(s);
    assert !Inverted(s, j - 1);
    assert p[j - 1] == s[j - 1];
    if j < f {
      assert !Inverted(s, j);
      assert p[j] == s[j];
    } else {
      assert p[j] == s[j].(decision := s[j - 1].decision + Padding);
    }
  }

  /** What a pass keeps: the rows, the persons, the first row of every
      person; decision times never decrease. */
  lemma PassKeepsRows(s: seq<Trip>)
    ensures |CorrectionPass(s)| == |s|
    ensures forall i :: 0 <= i < |s| ==> CorrectionPass(s)[i] == s[i].(decision := CorrectionPass(s)[i].decision)
    ensures forall i :: 0 <= i < |s| ==> CorrectionPass(s)[i].decision >= s[i].decision
    ensures forall i :: 0 <= i < |s| && (i == 0 || s[i - 1].person != s[i].person) ==> CorrectionPass(s)[i] == s[i]
  {
  }

  /** The correction loop: repeat passes until no same-person row decides
      before its predecessor. */
  function FixInversions(s: seq<Trip>): (r: seq<Trip>)
    ensures |r| == |s|
    ensures NoInversion(r)
    ensures NoInversion(s) ==> r == s
    decreases |s| - FirstInversion(s)
  {
    if FirstInversion(s) == |s| then s
    else
      PassAdvances(s);
      FixInversions(CorrectionPass(s))
  }

  /** The correction changes nothing but decision times, only ever raises
      them, and never touches the first row of a person. */
  lemma {:induction false} FixKeepsRow(s: seq<Trip>, i: nat)
    requires i < |s|
    ensures FixInversions(s)[i] == s[i].(decision := FixInversions(s)[i].decision)
    ensures FixInversions(s)[i].decision >= s[i].decision
    ensures i == 0 || s[i - 1].person != s[i].person ==> FixInversions(s)[i] == s[i]
    decreases |s| - FirstInversion(s)
  {
    if FirstInversion(s) != |s| {
      var p := CorrectionPass(s);
      PassAdvances(s);
      assert FixInversions(s) == FixInversions(p);
      PassKeepsRows(s);
      assert p[i] == s[i].(decision := p[i].decision) && p[i].decision >= s[i].decision;
      assert i > 0 ==> p[i - 1].person == s[i - 1].person by {
        if i > 0 {
          assert p[i - 1] == s[i - 1].(decision := p[i - 1].decision);
        }
      }
      FixKeepsRow(p, i);
    }
  }

  // ---------------------------------------------------------------------
  // An independent, sequential characterisation of the correction
  // ---------------------------------------------------------------------

  /** Left-to-right reference: a row keeps its time unless the corrected
      predecessor of the same person decides later, in which case it
      decides two minutes after that predecessor. */
  function SequentialDecision(s: seq<Trip>, i: nat): Time
    requires i < |s|
  {
    if i > 0 && s[i - 1].person == s[i].person && SequentialDecision(s, i - 1) > s[i].decision
    then SequentialDecision(s, i - 1) + Padding
    else s[i].decision
  }

  /** A corrected time is either the original one or more than the padding
      above it. */
  lemma SequentialGap(s: seq<Trip>, i: nat)
    requires i < |s|
    ensures SequentialDecision(s, i) == s[i].decision || SequentialDecision(s, i) > s[i].decision + Padding
  {
  }

  lemma {:induction false} SequentialUnchangedByPass(s: seq<Trip>, i: nat)
    requires i < |s|
    ensures SequentialDecision(CorrectionPass(s), i) == SequentialDecision(s, i)
  {
    var p := CorrectionPass(s);
    if i > 0 && s[i - 1].person == s[i].person {
      assert p[i - 1] == s[i - 1].(decision := p[i - 1].decision) by {
        PassKeepsRows(s);
      }
      var q := SequentialDecision(s, i - 1);
      assert SequentialDecision(p, i - 1) == q by {
        SequentialUnchangedByPass(s, i - 1);
      }
      assert q == s[i - 1].decision || q > s[i - 1].decision + Padding by {
        SequentialGap(s, i - 1);
      }
      if Inverted(s, i) {
        assert p[i] == s[i].(decision := s[i - 1].decision + Padding);
        assert SequentialDecision(s, i) == q + Padding;
      } else {
        assert p[i] == s[i];
      }
    } else {
      assert p[i] == s[i];
      assert i > 0 ==> p[i - 1].person == s[i - 1].person by {
        PassKeepsRows(s);
      }
    }
  }

  lemma {:induction false} SequentialOfSorted(s: seq<Trip>, i: nat)
    requires i < |s|
    requires NoInversion(s)
    ensures SequentialDecision(s, i) == s[i].decision
  {
    if i > 0 {
      SequentialOfSorted(s, i - 1);
    }
  }

  /** The repeated simultaneous passes compute exactly the left-to-right
      reference: every row ends at its own time or two minutes after its
      corrected predecessor. */
  lemma {:induction false} FixMatchesSequential(s: seq<Trip>)
    ensures forall i :: 0 <= i < |s| ==> FixInversions(s)[i].decision == SequentialDecision(s, i)
    decreases |s| - FirstInversion(s)
  {
    if FirstInversion(s) == |s| {
      forall i | 0 <= i < |s|
        ensures s[i].decision == SequentialDecision(s, i)
      {
        SequentialOfSorted(s, i);
      }
    } else {
      PassAdvances(s);
      FixMatchesSequential(CorrectionPass(s));
      forall i | 0 <= i < |s|
        ensures SequentialDecision(CorrectionPass(s), i) == SequentialDecision(s, i)
      {
        SequentialUnchangedByPass(s, i);
      }
    }
  }

  /** Every row whose time the correction changed now decides exactly two
      minutes after its corrected predecessor of the same person. */
  lemma CorrectedRowTrailsByPadding(s: seq<Trip>, i: nat)
    requires i < |s|
    requires FixInversions(s)[i] != s[i]
    ensures 0 < i && s[i - 1].person == s[i].person
    ensures FixInversions(s)[i].decision == FixInversions(s)[i - 1].decision + Padding
  {
    FixKeepsRow(s, i);
    FixMatchesSequential(s);
    assert FixInversions(s)[i].decision != s[i].decision;
  }

  // ---------------------------------------------------------------------
  // The closing order check
  // ---------------------------------------------------------------------

  /** Person identifiers never decrease down the table (compared as text),
      so each person's rows are contiguous. */
  predicate PersonsSorted(s: seq<Trip>)
  {
    forall i, j :: 0 <= i < j < |s| ==> Order.StrLe(s[i].person, s[j].person)
  }

  /** The table is in (person, decision time) order, which the stage checks
      before it returns. */
  predicate SortedByPersonDecision(s: seq<Trip>)
  {
    forall i, j :: 0 <= i < j < |s| ==> Order.KeyLe(s[i].person, s[i].decision, s[j].person, s[j].decision)
  }

  /** Within one person's contiguous rows, decision times never decrease
      once no same-person row decides before its predecessor. */
  lemma {:induction false} RunOrdered(s: seq<Trip>, i: nat, j: nat)
    requires PersonsSorted(s) && NoInversion(s)
    requires i <= j < |s| && s[i].person == s[j].person
    ensures s[i].decision <= s[j].decision
    decreases j
  {
    if i < j {
      if i < j - 1 {
        assert Order.StrLe(s[i].person, s[j - 1].person) && Order.StrLe(s[j - 1].person, s[j].person);
        Order.StrLeAntisymmetric(s[i].person, s[j - 1].person);
      }
      RunOrdered(s, i, j - 1);
    }
  }

  /** Once no same-person row decides before its predecessor, the check
      passes exactly when persons are in order. */
  lemma OrderCheckIff(s: seq<Trip>)
    requires NoInversion(s)
    ensures SortedByPersonDecision(s) <==> PersonsSorted(s)
  {
    if SortedByPersonDecision(s) {
      forall i, j | 0 <= i < j < |s|
        ensures Order.StrLe(s[i].person, s[j].person)
      {
        Order.StrLeTotal(s[i].person, s[j].person);
      }
    }
    if PersonsSorted(s) {
      forall i, j | 0 <= i < j < |s|
        ensures Order.KeyLe(s[i].person, s[i].decision, s[j].person, s[j].decision)
      {
        if s[i].person == s[j].person {
          RunOrdered(s, i, j);
        }
      }
    }
  }

  /** Two tables with the same persons row by row are in person order
      together. */
  lemma SamePersons(a: seq<Trip>, b: seq<Trip>)
    requires |a| == |b| && forall i :: 0 <= i < |a| ==> a[i].person == b[i].person
    ensures PersonsSorted(a) <==> PersonsSorted(b)
  {
  }

  // ---------------------------------------------------------------------
  // The whole stage
  // ---------------------------------------------------------------------

  /** Stage 1 with the evidently intended column handling: `distance`, or
      else `feat_distance` taken as the distance; neither is a fatal
      configuration error. The travelled rows are stamped, corrected, and
      the result must come out in (person, decision time) order, which
      holds exactly when the travelled rows are grouped by person in
      ascending order. Every returned row is its travelled input row with
      the decision time of the left-to-right reference. */
  function DeriveDecisionTime(table: TripTable, speed: int): (r: Result<seq<Trip>, ConfigError>)
    requires speed > 0
    ensures r.Err? <==> table.columns == NoDistanceColumn || !PersonsSorted(KeepTravelled(table.rows))
    ensures r.Err? && table.columns == NoDistanceColumn ==> r.error == MissingDistance
    ensures r.Ok? ==> SortedByPersonDecision(r.value) && NoInversion(r.value)
    ensures r.Ok? ==> var kept := Stamp(KeepTravelled(table.rows), speed);
                      && |r.value| == |kept|
                      && forall i :: 0 <= i < |kept| ==>
                           r.value[i] == kept[i].(decision := SequentialDecision(kept, i))
    ensures r.Ok? ==> forall i :: 0 <= i < |r.value| ==>
                        r.value[i].distance > 0 && r.value[i].decision >= DecisionTimeOf(r.value[i], speed)
  {
    if table.columns == NoDistanceColumn then Err(MissingDistance)
    else
      var kept := KeepTravelled(Stamp(table.rows, speed));
      var fixed := FixInversions(kept);
      StageRows(table.rows, speed);
      StageOrder(table.rows, speed);
      if !SortedByPersonDecision(fixed) then Err(NotSortedByPerson) else Ok(fixed)
  }

  /** What the stage's result is, row by row, in terms of its input. */
  lemma StageRows(rows: seq<Trip>, speed: int)
    requires speed > 0
    ensures var kept := Stamp(KeepTravelled(rows), speed);
            var fixed := FixInversions(KeepTravelled(Stamp(rows, speed)));
            && |fixed| == |kept|
            && (forall i :: 0 <= i < |kept| ==> fixed[i] == kept[i].(decision := SequentialDecision(kept, i)))
            && (forall i :: 0 <= i < |fixed| ==> fixed[i].distance > 0 && fixed[i].decision >= DecisionTimeOf(fixed[i], speed))
  {
    var kept := Stamp(KeepTravelled(rows), speed);
    KeepStamped(rows, speed);
    StampedTravelled(rows, speed);
    FixedRows(kept, speed);
  }

  /** The stage's order check passes exactly when the travelled input rows
      are grouped by person in ascending order. */
  lemma StageOrder(rows: seq<Trip>, speed: int)
    requires speed > 0
    ensures var fixed := FixInversions(KeepTravelled(Stamp(rows, speed)));
            SortedByPersonDecision(fixed) <==> PersonsSorted(KeepTravelled(rows))
  {
    var travelled := KeepTravelled(rows);
    var kept := Stamp(travelled, speed);
    KeepStamped(rows, speed);
    StampedTravelled(rows, speed);
    FixedRows(kept, speed);
    var fixed := FixInversions(kept);
    SamePersons(fixed, travelled);
    OrderCheckIff(fixed);
  }

  /** Stamped travelled rows all cover a distance and carry their stamp. */
  lemma StampedTravelled(rows: seq<Trip>, speed: int)
    requires speed > 0
    ensures var kept := Stamp(KeepTravelled(rows), speed);
            forall i :: 0 <= i < |kept| ==> kept[i].distance > 0 && kept[i].decision == DecisionTimeOf(kept[i], speed)
  {
    KeepTravelledIsFilter(rows);
  }

  /** Correcting stamped travelled rows keeps each row but its decision
      time, which becomes the reference's and stays at or above the row's
      own stamp. */
  lemma FixedRows(kept: seq<Trip>, speed: int)
    requires speed > 0
    requires forall i :: 0 <= i < |kept| ==> kept[i].distance > 0 && kept[i].decision == DecisionTimeOf(kept[i], speed)
    ensures var fixed := FixInversions(kept);
            && (forall i :: 0 <= i < |kept| ==> fixed[i] == kept[i].(decision := SequentialDecision(kept, i)))
            && (forall i :: 0 <= i < |fixed| ==> fixed[i].distance > 0 && fixed[i].decision >= DecisionTimeOf(fixed[i], speed))
            && (forall i :: 0 <= i < |fixed| ==> fixed[i].person == kept[i].person)
  {
    var fixed := FixInversions(kept);
    FixMatchesSequential(kept);
    forall i | 0 <= i < |kept|
      ensures fixed[i] == kept[i].(decision := SequentialDecision(kept, i))
      ensures fixed[i].distance > 0 && fixed[i].decision >= DecisionTimeOf(fixed[i], speed)
    {
      FixKeepsRow(kept, i);
    }
  }

  // ---------------------------------------------------------------------
  // The stage as written: row labels and missing times
  // ---------------------------------------------------------------------

  /** How long before its arrival a trip's decision falls: the drive time
      plus the buffer. */
  function Lead(t: Trip, speed: int): (l: Time)
    requires speed > 0
    ensures t.distance >= 0 ==> l >= DecisionBuffer
  {
    t.arrival - DecisionTimeOf(t, speed)
  }

  /** The decision-time column as written (lines 35-40). The leads are
      listed by position and labelled 0..n-1, and pandas subtracts them
      from the arrivals by row label: the row labelled `l` takes the lead
      of the row at position `l`, and a label outside 0..n-1 leaves its
      time missing. */
  function StampAsWritten(rows: seq<Trip>, labels: seq<int>, speed: int): (r: seq<Option<Time>>)
    requires speed > 0 && |labels| == |rows|
    ensures |r| == |rows|
    ensures forall i :: 0 <= i < |rows| ==> (r[i].Some? <==> 0 <= labels[i] < |rows|)
    ensures forall i :: 0 <= i < |rows| && labels[i] == i ==> r[i] == Some(DecisionTimeOf(rows[i], speed))
  {
    seq(|rows|, i requires 0 <= i < |rows| =>
      if 0 <= labels[i] < |rows| then Some(rows[i].arrival - Lead(rows[labels[i]], speed)) else None)
  }

  /** What the loop as written reads of a row: its person, its row label
      (the distinct row number the table was read with) and its decision
      time, `None` where pandas holds a missing time. */
  datatype Entry = Entry(person: PersonId, index: int, time: Option<Time>)

  /** The travelled rows' entries after the drop at line 43, which keeps
      each row's label. */
  function EntriesAsWritten(rows: seq<Trip>, labels: seq<int>, speed: int): (e: seq<Entry>)
    requires speed > 0 && |labels| == |rows|
    ensures |e| == |KeepTravelled(rows)|
    ensures forall k :: 0 <= k < |e| ==> e[k].person == KeepTravelled(rows)[k].person
  {
    var ps := TravelledPositions(rows);
    var stamped := StampAsWritten(rows, labels, speed);
    KeepTravelledIsFilter(rows);
    seq(|ps|, k requires 0 <= k < |ps| => Entry(rows[ps[k]].person, labels[ps[k]], stamped[ps[k]]))
  }

  /** `cond1 & cond2` as written: the row before belongs to the same person
      and decides later. A comparison with a missing time is false. */
  predicate MarkedAsWritten(s: seq<Entry>, i: int)
  {
    && 0 < i < |s| && s[i - 1].person == s[i].person
    && s[i - 1].time.Some? && s[i].time.Some? && s[i - 1].time.value > s[i].time.value
  }

  /** No row is marked: the loop as written stops. */
  predicate Settled(s: seq<Entry>)
  {
    forall i :: 0 <= i < |s| ==> !MarkedAsWritten(s, i)
  }

  /** The number of marked rows among the first `k`. The first row is never
      marked, so fewer than `k` are. */
  function CountMarked(s: seq<Entry>, k: nat): (c: nat)
    requires k <= |s|
    ensures 0 < k ==> c < k
  {
    if k == 0 then 0
    else CountMarked(s, k - 1) + (if MarkedAsWritten(s, k - 1) then 1 else 0)
  }

  /** One pass as written (lines 48-66). The padding list holds one entry
      per marked row and is labelled 0..m-1; pandas adds it to the
      predecessors' times, and writes the sums back, by row label. A marked
      row whose label is below m decides two minutes after its
      predecessor; any other marked row loses its time. */
  function PassAsWritten(s: seq<Entry>): (r: seq<Entry>)
    ensures |r| == |s|
    ensures forall i :: 0 <= i < |s| ==> r[i].person == s[i].person && r[i].index == s[i].index
    ensures forall i :: 0 <= i < |s| && !MarkedAsWritten(s, i) ==> r[i] == s[i]
    ensures forall i :: 0 <= i < |s| && MarkedAsWritten(s, i) ==>
              r[i].time == (if 0 <= s[i].index < CountMarked(s, |s|) then Some(s[i - 1].time.value + Padding) else None)
  {
    var m := CountMarked(s, |s|);
    seq(|s|, i requires 0 <= i < |s| =>
      if !MarkedAsWritten(s, i) then s[i]
      else if 0 <= s[i].index < m then s[i].(time := Some(s[i - 1].time.value + Padding))
      else s[i].(time := None))
  }

  function FirstMarkedFrom(s: seq<Entry>, i: nat): (f: nat)
    ensures f <= |s|
    ensures f < |s| ==> i <= f && MarkedAsWritten(s, f)
    ensures forall j :: i <= j < f ==> !MarkedAsWritten(s, j)
    decreases |s| - i
  {
    if i >= |s| then |s|
    else if MarkedAsWritten(s, i) then i
    else FirstMarkedFrom(s, i + 1)
  }

  /** Position of the first marked row, or |s| when the loop stops. */
  function FirstMarked(s: seq<Entry>): (f: nat)
    ensures f <= |s|
    ensures f == |s| <==> Settled(s)
    ensures f < |s| ==> MarkedAsWritten(s, f) && forall j :: 0 <= j < f ==> !MarkedAsWritten(s, j)
  {
    FirstMarkedFrom(s, 0)
  }

  /** A pass as written leaves the first marked row either after its
      predecessor or without a time, and marks nothing before it, so the
      loop as written terminates. */
  lemma {:induction false} PassAsWrittenAdvances(s: seq<Entry>)
    requires FirstMarked(s) < |s|
    ensures FirstMarked(s) < FirstMarked(PassAsWritten(s))
  {
    var f := FirstMarked(s);
    var p := PassAsWritten(s);
    forall j | 0 < j <= f
      ensures !MarkedAsWritten(p, j)
    {
      assert !MarkedAsWritten(s, j - 1) && p[j - 1] == s[j - 1];
      if j < f {
        assert p[j] == s[j];
      }
    }
    var g := FirstMarked(p);
    assert g == |p| || MarkedAsWritten(p, g);
  }

  /** The correction loop as written. */
  function FixAsWritten(s: seq<Entry>): (r: seq<Entry>)
    ensures |r| == |s| && Settled(r)
    ensures forall i :: 0 <= i < |s| ==> r[i].person == s[i].person
    decreases |s| - FirstMarked(s)
  {
    if FirstMarked(s) == |s| then s
    else
      PassAsWrittenAdvances(s);
      FixAsWritten(PassAsWritten(s))
  }

  /** A missing time is never compared as later or earlier, so it stays
      missing to the end of the loop. */
  lemma {:induction false} MissingStaysMissing(s: seq<Entry>, i: nat)
    requires i < |s| && s[i].time.None?
    ensures FixAsWritten(s)[i].time.None?
    decreases |s| - FirstMarked(s)
  {
    if FirstMarked(s) < |s| {
      PassAsWrittenAdvances(s);
      assert !MarkedAsWritten(s, i);
      MissingStaysMissing(PassAsWritten(s), i);
    }
  }

  /** Some marked row among the first `k` sits at a position no smaller
      than the number of marked rows among them. */
  lemma {:induction false} LateMarkedRow(s: seq<Entry>, k: nat) returns (l: nat)
    requires k <= |s| && CountMarked(s, k) > 0
    ensures l < k && MarkedAsWritten(s, l) && l >= CountMarked(s, k)
    decreases k
  {
    if MarkedAsWritten(s, k - 1) {
      l := k - 1;
    } else {
      l := LateMarkedRow(s, k - 1);
    }
  }

  /** A marked row is counted. */
  lemma {:induction false} MarkedCounted(s: seq<Entry>, j: nat, k: nat)
    requires j < k <= |s| && MarkedAsWritten(s, j)
    ensures CountMarked(s, k) > 0
    decreases k
  {
    if j < k - 1 {
      MarkedCounted(s, j, k - 1);
    }
  }

  /** When no row's label is below its position, as with labels 0..n-1 in
      table order, a pass that corrects anything loses a time: the first
      row is never marked, so the last of the m marked rows sits at
      position m or later, and its label is not among 0..m-1. */
  lemma {:induction false} AlignedPassLosesTime(s: seq<Entry>) returns (l: nat)
    requires forall k :: 0 <= k < |s| ==> s[k].index >= k
    requires FirstMarked(s) < |s|
    ensures l < |s| && MarkedAsWritten(s, l) && PassAsWritten(s)[l].time.None?
  {
    MarkedCounted(s, FirstMarked(s), |s|);
    l := LateMarkedRow(s, |s|);
  }

  /** Order on decision times with a missing time last, as `sort_values`
      places it. */
  predicate TimeLe(a: Option<Time>, b: Option<Time>)
  {
    b.None? || (a.Some? && a.value <= b.value)
  }

  /** The closing check as written (lines 69-71): sorting by person and
      then by time, missing times last, leaves the table as it is. */
  predicate SortedAsWritten(s: seq<Entry>)
  {
    forall i, j :: 0 <= i < j < |s| ==>
      if s[i].person == s[j].person then TimeLe(s[i].time, s[j].time) else Order.StrLe(s[i].person, s[j].person)
  }

  predicate AllKnown(s: seq<Entry>)
  {
    forall i :: 0 <= i < |s| ==> s[i].time.Some?
  }

  /** The rows with the known times written into their decision column. */
  function WithTimes(rows: seq<Trip>, s: seq<Entry>): (r: seq<Trip>)
    requires |s| == |rows| && AllKnown(s)
    ensures |r| == |rows|
  {
    seq(|rows|, i requires 0 <= i < |rows| => rows[i].(decision := s[i].time.value))
  }

  /** Known times that pass the check as written, with no row marked, are in
      (person, decision time) order with no inversion. */
  lemma {:induction false} KnownTimesOrdered(rows: seq<Trip>, s: seq<Entry>)
    requires |s| == |rows| && AllKnown(s) && Settled(s) && SortedAsWritten(s)
    requires forall i :: 0 <= i < |s| ==> s[i].person == rows[i].person
    ensures SortedByPersonDecision(WithTimes(rows, s)) && NoInversion(WithTimes(rows, s))
  {
    var w := WithTimes(rows, s);
    forall i | 0 < i < |w| && w[i - 1].person == w[i].person
      ensures w[i - 1].decision <= w[i].decision
    {
      assert !MarkedAsWritten(s, i);
    }
  }

  /** Stage 1 as written, given the row labels the table carries. The
      rename of the misspelled "feat_distane" column never fires, so a
      table holding only `feat_distance` reaches the lookup of a `distance`
      column that does not exist. Otherwise the times are stamped and
      corrected by label, as at lines 35-40 and 48-66, and the closing check
      sorts missing times last. */
  function DeriveDecisionTimeAsWritten(table: TripTable, labels: seq<int>, speed: int): (r: Result<seq<Trip>, ConfigError>)
    requires speed > 0 && |labels| == |table.rows|
    ensures table.columns != DistanceColumn ==> r == Err(MissingDistance)
    ensures r.Ok? ==> var kept := KeepTravelled(table.rows);
                      && |r.value| == |kept|
                      && forall i :: 0 <= i < |kept| ==> r.value[i] == kept[i].(decision := r.value[i].decision)
    ensures r.Ok? ==> SortedByPersonDecision(r.value) && NoInversion(r.value)
  {
    if table.columns != DistanceColumn then Err(MissingDistance)
    else
      var kept := KeepTravelled(table.rows);
      var times := FixAsWritten(EntriesAsWritten(table.rows, labels, speed));
      if !SortedAsWritten(times) then Err(NotSortedByPerson)
      else if !AllKnown(times) then Err(MissingDecisionTime)
      else
        KnownTimesOrdered(kept, times);
        Ok(WithTimes(kept, times))
  }

  /** Under labels 0..n-1 in table order, each travelled row's entry holds
      its person, a label no smaller than its position, and its stamped
      decision time. */
  lemma {:induction false} AlignedEntries(rows: seq<Trip>, labels: seq<int>, speed: int)
    requires speed > 0 && |labels| == |rows|
    requires forall i :: 0 <= i < |rows| ==> labels[i] == i
    ensures var e := EntriesAsWritten(rows, labels, speed);
            var stamped := Stamp(KeepTravelled(rows), speed);
            && |e| == |stamped|
            && forall k :: 0 <= k < |e| ==>
                 e[k] == Entry(stamped[k].person, e[k].index, Some(stamped[k].decision)) && e[k].index >= k
  {
    var ps := TravelledPositions(rows);
    KeepTravelledIsFilter(rows);
    forall k | 0 <= k < |ps|
      ensures ps[k] >= k
    {
      AscendingAboveIndex(ps, k);
    }
  }

  lemma {:induction false} AscendingAboveIndex(ps: seq<nat>, k: nat)
    requires forall i, j :: 0 <= i < j < |ps| ==> ps[i] < ps[j]
    requires k < |ps|
    ensures ps[k] >= k
    decreases k
  {
    if k > 0 {
      AscendingAboveIndex(ps, k - 1);
    }
  }

  /** With the row labels 0..n-1 in table order, where label and position
      agree, the stage as written succeeds exactly when no decision time
      needs correcting and the travelled rows are in person order, and it
      then equals the intended stage. Any correction loses a time. */
  lemma {:induction false} AlignedAsWritten(rows: seq<Trip>, labels: seq<int>, speed: int)
    requires speed > 0 && |labels| == |rows|
    requires forall i :: 0 <= i < |rows| ==> labels[i] == i
    ensures var r := DeriveDecisionTimeAsWritten(TripTable(DistanceColumn, rows), labels, speed);
            && (r.Ok? <==> NoInversion(Stamp(KeepTravelled(rows), speed)) && PersonsSorted(KeepTravelled(rows)))
            && (r.Ok? ==> r == DeriveDecisionTime(TripTable(DistanceColumn, rows), speed))
  {
    AlignedEntries(rows, labels, speed);
    if NoInversion(Stamp(KeepTravelled(rows), speed)) {
      AlignedUncorrected(rows, labels, speed);
    } else {
      AlignedCorrected(rows, labels, speed);
    }
  }

  /** Without an inversion nothing is marked, and both stages return the
      stamped travelled rows exactly when persons are in order. */
  lemma {:induction false} AlignedUncorrected(rows: seq<Trip>, labels: seq<int>, speed: int)
    requires speed > 0 && |labels| == |rows|
    requires forall i :: 0 <= i < |rows| ==> labels[i] == i
    requires NoInversion(Stamp(KeepTravelled(rows), speed))
    ensures var r := DeriveDecisionTimeAsWritten(TripTable(DistanceColumn, rows), labels, speed);
            && (r.Ok? <==> PersonsSorted(KeepTravelled(rows)))
            && (r.Ok? ==> r == DeriveDecisionTime(TripTable(DistanceColumn, rows), speed))
  {
    var kept := KeepTravelled(rows);
    var stamped := Stamp(kept, speed);
    var e := EntriesAsWritten(rows, labels, speed);
    AlignedEntries(rows, labels, speed);
    Mirrors(kept, stamped, e);
    SettledFixed(e);
    StampedOrder(kept, speed);
    KnownStage(rows, labels, speed);
    IntendedUncorrected(rows, speed);
  }

  /** The loop as written leaves a settled column as it is. */
  lemma {:induction false} SettledFixed(e: seq<Entry>)
    requires Settled(e)
    ensures FixAsWritten(e) == e
  {
  }

  /** Without an inversion, stamped rows are in (person, decision time)
      order exactly when persons are in order. */
  lemma {:induction false} StampedOrder(kept: seq<Trip>, speed: int)
    requires speed > 0 && NoInversion(Stamp(kept, speed))
    ensures SortedByPersonDecision(Stamp(kept, speed)) <==> PersonsSorted(kept)
  {
    OrderCheckIff(Stamp(kept, speed));
    SamePersons(Stamp(kept, speed), kept);
  }

  /** Entries that hold the stamped rows' persons and times: every time is
      known, nothing is marked without an inversion, the check as written
      is the intended one, and writing the times back gives the stamped
      rows. */
  lemma {:induction false} Mirrors(kept: seq<Trip>, stamped: seq<Trip>, e: seq<Entry>)
    requires |e| == |stamped| == |kept|
    requires forall k :: 0 <= k < |e| ==>
               && e[k].person == stamped[k].person && e[k].time == Some(stamped[k].decision)
               && stamped[k] == kept[k].(decision := stamped[k].decision)
    ensures AllKnown(e) && WithTimes(kept, e) == stamped
    ensures NoInversion(stamped) ==> Settled(e)
    ensures SortedAsWritten(e) <==> SortedByPersonDecision(stamped)
  {
  }

  /** When the loop as written ends with every time known, the stage
      returns the travelled rows with those times exactly when they pass
      the closing check. */
  lemma {:induction false} KnownStage(rows: seq<Trip>, labels: seq<int>, speed: int)
    requires speed > 0 && |labels| == |rows|
    requires AllKnown(FixAsWritten(EntriesAsWritten(rows, labels, speed)))
    ensures var times := FixAsWritten(EntriesAsWritten(rows, labels, speed));
            DeriveDecisionTimeAsWritten(TripTable(DistanceColumn, rows), labels, speed)
              == if SortedAsWritten(times) then Ok(WithTimes(KeepTravelled(rows), times)) else Err(NotSortedByPerson)
  {
  }

  /** With no inversion, the intended stage returns the stamped travelled
      rows exactly when persons are in order. */
  lemma {:induction false} IntendedUncorrected(rows: seq<Trip>, speed: int)
    requires speed > 0
    requires NoInversion(Stamp(KeepTravelled(rows), speed))
    ensures DeriveDecisionTime(TripTable(DistanceColumn, rows), speed)
              == if PersonsSorted(KeepTravelled(rows)) then Ok(Stamp(KeepTravelled(rows), speed)) else Err(NotSortedByPerson)
  {
    KeepStamped(rows, speed);
    StageOrder(rows, speed);
  }

  /** An inversion is marked, the first pass loses a time, and a lost time
      is never restored, so the stage as written fails. */
  lemma {:induction false} AlignedCorrected(rows: seq<Trip>, labels: seq<int>, speed: int)
    requires speed > 0 && |labels| == |rows|
    requires forall i :: 0 <= i < |rows| ==> labels[i] == i
    requires !NoInversion(Stamp(KeepTravelled(rows), speed))
    ensures DeriveDecisionTimeAsWritten(TripTable(DistanceColumn, rows), labels, speed).Err?
  {
    var e := EntriesAsWritten(rows, labels, speed);
    AlignedEntries(rows, labels, speed);
    InversionMarked(Stamp(KeepTravelled(rows), speed), e);
    CorrectionLosesTime(e);
    MissingTimeFails(rows, labels, speed);
  }

  /** Entries holding the stamped rows' persons and known times mark a row
      when the stamped rows have an inversion. */
  lemma {:induction false} InversionMarked(stamped: seq<Trip>, e: seq<Entry>)
    requires |e| == |stamped|
    requires forall k :: 0 <= k < |e| ==> e[k].person == stamped[k].person && e[k].time == Some(stamped[k].decision)
    requires !NoInversion(stamped)
    ensures FirstMarked(e) < |e|
  {
    var f :| 0 < f < |stamped| && stamped[f - 1].person == stamped[f].person && stamped[f - 1].decision > stamped[f].decision;
    assert MarkedAsWritten(e, f);
  }

  /** When no label is below its position, a loop as written that has
      anything to correct ends with some time missing. */
  lemma {:induction false} CorrectionLosesTime(e: seq<Entry>)
    requires forall k :: 0 <= k < |e| ==> e[k].index >= k
    requires FirstMarked(e) < |e|
    ensures !AllKnown(FixAsWritten(e))
  {
    var l := AlignedPassLosesTime(e);
    PassAsWrittenAdvances(e);
    MissingStaysMissing(PassAsWritten(e), l);
  }

  /** A time still missing after the loop fails the stage as written,
      either at the closing check or as a missing decision time. */
  lemma {:induction false} MissingTimeFails(rows: seq<Trip>, labels: seq<int>, speed: int)
    requires speed > 0 && |labels| == |rows|
    requires !AllKnown(FixAsWritten(EntriesAsWritten(rows, labels, speed)))
    ensures DeriveDecisionTimeAsWritten(TripTable(DistanceColumn, rows), labels, speed).Err?
  {
  }

  /** A table that only carries `feat_distance` is rejected as written;
      the intended stage accepts it whenever its travelled rows are in
      person order. */
  lemma {:induction false} FeatDistanceOnlyRejectedAsWritten(rows: seq<Trip>, labels: seq<int>)
    requires |labels| == |rows|
    ensures DeriveDecisionTimeAsWritten(TripTable(FeatDistanceColumn, rows), labels, 50) == Err(MissingDistance)
    ensures DeriveDecisionTime(TripTable(FeatDistanceColumn, rows), 50).Ok? <==> PersonsSorted(KeepTravelled(rows))
  {
  }

  /** One person, three trips of 1000 m, deciding at 10000, 9880 and
      20000 s once stamped at 50 km/h. */
  const LostTimeRows: seq<Trip> := [
    Trip(1, "a", 1, 10672, 1000, 0, 0, 0, 0, 0, 0, 0),
    Trip(2, "a", 2, 10552, 1000, 0, 0, 0, 0, 0, 0, 0),
    Trip(3, "a", 3, 20672, 1000, 0, 0, 0, 0, 0, 0, 0)]

  /** On `LostTimeRows` labelled 0, 1, 2, the second trip's label is not
      below the one correction made, so as written its time goes missing;
      the next pass corrects nothing, and the closing check fails because
      the missing time sorts last. The intended stage moves that trip to
      10120 s, two minutes after the first. */
  lemma {:induction false} DecisionTimeLostAsWritten()
    ensures DeriveDecisionTimeAsWritten(TripTable(DistanceColumn, LostTimeRows), [0, 1, 2], 50) == Err(NotSortedByPerson)
    ensures var r := DeriveDecisionTime(TripTable(DistanceColumn, LostTimeRows), 50);
            r.Ok? && |r.value| == 3 && r.value[1].decision == 10120
  {
    LostTimeEntries();
    LostTimeFix(EntriesAsWritten(LostTimeRows, [0, 1, 2], 50));
    UnsortedFails(LostTimeRows, [0, 1, 2], 50);
    LostTimeIntended();
  }

  /** The entries of `LostTimeRows` as the loop as written first sees them. */
  lemma {:induction false} LostTimeEntries()
    ensures var e := EntriesAsWritten(LostTimeRows, [0, 1, 2], 50);
            && |e| == 3 && e[1].index >= 1
            && e[0].person == e[1].person == e[2].person
            && e[0].time == Some(10000) && e[1].time == Some(9880) && e[2].time == Some(20000)
  {
    KeepAllTravelled(LostTimeRows);
    var stamped := Stamp(LostTimeRows, 50);
    assert stamped[0].decision == 10000 && stamped[1].decision == 9880 && stamped[2].decision == 20000;
    AlignedEntries(LostTimeRows, [0, 1, 2], 50);
  }

  /** The one correction loses the second time, after which nothing is
      marked and the missing time sorts after the third. */
  lemma {:induction false} LostTimeFix(e: seq<Entry>)
    requires |e| == 3 && e[1].index >= 1 && e[0].person == e[1].person == e[2].person
    requires e[0].time == Some(10000) && e[1].time == Some(9880) && e[2].time == Some(20000)
    ensures !SortedAsWritten(FixAsWritten(e))
  {
    assert MarkedAsWritten(e, 1) && !MarkedAsWritten(e, 2);
    assert CountMarked(e, 3) == 1;
    var p := PassAsWritten(e);
    assert p[1].time.None? && p[2] == e[2];
    assert Settled(p) by {
      assert !MarkedAsWritten(p, 1) && !MarkedAsWritten(p, 2);
    }
    assert FixAsWritten(e) == p;
    assert !TimeLe(p[1].time, p[2].time);
  }

  /** The intended stage accepts `LostTimeRows` and moves the second trip
      two minutes after the first. */
  lemma {:induction false} LostTimeIntended()
    ensures var r := DeriveDecisionTime(TripTable(DistanceColumn, LostTimeRows), 50);
            r.Ok? && |r.value| == 3 && r.value[1].decision == 10120
  {
    var rows := LostTimeRows;
    KeepAllTravelled(rows);
    var stamped := Stamp(rows, 50);
    assert stamped[0].decision == 10000 && stamped[1].decision == 9880;
    Order.StrLeTotal("a", "a");
    assert PersonsSorted(rows);
    assert SequentialDecision(stamped, 1) == 10120;
  }

  /** Rows that all cover a distance are all kept. */
  lemma {:induction false} KeepAllTravelled(rows: seq<Trip>)
    requires forall i :: 0 <= i < |rows| ==> rows[i].distance > 0
    ensures KeepTravelled(rows) == rows
    decreases |rows|
  {
    if |rows| > 0 {
      KeepAllTravelled(rows[..|rows| - 1]);
      assert rows[..|rows| - 1] + [rows[|rows| - 1]] == rows;
    }
  }

  /** A table that fails the closing check as written is rejected with
      that error. */
  lemma {:induction false} UnsortedFails(rows: seq<Trip>, labels: seq<int>, speed: int)
    requires speed > 0 && |labels| == |rows|
    requires !SortedAsWritten(FixAsWritten(EntriesAsWritten(rows, labels, speed)))
    ensures DeriveDecisionTimeAsWritten(TripTable(DistanceColumn, rows), labels, speed) == Err(NotSortedByPerson)
  {
  }
}
