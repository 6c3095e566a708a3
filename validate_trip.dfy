/**
 * Trip coverage validator: decides whether a list of trips serves a shipment.
 *
 * The checks run in order and stop at the first failure: warehouse
 * consistency, pickup points (no duplicates, count), drop points (likewise).
 * `Assess` is the specification; it names the check that fails first.
 * `ValidateTrips` is the imperative procedure, proved to agree with it.
 */
module ValidateTrip {
  import opened Optional

  /** A shipment. Its `warehouse` is never read by the validator. */
  datatype Shipment = Shipment(pickupPoints: seq<string>, dropPoints: seq<string>, warehouse: Option<string>)

  /** One leg of fulfilment. */
  datatype Trip = Trip(pickupPoints: seq<string>, dropPoints: seq<string>, warehouse: Option<string>)

  /** Which of the two point lists a scan reads. */
  datatype PointKind = Pickup | Drop

  /** Why a plan is rejected, in the order the checks run; `Accepted` when none fails. */
  datatype Verdict =
    | Accepted
    | WarehouseMismatch
    | DuplicatePickup
    | MissingPickups
    | DuplicateDropPoint
    | MissingDropPoints

  function PointsOf(t: Trip, kind: PointKind): seq<string>
  {
    match kind
    case Pickup => t.pickupPoints
    case Drop => t.dropPoints
  }

  /** JavaScript truthiness of an optional string: both a missing value and "" are falsy. */
  predicate Truthy(w: Option<string>)
  {
    w.Some? && w.value != ""
  }

  /** The points of all trips, in the order the scan visits them. */
  function AllPoints(trips: seq<Trip>, kind: PointKind): seq<string>
    decreases |trips|
  {
    if trips == [] then []
    else AllPoints(trips[..|trips| - 1], kind) + PointsOf(trips[|trips| - 1], kind)
  }

  predicate Distinct(s: seq<string>)
  {
    forall i, j :: 0 <= i < j < |s| ==> s[i] != s[j]
  }

  function Elems(s: seq<string>): set<string>
  {
    set x | x in s
  }

  // ---------------------------------------------------------------------------
  // Warehouse consistency
  // ---------------------------------------------------------------------------

  /** The distinct truthy warehouse names of the trips (the set that getWarehouseFromTrips fills). */
  ghost function TruthyWarehouses(trips: seq<Trip>): set<string>
    decreases |trips|
  {
    if trips == [] then {}
    else
      var last := trips[|trips| - 1];
      TruthyWarehouses(trips[..|trips| - 1]) + (if Truthy(last.warehouse) then {last.warehouse.value} else {})
  }

  /** The candidate warehouse: the sole truthy warehouse, if there is exactly one. */
  ghost function Candidate(trips: seq<Trip>): Option<string>
  {
    var ws := TruthyWarehouses(trips);
    if |ws| == 1 then
      var w :| w in ws; Some(w)
    else None
  }

  /** Every trip names exactly this warehouse; a trip with none, or with "", does not. */
  predicate AllTripsUseSameWarehouse(trips: seq<Trip>, warehouse: string)
  {
    forall t | t in trips :: t.warehouse == Some(warehouse)
  }

  /** The only comparison made against the shipment: the visited count. Used for both point kinds. */
  predicate AllPointsVisited(visited: set<string>, required: seq<string>)
  {
    |visited| == |required|
  }

  lemma {:induction false} TruthyWarehousesMembers(trips: seq<Trip>, w: string)
    ensures w in TruthyWarehouses(trips) <==>
              exists i :: 0 <= i < |trips| && trips[i].warehouse == Some(w) && w != ""
    decreases |trips|
  {
    if trips != [] {
      var prefix := trips[..|trips| - 1];
      TruthyWarehousesMembers(prefix, w);
      if w in TruthyWarehouses(prefix) {
        var i :| 0 <= i < |prefix| && prefix[i].warehouse == Some(w) && w != "";
        assert trips[i] == prefix[i];
      }
      if exists i :: 0 <= i < |trips| && trips[i].warehouse == Some(w) && w != "" {
        var i :| 0 <= i < |trips| && trips[i].warehouse == Some(w) && w != "";
        if i < |prefix| {
          assert prefix[i] == trips[i];
        }
      }
    }
  }

  lemma SoleMember(s: set<string>, w: string)
    requires |s| == 1 && w in s
    ensures s == {w}
  {
    var rest := s - {w};
    assert s == rest + {w};
    assert |rest| == 0;
  }

  /** The candidate is `w` exactly when the truthy warehouses are `{w}`. */
  lemma CandidateIsSoleTruthyWarehouse(trips: seq<Trip>, w: string)
    ensures Candidate(trips) == Some(w) <==> TruthyWarehouses(trips) == {w}
  {
    var ws := TruthyWarehouses(trips);
    if |ws| == 1 {
      var c := Candidate(trips).value;
      SoleMember(ws, c);
    }
  }

  /** There is no candidate exactly when the number of distinct truthy warehouses is not 1. */
  lemma NoCandidateIff(trips: seq<Trip>)
    ensures Candidate(trips) == None <==> |TruthyWarehouses(trips)| != 1
  {
  }

  /** A candidate warehouse is never the empty string. */
  lemma CandidateIsTruthy(trips: seq<Trip>)
    ensures Candidate(trips).Some? ==> Truthy(Candidate(trips))
  {
    if Candidate(trips).Some? {
      TruthyWarehousesMembers(trips, Candidate(trips).value);
    }
  }

  /** Collects the truthy warehouse names and returns the sole one, if there is exactly one. */
  method GetWarehouseFromTrips(trips: seq<Trip>) returns (warehouse: Option<string>)
    ensures warehouse.Some? <==> |TruthyWarehouses(trips)| == 1
    ensures warehouse.Some? ==> TruthyWarehouses(trips) == {warehouse.value}
    ensures warehouse == Candidate(trips)
  {
    var warehouses: set<string> := {};
    var i := 0;
    while i < |trips|
      invariant 0 <= i <= |trips|
      invariant warehouses == TruthyWarehouses(trips[..i])
    {
      if Truthy(trips[i].warehouse) {
        warehouses := warehouses + {trips[i].warehouse.value};
      }
      assert trips[..i + 1][..i] == trips[..i];
      i := i + 1;
    }
    assert trips[..i] == trips;
    if |warehouses| == 1 {
      var w :| w in warehouses;
      SoleMember(warehouses, w);
      CandidateIsSoleTruthyWarehouse(trips, w);
      warehouse := Some(w);
    } else {
      warehouse := None;
    }
  }

  // ---------------------------------------------------------------------------
  // Point scans
  // ---------------------------------------------------------------------------

  lemma {:induction false} AllPointsAppend(a: seq<Trip>, b: seq<Trip>, kind: PointKind)
    ensures AllPoints(a + b, kind) == AllPoints(a, kind) + AllPoints(b, kind)
    decreases |b|
  {
    if b == [] {
      assert a + b == a;
    } else {
      var front := b[..|b| - 1];
      assert (a + b)[..|a + b| - 1] == a + front;
      assert (a + b)[|a + b| - 1] == b[|b| - 1];
      AllPointsAppend(a, front, kind);
    }
  }

  /** The points of trip `t` sit, in order, right after those of the trips before it. */
  lemma AllPointsSplit(trips: seq<Trip>, t: nat, kind: PointKind)
    requires t < |trips|
    ensures AllPoints(trips, kind) ==
              AllPoints(trips[..t], kind) + PointsOf(trips[t], kind) + AllPoints(trips[t + 1..], kind)
  {
    assert trips == trips[..t] + [trips[t]] + trips[t + 1..];
    AllPointsAppend(trips[..t] + [trips[t]], trips[t + 1..], kind);
    AllPointsAppend(trips[..t], [trips[t]], kind);
    assert [trips[t]][..0] == [];
  }

  /** Where point `a` of trip `t` lands in the concatenated scan. */
  lemma PointPosition(trips: seq<Trip>, kind: PointKind, t: nat, a: nat)
    requires t < |trips| && a < |PointsOf(trips[t], kind)|
    ensures |AllPoints(trips[..t], kind)| + a < |AllPoints(trips, kind)|
    ensures AllPoints(trips, kind)[|AllPoints(trips[..t], kind)| + a] == PointsOf(trips[t], kind)[a]
  {
    AllPointsSplit(trips, t, kind);
  }

  /** The points of the trips before `t2` include all of trip `t1 < t2`'s. */
  lemma PrefixOffsets(trips: seq<Trip>, kind: PointKind, t1: nat, t2: nat)
    requires t1 < t2 <= |trips|
    ensures |AllPoints(trips[..t1], kind)| + |PointsOf(trips[t1], kind)| <= |AllPoints(trips[..t2], kind)|
  {
    var pre := trips[..t2];
    AllPointsSplit(pre, t1, kind);
    assert pre[..t1] == trips[..t1];
    assert pre[t1] == trips[t1];
  }

  lemma {:induction false} AllPointsEmpty(trips: seq<Trip>, kind: PointKind)
    requires forall i :: 0 <= i < |trips| ==> PointsOf(trips[i], kind) == []
    ensures AllPoints(trips, kind) == []
    decreases |trips|
  {
    if trips != [] {
      var prefix := trips[..|trips| - 1];
      assert forall i :: 0 <= i < |prefix| ==> prefix[i] == trips[i];
      AllPointsEmpty(prefix, kind);
    }
  }

  lemma {:induction false} DistinctCard(s: seq<string>)
    requires Distinct(s)
    ensures |Elems(s)| == |s|
    decreases |s|
  {
    if s != [] {
      var front := s[..|s| - 1];
      assert Elems(s) == Elems(front) + {s[|s| - 1]};
      assert s[|s| - 1] !in Elems(front);
      DistinctCard(front);
    }
  }

  lemma DistinctExtend(s: seq<string>, p: string)
    requires Distinct(s) && p !in Elems(s)
    ensures Distinct(s + [p])
    ensures Elems(s + [p]) == Elems(s) + {p}
  {
    assert forall i :: 0 <= i < |s| ==> (s + [p])[i] == s[i] != p;
  }

  /**
   * Scans the given point list of every trip in order, adding each point to
   * `visited`; stops with `ok == false` at the first point already visited.
   */
  method CollectVisited(trips: seq<Trip>, kind: PointKind) returns (ok: bool, visited: set<string>)
    ensures ok <==> Distinct(AllPoints(trips, kind))
    ensures ok ==> visited == Elems(AllPoints(trips, kind))
  {
    visited := {};
    ghost var seen: seq<string> := [];
    var i := 0;
    while i < |trips|
      invariant 0 <= i <= |trips|
      invariant seen == AllPoints(trips[..i], kind)
      invariant Distinct(seen)
      invariant visited == Elems(seen)
    {
      var points := PointsOf(trips[i], kind);
      var j := 0;
      while j < |points|
        invariant 0 <= j <= |points|
        invariant seen == AllPoints(trips[..i], kind) + points[..j]
        invariant Distinct(seen)
        invariant visited == Elems(seen)
      {
        var point := points[j];
        if point in visited {
          ghost var k :| 0 <= k < |seen| && seen[k] == point;
          DuplicateInScan(trips, kind, i, j, k);
          return false, visited;
        }
        DistinctExtend(seen, point);
        visited := visited + {point};
        seen := seen + [point];
        assert points[..j + 1] == points[..j] + [point];
        j := j + 1;
      }
      assert points[..j] == points;
      assert trips[..i + 1][..i] == trips[..i];
      i := i + 1;
    }
    assert trips[..i] == trips;
    return true, visited;
  }

  /** A repeat found while scanning trip `i` at point `j` is a repeat in the whole scan. */
  lemma DuplicateInScan(trips: seq<Trip>, kind: PointKind, i: nat, j: nat, k: nat)
    requires i < |trips| && j < |PointsOf(trips[i], kind)|
    requires k < |AllPoints(trips[..i], kind) + PointsOf(trips[i], kind)[..j]|
    requires (AllPoints(trips[..i], kind) + PointsOf(trips[i], kind)[..j])[k] == PointsOf(trips[i], kind)[j]
    ensures !Distinct(AllPoints(trips, kind))
  {
    var all := AllPoints(trips, kind);
    var before := AllPoints(trips[..i], kind);
    var points := PointsOf(trips[i], kind);
    AllPointsSplit(trips, i, kind);
    assert all[k] == (before + points[..j])[k];
    assert all[|before| + j] == points[j];
  }

  // ---------------------------------------------------------------------------
  // The validator
  // ---------------------------------------------------------------------------

  /** The verdict of validateTrips: the first check that fails, or `Accepted`. */
  ghost function Assess(shipment: Shipment, trips: seq<Trip>): Verdict
  {
    var candidate := Candidate(trips);
    if Truthy(candidate) && !AllTripsUseSameWarehouse(trips, candidate.value) then WarehouseMismatch
    else PointsVerdict(AllPoints(trips, Pickup), AllPoints(trips, Drop), shipment)
  }

  /** The pickup and drop checks, given the scanned points of all trips. */
  function PointsVerdict(pickups: seq<string>, drops: seq<string>, shipment: Shipment): Verdict
  {
    if !Distinct(pickups) then DuplicatePickup
    else if |Elems(pickups)| == 0 || !AllPointsVisited(Elems(pickups), shipment.pickupPoints) then MissingPickups
    else if !Distinct(drops) then DuplicateDropPoint
    else if |Elems(drops)| == 0 || !AllPointsVisited(Elems(drops), shipment.dropPoints) then MissingDropPoints
    else Accepted
  }

  method ValidateTrips(shipment: Shipment, trips: seq<Trip>) returns (valid: bool)
    ensures valid <==> Assess(shipment, trips) == Accepted
  {
    var warehouse := GetWarehouseFromTrips(trips);
    if Truthy(warehouse) && !AllTripsUseSameWarehouse(trips, warehouse.value) {
      return false;
    }

    var noDuplicatePickups, visitedPickups := CollectVisited(trips, Pickup);
    if !noDuplicatePickups {
      return false;
    }
    if |visitedPickups| == 0 || !AllPointsVisited(visitedPickups, shipment.pickupPoints) {
      return false;
    }

    var noDuplicateDrops, visitedDropPoints := CollectVisited(trips, Drop);
    if !noDuplicateDrops {
      return false;
    }
    if |visitedDropPoints| == 0 || !AllPointsVisited(visitedDropPoints, shipment.dropPoints) {
      return false;
    }

    return true;
  }

  // ---------------------------------------------------------------------------
  // Properties of the verdict
  // ---------------------------------------------------------------------------

  /** The warehouse check passes: no candidate, or every trip names the candidate. */
  ghost predicate WarehouseConsistent(trips: seq<Trip>)
  {
    Candidate(trips).None? || AllTripsUseSameWarehouse(trips, Candidate(trips).value)
  }

  /** The points are pairwise distinct, there is at least one, and there are as many as required. */
  predicate CountMatches(points: seq<string>, required: seq<string>)
  {
    Distinct(points) && 0 < |points| == |required|
  }

  /** Acceptance, stated without sets: warehouses consistent and both point lists distinct and of the required count. */
  lemma AcceptedIff(shipment: Shipment, trips: seq<Trip>)
    ensures Assess(shipment, trips) == Accepted <==>
              && WarehouseConsistent(trips)
              && CountMatches(AllPoints(trips, Pickup), shipment.pickupPoints)
              && CountMatches(AllPoints(trips, Drop), shipment.dropPoints)
  {
    CandidateIsTruthy(trips);
    if Distinct(AllPoints(trips, Pickup)) {
      DistinctCard(AllPoints(trips, Pickup));
    }
    if Distinct(AllPoints(trips, Drop)) {
      DistinctCard(AllPoints(trips, Drop));
    }
  }

  /** The same point listed twice, in one trip or in two, is a repeat in the concatenated scan. */
  lemma RepeatedPoint(trips: seq<Trip>, kind: PointKind, t1: nat, a1: nat, t2: nat, a2: nat)
    requires t1 < |trips| && a1 < |PointsOf(trips[t1], kind)|
    requires t2 < |trips| && a2 < |PointsOf(trips[t2], kind)|
    requires (t1, a1) != (t2, a2)
    requires PointsOf(trips[t1], kind)[a1] == PointsOf(trips[t2], kind)[a2]
    ensures !Distinct(AllPoints(trips, kind))
  {
    PointPosition(trips, kind, t1, a1);
    PointPosition(trips, kind, t2, a2);
    var p1 := |AllPoints(trips[..t1], kind)| + a1;
    var p2 := |AllPoints(trips[..t2], kind)| + a2;
    if t1 < t2 {
      PrefixOffsets(trips, kind, t1, t2);
    } else if t2 < t1 {
      PrefixOffsets(trips, kind, t2, t1);
    }
    assert p1 != p2;
    var all := AllPoints(trips, kind);
    if p1 < p2 {
      assert all[p1] == all[p2];
    } else {
      assert all[p2] == all[p1];
    }
  }

  /** The same point listed twice, in one trip or in two, rejects the plan. */
  lemma DuplicatePointRejects(shipment: Shipment, trips: seq<Trip>, kind: PointKind, t1: nat, a1: nat, t2: nat, a2: nat)
    requires t1 < |trips| && a1 < |PointsOf(trips[t1], kind)|
    requires t2 < |trips| && a2 < |PointsOf(trips[t2], kind)|
    requires (t1, a1) != (t2, a2)
    requires PointsOf(trips[t1], kind)[a1] == PointsOf(trips[t2], kind)[a2]
    ensures Assess(shipment, trips) != Accepted
  {
    RepeatedPoint(trips, kind, t1, a1, t2, a2);
  }

  /** An accepted plan visits pairwise distinct points, as many as the shipment lists, for both kinds. */
  lemma AcceptedMeansDistinctAndCounted(shipment: Shipment, trips: seq<Trip>)
    requires Assess(shipment, trips) == Accepted
    ensures Distinct(AllPoints(trips, Pickup)) && |AllPoints(trips, Pickup)| == |shipment.pickupPoints| > 0
    ensures Distinct(AllPoints(trips, Drop)) && |AllPoints(trips, Drop)| == |shipment.dropPoints| > 0
    ensures |Elems(AllPoints(trips, Pickup))| == |shipment.pickupPoints|
    ensures |Elems(AllPoints(trips, Drop))| == |shipment.dropPoints|
  {
    AcceptedIff(shipment, trips);
  }

  /** A plan whose trips list no pickup point at all (including no trips) is rejected. */
  lemma NoPickupsRejects(shipment: Shipment, trips: seq<Trip>)
    requires forall i :: 0 <= i < |trips| ==> trips[i].pickupPoints == []
    ensures Assess(shipment, trips) != Accepted
  {
    AllPointsEmpty(trips, Pickup);
  }

  /** A shipment that requires no pickup point can never be validated. */
  lemma EmptyShipmentPickupsRejects(shipment: Shipment, trips: seq<Trip>)
    requires shipment.pickupPoints == []
    ensures Assess(shipment, trips) != Accepted
  {
    AcceptedIff(shipment, trips);
  }

  /** With a candidate warehouse, a trip naming another one, "" or none rejects the plan. */
  lemma WarehouseMismatchRejects(shipment: Shipment, trips: seq<Trip>, w: string, i: nat)
    requires TruthyWarehouses(trips) == {w}
    requires i < |trips| && trips[i].warehouse != Some(w)
    ensures Assess(shipment, trips) == WarehouseMismatch
  {
    CandidateIsSoleTruthyWarehouse(trips, w);
    CandidateIsTruthy(trips);
    assert trips[i] in trips;
  }

  function WithoutWarehouses(trips: seq<Trip>): (r: seq<Trip>)
    ensures |r| == |trips|
    ensures forall i :: 0 <= i < |trips| ==> r[i] == trips[i].(warehouse := None)
  {
    seq(|trips|, i requires 0 <= i < |trips| => trips[i].(warehouse := None))
  }

  lemma {:induction false} AllPointsIgnoreWarehouses(trips: seq<Trip>, kind: PointKind)
    ensures AllPoints(WithoutWarehouses(trips), kind) == AllPoints(trips, kind)
    decreases |trips|
  {
    if trips != [] {
      var prefix := trips[..|trips| - 1];
      assert WithoutWarehouses(trips)[..|trips| - 1] == WithoutWarehouses(prefix);
      AllPointsIgnoreWarehouses(prefix, kind);
    }
  }

  lemma {:induction false} NoTruthyWarehouses(trips: seq<Trip>)
    ensures TruthyWarehouses(WithoutWarehouses(trips)) == {}
    decreases |trips|
  {
    if trips != [] {
      var prefix := trips[..|trips| - 1];
      assert WithoutWarehouses(trips)[..|trips| - 1] == WithoutWarehouses(prefix);
      NoTruthyWarehouses(prefix);
    }
  }

  /**
   * With zero or several distinct truthy warehouses there is no candidate and
   * the verdict is the one the same trips would get with no warehouses at all.
   */
  lemma WarehousesIgnoredWithoutCandidate(shipment: Shipment, trips: seq<Trip>)
    requires |TruthyWarehouses(trips)| != 1
    ensures Assess(shipment, trips) == Assess(shipment, WithoutWarehouses(trips))
  {
    var bare := WithoutWarehouses(trips);
    NoTruthyWarehouses(trips);
    AllPointsIgnoreWarehouses(trips, Pickup);
    AllPointsIgnoreWarehouses(trips, Drop);
    NoCandidateIff(trips);
    NoCandidateIff(bare);
  }

  /** The shipment's own warehouse plays no part in the verdict. */
  lemma ShipmentWarehouseIgnored(shipment: Shipment, trips: seq<Trip>, w: Option<string>)
    ensures Assess(shipment.(warehouse := w), trips) == Assess(shipment, trips)
  {
  }

  /** The shipment's point lists are compared by length only: lists of equal lengths give equal verdicts. */
  lemma OnlyLengthsCompared(s1: Shipment, s2: Shipment, trips: seq<Trip>)
    requires |s1.pickupPoints| == |s2.pickupPoints| && |s1.dropPoints| == |s2.dropPoints|
    ensures Assess(s1, trips) == Assess(s2, trips)
  {
  }

  // ---------------------------------------------------------------------------
  // Examples
  // ---------------------------------------------------------------------------

  function FixtureShipment(): Shipment
  {
    Shipment(["A", "B", "C"], ["X", "Y", "Z"], None)
  }

  lemma AllPointsOfOne(t: Trip, kind: PointKind)
    ensures AllPoints([t], kind) == PointsOf(t, kind)
  {
    assert [t][..0] == [];
  }

  lemma AllPointsOfTwo(t1: Trip, t2: Trip, kind: PointKind)
    ensures AllPoints([t1, t2], kind) == PointsOf(t1, kind) + PointsOf(t2, kind)
  {
    assert [t1, t2][..1] == [t1];
    AllPointsOfOne(t1, kind);
  }

  /** Trips that name no warehouse leave no candidate. */
  lemma NoWarehouseNoCandidate(trips: seq<Trip>)
    requires forall i :: 0 <= i < |trips| ==> trips[i].warehouse == None
    ensures Candidate(trips) == None
  {
    if TruthyWarehouses(trips) != {} {
      var w :| w in TruthyWarehouses(trips);
      TruthyWarehousesMembers(trips, w);
    }
  }

  /** Three distinct points against a list of three pass the point checks of one kind. */
  lemma ThreeDistinct(a: string, b: string, c: string)
    requires a != b && b != c && a != c
    ensures Distinct([a, b, c]) && |Elems([a, b, c])| == 3
  {
    assert Elems([a, b, c]) == {a, b, c};
  }

  /** Fixture 1: one trip with exactly the shipment's points is accepted. */
  lemma FixtureExactSingleTrip()
    ensures Assess(FixtureShipment(), [Trip(["A", "B", "C"], ["X", "Y", "Z"], None)]) == Accepted
  {
    var t := Trip(["A", "B", "C"], ["X", "Y", "Z"], None);
    AllPointsOfOne(t, Pickup);
    AllPointsOfOne(t, Drop);
    NoWarehouseNoCandidate([t]);
    ThreeDistinct("A", "B", "C");
    ThreeDistinct("X", "Y", "Z");
  }

  /** Fixture 2: a trip missing pickup B is rejected. */
  lemma FixtureMissingPickup()
    ensures Assess(FixtureShipment(), [Trip(["A", "C"], ["X", "Y", "Z"], None)]) == MissingPickups
  {
    var t := Trip(["A", "C"], ["X", "Y", "Z"], None);
    AllPointsOfOne(t, Pickup);
    NoWarehouseNoCandidate([t]);
    assert Elems(["A", "C"]) == {"A", "C"};
  }

  /** Fixture 3: pickup A listed twice is rejected as a duplicate. */
  lemma FixtureDuplicatePickup()
    ensures Assess(FixtureShipment(), [Trip(["A", "B", "C", "A"], ["X", "Y", "Z"], None)]) == DuplicatePickup
  {
    var t := Trip(["A", "B", "C", "A"], ["X", "Y", "Z"], None);
    AllPointsOfOne(t, Pickup);
    NoWarehouseNoCandidate([t]);
    assert t.pickupPoints[0] == t.pickupPoints[3];
    assert !Distinct(AllPoints([t], Pickup));
  }

  /** Fixture 4: two trips that split the points between them are accepted. */
  lemma FixtureMultipleTrips()
    ensures Assess(FixtureShipment(), [Trip(["A", "B"], ["X"], None), Trip(["C"], ["Y", "Z"], None)]) == Accepted
  {
    var t1, t2 := Trip(["A", "B"], ["X"], None), Trip(["C"], ["Y", "Z"], None);
    AllPointsOfTwo(t1, t2, Pickup);
    AllPointsOfTwo(t1, t2, Drop);
    assert ["A", "B"] + ["C"] == ["A", "B", "C"];
    assert ["X"] + ["Y", "Z"] == ["X", "Y", "Z"];
    NoWarehouseNoCandidate([t1, t2]);
    ThreeDistinct("A", "B", "C");
    ThreeDistinct("X", "Y", "Z");
  }

  /** Only counts are compared: visiting {A, B, D} satisfies a shipment that lists A, B, C. */
  lemma CountNotMembership()
    ensures Assess(FixtureShipment(), [Trip(["A", "B", "D"], ["X", "Y", "Z"], None)]) == Accepted
  {
    var t := Trip(["A", "B", "D"], ["X", "Y", "Z"], None);
    var exact := Shipment(["A", "B", "D"], ["X", "Y", "Z"], None);
    AllPointsOfOne(t, Pickup);
    AllPointsOfOne(t, Drop);
    NoWarehouseNoCandidate([t]);
    ThreeDistinct("A", "B", "D");
    ThreeDistinct("X", "Y", "Z");
    assert Assess(exact, [t]) == Accepted;
    OnlyLengthsCompared(exact, FixtureShipment(), [t]);
  }

  /** "" is ignored when looking for a candidate but still fails the match against it. */
  lemma EmptyWarehouseMismatches()
    ensures Assess(FixtureShipment(), [Trip(["A", "B"], ["X"], Some("W1")), Trip(["C"], ["Y", "Z"], Some(""))]) == WarehouseMismatch
  {
    var trips := [Trip(["A", "B"], ["X"], Some("W1")), Trip(["C"], ["Y", "Z"], Some(""))];
    assert trips[..1] == [trips[0]];
    assert trips[..1][..0] == [];
    assert TruthyWarehouses(trips) == {"W1"};
    WarehouseMismatchRejects(FixtureShipment(), trips, "W1", 1);
  }

  /** Two distinct warehouses leave no candidate, so the warehouse check is skipped. */
  lemma TwoWarehousesSkipCheck()
    ensures Assess(FixtureShipment(), [Trip(["A", "B"], ["X"], Some("W1")), Trip(["C"], ["Y", "Z"], Some("W2"))]) == Accepted
  {
    var t1, t2 := Trip(["A", "B"], ["X"], Some("W1")), Trip(["C"], ["Y", "Z"], Some("W2"));
    var trips := [t1, t2];
    assert trips[..1] == [t1];
    assert [t1][..0] == [];
    assert TruthyWarehouses([t1]) == {"W1"};
    assert TruthyWarehouses(trips) == {"W1", "W2"};
    NoCandidateIff(trips);
    AllPointsOfTwo(t1, t2, Pickup);
    AllPointsOfTwo(t1, t2, Drop);
    assert ["A", "B"] + ["C"] == ["A", "B", "C"];
    assert ["X"] + ["Y", "Z"] == ["X", "Y", "Z"];
    ThreeDistinct("A", "B", "C");
    ThreeDistinct("X", "Y", "Z");
  }
}
