# Trip validation and monthly active users, in Dafny

This project models two small business rules as Dafny and proves properties of them.

**Trip coverage validator** (`validate_trip.dfy`, module `ValidateTrip`). `validateTrips` decides whether a list of trips serves a shipment. It runs three checks in order and stops at the first that fails:

1. Warehouse consistency. The trips' distinct truthy warehouse names are collected. If there is exactly one, it becomes the candidate, and every trip must name it. A trip with no warehouse, or with `""`, then fails the check.
2. Pickup points. All trips' pickup points are scanned in order. The first point seen twice fails the plan. The set of visited points must be non-empty and as large as the shipment's pickup list.
3. Drop points, by the same algorithm.

`Shipment` and `Trip` are datatypes, one per interface at validateTrip.ts:64-68 and 70-74. A warehouse is an `Option<string>`, and `Truthy` keeps JavaScript's rule that `""` is falsy. `Assess` is the specification: it returns a `Verdict` that names the first failing check, or `Accepted`. `ValidateTrips` is the imperative procedure. It calls `GetWarehouseFromTrips` (a loop filling a set) and `CollectVisited` (the nested scan with its early return, used for both point kinds). Each is proved against the specification. The lemmas then state the validator's promises without sets (`AcceptedIff`), the duplicate and empty cases, the warehouse rules and the four fixture cases of the source.

**Monthly active users** (`active.dfy`, module `Active`). `getMonthlyActiveUsers` walks each user's events and collects active timestamps:

- every `logged_in` timestamp, unless it was already collected;
- every `logged_out` or `lastSeenAt` timestamp whose month key equals that of the user's last listed event and that passes the end-of-month window test.

A user with at least one active timestamp adds 1 to the count of the month of the first one. A user is a `UserDeviceEvent` holding a sequence of `TimestampEvent`s, as in the interface at active.ts:49-52. The month key (`getMonthYearString`) and the window test (`checkActiveWithinTimeframe`) are function parameters, `monthKey` and `withinTimeframe`. `MonthlyActiveUsers` is the specification, a fold over the users. `GetMonthlyActiveUsers` and `CollectActiveTimestamps` are the loops, proved equal to `MonthlyActiveUsers` and `ActiveTimestamps` respectively. The lemmas say which users count, which month they count in, and what the counts add up to.

`option.dfy` holds the `Option` datatype shared by both modules.

Where the source's comments suggest otherwise, the model follows the code:

- The comment at active.ts:26 says only the first login timestamp of the month is stored. The code at active.ts:25-29 stores every login timestamp not already stored, in any month. So a login counts its user whatever month it falls in, and is not restricted to the last event's month.
- When a candidate warehouse exists, every trip must name it, including trips that name no warehouse.
- The shipment's point lists are compared by length only, never by membership.

## Model

| member | source | states |
|---|---|---|
| `ValidateTrip.Truthy` | validateTrip.ts:45 | definition: JavaScript truthiness of an optional warehouse name, false for a missing name and for `""`; the same test guards the candidate at line 7 |
| `ValidateTrip.TruthyWarehouses` | validateTrip.ts:43-48 | definition: the set of trip warehouse names that are present and not `""`, gathered trip by trip |
| `ValidateTrip.Candidate` | validateTrip.ts:49 | definition: the sole member of that set when it has exactly one member, otherwise no candidate |
| `ValidateTrip.AllTripsUseSameWarehouse` | validateTrip.ts:52-54 | definition: every trip's warehouse is present and equal to the given name, so a missing one or `""` fails |
| `ValidateTrip.AllPointsVisited` | validateTrip.ts:56-62 | definition: the visited set's size equals the required list's length; one predicate stands for both `allPickupsVisited` and `allDropPointsVisited` |
| `ValidateTrip.Assess` | validateTrip.ts:1-40 | definition: the verdict of `validateTrips`, `WarehouseMismatch` when a truthy candidate exists and some trip does not name it, otherwise the point checks |
| `ValidateTrip.PointsVerdict` | validateTrip.ts:11-37 | definition: in order, a repeated pickup, an empty or wrongly sized pickup set, a repeated drop point, an empty or wrongly sized drop set, else `Accepted` |
| `ValidateTrip.ValidateTrips` | validateTrip.ts:1-40 | the procedure returns true exactly when the specification's verdict is `Accepted` |
| `ValidateTrip.GetWarehouseFromTrips` | validateTrip.ts:42-50 | returns `Some(w)` exactly when the set of truthy trip warehouses is `{w}`, and `None` when that set does not have exactly one member |
| `ValidateTrip.CandidateIsSoleTruthyWarehouse` | validateTrip.ts:42-50 | the candidate is `w` if and only if the truthy warehouses are `{w}` |
| `ValidateTrip.TruthyWarehousesMembers` | validateTrip.ts:44-48 | a name is collected if and only if some trip names it and it is not `""` |
| `ValidateTrip.NoCandidateIff` | validateTrip.ts:49 | there is no candidate exactly when the number of distinct truthy warehouses is not 1 |
| `ValidateTrip.CandidateIsTruthy` | validateTrip.ts:45-49 | a candidate is never `""`, so the truthiness test on it is passed whenever one exists |
| `ValidateTrip.CollectVisited` | validateTrip.ts:11-19 | the nested scan succeeds exactly when the concatenated points of all trips are pairwise distinct, and then the visited set is their set of elements |
| `ValidateTrip.DuplicateInScan` | validateTrip.ts:13-15 | a point of trip `i` already visited by the scan is a repeat in the concatenation of all trips' points |
| `ValidateTrip.AcceptedIff` | validateTrip.ts:1-62 | accepted if and only if warehouses are consistent and, for both kinds, the points are pairwise distinct, non-empty and as many as the shipment lists |
| `ValidateTrip.RepeatedPoint` | validateTrip.ts:12-19 | a point listed twice, in one trip or in two, makes the concatenated scan non-distinct (pickup or drop) |
| `ValidateTrip.DuplicatePointRejects` | validateTrip.ts:12-19 | a point listed twice, in one trip or in two, makes the plan rejected, for any shipment (pickup or drop) |
| `ValidateTrip.AcceptedMeansDistinctAndCounted` | validateTrip.ts:12-37 | an accepted plan's points are pairwise distinct, at least one, and their count (and the visited set's size) equals the shipment's list length, for both kinds |
| `ValidateTrip.NoPickupsRejects` | validateTrip.ts:21-23 | when no trip lists a pickup point, including an empty trip list, the plan is rejected |
| `ValidateTrip.EmptyShipmentPickupsRejects` | validateTrip.ts:21-23 | a shipment with no pickup points is never accepted |
| `ValidateTrip.WarehouseMismatchRejects` | validateTrip.ts:6-9 | with a candidate `w`, a trip naming another warehouse, `""` or none makes the verdict `WarehouseMismatch` |
| `ValidateTrip.WarehousesIgnoredWithoutCandidate` | validateTrip.ts:4-9 | with zero or several distinct truthy warehouses the verdict equals that of the same trips with all warehouses removed |
| `ValidateTrip.OnlyLengthsCompared` | validateTrip.ts:56-62 | two shipments whose pickup lists, and whose drop lists, have equal lengths get the same verdict for any trips |
| `ValidateTrip.ShipmentWarehouseIgnored` | validateTrip.ts:1-40 | the verdict does not depend on the shipment's warehouse |
| `ValidateTrip.FixtureExactSingleTrip` | validateTrip.ts:78-89 | one trip with exactly A, B, C and X, Y, Z is accepted |
| `ValidateTrip.FixtureMissingPickup` | validateTrip.ts:90-101 | a trip missing pickup B is rejected for missing pickups |
| `ValidateTrip.FixtureDuplicatePickup` | validateTrip.ts:102-113 | a trip listing A twice is rejected as a duplicate pickup |
| `ValidateTrip.FixtureMultipleTrips` | validateTrip.ts:114-128 | trips A, B / X and C / Y, Z together are accepted |
| `ValidateTrip.CountNotMembership` | validateTrip.ts:56-58 | a trip visiting A, B, D is accepted for a shipment listing A, B, C: only counts are compared |
| `ValidateTrip.EmptyWarehouseMismatches` | validateTrip.ts:42-54 | trips with `"W1"` and `""` have candidate `"W1"` and fail the warehouse check |
| `ValidateTrip.TwoWarehousesSkipCheck` | validateTrip.ts:49 | trips with `"W1"` and `"W2"` have no candidate, and an otherwise exact plan is accepted |
| `Active.LastMonth` | active.ts:30 | definition: the month key of the user's last listed event, whatever its kind; only needed when the user has events |
| `Active.Qualifies` | active.ts:25-35 | definition: an event qualifies if it is a login, or a logout or last-seen event in the last event's month that passes the window test |
| `Active.Collect` | active.ts:22-37 | definition: the active timestamps in list order; a login timestamp already present is skipped, a qualifying logout or last-seen timestamp is always appended |
| `Active.ActiveTimestamps` | active.ts:20-37 | definition: `Collect` over the user's events against their last month, and nothing for a user without events |
| `Active.ActiveMonth` | active.ts:39-41 | definition: the month key of the first active timestamp, or none when there is none |
| `Active.CountOf` | active.ts:41 | definition: the stored count of a month, or 0 when it is absent (the source's "or 0" default) |
| `Active.MonthlyActiveUsers` | active.ts:18-46 | definition: users folded in list order, each counted user adding 1 to the count of their month |
| `Active.GetMonthlyActiveUsers` | active.ts:1-47 | the loop's map equals the fold `MonthlyActiveUsers` over all users |
| `Active.CollectActiveTimestamps` | active.ts:19-37 | the per-user scan yields the user's active timestamps, and none for a user without events |
| `Active.CollectMembers` | active.ts:22-37 | a timestamp is collected if and only if some event with that timestamp qualifies |
| `Active.CollectNonEmpty` | active.ts:22-37 | something is collected if and only if some event qualifies |
| `Active.CollectFirst` | active.ts:22-37 | the first collected timestamp is that of the first qualifying event |
| `Active.UserCountedIff` | active.ts:22-43 | a user is counted if and only if they have events and one qualifies against the month of their last listed event |
| `Active.LoginAlwaysCounts` | active.ts:25-29 | any `logged_in` event counts its user, whatever its month |
| `Active.WithoutLoginsOnlyWindowEventsCount` | active.ts:30-35 | without logins, a user counts if and only if a `logged_out`/`lastSeenAt` event is in the last event's month and passes the window test |
| `Active.OtherKindsNeverCount` | active.ts:25-36 | a user whose events are all of other kinds is not counted |
| `Active.AttributedToFirstQualifying` | active.ts:39-43 | a counted user is attributed to the month of their first qualifying event |
| `Active.MonthlyEmpty` | active.ts:18-46 | no users give an empty map |
| `Active.MonthlyCountsUsers` | active.ts:39-43 | each month's count equals the number of users attributed to it, and a month is present if and only if that number is positive |
| `Active.MonthlyCountsPositive` | active.ts:41-42 | every stored count is at least 1 |
| `Active.UserAddsAtMostOne` | active.ts:39-43 | one more user adds 1 to the month they are attributed to, and changes no other month |
| `Active.MonthlyTotal` | active.ts:18-44 | the counts sum to the number of counted users, which is at most the number of users |
| `Active.LastSeenInWindowCounts` | active.ts:30-43 | a sole `lastSeenAt` inside the window gives the map `{month: 1}` |
| `Active.FirstQualifyingMonthWins` | active.ts:39-42 | a login in one month followed by a last event in another month is counted in the login's month |

## Left out

- The console test runner (validateTrip.ts:132-139) writes output only. Its fixtures are the four `Fixture…` lemmas.
- `validateTrips` writes the duplicate scan twice, once per point kind. The model has one method, `CollectVisited`, parameterised by `PointKind`. The scan order and the early return are the same.
- `getMonthlyActiveUsers` runs its inner loop inline. The model moves that loop into `CollectActiveTimestamps`, called once per user.
- The month key is a parameter. The UTC `YYYY-MM` formatting of `toISOString` is not modelled, and the parameter is total. A timestamp outside JavaScript's date range makes `toISOString` throw, and the model does not capture that error.
- The window test is a parameter. Its local-time-zone date arithmetic (`getFullYear`, `getMonth`, `setDate`, parsing `"YYYY-MM-01"`) depends on the host. So no property about where the window lies is proved.
- Timestamps are mathematical integers. Fractional or non-finite JavaScript numbers are not modelled.
- The de-duplication of login timestamps is modelled, but no property depending on the number of collected timestamps beyond "at least one" is stated.
- `userId` is read but never used, as in the source (active.ts:19). Users with the same id are counted separately.
- `GetMonthlyActiveUsers`: the result map's key order (insertion order) is not modelled. The source returns a JavaScript `Map`, whose iteration order is the order in which each month was first counted; Dafny's `map` is unordered.
- Both operations are pure functions of their inputs in the model, so calling them twice on the same input gives the same result by construction. No separate lemma states that.
