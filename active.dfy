/**
 * Monthly-active-user aggregator.
 *
 * For each user, the timestamps that make the user active are collected in
 * list order; a user with at least one adds 1 to the count of the month of
 * the first one. The month key of a timestamp (UTC "YYYY-MM") and the
 * end-of-month window test depend on the host's date library and time zone,
 * so both are parameters: `monthKey` and `withinTimeframe`.
 */
module Active {
  import opened Optional

  /** One entry of a user's log; `kind` is "logged_in", "logged_out", "lastSeenAt" or anything else. */
  datatype TimestampEvent = TimestampEvent(kind: string, timestamp: int)

  datatype UserDeviceEvent = UserDeviceEvent(userId: string, timestamps: seq<TimestampEvent>)

  /** The month key of an epoch-millisecond timestamp. */
  type MonthKeyFn = int -> string

  /** Whether a timestamp lies in the end-of-month window of the given month key. */
  type TimeframeFn = (int, string) -> bool

  /** The month key of a user's last listed event, whatever its kind. */
  function LastMonth(events: seq<TimestampEvent>, monthKey: MonthKeyFn): string
    requires |events| > 0
  {
    monthKey(events[|events| - 1].timestamp)
  }

  /** Whether an event makes its user active, given the month key of the user's last event. */
  predicate Qualifies(e: TimestampEvent, lastMonth: string, monthKey: MonthKeyFn, withinTimeframe: TimeframeFn)
  {
    || e.kind == "logged_in"
    || ((e.kind == "logged_out" || e.kind == "lastSeenAt")
        && monthKey(e.timestamp) == lastMonth
        && withinTimeframe(e.timestamp, monthKey(e.timestamp)))
  }

  /**
   * The active timestamps collected from `events` in order. A login timestamp
   * already collected is not added again; a logout or last-seen timestamp is
   * added whenever it qualifies.
   */
  function Collect(events: seq<TimestampEvent>, lastMonth: string, monthKey: MonthKeyFn, withinTimeframe: TimeframeFn): seq<int>
    decreases |events|
  {
    if events == [] then []
    else
      var active := Collect(events[..|events| - 1], lastMonth, monthKey, withinTimeframe);
      var e := events[|events| - 1];
      if e.kind == "logged_in" then
        if e.timestamp in active then active else active + [e.timestamp]
      else if (e.kind == "logged_out" || e.kind == "lastSeenAt") && monthKey(e.timestamp) == lastMonth then
        if withinTimeframe(e.timestamp, monthKey(e.timestamp)) then active + [e.timestamp] else active
      else active
  }

  /** A user's active timestamps; a user with no events has none. */
  function ActiveTimestamps(user: UserDeviceEvent, monthKey: MonthKeyFn, withinTimeframe: TimeframeFn): seq<int>
  {
    if |user.timestamps| == 0 then []
    else Collect(user.timestamps, LastMonth(user.timestamps, monthKey), monthKey, withinTimeframe)
  }

  /** The month a user is counted in: that of the first active timestamp, if any. */
  function ActiveMonth(user: UserDeviceEvent, monthKey: MonthKeyFn, withinTimeframe: TimeframeFn): Option<string>
  {
    var active := ActiveTimestamps(user, monthKey, withinTimeframe);
    if |active| > 0 then Some(monthKey(active[0])) else None
  }

  /** The result of getMonthlyActiveUsers: users folded into the map one at a time. */
  function MonthlyActiveUsers(data: seq<UserDeviceEvent>, monthKey: MonthKeyFn, withinTimeframe: TimeframeFn): map<string, nat>
    decreases |data|
  {
    if data == [] then map[]
    else
      var monthly := MonthlyActiveUsers(data[..|data| - 1], monthKey, withinTimeframe);
      match ActiveMonth(data[|data| - 1], monthKey, withinTimeframe)
      case None => monthly
      case Some(month) => monthly[month := CountOf(monthly, month) + 1]
  }

  /** The count stored for a month, 0 when absent (the `|| 0` of the source). */
  function CountOf(monthly: map<string, nat>, month: string): nat
  {
    if month in monthly then monthly[month] else 0
  }

  /** The inner scan of getMonthlyActiveUsers over one user's events. */
  method CollectActiveTimestamps(userEvent: UserDeviceEvent, monthKey: MonthKeyFn, withinTimeframe: TimeframeFn)
    returns (activeTimestamps: seq<int>)
    ensures activeTimestamps == ActiveTimestamps(userEvent, monthKey, withinTimeframe)
  {
    var events := userEvent.timestamps;
    activeTimestamps := [];
    if |events| == 0 {
      return;
    }
    ghost var lastMonth := LastMonth(events, monthKey);
    var e := 0;
    while e < |events|
      invariant 0 <= e <= |events|
      invariant activeTimestamps == Collect(events[..e], lastMonth, monthKey, withinTimeframe)
    {
      var timestampEvent := events[e];
      var monthYear := monthKey(timestampEvent.timestamp);
      if timestampEvent.kind == "logged_in" {
        if timestampEvent.timestamp !in activeTimestamps {
          activeTimestamps := activeTimestamps + [timestampEvent.timestamp];
        }
      } else if (timestampEvent.kind == "logged_out" || timestampEvent.kind == "lastSeenAt")
                && monthYear == monthKey(events[|events| - 1].timestamp) {
        var isActive := withinTimeframe(timestampEvent.timestamp, monthYear);
        if isActive {
          activeTimestamps := activeTimestamps + [timestampEvent.timestamp];
        }
      }
      assert events[..e + 1][..e] == events[..e];
      e := e + 1;
    }
    assert events[..e] == events;
  }

  method GetMonthlyActiveUsers(data: seq<UserDeviceEvent>, monthKey: MonthKeyFn, withinTimeframe: TimeframeFn)
    returns (monthlyActiveUsers: map<string, nat>)
    ensures monthlyActiveUsers == MonthlyActiveUsers(data, monthKey, withinTimeframe)
  {
    monthlyActiveUsers := map[];
    var u := 0;
    while u < |data|
      invariant 0 <= u <= |data|
      invariant monthlyActiveUsers == MonthlyActiveUsers(data[..u], monthKey, withinTimeframe)
    {
      var activeTimestamps := CollectActiveTimestamps(data[u], monthKey, withinTimeframe);
      if |activeTimestamps| > 0 {
        var month := monthKey(activeTimestamps[0]);
        var count := CountOf(monthlyActiveUsers, month);
        monthlyActiveUsers := monthlyActiveUsers[month := count + 1];
      }
      assert data[..u + 1][..u] == data[..u];
      u := u + 1;
    }
    assert data[..u] == data;
  }

  // ---------------------------------------------------------------------------
  // Which users count, and where
  // ---------------------------------------------------------------------------

  /** The collected timestamps are exactly those of the qualifying events. */
  lemma {:induction false} CollectMembers(events: seq<TimestampEvent>, lastMonth: string, monthKey: MonthKeyFn, withinTimeframe: TimeframeFn, t: int)
    ensures t in Collect(events, lastMonth, monthKey, withinTimeframe) <==>
              exists i :: 0 <= i < |events| && events[i].timestamp == t && Qualifies(events[i], lastMonth, monthKey, withinTimeframe)
    decreases |events|
  {
    if events != [] {
      var front := events[..|events| - 1];
      CollectMembers(front, lastMonth, monthKey, withinTimeframe, t);
      if exists i :: 0 <= i < |front| && front[i].timestamp == t && Qualifies(front[i], lastMonth, monthKey, withinTimeframe) {
        var i :| 0 <= i < |front| && front[i].timestamp == t && Qualifies(front[i], lastMonth, monthKey, withinTimeframe);
        assert events[i] == front[i];
      }
      if exists i :: 0 <= i < |events| && events[i].timestamp == t && Qualifies(events[i], lastMonth, monthKey, withinTimeframe) {
        var i :| 0 <= i < |events| && events[i].timestamp == t && Qualifies(events[i], lastMonth, monthKey, withinTimeframe);
        if i < |front| {
          assert front[i] == events[i];
        }
      }
    }
  }

  /** Something is collected exactly when some event qualifies. */
  lemma CollectNonEmpty(events: seq<TimestampEvent>, lastMonth: string, monthKey: MonthKeyFn, withinTimeframe: TimeframeFn)
    ensures |Collect(events, lastMonth, monthKey, withinTimeframe)| > 0 <==>
              exists i :: 0 <= i < |events| && Qualifies(events[i], lastMonth, monthKey, withinTimeframe)
  {
    var active := Collect(events, lastMonth, monthKey, withinTimeframe);
    if |active| > 0 {
      CollectMembers(events, lastMonth, monthKey, withinTimeframe, active[0]);
    }
    if exists i :: 0 <= i < |events| && Qualifies(events[i], lastMonth, monthKey, withinTimeframe) {
      var i :| 0 <= i < |events| && Qualifies(events[i], lastMonth, monthKey, withinTimeframe);
      CollectMembers(events, lastMonth, monthKey, withinTimeframe, events[i].timestamp);
    }
  }

  /** The first collected timestamp is that of the first qualifying event. */
  lemma {:induction false} CollectFirst(events: seq<TimestampEvent>, lastMonth: string, monthKey: MonthKeyFn, withinTimeframe: TimeframeFn, i: nat)
    requires i < |events| && Qualifies(events[i], lastMonth, monthKey, withinTimeframe)
    requires forall j :: 0 <= j < i ==> !Qualifies(events[j], lastMonth, monthKey, withinTimeframe)
    ensures |Collect(events, lastMonth, monthKey, withinTimeframe)| > 0
    ensures Collect(events, lastMonth, monthKey, withinTimeframe)[0] == events[i].timestamp
    decreases |events|
  {
    var front := events[..|events| - 1];
    if i == |events| - 1 {
      CollectNonEmpty(front, lastMonth, monthKey, withinTimeframe);
      assert forall j :: 0 <= j < |front| ==> front[j] == events[j];
    } else {
      assert forall j :: 0 <= j <= i ==> front[j] == events[j];
      CollectFirst(front, lastMonth, monthKey, withinTimeframe, i);
    }
  }

  /** A user is counted exactly when one of their events qualifies against their last event's month. */
  lemma UserCountedIff(user: UserDeviceEvent, monthKey: MonthKeyFn, withinTimeframe: TimeframeFn)
    ensures ActiveMonth(user, monthKey, withinTimeframe).Some? <==>
              |user.timestamps| > 0 &&
              exists i :: 0 <= i < |user.timestamps| &&
                Qualifies(user.timestamps[i], LastMonth(user.timestamps, monthKey), monthKey, withinTimeframe)
  {
    if |user.timestamps| > 0 {
      CollectNonEmpty(user.timestamps, LastMonth(user.timestamps, monthKey), monthKey, withinTimeframe);
    }
  }

  /** Any login counts its user, whichever month it falls in. */
  lemma LoginAlwaysCounts(user: UserDeviceEvent, monthKey: MonthKeyFn, withinTimeframe: TimeframeFn, i: nat)
    requires i < |user.timestamps| && user.timestamps[i].kind == "logged_in"
    ensures ActiveMonth(user, monthKey, withinTimeframe).Some?
  {
    CollectNonEmpty(user.timestamps, LastMonth(user.timestamps, monthKey), monthKey, withinTimeframe);
  }

  /**
   * A user without logins is counted only through a logout or last-seen event
   * that falls in the month of the user's last event and passes the window test.
   */
  lemma WithoutLoginsOnlyWindowEventsCount(user: UserDeviceEvent, monthKey: MonthKeyFn, withinTimeframe: TimeframeFn)
    requires forall i :: 0 <= i < |user.timestamps| ==> user.timestamps[i].kind != "logged_in"
    ensures ActiveMonth(user, monthKey, withinTimeframe).Some? <==>
              exists i :: 0 <= i < |user.timestamps| &&
                var e := user.timestamps[i];
                && (e.kind == "logged_out" || e.kind == "lastSeenAt")
                && monthKey(e.timestamp) == LastMonth(user.timestamps, monthKey)
                && withinTimeframe(e.timestamp, monthKey(e.timestamp))
  {
    UserCountedIff(user, monthKey, withinTimeframe);
  }

  /** A user whose events are all of other kinds is never counted. */
  lemma OtherKindsNeverCount(user: UserDeviceEvent, monthKey: MonthKeyFn, withinTimeframe: TimeframeFn)
    requires forall i :: 0 <= i < |user.timestamps| ==>
               user.timestamps[i].kind !in {"logged_in", "logged_out", "lastSeenAt"}
    ensures ActiveMonth(user, monthKey, withinTimeframe) == None
  {
    UserCountedIff(user, monthKey, withinTimeframe);
  }

  /** A counted user is attributed to the month of their first qualifying event. */
  lemma AttributedToFirstQualifying(user: UserDeviceEvent, monthKey: MonthKeyFn, withinTimeframe: TimeframeFn, i: nat)
    requires i < |user.timestamps|
    requires Qualifies(user.timestamps[i], LastMonth(user.timestamps, monthKey), monthKey, withinTimeframe)
    requires forall j :: 0 <= j < i ==> !Qualifies(user.timestamps[j], LastMonth(user.timestamps, monthKey), monthKey, withinTimeframe)
    ensures ActiveMonth(user, monthKey, withinTimeframe) == Some(monthKey(user.timestamps[i].timestamp))
  {
    CollectFirst(user.timestamps, LastMonth(user.timestamps, monthKey), monthKey, withinTimeframe, i);
  }

  // ---------------------------------------------------------------------------
  // The counts
  // ---------------------------------------------------------------------------

  /** How many of the users are attributed to `month`. */
  function UsersIn(data: seq<UserDeviceEvent>, month: string, monthKey: MonthKeyFn, withinTimeframe: TimeframeFn): nat
    decreases |data|
  {
    if data == [] then 0
    else
      UsersIn(data[..|data| - 1], month, monthKey, withinTimeframe)
      + (if ActiveMonth(data[|data| - 1], monthKey, withinTimeframe) == Some(month) then 1 else 0)
  }

  /** How many of the users are counted at all. */
  function ActiveUsers(data: seq<UserDeviceEvent>, monthKey: MonthKeyFn, withinTimeframe: TimeframeFn): nat
    decreases |data|
  {
    if data == [] then 0
    else
      ActiveUsers(data[..|data| - 1], monthKey, withinTimeframe)
      + (if ActiveMonth(data[|data| - 1], monthKey, withinTimeframe).Some? then 1 else 0)
  }

  /** The sum of the values of a map. */
  ghost function SumValues(m: map<string, nat>): nat
    decreases m.Keys
  {
    if m.Keys == {} then 0
    else
      var k :| k in m.Keys;
      m[k] + SumValues(m - {k})
  }

  /** The sum does not depend on which key is taken out first. */
  lemma {:induction false} SumValuesRemove(m: map<string, nat>, k: string)
    requires k in m
    ensures SumValues(m) == m[k] + SumValues(m - {k})
    decreases m.Keys
  {
    var chosen :| chosen in m.Keys && SumValues(m) == m[chosen] + SumValues(m - {chosen});
    if chosen != k {
      SumValuesRemove(m - {chosen}, k);
      SumValuesRemove(m - {k}, chosen);
      assert m - {chosen} - {k} == m - {k} - {chosen};
    }
  }

  /** No input yields an empty map. */
  lemma MonthlyEmpty(monthKey: MonthKeyFn, withinTimeframe: TimeframeFn)
    ensures MonthlyActiveUsers([], monthKey, withinTimeframe) == map[]
  {
  }

  /** Each month's count is the number of users attributed to it; months with none are absent. */
  lemma {:induction false} MonthlyCountsUsers(data: seq<UserDeviceEvent>, monthKey: MonthKeyFn, withinTimeframe: TimeframeFn, month: string)
    ensures month in MonthlyActiveUsers(data, monthKey, withinTimeframe) <==> UsersIn(data, month, monthKey, withinTimeframe) > 0
    ensures CountOf(MonthlyActiveUsers(data, monthKey, withinTimeframe), month) == UsersIn(data, month, monthKey, withinTimeframe)
    decreases |data|
  {
    if data != [] {
      MonthlyCountsUsers(data[..|data| - 1], monthKey, withinTimeframe, month);
    }
  }

  /** Every stored count is at least 1. */
  lemma MonthlyCountsPositive(data: seq<UserDeviceEvent>, monthKey: MonthKeyFn, withinTimeframe: TimeframeFn, month: string)
    requires month in MonthlyActiveUsers(data, monthKey, withinTimeframe)
    ensures MonthlyActiveUsers(data, monthKey, withinTimeframe)[month] >= 1
  {
    MonthlyCountsUsers(data, monthKey, withinTimeframe, month);
  }

  /** Adding a user adds 1 to the month they are attributed to, if any, and changes nothing else. */
  lemma UserAddsAtMostOne(data: seq<UserDeviceEvent>, user: UserDeviceEvent, monthKey: MonthKeyFn, withinTimeframe: TimeframeFn, month: string)
    ensures CountOf(MonthlyActiveUsers(data + [user], monthKey, withinTimeframe), month) ==
              CountOf(MonthlyActiveUsers(data, monthKey, withinTimeframe), month)
              + (if ActiveMonth(user, monthKey, withinTimeframe) == Some(month) then 1 else 0)
  {
    assert (data + [user])[..|data|] == data;
  }

  /** The counts add up to the number of counted users, so to at most the number of users. */
  lemma {:induction false} MonthlyTotal(data: seq<UserDeviceEvent>, monthKey: MonthKeyFn, withinTimeframe: TimeframeFn)
    ensures SumValues(MonthlyActiveUsers(data, monthKey, withinTimeframe)) == ActiveUsers(data, monthKey, withinTimeframe)
    ensures ActiveUsers(data, monthKey, withinTimeframe) <= |data|
    decreases |data|
  {
    if data != [] {
      var front := data[..|data| - 1];
      MonthlyTotal(front, monthKey, withinTimeframe);
      var monthly := MonthlyActiveUsers(front, monthKey, withinTimeframe);
      match ActiveMonth(data[|data| - 1], monthKey, withinTimeframe)
      case None =>
      case Some(month) =>
        var updated := monthly[month := CountOf(monthly, month) + 1];
        SumValuesRemove(updated, month);
        assert updated - {month} == monthly - {month};
        if month in monthly {
          SumValuesRemove(monthly, month);
        } else {
          assert monthly - {month} == monthly;
        }
    }
  }

  // ---------------------------------------------------------------------------
  // Examples
  // ---------------------------------------------------------------------------

  /** A last-seen event inside the window of the last month counts its user once, in that month. */
  lemma LastSeenInWindowCounts(userId: string, t: int, monthKey: MonthKeyFn, withinTimeframe: TimeframeFn)
    requires withinTimeframe(t, monthKey(t))
    ensures MonthlyActiveUsers([UserDeviceEvent(userId, [TimestampEvent("lastSeenAt", t)])], monthKey, withinTimeframe)
              == map[monthKey(t) := 1]
  {
    var user := UserDeviceEvent(userId, [TimestampEvent("lastSeenAt", t)]);
    AttributedToFirstQualifying(user, monthKey, withinTimeframe, 0);
    assert [user][..0] == [];
  }

  /** An earlier login in another month wins: the user is counted there, not in the last event's month. */
  lemma FirstQualifyingMonthWins(userId: string, t1: int, t2: int, monthKey: MonthKeyFn, withinTimeframe: TimeframeFn)
    requires monthKey(t1) != monthKey(t2)
    ensures var user := UserDeviceEvent(userId, [TimestampEvent("logged_in", t1), TimestampEvent("lastSeenAt", t2)]);
            ActiveMonth(user, monthKey, withinTimeframe) == Some(monthKey(t1)) &&
            LastMonth(user.timestamps, monthKey) == monthKey(t2)
  {
    var user := UserDeviceEvent(userId, [TimestampEvent("logged_in", t1), TimestampEvent("lastSeenAt", t2)]);
    AttributedToFirstQualifying(user, monthKey, withinTimeframe, 0);
  }
}
