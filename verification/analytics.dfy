/**
 * The analytics controller: per-period completion buckets, per-habit performance with
 * its streak, and the dashboard snapshot. The database's `find` calls are filters over
 * the log collection; "now" is a parameter.
 */
module Analytics {
  import opened Wrappers
  import opened Calendar
  import opened Percentages
  import opened Models
  import opened Seqs
  import opened Sorting

  // ---------------------------------------------------------------------------
  // Period keys and windows
  // ---------------------------------------------------------------------------

  datatype Period = Daily | Weekly | Monthly | Yearly

  /**
   * A bucket key. Day and week keys are ISO dates (`YYYY-MM-DD`), month keys `YYYY-MM`,
   * year keys `YYYY`; each is kept as the calendar values it is written from.
   */
  datatype PeriodKey = DateKey(date: Civil) | MonthKey(year: int, month: int) | YearKey(year: int)

  /** The key a log dated t is counted under. */
  function KeyOf(period: Period, t: int): (k: PeriodKey)
    ensures k.DateKey? <==> period == Daily || period == Weekly
    ensures k.MonthKey? <==> period == Monthly
    ensures k.MonthKey? ==> 1 <= k.month <= 12
  {
    var d := DayNumber(t);
    match period
    case Daily => DateKey(CivilFromDays(d))
    case Weekly => DateKey(CivilFromDays(WeekStart(d)))
    case Monthly => var c := CivilFromDays(d); MonthKey(c.year, c.month)
    case Yearly => YearKey(CivilFromDays(d).year)
  }

  /** Two logs share a day bucket exactly when they fall on the same day. */
  lemma DailyKeySameDay(t1: int, t2: int)
    ensures KeyOf(Daily, t1) == KeyOf(Daily, t2) <==> DayNumber(t1) == DayNumber(t2)
  {
    if KeyOf(Daily, t1) == KeyOf(Daily, t2) {
      CivilInjective(DayNumber(t1), DayNumber(t2));
    }
  }

  /** A week key names the Sunday on or before the log's day. */
  lemma WeeklyKeyIsSunday(t: int)
    ensures KeyOf(Weekly, t).DateKey?
    ensures var s := DaysFromCivil(KeyOf(Weekly, t).date);
            Weekday(s) == 0 && s <= DayNumber(t) <= s + 6
  {
  }

  /** Two logs share a week bucket exactly when they fall in the same Sunday-to-Saturday week. */
  lemma WeeklyKeySameWeek(t1: int, t2: int)
    ensures KeyOf(Weekly, t1) == KeyOf(Weekly, t2) <==> WeekStart(DayNumber(t1)) == WeekStart(DayNumber(t2))
  {
    if KeyOf(Weekly, t1) == KeyOf(Weekly, t2) {
      CivilInjective(WeekStart(DayNumber(t1)), WeekStart(DayNumber(t2)));
    }
  }

  /** A month key is a real month, and a year key is the year of that same date. */
  lemma MonthAndYearKeys(t: int)
    ensures KeyOf(Monthly, t).MonthKey? && 1 <= KeyOf(Monthly, t).month <= 12
    ensures KeyOf(Yearly, t) == YearKey(KeyOf(Monthly, t).year)
    ensures KeyOf(Monthly, t).year == KeyOf(Daily, t).date.year
  {
  }

  /** The bucket key of a log, by its date. */
  function LogKey(period: Period): HabitLog -> PeriodKey
  {
    (l: HabitLog) => KeyOf(period, l.date)
  }

  /** The lookback used when the query leaves it out: 30 days, 12 weeks, 12 months, 3 years. */
  function DefaultLookback(period: Period): (n: int)
    ensures n > 0
  {
    match period
    case Daily => 30
    case Weekly => 12
    case Monthly => 12
    case Yearly => 3
  }

  /** `const { days = 30 } = req.query`: a value that is sent wins, 0 included; only a missing one defaults. */
  function LookbackOr(period: Period, lookback: Option<int>): (n: int)
    ensures lookback.Some? ==> n == lookback.value
    ensures lookback.None? ==> n == DefaultLookback(period) && n > 0
  {
    if lookback.Some? then lookback.value else DefaultLookback(period)
  }

  /** The first instant counted: midnight, n days / weeks / months / years before now. */
  function WindowStart(period: Period, now: int, n: int): (start: int)
    ensures IsMidnight(start)
    ensures period == Daily ==> DayNumber(start) == DayNumber(now) - n
    ensures period == Weekly ==> DayNumber(start) == DayNumber(now) - 7 * n
  {
    match period
    case Daily => (DayNumber(now) - n) * MsPerDay
    case Weekly => (DayNumber(now) - n * 7) * MsPerDay
    case Monthly => MonthsBefore(now, n)
    case Yearly => YearsBefore(now, n)
  }

  /**
   * A lookback of 0 opens the window at today's midnight, and a longer lookback opens it
   * strictly earlier, for every period.
   */
  lemma WindowStartOrder(period: Period, now: int, n1: int, n2: int)
    ensures WindowStart(period, now, 0) == Midnight(now)
    ensures n1 < n2 ==> WindowStart(period, now, n2) < WindowStart(period, now, n1)
  {
    match period
    case Daily =>
    case Weekly =>
    case Monthly =>
      MonthsBeforeOrder(now, n1, n2);
    case Yearly =>
      YearsAreTwelveMonths(now, 0);
      YearsAreTwelveMonths(now, n1);
      YearsAreTwelveMonths(now, n2);
      MonthsBeforeOrder(now, 12 * n1, 12 * n2);
  }

  /**
   * The windows a request without a lookback gets: the last 30 days, the last 84 days,
   * 12 months back, and 3 years (36 months) back; each opens before today.
   */
  lemma DefaultWindows(now: int)
    ensures DayNumber(WindowStart(Daily, now, LookbackOr(Daily, None))) == DayNumber(now) - 30
    ensures DayNumber(WindowStart(Weekly, now, LookbackOr(Weekly, None))) == DayNumber(now) - 84
    ensures WindowStart(Monthly, now, LookbackOr(Monthly, None)) == MonthsBefore(now, 12)
    ensures WindowStart(Yearly, now, LookbackOr(Yearly, None)) == MonthsBefore(now, 36)
    ensures forall p :: WindowStart(p, now, LookbackOr(p, None)) < Midnight(now)
  {
    YearsAreTwelveMonths(now, 3);
    forall p ensures WindowStart(p, now, LookbackOr(p, None)) < Midnight(now) {
      WindowStartOrder(p, now, 0, LookbackOr(p, None));
    }
  }

  /** `HabitLog.find({ userId, date: { $gte: start } })`. */
  function Window(logs: seq<HabitLog>, user: Id, start: int): (w: seq<HabitLog>)
    ensures forall l :: l in w <==> l in logs && l.userId == user && l.date >= start
  {
    Filter(logs, (l: HabitLog) => l.userId == user && l.date >= start)
  }

  // ---------------------------------------------------------------------------
  // Bucketing
  // ---------------------------------------------------------------------------

  /** A bucket's counters. */
  datatype Tally = Tally(completed: nat, total: nat)

  /** The tally t after counting log l towards bucket k. */
  function Counted(t: Tally, l: HabitLog, key: HabitLog -> PeriodKey, k: PeriodKey): Tally
  {
    if key(l) != k then t
    else Tally(t.completed + (if l.completed then 1 else 0), t.total + 1)
  }

  /** How many of the logs fall in bucket k, and how many of those are completed. */
  function BucketTally(logs: seq<HabitLog>, key: HabitLog -> PeriodKey, k: PeriodKey): (t: Tally)
    ensures t.completed <= t.total <= |logs|
    decreases |logs|
  {
    if logs == [] then Tally(0, 0)
    else Counted(BucketTally(logs[..|logs| - 1], key, k), logs[|logs| - 1], key, k)
  }

  /** A bucket is non-empty exactly when some log is keyed to it. */
  lemma {:induction false} BucketTallyNonEmpty(logs: seq<HabitLog>, key: HabitLog -> PeriodKey, k: PeriodKey)
    ensures BucketTally(logs, key, k).total > 0 <==> exists i :: 0 <= i < |logs| && key(logs[i]) == k
    decreases |logs|
  {
    if logs != [] {
      var n := |logs| - 1;
      var before := logs[..n];
      BucketTallyNonEmpty(before, key, k);
      assert BucketTally(logs, key, k) == Counted(BucketTally(before, key, k), logs[n], key, k);
      if BucketTally(before, key, k).total > 0 {
        var i :| 0 <= i < |before| && key(before[i]) == k;
        assert logs[i] == before[i];
      } else if key(logs[n]) != k {
        forall i | 0 <= i < |logs| ensures key(logs[i]) != k {
          if i < n {
            assert before[i] == logs[i];
          }
        }
      }
    }
  }

  lemma BucketTallyStep(logs: seq<HabitLog>, i: nat, key: HabitLog -> PeriodKey, k: PeriodKey)
    requires i < |logs|
    ensures BucketTally(logs[..i + 1], key, k) == Counted(BucketTally(logs[..i], key, k), logs[i], key, k)
  {
    assert logs[..i + 1][..i] == logs[..i];
  }

  /** The sum of the totals of the buckets named in keys. */
  ghost function SumOver(buckets: map<PeriodKey, Tally>, keys: set<PeriodKey>): nat
    requires keys <= buckets.Keys
  {
    if keys == {} then 0
    else
      var k :| k in keys;
      buckets[k].total + SumOver(buckets, keys - {k})
  }

  /** The sum of all bucket totals. */
  ghost function SumTotals(buckets: map<PeriodKey, Tally>): nat
  {
    SumOver(buckets, buckets.Keys)
  }

  /** The sum does not depend on which bucket is taken out first. */
  lemma {:induction false} SumOverRemove(buckets: map<PeriodKey, Tally>, keys: set<PeriodKey>, k: PeriodKey)
    requires keys <= buckets.Keys && k in keys
    ensures SumOver(buckets, keys) == buckets[k].total + SumOver(buckets, keys - {k})
    decreases keys
  {
    var j :| j in keys && SumOver(buckets, keys) == buckets[j].total + SumOver(buckets, keys - {j});
    if j != k {
      SumOverRemove(buckets, keys - {j}, k);
      SumOverRemove(buckets, keys - {k}, j);
      assert keys - {j} - {k} == keys - {k} - {j};
    }
  }

  /** Sums over the same keys agree when the totals there agree. */
  lemma {:induction false} SumOverSame(a: map<PeriodKey, Tally>, b: map<PeriodKey, Tally>, keys: set<PeriodKey>)
    requires keys <= a.Keys && keys <= b.Keys
    requires forall k :: k in keys ==> a[k].total == b[k].total
    ensures SumOver(a, keys) == SumOver(b, keys)
    decreases keys
  {
    if keys != {} {
      var j :| j in keys && SumOver(a, keys) == a[j].total + SumOver(a, keys - {j});
      SumOverRemove(b, keys, j);
      SumOverSame(a, b, keys - {j});
    }
  }

  /** Replacing one bucket changes the sum by the difference of the two totals. */
  lemma SumTotalsUpdate(buckets: map<PeriodKey, Tally>, k: PeriodKey, t: Tally)
    ensures SumTotals(buckets[k := t]) + (if k in buckets then buckets[k].total else 0)
            == SumTotals(buckets) + t.total
  {
    var updated := buckets[k := t];
    SumOverRemove(updated, updated.Keys, k);
    assert updated.Keys - {k} == buckets.Keys - {k};
    SumOverSame(updated, buckets, buckets.Keys - {k});
    if k in buckets {
      SumOverRemove(buckets, buckets.Keys, k);
    } else {
      assert buckets.Keys - {k} == buckets.Keys;
    }
  }

  /**
   * The `forEach` pass of the four bucketers: one bucket per key that occurs, holding
   * exactly its logs' counts; every log is counted once, so the totals add up to |logs|.
   */
  method GroupBy(logs: seq<HabitLog>, key: HabitLog -> PeriodKey) returns (buckets: map<PeriodKey, Tally>)
    ensures forall k :: k in buckets <==> exists i :: 0 <= i < |logs| && key(logs[i]) == k
    ensures forall k :: k in buckets ==> buckets[k] == BucketTally(logs, key, k)
    ensures forall k :: k in buckets ==> 1 <= buckets[k].total && buckets[k].completed <= buckets[k].total
    ensures SumTotals(buckets) == |logs|
  {
    buckets := map[];
    var i := 0;
    while i < |logs|
      invariant 0 <= i <= |logs|
      invariant forall k :: k in buckets <==> BucketTally(logs[..i], key, k).total > 0
      invariant forall k :: k in buckets ==> buckets[k] == BucketTally(logs[..i], key, k)
      invariant SumTotals(buckets) == i
    {
      var k := key(logs[i]);
      var t := if k in buckets then buckets[k] else Tally(0, 0);
      var next := Tally(t.completed + (if logs[i].completed then 1 else 0), t.total + 1);
      SumTotalsUpdate(buckets, k, next);
      var updated := buckets[k := next];
      forall k' ensures k' in updated <==> BucketTally(logs[..i + 1], key, k').total > 0 {
        BucketTallyStep(logs, i, key, k');
      }
      forall k' | k' in updated ensures updated[k'] == BucketTally(logs[..i + 1], key, k') {
        BucketTallyStep(logs, i, key, k');
      }
      buckets := updated;
      i := i + 1;
    }
    assert logs[..i] == logs;
    forall k ensures k in buckets <==> exists i :: 0 <= i < |logs| && key(logs[i]) == k {
      BucketTallyNonEmpty(logs, key, k);
    }
  }

  /** A bucket as sent to the client. */
  datatype Summary = Summary(completed: nat, total: nat, percentage: nat)

  /** The percentage pass: each bucket keeps its counts and gains its rounded percentage. */
  function WithPercentages(buckets: map<PeriodKey, Tally>): (data: map<PeriodKey, Summary>)
    ensures data.Keys == buckets.Keys
    ensures forall k :: k in data ==>
              && data[k].completed == buckets[k].completed
              && data[k].total == buckets[k].total
              && data[k].percentage == Percent(buckets[k].completed, buckets[k].total)
  {
    map k | k in buckets :: Summary(buckets[k].completed, buckets[k].total,
                                    Percent(buckets[k].completed, buckets[k].total))
  }

  /**
   * `getDailyAnalytics`, `getWeeklyAnalytics`, `getMonthlyAnalytics`, `getYearlyAnalytics`:
   * the requester's logs from the window start on, bucketed by period. Only periods with
   * at least one log appear; each bucket's counts are its logs' counts and its
   * percentage is their rounded ratio, within [0, 100].
   */
  method PeriodAnalytics(logs: seq<HabitLog>, user: Id, now: int, period: Period, lookback: Option<int>)
    returns (data: map<PeriodKey, Summary>)
    ensures var w := Window(logs, user, WindowStart(period, now, LookbackOr(period, lookback)));
            && (forall k :: k in data <==> exists i :: 0 <= i < |w| && KeyOf(period, w[i].date) == k)
            && (forall k :: k in data ==>
                  && data[k].completed == BucketTally(w, LogKey(period), k).completed
                  && data[k].total == BucketTally(w, LogKey(period), k).total
                  && 1 <= data[k].total
                  && data[k].percentage == Percent(data[k].completed, data[k].total)
                  && data[k].percentage <= 100)
  {
    var start := WindowStart(period, now, LookbackOr(period, lookback));
    var w := Window(logs, user, start);
    var buckets := GroupBy(w, LogKey(period));
    data := WithPercentages(buckets);
    forall k | k in data
      ensures data[k].percentage <= 100
    {
      PercentBounds(data[k].completed, data[k].total);
    }
  }

  // ---------------------------------------------------------------------------
  // Streak and per-habit performance
  // ---------------------------------------------------------------------------

  predicate IsCompleted(l: HabitLog)
  {
    l.completed
  }

  function CompletedCount(logs: seq<HabitLog>): (n: nat)
    ensures n <= |logs|
  {
    |Filter(logs, IsCompleted)|
  }

  /** The length of the longest run of completed logs at the front of s. */
  function LeadingCompleted(s: seq<HabitLog>): (n: nat)
    ensures n <= |s|
    ensures forall i :: 0 <= i < n ==> s[i].completed
    ensures n < |s| ==> !s[n].completed
  {
    if s == [] || !s[0].completed then 0 else 1 + LeadingCompleted(s[1..])
  }

  /** A run of completed logs is no longer than the number of completed logs. */
  lemma {:induction false} LeadingCompletedAtMostCompleted(s: seq<HabitLog>)
    ensures LeadingCompleted(s) <= CompletedCount(s)
    decreases |s|
  {
    if s != [] && s[0].completed {
      LeadingCompletedAtMostCompleted(s[1..]);
    }
  }

  /**
   * `calculateStreak`: 0 for no logs; otherwise the logs are sorted newest first, in
   * place, and the streak is the number of completed logs before the first one that is not.
   */
  method CalculateStreak(logs: array<HabitLog>) returns (streak: nat)
    modifies logs
    ensures SortedDesc(logs[..], DateOf)
    ensures multiset(logs[..]) == old(multiset(logs[..]))
    ensures SameKeyOrder(logs[..], old(logs[..]), DateOf)
    ensures streak == LeadingCompleted(logs[..])
  {
    if logs.Length == 0 {
      return 0;
    }
    SortDescending(logs, DateOf);
    streak := 0;
    var i := 0;
    while i < logs.Length
      invariant 0 <= i <= logs.Length && streak == i
      invariant forall j :: 0 <= j < i ==> logs[j].completed
    {
      if logs[i].completed {
        streak := streak + 1;
      } else {
        break;
      }
      i := i + 1;
    }
  }

  /** When no two logs share a date the sort order is unique, and so is the streak. */
  lemma StreakDeterminedByDates(a: seq<HabitLog>, p: seq<HabitLog>)
    requires SortedDesc(a, DateOf) && StrictlyDesc(p, DateOf)
    requires multiset(a) == multiset(p)
    ensures LeadingCompleted(a) == LeadingCompleted(p)
  {
    SortedPermutationUnique(a, p, DateOf);
  }

  /** One habit's row in the performance report. */
  datatype Performance = Performance(
    habitId: Id,
    name: string,
    color: string,
    icon: string,
    category: string,
    completed: nat,
    total: nat,
    percentage: nat,
    streak: nat)

  /** `Habit.find({ userId })`. */
  function UserHabits(habits: seq<Habit>, user: Id): (r: seq<Habit>)
    ensures forall h :: h in r <==> h in habits && h.userId == user
  {
    Filter(habits, (h: Habit) => h.userId == user)
  }

  /** `HabitLog.find({ habitId, userId })`. */
  function HabitLogsOf(logs: seq<HabitLog>, habitId: Id, user: Id): (r: seq<HabitLog>)
    ensures forall l :: l in r <==> l in logs && l.habitId == habitId && l.userId == user
  {
    Filter(logs, (l: HabitLog) => l.habitId == habitId && l.userId == user)
  }

  /**
   * The streak of hl sorted newest first by a stable sort: logs of the same date keep
   * the order they were found in. Such an order is unique (Sorting.StableSortUnique), and
   * PerformanceOf shows that it exists.
   */
  ghost function StableStreak(hl: seq<HabitLog>): nat
  {
    if exists p :: SortedDesc(p, DateOf) && SameKeyOrder(p, hl, DateOf) then
      var p :| SortedDesc(p, DateOf) && SameKeyOrder(p, hl, DateOf);
      LeadingCompleted(p)
    else
      0
  }

  /** Every stable newest-first order of hl gives the stable streak. */
  lemma StableStreakOf(hl: seq<HabitLog>, q: seq<HabitLog>)
    requires SortedDesc(q, DateOf) && SameKeyOrder(q, hl, DateOf)
    ensures StableStreak(hl) == LeadingCompleted(q)
  {
    forall p | SortedDesc(p, DateOf) && SameKeyOrder(p, hl, DateOf)
      ensures LeadingCompleted(p) == LeadingCompleted(q)
    {
      StableSortUnique(p, q, DateOf);
    }
  }

  /**
   * What a performance row says about habit h whose logs are hl. The streak is the
   * streak of hl stably sorted newest first; when the dates in hl are distinct every
   * newest-first order gives that same streak.
   */
  ghost predicate Describes(e: Performance, h: Habit, hl: seq<HabitLog>)
  {
    && e.habitId == h.id && e.name == h.name && e.color == h.color
    && e.icon == h.icon && e.category == h.category
    && e.completed == CompletedCount(hl)
    && e.total == |hl|
    && e.completed <= e.total
    && e.percentage == Percent(e.completed, e.total) && e.percentage <= 100
    && e.streak <= e.completed
    && e.streak == StableStreak(hl)
    && (forall p :: StrictlyDesc(p, DateOf) && multiset(p) == multiset(hl) ==> e.streak == LeadingCompleted(p))
  }

  /** The row for habit h, whose logs are hl. */
  method PerformanceOf(h: Habit, hl: seq<HabitLog>) returns (entry: Performance)
    ensures Describes(entry, h, hl)
    ensures exists p :: SortedDesc(p, DateOf) && SameKeyOrder(p, hl, DateOf) && entry.streak == LeadingCompleted(p)
  {
    var completed := CompletedCount(hl);
    var total := |hl|;
    var percentage := Percent(completed, total);
    PercentBounds(completed, total);
    var sorted := new HabitLog[total](j requires 0 <= j < total => hl[j]);
    assert sorted[..] == hl;
    var streak := CalculateStreak(sorted);
    LeadingCompletedAtMostCompleted(sorted[..]);
    FilterPermutation(sorted[..], hl, IsCompleted);
    forall p | StrictlyDesc(p, DateOf) && multiset(p) == multiset(hl)
      ensures streak == LeadingCompleted(p)
    {
      StreakDeterminedByDates(sorted[..], p);
    }
    StableStreakOf(hl, sorted[..]);
    entry := Performance(h.id, h.name, h.color, h.icon, h.category, completed, total, percentage, streak);
  }

  /** Row i of rows describes habit i of mine, for every i. */
  ghost predicate DescribesAll(rows: seq<Performance>, mine: seq<Habit>, logs: seq<HabitLog>, user: Id)
    decreases |rows|
  {
    && |rows| == |mine|
    && (rows != [] ==>
          && DescribesAll(rows[..|rows| - 1], mine[..|mine| - 1], logs, user)
          && Describes(rows[|rows| - 1], mine[|mine| - 1], HabitLogsOf(logs, mine[|mine| - 1].id, user)))
  }

  lemma {:induction false} DescribesAllAt(rows: seq<Performance>, mine: seq<Habit>, logs: seq<HabitLog>, user: Id, i: nat)
    requires DescribesAll(rows, mine, logs, user) && i < |rows|
    ensures Describes(rows[i], mine[i], HabitLogsOf(logs, mine[i].id, user))
    decreases |rows|
  {
    if i < |rows| - 1 {
      DescribesAllAt(rows[..|rows| - 1], mine[..|mine| - 1], logs, user, i);
    }
  }

  /** DescribesAll, read row by row. */
  lemma DescribesEach(rows: seq<Performance>, mine: seq<Habit>, logs: seq<HabitLog>, user: Id)
    requires DescribesAll(rows, mine, logs, user)
    ensures |rows| == |mine|
    ensures forall i :: 0 <= i < |mine| ==> Describes(rows[i], mine[i], HabitLogsOf(logs, mine[i].id, user))
  {
    forall i | 0 <= i < |mine|
      ensures Describes(rows[i], mine[i], HabitLogsOf(logs, mine[i].id, user))
    {
      DescribesAllAt(rows, mine, logs, user, i);
    }
  }

  /** Appending the row of habit i keeps every row describing its habit. */
  lemma DescribesAllSnoc(rows: seq<Performance>, mine: seq<Habit>, i: nat, logs: seq<HabitLog>, user: Id,
                         e: Performance)
    requires i < |mine| && DescribesAll(rows, mine[..i], logs, user)
    requires Describes(e, mine[i], HabitLogsOf(logs, mine[i].id, user))
    ensures DescribesAll(rows + [e], mine[..i + 1], logs, user)
  {
    var r, m := rows + [e], mine[..i + 1];
    assert r[..|r| - 1] == rows && r[|r| - 1] == e;
    assert m[..|m| - 1] == mine[..i] && m[|m| - 1] == mine[i];
  }

  /** One turn of the loop over the habits: the row of habit i joins the rows before it. */
  method AppendRow(rows: seq<Performance>, mine: seq<Habit>, i: nat, logs: seq<HabitLog>, user: Id)
    returns (rows': seq<Performance>)
    requires i < |mine| && DescribesAll(rows, mine[..i], logs, user)
    ensures DescribesAll(rows', mine[..i + 1], logs, user)
  {
    var entry := PerformanceOf(mine[i], HabitLogsOf(logs, mine[i].id, user));
    DescribesAllSnoc(rows, mine, i, logs, user, entry);
    rows' := rows + [entry];
  }

  /** `getHabitPerformance`: one row per habit of the requester, in the order found. */
  method HabitPerformance(habits: seq<Habit>, logs: seq<HabitLog>, user: Id) returns (performance: seq<Performance>)
    ensures var mine := UserHabits(habits, user);
            && |performance| == |mine|
            && forall i :: 0 <= i < |mine| ==> Describes(performance[i], mine[i], HabitLogsOf(logs, mine[i].id, user))
  {
    var mine := UserHabits(habits, user);
    performance := [];
    var i := 0;
    while i < |mine|
      invariant 0 <= i <= |mine|
      invariant DescribesAll(performance, mine[..i], logs, user)
    {
      performance := AppendRow(performance, mine, i, logs, user);
      i := i + 1;
    }
    assert mine[..i] == mine;
    DescribesEach(performance, mine, logs, user);
  }

  // ---------------------------------------------------------------------------
  // Dashboard
  // ---------------------------------------------------------------------------

  datatype DashboardStats = DashboardStats(
    totalHabits: nat,
    completedToday: nat,
    totalLogsToday: nat,
    completedThisMonth: nat,
    todayPercentage: nat,
    monthPercentage: nat)

  /** `HabitLog.find({ userId, date: today })`: logs dated exactly today's midnight. */
  function TodayLogs(logs: seq<HabitLog>, user: Id, now: int): (r: seq<HabitLog>)
    ensures forall l :: l in r <==> l in logs && l.userId == user && l.date == Midnight(now)
  {
    Filter(logs, (l: HabitLog) => l.userId == user && l.date == Midnight(now))
  }

  /** Midnight of the first day of the month now falls in. */
  function MonthStart(now: int): (start: int)
    ensures IsMidnight(start)
    ensures Midnight(now) - 30 * MsPerDay <= start <= Midnight(now)
  {
    var c := CivilFromDays(DayNumber(now));
    FirstOfMonthBefore(DayNumber(now));
    DaysFromCivil(Civil(c.year, c.month, 1)) * MsPerDay
  }

  /** `HabitLog.find({ userId, date: { $gte: thisMonth } })`: no upper bound. */
  function MonthLogs(logs: seq<HabitLog>, user: Id, now: int): (r: seq<HabitLog>)
    ensures forall l :: l in r <==> l in logs && l.userId == user && l.date >= MonthStart(now)
  {
    Filter(logs, (l: HabitLog) => l.userId == user && l.date >= MonthStart(now))
  }

  /** Completed logs of the requester dated exactly today. */
  lemma CompletedTodayWithinMonth(logs: seq<HabitLog>, user: Id, now: int)
    ensures CompletedCount(TodayLogs(logs, user, now)) <= CompletedCount(MonthLogs(logs, user, now))
  {
    var today := (l: HabitLog) => l.userId == user && l.date == Midnight(now);
    var month := (l: HabitLog) => l.userId == user && l.date >= MonthStart(now);
    var todayDone := (l: HabitLog) => today(l) && IsCompleted(l);
    var monthDone := (l: HabitLog) => month(l) && IsCompleted(l);
    FilterFilter(logs, today, IsCompleted, todayDone);
    FilterFilter(logs, month, IsCompleted, monthDone);
    FilterWeaker(logs, todayDone, monthDone);
  }

  /** `getDashboardStats`. */
  function DashboardStatsOf(habits: seq<Habit>, logs: seq<HabitLog>, user: Id, now: int): (s: DashboardStats)
    ensures s.totalHabits == |UserHabits(habits, user)|
    ensures s.totalLogsToday == |TodayLogs(logs, user, now)|
    ensures s.completedToday == CompletedCount(TodayLogs(logs, user, now))
    ensures s.completedThisMonth == CompletedCount(MonthLogs(logs, user, now))
    ensures s.todayPercentage == Percent(s.completedToday, s.totalLogsToday)
    ensures s.monthPercentage == Percent(s.completedThisMonth, |MonthLogs(logs, user, now)|)
    ensures s.completedToday <= s.totalLogsToday
    ensures s.completedToday <= s.completedThisMonth
    ensures s.todayPercentage <= 100 && s.monthPercentage <= 100
    ensures s.totalLogsToday == 0 ==> s.todayPercentage == 0
    ensures |MonthLogs(logs, user, now)| == 0 ==> s.monthPercentage == 0 && s.completedThisMonth == 0
  {
    var todayLogs := TodayLogs(logs, user, now);
    var monthLogs := MonthLogs(logs, user, now);
    var completedToday := CompletedCount(todayLogs);
    var completedThisMonth := CompletedCount(monthLogs);
    PercentBounds(completedToday, |todayLogs|);
    PercentBounds(completedThisMonth, |monthLogs|);
    CompletedTodayWithinMonth(logs, user, now);
    DashboardStats(
      |UserHabits(habits, user)|,
      completedToday,
      |todayLogs|,
      completedThisMonth,
      Percent(completedToday, |todayLogs|),
      Percent(completedThisMonth, |monthLogs|))
  }

  /** Three logs today, two of them completed: the dashboard shows 67 percent for today. */
  lemma TodayTwoOfThree(habits: seq<Habit>, logs: seq<HabitLog>, user: Id, now: int)
    requires |TodayLogs(logs, user, now)| == 3 && CompletedCount(TodayLogs(logs, user, now)) == 2
    ensures DashboardStatsOf(habits, logs, user, now).todayPercentage == 67
  {
    TwoOfThree();
  }
}
