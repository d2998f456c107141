# Habit tracker core, modelled in Dafny

This project models the core of a habit tracker. Users keep **habits**: a name, a category,
a frequency, a target and a few display fields. For each day they file a **habit log**
saying whether the habit was completed. The model covers five parts:

- **The two record schemas** (`models.dfy`): the field rules a record must meet to be saved,
  and the defaults that fill the fields a request leaves out.
- **The habit controller** (`store.dfy`): create, read, update and delete habits, including
  deleting a habit's logs along with it. It also files a log, merging into that day's log
  when one exists, and lists logs by query, newest first. The two collections are fields of
  a `Store` class, and each handler changes them in place.
- **The analytics controller** (`analytics.dfy`):
  - the daily, weekly, monthly and yearly completion buckets over a look-back window;
  - the streak of completed logs, newest first;
  - the per-habit performance rows;
  - the dashboard snapshot.
- **The client pages' derivations**:
  - the ranking and the overall rate on the analytics page (`analytics_page.dfy`);
  - the habit cards and the category pie chart on the dashboard (`dashboard_page.dfy`);
  - the search and category filter, and the category choices, on the habits page
    (`habits_page.dfy`);
  - the highlighted menu item, the user name and the avatar letter in the page frame
    (`layout.dfy`).
- **Shared support**:
  - calendar arithmetic from timestamps to civil dates and back (`calendar.dfy`);
  - rounded percentages (`percentages.dfy`);
  - sequence filters, first-index search, de-duplication and sums (`seqs.dfy`);
  - an in-place descending sort (`sorting.dfy`);
  - the string methods the code calls (`text.dfy`).

Timestamps are milliseconds since the Unix epoch. The model fixes the timezone to UTC, so
local midnight, `toISOString()` and `getFullYear()` all see the same calendar day. The
following are parameters rather than state:

- the requester's user id (set by the authentication middleware);
- the current time;
- for a new record, its fresh id (the store's `nextId` counter).

A create request whose name is only spaces passes the controller's `!name` test. The name
setter then trims it to the empty string, and the `required` validator refuses it. The
request therefore ends as a server error (500), not a bad request (400). `Store.CreateHabit`
states this outcome as the code produces it.

## Model

| member | source | states |
|---|---|---|
| Models.DefaultsAreValid | server/models/Habit.js:5-56 | a habit built from a trimmed name of 1 to 100 characters and the schema's own defaults passes every validator |
| Models.ValidHabit | server/models/Habit.js:10-48 | the schema rules: a stored name is non-empty and starts with no whitespace (trimmed, required, at most 100), with description length, category, frequency, target and unit rules |
| Models.ValidLog | server/models/HabitLog.js:28-37 | the schema rules: notes are at most 500 characters, and a mood is absent or one of the five listed |
| Models.StringOr | server/controllers/habitController.js:26-33 | `field \|\| fallback` for strings: a present non-empty value wins, an absent or empty one gives the fallback |
| Models.NumberOr | server/controllers/habitController.js:31 | `field \|\| fallback` for numbers: absent and 0 both give the fallback |
| Percentages.Percent | server/controllers/analyticsController.js:37-40 | 0 when the total is 0, otherwise the integer nearest 100·completed/total, halves rounded up |
| Percentages.PercentBounds | server/controllers/analyticsController.js:199 | a part of a whole is at most 100 percent; 100 exactly when everything is completed, 0 when nothing is |
| Calendar.Midnight | server/controllers/habitController.js:129-130 | `setHours(0,0,0,0)`: the start of the day, at most one day before t |
| Calendar.WeekStart | server/controllers/analyticsController.js:65-68 | the day at most 6 days back whose weekday is Sunday |
| Calendar.WeekStartUnique | server/controllers/analyticsController.js:65-68 | that Sunday is the only Sunday in the seven days ending at d |
| Calendar.CivilFromDays | server/controllers/analyticsController.js:21 | the calendar date of a day number is a valid date and converts back to the same day number |
| Calendar.CivilInjective | server/controllers/analyticsController.js:21 | different days have different calendar dates |
| Calendar.MonthFirstIncreasing | server/controllers/analyticsController.js:101 | the first of a later month (counting months past December into the next year) is a later day |
| Calendar.MonthsBeforeOrder | server/controllers/analyticsController.js:100-102 | going back 0 months gives today's midnight; going back more months gives a strictly earlier midnight |
| Calendar.YearsAreTwelveMonths | server/controllers/analyticsController.js:145-147 | `setFullYear(getFullYear() - k)` at midnight is the same instant as going back 12k months |
| Calendar.MonthsBefore | server/controllers/analyticsController.js:100-102 | `setMonth(getMonth() - k)` then `setHours(0,0,0,0)` lands on a midnight |
| Calendar.YearsBefore | server/controllers/analyticsController.js:145-147 | `setFullYear(getFullYear() - k)` then `setHours(0,0,0,0)` lands on a midnight |
| Analytics.DailyKeySameDay | server/controllers/analyticsController.js:21 | two logs share a daily bucket if and only if they fall on the same day |
| Analytics.WeeklyKeyIsSunday | server/controllers/analyticsController.js:64-67 | a weekly key is a date, a Sunday, 0 to 6 days before the log's day |
| Analytics.WeeklyKeySameWeek | server/controllers/analyticsController.js:64-67 | two logs share a weekly bucket if and only if they fall in the same Sunday-to-Saturday week |
| Analytics.MonthAndYearKeys | server/controllers/analyticsController.js:112-113 | a month key has a month in 1..12; the year key is the year of that same month and day |
| Analytics.KeyOf | server/controllers/analyticsController.js:21 | day and week buckets are keyed by a date, month buckets by a year and a month in 1..12, year buckets by a year (also lines 64-68, 112-113, 157) |
| Analytics.DefaultLookback | server/controllers/analyticsController.js:7 | the default lookback of each period is positive: 30 days, 12 weeks, 12 months, 3 years (also lines 51, 98, 143) |
| Analytics.LookbackOr | server/controllers/analyticsController.js:7 | a lookback that is sent is used as is, 0 included; only a missing one takes the positive default (also lines 51, 98, 143) |
| Analytics.DefaultWindows | server/controllers/analyticsController.js:7-11 | without a lookback the windows open 30 days, 84 days, 12 months and 36 months before today, each before today's midnight (also lines 51-55, 98-102, 143-147) |
| Analytics.WindowStart | server/controllers/analyticsController.js:9-11 | the window opens at midnight, n days (daily) or 7n days (weekly) before today |
| Analytics.WindowStartOrder | server/controllers/analyticsController.js:7-11 | for every period, a lookback of 0 opens the window at today's midnight, and a longer lookback opens it strictly earlier (also lines 51-55, 98-102, 143-147) |
| Analytics.Window | server/controllers/analyticsController.js:13-16 | a log is in the window if and only if it is the requester's and dated at or after the start |
| Analytics.BucketTally | server/controllers/analyticsController.js:20-34 | a bucket never counts more completions than logs, nor more logs than there are |
| Analytics.BucketTallyNonEmpty | server/controllers/analyticsController.js:22-29 | a bucket is non-empty if and only if some log is keyed to it |
| Analytics.GroupBy | server/controllers/analyticsController.js:20-34 | one bucket for each key that occurs and no other; each holds exactly its logs' counts; the totals add up to the number of logs |
| Analytics.WithPercentages | server/controllers/analyticsController.js:37-40 | every bucket keeps its counts and gets its rounded percentage |
| Analytics.PeriodAnalytics | server/controllers/analyticsController.js:5-46 | over the window, one entry per period that holds a log; its counts are that period's logs; its percentage is their rounded ratio, at most 100 (likewise lines 49-94, 96-138 and 141-182 for weeks, months and years) |
| Analytics.CompletedCount | server/controllers/analyticsController.js:197 | the completed logs are at most all the logs |
| Analytics.LeadingCompleted | server/controllers/analyticsController.js:266-272 | the run length: every log before it is completed, and the log right after it is not |
| Analytics.LeadingCompletedAtMostCompleted | server/controllers/analyticsController.js:266-272 | a streak never exceeds the number of completed logs |
| Analytics.CalculateStreak | server/controllers/analyticsController.js:260-275 | the logs end up sorted newest first, a permutation of the input in which logs of the same date keep their order; the streak is the run of completed logs at the front |
| Analytics.StreakDeterminedByDates | server/controllers/analyticsController.js:263 | when no two logs share a date, every newest-first order gives the same streak |
| Analytics.UserHabits | server/controllers/analyticsController.js:187 | exactly the requester's habits |
| Analytics.HabitLogsOf | server/controllers/analyticsController.js:192-195 | exactly the requester's logs of that habit |
| Analytics.PerformanceOf | server/controllers/analyticsController.js:197-211 | the row copies the habit's fields and counts its logs. Its percentage is rounded and at most 100. Its streak is the run of completed logs at the front of the habit's logs stably sorted newest first (that order exists and is unique, lines 260-275); when the dates are distinct, any newest-first order gives the same streak |
| Analytics.StableStreakOf | server/controllers/analyticsController.js:260-275 | every newest-first order that keeps same-date logs in their found order gives the same streak, the one a performance row reports |
| Analytics.HabitPerformance | server/controllers/analyticsController.js:187-212 | one row per habit of the requester, in order, each describing that habit's own logs |
| Analytics.TodayLogs | server/controllers/analyticsController.js:223-229 | exactly the requester's logs dated today's midnight |
| Analytics.MonthStart | server/controllers/analyticsController.js:233-234 | the first of this month is a midnight 0 to 30 days before today |
| Analytics.MonthLogs | server/controllers/analyticsController.js:236-239 | exactly the requester's logs from the first of the month on |
| Analytics.CompletedTodayWithinMonth | server/controllers/analyticsController.js:241-242 | today's completions never exceed this month's |
| Analytics.DashboardStatsOf | server/controllers/analyticsController.js:223-251 | the habit count is the requester's habits. Today's and this month's completions are the completed logs among today's and this month's logs. Each percentage is the rounded rate of its completions over its logs (0 with no logs), so at most 100. Today's completions stay within the month's |
| Analytics.TodayTwoOfThree | server/controllers/analyticsController.js:248 | three logs today of which two are completed show as 67 percent |
| HabitStore.FindHabit | server/controllers/habitController.js:64 | an index of a habit with that id and owner; none if and only if no such habit exists |
| HabitStore.FindLog | server/controllers/habitController.js:133-137 | an index of a log in that slot; none if and only if the slot is empty |
| HabitStore.NewHabit | server/controllers/habitController.js:23-34 | the built habit has the fresh id, the requester as owner, the creation time now, is active, and has the trimmed name; a falsy category or target gives the default |
| HabitStore.CreateAcceptsExactly | server/controllers/habitController.js:23-36 | the built habit passes the schema if and only if the request body is acceptable |
| HabitStore.CreateWithDefaults | server/controllers/habitController.js:23-34 | a body with only a name yields the requester's habit with every default, and it is valid |
| HabitStore.CreatePreserves | server/controllers/habitController.js:36 | appending a valid habit under the next id keeps the store consistent |
| HabitStore.PatchProperties | server/controllers/habitController.js:85-89 | a patch keeps the id, an empty patch changes nothing, and applying a patch twice equals applying it once |
| HabitStore.ApplyPatch | server/controllers/habitController.js:85-89 | `$set: req.body` keeps the id and the creation time; a sent name is stored trimmed, an unsent one is kept; a sent `userId` replaces the owner |
| HabitStore.PatchPreserves | server/controllers/habitController.js:85-89 | replacing a habit by a valid one with the same id keeps the store consistent |
| HabitStore.RemoveAt | server/controllers/habitController.js:103 | the sequence without the element at i, the rest in order |
| HabitStore.DeleteLogsOf | server/controllers/habitController.js:110 | the logs kept are exactly those that do not name the habit, in order; kept and removed add up to all |
| HabitStore.RemoveHabit | server/controllers/habitController.js:103 | with distinct ids, exactly that id leaves the id set, and no user finds the habit any more |
| HabitStore.DeletePreserves | server/controllers/habitController.js:103-110 | removing a habit and its logs keeps the store consistent, with no log naming a missing habit |
| HabitStore.LogDay | server/controllers/habitController.js:129-130 | the log's day is the midnight of the given date, or of now when the date is absent or 0 |
| HabitStore.MergeLog | server/controllers/habitController.js:139-144 | the merged log keeps its id and its slot (user, habit, day); a truthy mood replaces the stored one |
| HabitStore.NewLog | server/controllers/habitController.js:146-155 | the inserted log has the fresh id, the requester, the habit and the day; it is completed exactly when `completed` is sent as true; its mood is absent or non-empty |
| HabitStore.MergeRules | server/controllers/habitController.js:140-143 | the merge keeps identity and slot. `completed` changes exactly when sent. A 0 value, empty notes or empty mood never overwrite |
| HabitStore.NewLogDefaults | server/controllers/habitController.js:146-154 | a body with only the habit id inserts a log with the schema defaults, which is valid |
| HabitStore.Upserted | server/controllers/habitController.js:133-156 | the saved log belongs to the requested habit, the requester and the requested day |
| HabitStore.UpsertInto | server/controllers/habitController.js:139-156 | the saved log is among the logs afterwards, which grow by at most one |
| HabitStore.UpsertSlots | server/controllers/habitController.js:139-156 | after the save the record is the only log in its slot; logs of other slots remain; nothing else appears; slots stay unique |
| HabitStore.LogTwiceSameAsOnce | server/controllers/habitController.js:119-156 | repeating the same log request on the same day saves the same record and leaves the logs unchanged |
| HabitStore.UpsertPreserves | server/controllers/habitController.js:139-156 | saving a valid midnight log of a stored habit into its slot keeps the store consistent |
| HabitStore.Selects | server/controllers/habitController.js:170-183 | only the requester's logs are selected, of the named habit when one is named; a date range given by only one bound is ignored |
| HabitStore.OneHabitOrderIsDetermined | server/controllers/habitController.js:174-185 | for a query naming a habit, the newest-first listing is unique |
| HabitStore.Store.GetHabit | server/controllers/habitController.js:62-73 | found if and only if the requester owns a habit with that id, which it returns; otherwise not found |
| HabitStore.Store.CreateHabit | server/controllers/habitController.js:5-45 | a falsy name is a bad request and a refused body a server error, both with no change. Otherwise the new habit is appended under the next id, with the requester as owner. The store stays consistent |
| HabitStore.Store.UpdateHabit | server/controllers/habitController.js:77-98 | not found unless owned. A patched habit that breaks the schema is a server error with no change. Otherwise it replaces the original in place. The store stays consistent |
| HabitStore.Store.DeleteHabit | server/controllers/habitController.js:101-116 | not found unless owned; otherwise the habit and every log naming it are removed, nothing else changes, and the habit is no longer found |
| HabitStore.Store.LogHabit | server/controllers/habitController.js:119-165 | not found unless the requester owns the habit. Otherwise the merged or new log is saved into its slot, and the id counter advances only on insert. A log the schema refuses is a server error with no change |
| HabitStore.Store.GetHabitLogs | server/controllers/habitController.js:168-191 | a rearrangement of exactly the logs the query selects, sorted newest first, all the requester's |
| HabitStore.Store.GetHabits | server/controllers/habitController.js:48-59 | a rearrangement of exactly the requester's habits, sorted newest first |
| HabitsPage.FilteredHabits | client/src/pages/HabitsPage.jsx:46-52 | the habits kept, in order, are exactly those matching both the search (name or description, ignoring case) and the category |
| HabitsPage.MatchesSearch | client/src/pages/HabitsPage.jsx:47-49 | the name or the description contains the search term, ignoring case; the empty term matches every habit |
| HabitsPage.MatchesCategory | client/src/pages/HabitsPage.jsx:50 | "all" matches every habit; any other choice matches exactly the habits of that category |
| HabitsPage.EmptySearchShowsAll | client/src/pages/HabitsPage.jsx:46-52 | an empty search with "all" shows every habit |
| HabitsPage.CategoryChoices | client/src/pages/HabitsPage.jsx:54 | "all" first, then every habit's category exactly once and nothing else, in the order the categories first occur among the habits |
| HabitsPage.ChoicesDistinct | client/src/pages/HabitsPage.jsx:54 | with stored habits no choice repeats, "all" included |
| Layout.IsActive | client/src/components/Layout.jsx:35-40 | the root is active only on itself; any other item on every path that starts with it, so never on a shorter path; every item is active on its own page |
| Layout.AtMostOneActive | client/src/components/Layout.jsx:28-40 | for any path, at most one navigation item is highlighted |
| Layout.HabitPagesHighlightHabits | client/src/components/Layout.jsx:35-40 | the add and edit pages under /habits highlight "Habits" and not "Dashboard" |
| Layout.DisplayName | client/src/components/Layout.jsx:131 | the first name when it is non-empty, otherwise the username; nothing with no user |
| Layout.AvatarInitial | client/src/components/Layout.jsx:136 | the avatar letter is never a lower-case letter |
| Layout.AvatarMatchesName | client/src/components/Layout.jsx:131-136 | the avatar is the upper-cased first letter of the name shown, or "U" when no name is shown |
| DashboardPage.HabitCards | client/src/pages/DashboardPage.jsx:58-63 | one card per habit, in order, each with completedToday false and percentage and streak 0 |
| DashboardPage.CountIn | client/src/pages/DashboardPage.jsx:94-97 | a category count is at most the number of habits |
| DashboardPage.CategoryCount | client/src/pages/DashboardPage.jsx:94-97 | the keys are the categories present, in first-occurrence order, without repeats; each count is the number of habits in that category |
| DashboardPage.CategoryData | client/src/pages/DashboardPage.jsx:94-102 | one slice per category present, in first-occurrence order. Each holds its number of habits, at least 1. Together they count every habit once |
| Sorting.SortDescending | server/controllers/analyticsController.js:263 | sorted largest key first, a permutation of the input, and stable: elements with equal keys keep their order (also client/src/pages/AnalyticsPage.jsx line 72) |
| Sorting.StableSortUnique | server/controllers/analyticsController.js:263 | two descending orders that keep each key's elements in the same order are equal: the stable sort's result is determined by its input |
| AnalyticsPage.TopHabits | client/src/pages/AnalyticsPage.jsx:71-73 | the rows are sorted in place by percentage, best first, with every row kept. Rows with equal percentages keep the order they came in (the sort is stable). The ranking is the first min(5, n) rows. Each is at least as good as any row left out. The first is the best overall (lines 125-128) |
| AnalyticsPage.OverallPercentage | client/src/pages/AnalyticsPage.jsx:75-78 | the integer nearest 100 · Σcompleted / Σtotal over the rows, halves rounded up; 0 when there are no logs |
| AnalyticsPage.OverallBounds | client/src/pages/AnalyticsPage.jsx:75-78 | the overall rate is at most 100; 100 when every log is completed, 0 when none is |
| AnalyticsPage.OverallIgnoresOrder | client/src/pages/AnalyticsPage.jsx:71-78 | sorting the rows for the ranking does not change the overall rate |

## Left out

- Timezones: the server's local time is taken to be UTC. In any other zone, `setHours(0,0,0,0)`
  and `getDay()` work in local time while `toISOString()` keys in UTC, and a key can move by
  a day.
- Bucket keys are kept as calendar values (`DateKey`, `MonthKey`, `YearKey`), not as the
  strings `YYYY-MM-DD`, `YYYY-MM` and `YYYY`. Years outside 0..9999 in ISO format are not modelled.
- Analytics.PeriodAnalytics: the result is a map, so the order of `Object.values` is not
  modelled (integer-like keys such as year strings come out in ascending order; other keys in
  insertion order).
- Percentages.Percent: `Math.round` on a floating-point quotient is modelled as exact integer
  rounding, halves up. Floating-point error on inputs near a half is not modelled.
- Text.ToLower, Text.UpperChar: case conversion covers ASCII letters only. Lengths count
  characters, not UTF-16 code units. `Text.IsWhitespace` covers the common space characters
  only, not every Unicode space separator.
- Sorting.SortDescending: the same stable sort stands in for MongoDB's `sort({ date: -1 })` and
  `sort({ createdAt: -1 })` in the habit controller, where the database leaves the order of
  equal dates unspecified. For those listings the model promises the order only up to ties
  (`Store.GetHabitLogs`, `Store.GetHabits`), and proves it unique for one habit's logs.
- HabitStore.ApplyPatch: a patch never changes `createdAt`. With the schema's `timestamps`
  option Mongoose drops `createdAt` from an update's `$set`; that behaviour belongs to
  Mongoose and is not part of this model.
- The query parameters `days`, `weeks`, `months` and `years` are integers. The `NaN` that
  `parseInt` returns on non-numeric text, and invalid `Date` values, are not modelled.
- `populate('habitId')` only decorates results with the habit document. It changes neither
  which logs are returned nor their order, and is not modelled.
- Concurrency is not modelled: `Promise.all` on the client, and two requests racing between
  `findOne` and `save`. Each handler runs atomically against the store.
- Mongoose casting (a string sent where a number or boolean is expected) and the dropping of
  fields outside the schema are not modelled. Request fields have the schema's types.
- Database failures other than a save refused by a validator (connection loss and the like)
  are not modelled. Every `500` in the model is a refused save.
- HabitStore.Store.LogHabit: a request without `habitId` is not modelled; the field is always
  present.
- The schema's indexes on the log collection are not unique. One log per habit and day holds
  because `logHabit` looks the slot up before inserting, and that is the invariant the store keeps.
- Authentication, the token middleware, the user routes, the HTTP status plumbing, the
  `mongoose` timestamps option (`updatedAt`) and the rendering of the pages are not part of
  this model.
- The client's `HabitCard` statistics are zeroed by the page itself (no per-card figures are
  fetched), and that is what `DashboardPage.HabitCards` models.
