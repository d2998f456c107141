/**
 * The habit controller. The two collections live in a store object; each handler
 * looks records up, then inserts, patches, upserts or deletes them in place. A record
 * the schema refuses on save is a server error and leaves the store as it was.
 * The requester's id and "now" are parameters.
 */
module HabitStore {
  import opened Wrappers
  import opened Text
  import opened Calendar
  import opened Models
  import opened Seqs
  import opened Sorting

  // ---------------------------------------------------------------------------
  // Request bodies
  // ---------------------------------------------------------------------------

  /** The body of a create request; a field the client leaves out is None. */
  datatype HabitInput = HabitInput(
    name: Option<string>,
    description: Option<string>,
    category: Option<string>,
    color: Option<string>,
    icon: Option<string>,
    frequency: Option<string>,
    target: Option<int>,
    targetUnit: Option<string>,
    reminderTime: Option<string>)

  /** The body of an update request: every schema field it sets, `userId` included. */
  datatype HabitPatch = HabitPatch(
    userId: Option<Id>,
    name: Option<string>,
    description: Option<string>,
    category: Option<string>,
    color: Option<string>,
    icon: Option<string>,
    frequency: Option<string>,
    target: Option<int>,
    targetUnit: Option<string>,
    reminderTime: Option<string>,
    isActive: Option<bool>)

  /** The body of a log request; `date` is None when the client sends none. */
  datatype LogInput = LogInput(
    habitId: Id,
    completed: Option<bool>,
    value: Option<int>,
    notes: Option<string>,
    mood: Option<string>,
    date: Option<int>)

  /** The query string of a log listing; a parameter left out or empty is None. */
  datatype LogQuery = LogQuery(habitId: Option<Id>, startDate: Option<int>, endDate: Option<int>)

  // ---------------------------------------------------------------------------
  // Lookups
  // ---------------------------------------------------------------------------

  function OwnedBy(id: Id, user: Id): Habit -> bool
  {
    (h: Habit) => h.id == id && h.userId == user
  }

  /** `Habit.findOne({ _id: id, userId: user })`. */
  function FindHabit(habits: seq<Habit>, id: Id, user: Id): (r: Option<nat>)
    ensures r.Some? ==> r.value < |habits| && habits[r.value].id == id && habits[r.value].userId == user
    ensures r.None? <==> forall i :: 0 <= i < |habits| ==> !(habits[i].id == id && habits[i].userId == user)
  {
    FindFirst(habits, OwnedBy(id, user))
  }

  function OwnerIs(user: Id): Habit -> bool
  {
    (h: Habit) => h.userId == user
  }

  function CreatedAtOf(h: Habit): int
  {
    h.createdAt
  }

  /** The ids of the stored habits. */
  function HabitIds(habits: seq<Habit>): set<Id>
  {
    set h | h in habits :: h.id
  }

  /** Two logs for the same habit, user and day: the lookup key of `logHabit`. */
  predicate SameSlot(a: HabitLog, b: HabitLog)
  {
    a.habitId == b.habitId && a.userId == b.userId && a.date == b.date
  }

  function InSlot(habitId: Id, user: Id, date: int): HabitLog -> bool
  {
    (l: HabitLog) => l.habitId == habitId && l.userId == user && l.date == date
  }

  /** `HabitLog.findOne({ habitId, userId: user, date })`. */
  function FindLog(logs: seq<HabitLog>, habitId: Id, user: Id, date: int): (r: Option<nat>)
    ensures r.Some? ==> r.value < |logs| && InSlot(habitId, user, date)(logs[r.value])
    ensures r.None? <==> forall i :: 0 <= i < |logs| ==> !InSlot(habitId, user, date)(logs[i])
  {
    FindFirst(logs, InSlot(habitId, user, date))
  }

  // ---------------------------------------------------------------------------
  // The store's invariant
  // ---------------------------------------------------------------------------

  /** Stored habits pass the schema, have distinct ids, and every id is below the next one. */
  predicate HabitsConsistent(habits: seq<Habit>, nextId: nat)
  {
    && (forall i :: 0 <= i < |habits| ==> ValidHabit(habits[i]) && habits[i].id < nextId)
    && (forall i, j :: 0 <= i < j < |habits| ==> habits[i].id != habits[j].id)
  }

  /** No two logs share a (habit, user, day) slot. */
  predicate UniqueSlots(logs: seq<HabitLog>)
  {
    forall i, j :: 0 <= i < j < |logs| ==> !SameSlot(logs[i], logs[j])
  }

  /**
   * Stored logs pass the schema, are dated at midnight, belong to a stored habit, have
   * distinct ids below the next one, and occupy distinct slots.
   */
  predicate LogsConsistent(logs: seq<HabitLog>, ids: set<Id>, nextId: nat)
  {
    && (forall i :: 0 <= i < |logs| ==>
          ValidLog(logs[i]) && IsMidnight(logs[i].date) && logs[i].id < nextId && logs[i].habitId in ids)
    && (forall i, j :: 0 <= i < j < |logs| ==> logs[i].id != logs[j].id)
    && UniqueSlots(logs)
  }

  predicate Consistent(habits: seq<Habit>, logs: seq<HabitLog>, nextId: nat)
  {
    HabitsConsistent(habits, nextId) && LogsConsistent(logs, HabitIds(habits), nextId)
  }

  // ---------------------------------------------------------------------------
  // createHabit
  // ---------------------------------------------------------------------------

  /** The record `createHabit` builds: each falsy field replaced by its default, the name trimmed. */
  function NewHabit(id: Id, user: Id, input: HabitInput, now: int): (h: Habit)
    requires input.name.Some?
    ensures h.id == id && h.userId == user && h.createdAt == now && h.isActive
    ensures h.name == Trim(input.name.value) && IsTrimmed(h.name)
    ensures Truthy(input.category) ==> h.category == input.category.value
    ensures !Truthy(input.category) ==> h.category == DefaultCategory
    ensures input.target.None? || input.target.value == 0 ==> h.target == DefaultTarget
  {
    Habit(id, user, Trim(input.name.value),
          StringOr(input.description, DefaultDescription),
          StringOr(input.category, DefaultCategory),
          StringOr(input.color, DefaultColor),
          StringOr(input.icon, DefaultIcon),
          StringOr(input.frequency, DefaultFrequency),
          NumberOr(input.target, DefaultTarget),
          StringOr(input.targetUnit, DefaultTargetUnit),
          StringOr(input.reminderTime, DefaultReminderTime),
          true, now)
  }

  /**
   * When a create body gets saved: a name that is not blank once trimmed and at most
   * 100 characters, and every other field either left to its default or acceptable
   * to its own rule.
   */
  predicate Acceptable(input: HabitInput)
  {
    && input.name.Some?
    && 0 < |Trim(input.name.value)| <= MaxNameLength
    && (Truthy(input.description) ==> |input.description.value| <= MaxDescriptionLength)
    && (Truthy(input.category) ==> input.category.value in Categories)
    && (Truthy(input.frequency) ==> input.frequency.value in Frequencies)
    && (input.target.Some? && input.target.value != 0 ==> input.target.value >= MinTarget)
    && (Truthy(input.targetUnit) ==> input.targetUnit.value in TargetUnits)
  }

  /** The built record passes the schema exactly when the body is acceptable. */
  lemma CreateAcceptsExactly(id: Id, user: Id, input: HabitInput, now: int)
    requires input.name.Some?
    ensures ValidHabit(NewHabit(id, user, input, now)) <==> Acceptable(input)
  {
    assert Categories[7] == DefaultCategory;
    assert Frequencies[0] == DefaultFrequency;
    assert TargetUnits[0] == DefaultTargetUnit;
  }

  /** A body with only a name gets the requester as owner and every schema default. */
  lemma CreateWithDefaults(id: Id, user: Id, name: string, now: int)
    requires IsTrimmed(name) && 0 < |name| <= MaxNameLength
    ensures var input := HabitInput(Some(name), None, None, None, None, None, None, None, None);
            && NewHabit(id, user, input, now)
               == Habit(id, user, name, DefaultDescription, DefaultCategory, DefaultColor, DefaultIcon,
                        DefaultFrequency, DefaultTarget, DefaultTargetUnit, DefaultReminderTime, true, now)
            && ValidHabit(NewHabit(id, user, input, now))
  {
    DefaultsAreValid(id, user, name, now);
  }

  /** Adding a valid habit under a fresh id keeps the store consistent. */
  lemma {:induction false} CreatePreserves(habits: seq<Habit>, logs: seq<HabitLog>, nextId: nat, h: Habit)
    requires Consistent(habits, logs, nextId)
    requires ValidHabit(h) && h.id == nextId
    ensures Consistent(habits + [h], logs, nextId + 1)
  {
    var after := habits + [h];
    assert HabitIds(habits) <= HabitIds(after) by {
      forall x | x in HabitIds(habits) ensures x in HabitIds(after) {
        var g :| g in habits && g.id == x;
        assert g in after;
      }
    }
  }

  // ---------------------------------------------------------------------------
  // updateHabit
  // ---------------------------------------------------------------------------

  /** `$set`: a field the patch carries replaces the stored one. */
  function SetOr<T>(field: Option<T>, current: T): T
  {
    if field.Some? then field.value else current
  }

  /** The habit after `$set: patch`; the name setter trims the new name. */
  function ApplyPatch(h: Habit, patch: HabitPatch): (r: Habit)
    ensures r.id == h.id && r.createdAt == h.createdAt
    ensures patch.name.Some? ==> r.name == Trim(patch.name.value) && IsTrimmed(r.name)
    ensures patch.name.None? ==> r.name == h.name
    ensures patch.userId.Some? ==> r.userId == patch.userId.value
  {
    h.(userId := SetOr(patch.userId, h.userId),
       name := if patch.name.Some? then Trim(patch.name.value) else h.name,
       description := SetOr(patch.description, h.description),
       category := SetOr(patch.category, h.category),
       color := SetOr(patch.color, h.color),
       icon := SetOr(patch.icon, h.icon),
       frequency := SetOr(patch.frequency, h.frequency),
       target := SetOr(patch.target, h.target),
       targetUnit := SetOr(patch.targetUnit, h.targetUnit),
       reminderTime := SetOr(patch.reminderTime, h.reminderTime),
       isActive := SetOr(patch.isActive, h.isActive))
  }

  /**
   * A patch never moves a habit to another id, an empty patch changes nothing, and
   * sending the same patch twice has the effect of sending it once.
   */
  lemma PatchProperties(h: Habit, patch: HabitPatch)
    ensures ApplyPatch(h, patch).id == h.id
    ensures ApplyPatch(h, HabitPatch(None, None, None, None, None, None, None, None, None, None, None)) == h
    ensures ApplyPatch(ApplyPatch(h, patch), patch) == ApplyPatch(h, patch)
  {
  }

  /** Replacing a habit by a valid one with the same id keeps the store consistent. */
  lemma {:induction false} PatchPreserves(habits: seq<Habit>, logs: seq<HabitLog>, nextId: nat, i: nat, h: Habit)
    requires Consistent(habits, logs, nextId) && i < |habits|
    requires ValidHabit(h) && h.id == habits[i].id
    ensures Consistent(habits[i := h], logs, nextId)
  {
    var after := habits[i := h];
    assert HabitIds(habits) <= HabitIds(after) by {
      forall x | x in HabitIds(habits) ensures x in HabitIds(after) {
        var k :| 0 <= k < |habits| && habits[k].id == x;
        assert after[k].id == x;
      }
    }
  }

  // ---------------------------------------------------------------------------
  // deleteHabit
  // ---------------------------------------------------------------------------

  /** The sequence without its element at index i. */
  function RemoveAt<T>(s: seq<T>, i: nat): (r: seq<T>)
    requires i < |s|
    ensures |r| == |s| - 1
    ensures forall j :: 0 <= j < i ==> r[j] == s[j]
    ensures forall j :: i <= j < |r| ==> r[j] == s[j + 1]
  {
    s[..i] + s[i + 1..]
  }

  /** The condition `deleteMany({ habitId: id })` keeps a log on. */
  function NotOf(id: Id): HabitLog -> bool
  {
    (l: HabitLog) => l.habitId != id
  }

  /** `HabitLog.deleteMany({ habitId: id })`: the logs that do not name the habit, in order. */
  method DeleteLogsOf(logs: seq<HabitLog>, id: Id) returns (kept: seq<HabitLog>)
    ensures kept == Filter(logs, NotOf(id))
    ensures forall l :: l in logs ==> (l in kept <==> l.habitId != id)
    ensures |kept| + |Filter(logs, (l: HabitLog) => l.habitId == id)| == |logs|
  {
    kept := [];
    var j := 0;
    while j < |logs|
      invariant 0 <= j <= |logs|
      invariant kept == Filter(logs[..j], NotOf(id))
    {
      FilterAppend(logs[..j], [logs[j]], NotOf(id));
      assert logs[..j + 1] == logs[..j] + [logs[j]];
      if logs[j].habitId != id {
        kept := kept + [logs[j]];
      }
      j := j + 1;
    }
    assert logs[..j] == logs;
    FilterSplit(logs, (l: HabitLog) => l.habitId == id, NotOf(id));
  }

  /**
   * With distinct ids, removing a habit removes exactly its id: nobody finds it any
   * more, and every other habit is still there.
   */
  lemma {:induction false} RemoveHabit(habits: seq<Habit>, i: nat)
    requires i < |habits|
    requires forall a, b :: 0 <= a < b < |habits| ==> habits[a].id != habits[b].id
    ensures HabitIds(RemoveAt(habits, i)) == HabitIds(habits) - {habits[i].id}
    ensures forall user :: FindHabit(RemoveAt(habits, i), habits[i].id, user).None?
  {
    var after := RemoveAt(habits, i);
    var id := habits[i].id;
    forall x | x in HabitIds(after) ensures x in HabitIds(habits) - {id} {
      var k :| 0 <= k < |after| && after[k].id == x;
      if k < i {
        assert habits[k] == after[k];
      } else {
        assert habits[k + 1] == after[k];
      }
    }
    forall x | x in HabitIds(habits) - {id} ensures x in HabitIds(after) {
      var k :| 0 <= k < |habits| && habits[k].id == x;
      if k < i {
        assert after[k] == habits[k];
      } else {
        assert k != i;
        assert after[k - 1] == habits[k];
      }
    }
    forall user ensures FindHabit(after, id, user).None? {
      forall k | 0 <= k < |after| ensures after[k].id != id {
        if k < i {
          assert after[k] == habits[k];
        } else {
          assert after[k] == habits[k + 1];
        }
      }
    }
  }

  /** Removing a habit together with every log that names it keeps the store consistent. */
  lemma {:induction false} DeletePreserves(habits: seq<Habit>, logs: seq<HabitLog>, nextId: nat, i: nat)
    requires Consistent(habits, logs, nextId) && i < |habits|
    ensures Consistent(RemoveAt(habits, i), Filter(logs, NotOf(habits[i].id)), nextId)
  {
    var id := habits[i].id;
    var after := RemoveAt(habits, i);
    var kept := Filter(logs, NotOf(id));
    RemoveHabit(habits, i);
    forall a, b | 0 <= a < b < |after| ensures after[a].id != after[b].id {
      var a', b' := if a < i then a else a + 1, if b < i then b else b + 1;
      assert after[a] == habits[a'] && after[b] == habits[b'];
    }
    KeptLogsConsistent(logs, kept, HabitIds(habits), HabitIds(after), id, nextId);
  }

  /** A subsequence of consistent logs, none naming the removed id, is consistent without it. */
  lemma {:induction false} KeptLogsConsistent(logs: seq<HabitLog>, kept: seq<HabitLog>, ids: set<Id>,
                                               ids': set<Id>, id: Id, nextId: nat)
    requires LogsConsistent(logs, ids, nextId)
    requires ids' == ids - {id}
    requires IsSubsequence(kept, logs)
    requires forall l :: l in kept ==> l.habitId != id
    ensures LogsConsistent(kept, ids', nextId)
    decreases |logs|
  {
    if kept != [] {
      if kept[0] == logs[0] {
        TailConsistent(logs, ids, nextId);
        assert forall l :: l in kept[1..] ==> l in kept;
        KeptLogsConsistent(logs[1..], kept[1..], ids, ids', id, nextId);
        SubsequenceMembers(kept[1..], logs[1..]);
        forall b | 0 < b < |kept| ensures kept[0].id != kept[b].id && !SameSlot(kept[0], kept[b]) {
          assert kept[b] == kept[1..][b - 1];
          assert kept[b] in kept[1..];
          assert kept[b] in logs[1..];
          var j :| 0 <= j < |logs[1..]| && logs[1..][j] == kept[b];
          assert logs[j + 1] == kept[b];
        }
        assert kept[0] in kept;
      } else {
        TailConsistent(logs, ids, nextId);
        KeptLogsConsistent(logs[1..], kept, ids, ids', id, nextId);
      }
    }
  }

  /** Dropping the first log keeps the rest consistent. */
  lemma TailConsistent(logs: seq<HabitLog>, ids: set<Id>, nextId: nat)
    requires LogsConsistent(logs, ids, nextId) && logs != []
    ensures LogsConsistent(logs[1..], ids, nextId)
  {
    forall a, b | 0 <= a < b < |logs[1..]|
      ensures logs[1..][a].id != logs[1..][b].id && !SameSlot(logs[1..][a], logs[1..][b])
    {
      assert logs[1..][a] == logs[a + 1] && logs[1..][b] == logs[b + 1];
    }
  }

  /** Every element of a subsequence sits somewhere in the sequence. */
  lemma {:induction false} SubsequenceMembers<T>(r: seq<T>, s: seq<T>)
    requires IsSubsequence(r, s)
    ensures forall x :: x in r ==> x in s
    decreases |s|
  {
    if r != [] && s != [] {
      if r[0] == s[0] {
        SubsequenceMembers(r[1..], s[1..]);
        forall x | x in r ensures x in s {
          if x != r[0] {
            assert x in r[1..];
          }
        }
      } else {
        SubsequenceMembers(r, s[1..]);
      }
    }
  }

  // ---------------------------------------------------------------------------
  // logHabit
  // ---------------------------------------------------------------------------

  /** The day a log request is filed under: midnight of the given date, or of now. */
  function LogDay(input: LogInput, now: int): (d: int)
    ensures IsMidnight(d)
    ensures input.date.Some? && input.date.value != 0 ==> d <= input.date.value < d + MsPerDay
    ensures input.date.None? || input.date.value == 0 ==> d <= now < d + MsPerDay
  {
    Midnight(NumberOr(input.date, now))
  }

  /** An existing log after the field-by-field merge of `logHabit`. */
  function MergeLog(l: HabitLog, input: LogInput): (m: HabitLog)
    ensures m.id == l.id && SameSlot(m, l)
    ensures Truthy(input.mood) ==> m.mood == input.mood
  {
    l.(completed := SetOr(input.completed, l.completed),
       value := NumberOr(input.value, l.value),
       notes := StringOr(input.notes, l.notes),
       mood := if Truthy(input.mood) then input.mood else l.mood)
  }

  /** The log `logHabit` inserts when its slot is empty. */
  function NewLog(id: Id, user: Id, date: int, input: LogInput): (l: HabitLog)
    ensures l.id == id && l.userId == user && l.habitId == input.habitId && l.date == date
    ensures l.completed <==> input.completed == Some(true)
    ensures l.mood.None? || Truthy(l.mood)
  {
    HabitLog(id, user, input.habitId, date,
             input.completed.Some? && input.completed.value,
             NumberOr(input.value, DefaultValue),
             StringOr(input.notes, DefaultNotes),
             if Truthy(input.mood) then input.mood else None)
  }

  /**
   * The merge keeps the record's identity and slot. `completed` changes only when it
   * is sent; `value`, `notes` and `mood` only when what is sent is truthy, so a 0 or
   * an empty string never overwrites.
   */
  lemma MergeRules(l: HabitLog, input: LogInput)
    ensures var m := MergeLog(l, input);
            && m.id == l.id && SameSlot(m, l)
            && (input.completed.Some? ==> m.completed == input.completed.value)
            && (input.completed.None? ==> m.completed == l.completed)
            && (input.value == Some(0) || input.value.None? ==> m.value == l.value)
            && (input.notes == Some("") || input.notes.None? ==> m.notes == l.notes)
            && (input.mood == Some("") || input.mood.None? ==> m.mood == l.mood)
  {
  }

  /** A log inserted from a body that sends nothing but the habit gets the schema defaults. */
  lemma NewLogDefaults(id: Id, user: Id, date: int, habitId: Id)
    ensures NewLog(id, user, date, LogInput(habitId, None, None, None, None, None))
            == HabitLog(id, user, habitId, date, DefaultCompleted, DefaultValue, DefaultNotes, None)
    ensures ValidLog(NewLog(id, user, date, LogInput(habitId, None, None, None, None, None)))
  {
  }

  /** The record a log request saves: the merged existing log, or a fresh one. */
  function Upserted(logs: seq<HabitLog>, freshId: Id, user: Id, input: LogInput, now: int): (rec: HabitLog)
    ensures rec.habitId == input.habitId && rec.userId == user && rec.date == LogDay(input, now)
  {
    var date := LogDay(input, now);
    match FindLog(logs, input.habitId, user, date)
    case Some(i) => MergeLog(logs[i], input)
    case None => NewLog(freshId, user, date, input)
  }

  /** The logs after saving rec: it replaces the log in its slot, or is appended. */
  function UpsertInto(logs: seq<HabitLog>, rec: HabitLog): (after: seq<HabitLog>)
    ensures rec in after
    ensures |after| == |logs| || |after| == |logs| + 1
  {
    match FindLog(logs, rec.habitId, rec.userId, rec.date)
    case Some(i) => assert logs[i := rec][i] == rec; logs[i := rec]
    case None => assert (logs + [rec])[|logs|] == rec; logs + [rec]
  }

  /** The two outcomes of a log request: merged into the log of its slot, or inserted anew. */
  lemma UpsertCases(logs: seq<HabitLog>, freshId: Id, user: Id, input: LogInput, now: int)
    ensures var date := LogDay(input, now);
            var rec := Upserted(logs, freshId, user, input, now);
            match FindLog(logs, input.habitId, user, date)
            case Some(k) => rec == MergeLog(logs[k], input) && UpsertInto(logs, rec) == logs[k := rec]
            case None => rec == NewLog(freshId, user, date, input) && UpsertInto(logs, rec) == logs + [rec]
  {
  }

  /**
   * After the save, rec is the only log in its slot and every log of another slot is
   * still there; the slots stay distinct.
   */
  lemma {:induction false} UpsertSlots(logs: seq<HabitLog>, rec: HabitLog)
    requires UniqueSlots(logs)
    ensures var after := UpsertInto(logs, rec);
            && UniqueSlots(after)
            && (forall i :: 0 <= i < |after| && SameSlot(after[i], rec) ==> after[i] == rec)
            && rec in after
            && (forall l :: l in logs && !SameSlot(l, rec) ==> l in after)
            && (forall l :: l in after ==> l == rec || l in logs)
  {
    var after := UpsertInto(logs, rec);
    match FindLog(logs, rec.habitId, rec.userId, rec.date)
    case Some(k) =>
      assert after == logs[k := rec];
      forall i | 0 <= i < |after| && SameSlot(after[i], rec) ensures after[i] == rec {
        if i != k {
          assert SameSlot(logs[i], logs[k]);
        }
      }
      forall l | l in logs && !SameSlot(l, rec) ensures l in after {
        var i :| 0 <= i < |logs| && logs[i] == l;
        assert after[i] == l;
      }
      forall l | l in after ensures l == rec || l in logs {
        var i :| 0 <= i < |after| && after[i] == l;
        if i != k {
          assert logs[i] == l;
        }
      }
      assert after[k] == rec;
    case None =>
      assert after == logs + [rec];
      assert after[|logs|] == rec;
      forall l | l in after ensures l == rec || l in logs {
        var i :| 0 <= i < |after| && after[i] == l;
        if i < |logs| {
          assert logs[i] == l;
        }
      }
  }

  /**
   * Idempotence: sending the same log request a second time (the same day) saves the
   * record the first one saved and leaves the logs as the first one left them.
   */
  lemma {:induction false} LogTwiceSameAsOnce(logs: seq<HabitLog>, freshId: Id, otherId: Id, user: Id,
                                              input: LogInput, now: int)
    requires UniqueSlots(logs)
    ensures var rec := Upserted(logs, freshId, user, input, now);
            var once := UpsertInto(logs, rec);
            && Upserted(once, otherId, user, input, now) == rec
            && UpsertInto(once, rec) == once
  {
    var date := LogDay(input, now);
    var rec := Upserted(logs, freshId, user, input, now);
    var once := UpsertInto(logs, rec);
    var p := InSlot(input.habitId, user, date);
    match FindLog(logs, input.habitId, user, date)
    case Some(k) =>
      assert once == logs[k := rec];
      assert FindLog(once, input.habitId, user, date) == Some(k) by {
        forall i | 0 <= i < k ensures !p(once[i]) {
          assert once[i] == logs[i];
        }
        assert p(once[k]);
        FindFirstIs(once, p, k);
      }
      assert once[k := rec] == once;
    case None =>
      assert once == logs + [rec];
      assert FindLog(once, input.habitId, user, date) == Some(|logs|) by {
        forall i | 0 <= i < |logs| ensures !p(once[i]) {
          assert once[i] == logs[i];
        }
        assert p(once[|logs|]);
        FindFirstIs(once, p, |logs|);
      }
      assert once[|logs| := rec] == once;
  }

  /** The first index satisfying p is what FindFirst returns. */
  lemma FindFirstIs<T>(s: seq<T>, p: T -> bool, k: nat)
    requires k < |s| && p(s[k])
    requires forall i :: 0 <= i < k ==> !p(s[i])
    ensures FindFirst(s, p) == Some(k)
  {
    var r := FindFirst(s, p);
    assert r.Some?;
  }

  /** Saving a valid midnight-dated log of a stored habit keeps the store consistent. */
  lemma {:induction false} UpsertPreserves(habits: seq<Habit>, logs: seq<HabitLog>, nextId: nat, rec: HabitLog)
    requires Consistent(habits, logs, nextId)
    requires ValidLog(rec) && IsMidnight(rec.date) && rec.habitId in HabitIds(habits)
    requires match FindLog(logs, rec.habitId, rec.userId, rec.date)
             case Some(k) => rec.id == logs[k].id
             case None => rec.id == nextId
    ensures var n := if FindLog(logs, rec.habitId, rec.userId, rec.date).Some? then nextId else nextId + 1;
            Consistent(habits, UpsertInto(logs, rec), n)
  {
    UpsertSlots(logs, rec);
    var after := UpsertInto(logs, rec);
    match FindLog(logs, rec.habitId, rec.userId, rec.date)
    case Some(k) =>
      assert after == logs[k := rec];
      forall a, b | 0 <= a < b < |after| ensures after[a].id != after[b].id {
        assert a != k ==> after[a] == logs[a];
        assert b != k ==> after[b] == logs[b];
      }
    case None =>
      assert after == logs + [rec];
      forall a, b | 0 <= a < b < |after| ensures after[a].id != after[b].id {
        assert after[a] == logs[a];
      }
  }

  /** Saving the merged log back into its own slot keeps the store consistent. */
  lemma MergePreserves(habits: seq<Habit>, logs: seq<HabitLog>, nextId: nat, k: nat, l: HabitLog)
    requires Consistent(habits, logs, nextId) && k < |logs|
    requires FindLog(logs, l.habitId, l.userId, l.date) == Some(k)
    requires ValidLog(l) && l.id == logs[k].id
    ensures Consistent(habits, logs[k := l], nextId)
  {
    UpsertPreserves(habits, logs, nextId, l);
  }

  /** Appending a valid log for an empty slot of a stored habit, under the next id, keeps the store consistent. */
  lemma InsertPreserves(habits: seq<Habit>, logs: seq<HabitLog>, nextId: nat, l: HabitLog)
    requires Consistent(habits, logs, nextId)
    requires FindLog(logs, l.habitId, l.userId, l.date).None?
    requires ValidLog(l) && IsMidnight(l.date) && l.habitId in HabitIds(habits) && l.id == nextId
    ensures Consistent(habits, logs + [l], nextId + 1)
  {
    UpsertPreserves(habits, logs, nextId, l);
  }

  // ---------------------------------------------------------------------------
  // getHabitLogs
  // ---------------------------------------------------------------------------

  /**
   * The filter `getHabitLogs` builds: the requester's logs, of one habit when the query
   * names one, and between the two dates (inclusive) only when both are given.
   */
  function Selects(user: Id, query: LogQuery): (sel: HabitLog -> bool)
    ensures forall l :: sel(l) ==> l.userId == user
    ensures forall l :: sel(l) && query.habitId.Some? ==> l.habitId == query.habitId.value
    ensures query.startDate.None? || query.endDate.None? ==>
              forall l :: sel(l) <==> l.userId == user && (query.habitId.Some? ==> l.habitId == query.habitId.value)
  {
    (l: HabitLog) =>
      && l.userId == user
      && (query.habitId.Some? ==> l.habitId == query.habitId.value)
      && (query.startDate.Some? && query.endDate.Some? ==>
            query.startDate.value <= l.date <= query.endDate.value)
  }

  /** Sorted by date, descending, the logs of one habit and user come in only one order. */
  lemma {:induction false} OneHabitOrderIsDetermined(logs: seq<HabitLog>, user: Id, query: LogQuery,
                                                     a: seq<HabitLog>, b: seq<HabitLog>)
    requires UniqueSlots(logs) && query.habitId.Some?
    requires multiset(a) == multiset(Filter(logs, Selects(user, query))) && SortedDesc(a, DateOf)
    requires multiset(b) == multiset(Filter(logs, Selects(user, query))) && SortedDesc(b, DateOf)
    ensures a == b
  {
    var p := Selects(user, query);
    var selected := Filter(logs, p);
    forall i, j | 0 <= i < j < |a| ensures a[i].date != a[j].date {
      assert a[i] in multiset(a) && a[j] in multiset(a);
      assert a[i] in selected && a[j] in selected;
      var x, y := a[i], a[j];
      var i' :| 0 <= i' < |logs| && logs[i'] == x;
      var j' :| 0 <= j' < |logs| && logs[j'] == y;
      if x == y {
        RepeatCount(a, i, j);
        FilterMultiplicity(logs, p, x);
        DistinctCount(logs, x);
        assert false;
      } else if i' < j' {
        assert !SameSlot(logs[i'], logs[j']);
      } else if j' < i' {
        assert !SameSlot(logs[j'], logs[i']);
      }
    }
    SortedDistinctIsStrict(a);
    SortedPermutationUnique(b, a, DateOf);
  }

  /** An element that sits at two positions is counted at least twice. */
  lemma {:induction false} RepeatCount<T>(s: seq<T>, i: nat, j: nat)
    requires i < j < |s| && s[i] == s[j]
    ensures multiset(s)[s[i]] >= 2
  {
    assert s == s[..j] + s[j..];
    assert s[i] == s[..j][i];
    assert s[j] == s[j..][0];
    assert multiset(s) == multiset(s[..j]) + multiset(s[j..]);
  }

  /** Logs in distinct slots are distinct records, so each occurs at most once. */
  lemma {:induction false} DistinctCount(logs: seq<HabitLog>, x: HabitLog)
    requires UniqueSlots(logs)
    ensures multiset(logs)[x] <= 1
    decreases |logs|
  {
    if logs != [] {
      assert UniqueSlots(logs[1..]) by {
        forall a, b | 0 <= a < b < |logs[1..]| ensures !SameSlot(logs[1..][a], logs[1..][b]) {
          assert logs[1..][a] == logs[a + 1] && logs[1..][b] == logs[b + 1];
        }
      }
      DistinctCount(logs[1..], x);
      assert logs == [logs[0]] + logs[1..];
      if x == logs[0] {
        forall k | 0 <= k < |logs[1..]| ensures logs[1..][k] != x {
          assert logs[1..][k] == logs[k + 1];
          assert !SameSlot(logs[0], logs[k + 1]);
        }
        assert x !in logs[1..];
      }
    }
  }

  /** Sorted descending with no repeated date means strictly descending. */
  lemma SortedDistinctIsStrict(s: seq<HabitLog>)
    requires SortedDesc(s, DateOf)
    requires forall i, j :: 0 <= i < j < |s| ==> s[i].date != s[j].date
    ensures StrictlyDesc(s, DateOf)
  {
  }

  // ---------------------------------------------------------------------------
  // The store
  // ---------------------------------------------------------------------------

  class Store {
    var habits: seq<Habit>
    var logs: seq<HabitLog>
    var nextId: nat

    ghost predicate Valid()
      reads this
    {
      Consistent(habits, logs, nextId)
    }

    constructor ()
      ensures Valid() && habits == [] && logs == []
    {
      habits := [];
      logs := [];
      nextId := 0;
    }

    /** `getHabit`: the requester's habit with that id, or not found. */
    function GetHabit(user: Id, id: Id): (r: Result<Habit>)
      reads this
      ensures r.Ok? <==> exists i :: 0 <= i < |habits| && habits[i].id == id && habits[i].userId == user
      ensures r.Ok? ==> r.value in habits && r.value.id == id && r.value.userId == user
      ensures r.Err? ==> r.error == NotFound
    {
      match FindHabit(habits, id, user)
      case Some(i) => Ok(habits[i])
      case None => Err(NotFound)
    }

    /**
     * `createHabit`: a falsy name is a bad request; a body the schema refuses is a
     * server error; otherwise the new habit is appended under a fresh id.
     */
    method CreateHabit(user: Id, input: HabitInput, now: int) returns (r: Result<Habit>)
      requires Valid()
      modifies this
      ensures Valid()
      ensures !Truthy(input.name) ==> r == Err(BadRequest) && unchanged(this)
      ensures Truthy(input.name) && !Acceptable(input) ==> r == Err(ServerError) && unchanged(this)
      ensures Truthy(input.name) && Acceptable(input) ==>
                && r == Ok(NewHabit(old(nextId), user, input, now))
                && r.value.userId == user
                && habits == old(habits) + [r.value] && logs == old(logs) && nextId == old(nextId) + 1
    {
      if !Truthy(input.name) {
        return Err(BadRequest);
      }
      var h := NewHabit(nextId, user, input, now);
      CreateAcceptsExactly(nextId, user, input, now);
      if !ValidHabit(h) {
        return Err(ServerError);
      }
      CreatePreserves(habits, logs, nextId, h);
      habits := habits + [h];
      nextId := nextId + 1;
      r := Ok(h);
    }

    /**
     * `updateHabit`: not found unless the requester owns the habit; otherwise the patch
     * is applied to it in place, or refused as a whole when the result breaks the schema.
     */
    method UpdateHabit(user: Id, id: Id, patch: HabitPatch) returns (r: Result<Habit>)
      requires Valid()
      modifies this
      ensures Valid()
      ensures FindHabit(old(habits), id, user).None? ==> r == Err(NotFound) && unchanged(this)
      ensures FindHabit(old(habits), id, user).Some? ==>
                var i := FindHabit(old(habits), id, user).value;
                var h := ApplyPatch(old(habits)[i], patch);
                if ValidHabit(h) then
                  r == Ok(h) && habits == old(habits)[i := h] && logs == old(logs) && nextId == old(nextId)
                else
                  r == Err(ServerError) && unchanged(this)
    {
      var found := FindHabit(habits, id, user);
      if found.None? {
        return Err(NotFound);
      }
      var i := found.value;
      var h := ApplyPatch(habits[i], patch);
      if !ValidHabit(h) {
        return Err(ServerError);
      }
      PatchPreserves(habits, logs, nextId, i, h);
      habits := habits[i := h];
      r := Ok(h);
    }

    /**
     * `deleteHabit`: not found unless the requester owns the habit; otherwise the habit
     * is removed, then every log that names it, one by one. Afterwards no one finds it.
     */
    method DeleteHabit(user: Id, id: Id) returns (r: Result<Habit>)
      requires Valid()
      modifies this
      ensures Valid()
      ensures FindHabit(old(habits), id, user).None? ==> r == Err(NotFound) && unchanged(this)
      ensures FindHabit(old(habits), id, user).Some? ==>
                var i := FindHabit(old(habits), id, user).value;
                && r == Ok(old(habits)[i])
                && habits == RemoveAt(old(habits), i)
                && logs == Filter(old(logs), NotOf(id))
                && nextId == old(nextId)
                && GetHabit(user, id) == Err(NotFound)
    {
      var found := FindHabit(habits, id, user);
      if found.None? {
        return Err(NotFound);
      }
      var i := found.value;
      DeletePreserves(habits, logs, nextId, i);
      RemoveHabit(habits, i);
      r := Ok(habits[i]);
      habits := RemoveAt(habits, i);
      logs := DeleteLogsOf(logs, id);
    }

    /**
     * `logHabit`: not found unless the requester owns the habit; otherwise the request
     * is filed under its day and saved into that day's slot, merged into the log
     * already there or as a new log; a record the schema refuses is a server error.
     */
    method LogHabit(user: Id, input: LogInput, now: int) returns (r: Result<HabitLog>)
      requires Valid()
      modifies this
      ensures Valid()
      ensures FindHabit(old(habits), input.habitId, user).None? ==> r == Err(NotFound) && unchanged(this)
      ensures FindHabit(old(habits), input.habitId, user).Some? ==>
                var rec := Upserted(old(logs), old(nextId), user, input, now);
                var existed := FindLog(old(logs), input.habitId, user, LogDay(input, now)).Some?;
                if ValidLog(rec) then
                  && r == Ok(rec)
                  && logs == UpsertInto(old(logs), rec)
                  && habits == old(habits)
                  && nextId == (if existed then old(nextId) else old(nextId) + 1)
                else
                  r == Err(ServerError) && unchanged(this)
    {
      var found := FindHabit(habits, input.habitId, user);
      if found.None? {
        return Err(NotFound);
      }
      assert habits[found.value] in habits;
      UpsertCases(logs, nextId, user, input, now);
      var date := LogDay(input, now);
      var existing := FindLog(logs, input.habitId, user, date);
      var l: HabitLog;
      if existing.Some? {
        l := logs[existing.value];
        l := l.(completed := if input.completed.Some? then input.completed.value else l.completed);
        l := l.(value := NumberOr(input.value, l.value));
        l := l.(notes := StringOr(input.notes, l.notes));
        l := l.(mood := if Truthy(input.mood) then input.mood else l.mood);
        assert l == MergeLog(logs[existing.value], input);
      } else {
        l := NewLog(nextId, user, date, input);
      }
      if !ValidLog(l) {
        return Err(ServerError);
      }
      if existing.Some? {
        MergePreserves(habits, logs, nextId, existing.value, l);
        logs := logs[existing.value := l];
      } else {
        InsertPreserves(habits, logs, nextId, l);
        logs := logs + [l];
        nextId := nextId + 1;
      }
      r := Ok(l);
    }

    /** `getHabitLogs`: the logs the query selects, newest first. */
    method GetHabitLogs(user: Id, query: LogQuery) returns (result: seq<HabitLog>)
      ensures multiset(result) == multiset(Filter(logs, Selects(user, query)))
      ensures SortedDesc(result, DateOf)
      ensures forall l :: l in result ==> l in logs && l.userId == user
    {
      var selected := Filter(logs, Selects(user, query));
      var a := new HabitLog[|selected|](i requires 0 <= i < |selected| => selected[i]);
      assert a[..] == selected;
      SortDescending(a, DateOf);
      result := a[..];
      forall l | l in result ensures l in logs && l.userId == user {
        assert l in multiset(result);
      }
    }

    /** `getHabits`: the requester's habits, newest first. */
    method GetHabits(user: Id) returns (result: seq<Habit>)
      ensures multiset(result) == multiset(Filter(habits, OwnerIs(user)))
      ensures SortedDesc(result, CreatedAtOf)
    {
      var mine := Filter(habits, OwnerIs(user));
      var a := new Habit[|mine|](i requires 0 <= i < |mine| => mine[i]);
      assert a[..] == mine;
      SortDescending(a, CreatedAtOf);
      result := a[..];
    }
  }
}
