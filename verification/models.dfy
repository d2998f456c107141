/**
 * The two stored record kinds and what the schema declares about their fields:
 * required fields, enumerations, length bounds, minimums and defaults. A record
 * that breaks one of these is refused when it is saved.
 */
module Models {
  import opened Wrappers
  import opened Text

  /** A record identifier (a database object id). */
  type Id = nat

  const Categories: seq<string> :=
    ["Health", "Fitness", "Learning", "Productivity", "Wellness", "Social", "Finance", "Other"]
  const Frequencies: seq<string> := ["daily", "weekly", "monthly"]
  const TargetUnits: seq<string> := ["times", "minutes", "hours", "km", "pages", "cups"]
  const Moods: seq<string> := ["excellent", "good", "neutral", "poor", "terrible"]

  const MaxNameLength: nat := 100
  const MaxDescriptionLength: nat := 500
  const MaxNotesLength: nat := 500
  const MinTarget: int := 1

  const DefaultDescription: string := ""
  const DefaultCategory: string := "Other"
  const DefaultColor: string := "#3b82f6"
  const DefaultIcon: string := "✓"
  const DefaultFrequency: string := "daily"
  const DefaultTarget: int := 1
  const DefaultTargetUnit: string := "times"
  const DefaultReminderTime: string := "09:00"

  const DefaultCompleted: bool := false
  const DefaultValue: int := 1
  const DefaultNotes: string := ""

  /** A habit. Every field is present once the record is built (defaults fill the rest). */
  datatype Habit = Habit(
    id: Id,
    userId: Id,
    name: string,
    description: string,
    category: string,
    color: string,
    icon: string,
    frequency: string,
    target: int,
    targetUnit: string,
    reminderTime: string,
    isActive: bool,
    createdAt: int)

  /** One day's record for one habit of one user; `mood` is null unless given. */
  datatype HabitLog = HabitLog(
    id: Id,
    userId: Id,
    habitId: Id,
    date: int,
    completed: bool,
    value: int,
    notes: string,
    mood: Option<string>)

  /** `habits.map((h) => h.category)`. */
  function CategoriesOf(habits: seq<Habit>): (r: seq<string>)
    ensures |r| == |habits|
    ensures forall i :: 0 <= i < |habits| ==> r[i] == habits[i].category
  {
    seq(|habits|, i requires 0 <= i < |habits| => habits[i].category)
  }

  /** A log's date, the key logs are ordered by. */
  function DateOf(l: HabitLog): int
  {
    l.date
  }

  /**
   * What the habit schema accepts. The name setter trims before the validators run,
   * so a stored name is trimmed, non-empty (required) and at most 100 characters.
   */
  predicate ValidHabit(h: Habit): (ok: bool)
    ensures ok ==> h.name != [] && !IsWhitespace(h.name[0])
  {
    && IsTrimmed(h.name)
    && 0 < |h.name| <= MaxNameLength
    && |h.description| <= MaxDescriptionLength
    && h.category in Categories
    && h.frequency in Frequencies
    && h.target >= MinTarget
    && h.targetUnit in TargetUnits
  }

  /** What the log schema accepts: short notes, and a mood from the list or none at all. */
  predicate ValidLog(l: HabitLog): (ok: bool)
    ensures ok ==> |l.notes| <= MaxNotesLength
  {
    && |l.notes| <= MaxNotesLength
    && (l.mood.None? || l.mood.value in Moods)
  }

  /** The schema's own defaults pass its own validators. */
  lemma DefaultsAreValid(id: Id, userId: Id, name: string, now: int)
    requires IsTrimmed(name) && 0 < |name| <= MaxNameLength
    ensures ValidHabit(Habit(id, userId, name, DefaultDescription, DefaultCategory, DefaultColor,
                             DefaultIcon, DefaultFrequency, DefaultTarget, DefaultTargetUnit,
                             DefaultReminderTime, true, now))
  {
    assert Categories[7] == DefaultCategory;
    assert Frequencies[0] == DefaultFrequency;
    assert TargetUnits[0] == DefaultTargetUnit;
  }

  /** JavaScript truthiness of an optional string field: present and not empty. */
  predicate Truthy(field: Option<string>)
  {
    field.Some? && field.value != ""
  }

  /** `field || fallback` for a string field. */
  function StringOr(field: Option<string>, fallback: string): (r: string)
    ensures Truthy(field) ==> r == field.value
    ensures !Truthy(field) ==> r == fallback
  {
    if Truthy(field) then field.value else fallback
  }

  /** `field || fallback` for a numeric field: absent and 0 both fall back. */
  function NumberOr(field: Option<int>, fallback: int): (r: int)
    ensures field.Some? && field.value != 0 ==> r == field.value
    ensures field.None? || field.value == 0 ==> r == fallback
  {
    if field.Some? && field.value != 0 then field.value else fallback
  }
}
