/** The dashboard page: the habit cards and the category pie chart. */
module DashboardPage {
  import opened Models
  import opened Seqs

  /** A habit as the dashboard shows it, with the three card fields it adds. */
  datatype HabitCard = HabitCard(habit: Habit, completedToday: bool, completionPercentage: nat, streak: nat)

  /** `habitsData`: every fetched habit, in order, with the card fields zeroed. */
  function HabitCards(habits: seq<Habit>): (cards: seq<HabitCard>)
    ensures |cards| == |habits|
    ensures forall i :: 0 <= i < |cards| ==>
              && cards[i].habit == habits[i]
              && !cards[i].completedToday && cards[i].completionPercentage == 0 && cards[i].streak == 0
  {
    seq(|habits|, i requires 0 <= i < |habits| => HabitCard(habits[i], false, 0, 0))
  }

  /** A slice of the category pie chart. */
  datatype Slice = Slice(name: string, value: nat)

  function ValueOf(s: Slice): nat
  {
    s.value
  }

  /** The number of habits in category c. */
  function CountIn(habits: seq<Habit>, c: string): (n: nat)
    ensures n <= |habits|
    decreases |habits|
  {
    if habits == [] then 0
    else CountIn(habits[..|habits| - 1], c) + (if habits[|habits| - 1].category == c then 1 else 0)
  }

  /** The chart slices for the categories in order, each with its count. */
  function Slices(order: seq<string>, counts: map<string, nat>): (r: seq<Slice>)
    requires forall c :: c in order ==> c in counts
    ensures |r| == |order|
    ensures forall k :: 0 <= k < |order| ==> r[k] == Slice(order[k], counts[order[k]])
  {
    seq(|order|, k requires 0 <= k < |order| => Slice(order[k], counts[order[k]]))
  }

  /** One more habit adds one to its own category's count and nothing to the others. */
  lemma CountStep(habits: seq<Habit>, i: nat, c: string)
    requires i < |habits|
    ensures CountIn(habits[..i + 1], c) == CountIn(habits[..i], c) + (if habits[i].category == c then 1 else 0)
  {
    assert habits[..i + 1][..i] == habits[..i];
  }

  /** Counting a habit of a category already seen adds one to that category only. */
  lemma CountsIncrement(habits: seq<Habit>, i: nat, counts: map<string, nat>)
    requires i < |habits| && habits[i].category in counts
    requires forall c {:trigger CountIn(habits[..i], c)} :: CountIn(habits[..i], c) == if c in counts then counts[c] else 0
    ensures var c := habits[i].category;
            forall x {:trigger CountIn(habits[..i + 1], x)} ::
              CountIn(habits[..i + 1], x) == if x in counts[c := counts[c] + 1] then counts[c := counts[c] + 1][x] else 0
  {
    var c := habits[i].category;
    var updated := counts[c := counts[c] + 1];
    forall x ensures CountIn(habits[..i + 1], x) == if x in updated then updated[x] else 0 {
      CountStep(habits, i, x);
      assert CountIn(habits[..i], x) == if x in counts then counts[x] else 0;
    }
  }

  /** Counting a habit of a new category gives that category a count of one. */
  lemma CountsAdd(habits: seq<Habit>, i: nat, counts: map<string, nat>)
    requires i < |habits| && habits[i].category !in counts
    requires forall c {:trigger CountIn(habits[..i], c)} :: CountIn(habits[..i], c) == if c in counts then counts[c] else 0
    ensures var c := habits[i].category;
            forall x {:trigger CountIn(habits[..i + 1], x)} ::
              CountIn(habits[..i + 1], x) == if x in counts[c := 1] then counts[c := 1][x] else 0
  {
    var c := habits[i].category;
    var updated := counts[c := 1];
    forall x ensures CountIn(habits[..i + 1], x) == if x in updated then updated[x] else 0 {
      CountStep(habits, i, x);
      assert CountIn(habits[..i], x) == if x in counts then counts[x] else 0;
    }
  }

  /** One more habit adds its category to the list of distinct categories, if it is new. */
  lemma DedupStep(habits: seq<Habit>, i: nat)
    requires i < |habits|
    ensures var d := Dedup(CategoriesOf(habits[..i]));
            var c := habits[i].category;
            Dedup(CategoriesOf(habits[..i + 1])) == if c in d then d else d + [c]
  {
    assert CategoriesOf(habits[..i + 1])[..i] == CategoriesOf(habits[..i]);
  }

  /** Counting one more habit in a category already charted adds one to the total. */
  lemma IncrementSlice(order: seq<string>, counts: map<string, nat>, c: string)
    requires forall x :: x in order ==> x in counts
    requires Distinct(order) && c in order
    ensures Sum(Slices(order, counts[c := counts[c] + 1]), ValueOf) == Sum(Slices(order, counts), ValueOf) + 1
  {
    var k :| 0 <= k < |order| && order[k] == c;
    var before := Slices(order, counts);
    assert Slices(order, counts[c := counts[c] + 1]) == before[k := Slice(c, counts[c] + 1)];
    SumUpdate(before, k, Slice(c, counts[c] + 1), ValueOf);
  }

  /** Charting a new category with one habit adds one to the total. */
  lemma AddSlice(order: seq<string>, counts: map<string, nat>, c: string)
    requires forall x :: x in order ==> x in counts
    requires c !in order
    ensures Sum(Slices(order + [c], counts[c := 1]), ValueOf) == Sum(Slices(order, counts), ValueOf) + 1
  {
    var before := Slices(order, counts);
    assert Slices(order + [c], counts[c := 1]) == before + [Slice(c, 1)];
    SumAppend(before, [Slice(c, 1)], ValueOf);
  }

  /**
   * order and counts describe the categories of habits: the distinct categories in
   * first-occurrence order, each with its (positive) count, and counts summing to the
   * number of habits.
   */
  ghost predicate Tallied(habits: seq<Habit>, order: seq<string>, counts: map<string, nat>)
  {
    && order == Dedup(CategoriesOf(habits))
    && (forall c :: c in counts <==> c in order)
    && (forall c :: c in counts ==> counts[c] >= 1)
    && (forall c {:trigger CountIn(habits, c)} :: CountIn(habits, c) == if c in counts then counts[c] else 0)
    && Sum(Slices(order, counts), ValueOf) == |habits|
  }

  /** A habit of a category already listed leaves the list as it is, and the list has no repeats. */
  lemma OrderKept(habits: seq<Habit>, i: nat, order: seq<string>)
    requires i < |habits| && order == Dedup(CategoriesOf(habits[..i])) && habits[i].category in order
    ensures Dedup(CategoriesOf(habits[..i + 1])) == order
    ensures Distinct(order)
  {
    DedupStep(habits, i);
    DedupProperties(CategoriesOf(habits[..i]));
  }

  /** Counting the next habit, of a category already seen, keeps the description exact. */
  lemma TalliedIncrement(habits: seq<Habit>, i: nat, order: seq<string>, counts: map<string, nat>)
    requires i < |habits| && Tallied(habits[..i], order, counts)
    requires habits[i].category in counts
    ensures Tallied(habits[..i + 1], order, counts[habits[i].category := counts[habits[i].category] + 1])
  {
    var c := habits[i].category;
    OrderKept(habits, i, order);
    CountsIncrement(habits, i, counts);
    IncrementSlice(order, counts, c);
    assert counts[c := counts[c] + 1].Keys == counts.Keys;
  }

  /** Counting the next habit, of a new category, keeps the description exact. */
  lemma TalliedAdd(habits: seq<Habit>, i: nat, order: seq<string>, counts: map<string, nat>)
    requires i < |habits| && Tallied(habits[..i], order, counts)
    requires habits[i].category !in counts
    ensures Tallied(habits[..i + 1], order + [habits[i].category], counts[habits[i].category := 1])
  {
    var c := habits[i].category;
    DedupStep(habits, i);
    CountsAdd(habits, i, counts);
    AddSlice(order, counts, c);
  }

  /**
   * `categoryCount`: the number of habits per category, with its keys in the order they
   * were first added. A category is a key exactly when some habit has it.
   */
  method CategoryCount(habits: seq<Habit>) returns (order: seq<string>, counts: map<string, nat>)
    ensures Tallied(habits, order, counts)
  {
    counts := map[];
    order := [];
    for i := 0 to |habits|
      invariant Tallied(habits[..i], order, counts)
    {
      var c := habits[i].category;
      if c in counts {
        TalliedIncrement(habits, i, order, counts);
        counts := counts[c := counts[c] + 1];
      } else {
        TalliedAdd(habits, i, order, counts);
        counts := counts[c := 1];
        order := order + [c];
      }
    }
    assert habits[..|habits|] == habits;
  }

  /**
   * `categoryData`: one slice per category present, in the order the categories first
   * occur, holding the number of habits in it. No slice is empty and together they
   * count every habit once. `Object.entries` lists the keys in insertion order here
   * because stored categories come from the schema's list, none of which looks like an
   * array index (those would be listed first, in ascending order).
   */
  method CategoryData(habits: seq<Habit>) returns (data: seq<Slice>)
    ensures |data| == |Dedup(CategoriesOf(habits))|
    ensures forall k :: 0 <= k < |data| ==> data[k].name == Dedup(CategoriesOf(habits))[k]
    ensures forall k :: 0 <= k < |data| ==> data[k].value == CountIn(habits, data[k].name) && data[k].value >= 1
    ensures Sum(data, ValueOf) == |habits|
  {
    var order, counts := CategoryCount(habits);
    data := Slices(order, counts);
  }
}
