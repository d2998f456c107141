/** The habits page: the search-and-category filter and the category choices. */
module HabitsPage {
  import opened Text
  import opened Models
  import opened Seqs

  /** The search box matches the name or the description, ignoring case. */
  predicate MatchesSearch(h: Habit, term: string): (m: bool)
    ensures term == "" ==> m
  {
    ContainsEmpty(ToLower(h.name));
    Contains(ToLower(h.name), ToLower(term)) || Contains(ToLower(h.description), ToLower(term))
  }

  /** The category menu matches every habit on "all", otherwise its own category. */
  predicate MatchesCategory(h: Habit, filter: string): (m: bool)
    ensures filter == "all" ==> m
    ensures m <==> filter == "all" || filter == h.category
  {
    filter == "all" || h.category == filter
  }

  function Shown(term: string, filter: string): Habit -> bool
  {
    (h: Habit) => MatchesSearch(h, term) && MatchesCategory(h, filter)
  }

  /**
   * `filteredHabits`: the habits that match both the search and the category, in the
   * order they were fetched.
   */
  function FilteredHabits(habits: seq<Habit>, term: string, filter: string): (r: seq<Habit>)
    ensures IsSubsequence(r, habits)
    ensures forall h :: h in r ==> h in habits
    ensures forall h :: h in habits ==> (h in r <==> MatchesSearch(h, term) && MatchesCategory(h, filter))
  {
    Filter(habits, Shown(term, filter))
  }

  /** With an empty search box and "all" chosen, every habit is listed. */
  lemma EmptySearchShowsAll(habits: seq<Habit>)
    ensures FilteredHabits(habits, "", "all") == habits
  {
    forall i | 0 <= i < |habits| ensures Shown("", "all")(habits[i]) {
      ContainsEmpty(ToLower(habits[i].name));
    }
    FilterKeepsAll(habits, Shown("", "all"));
  }

  /**
   * `categories`: "all", then each category that some habit has, once, in the order
   * the categories first occur.
   */
  function CategoryChoices(habits: seq<Habit>): (r: seq<string>)
    ensures |r| >= 1 && r[0] == "all"
    ensures Distinct(r[1..])
    ensures forall c :: c in r[1..] ==> exists i :: 0 <= i < |habits| && habits[i].category == c
    ensures forall i :: 0 <= i < |habits| ==> habits[i].category in r[1..]
    ensures forall i, j :: 1 <= i < j < |r| ==>
              r[i] in CategoriesOf(habits) && r[j] in CategoriesOf(habits) &&
              IndexOf(CategoriesOf(habits), r[i]) < IndexOf(CategoriesOf(habits), r[j])
  {
    var cats := CategoriesOf(habits);
    DedupProperties(cats);
    DedupFirstOccurrenceOrder(cats);
    assert forall i :: 0 <= i < |habits| ==> habits[i].category == cats[i];
    ["all"] + Dedup(cats)
  }

  /** Stored categories come from the schema's list, which has no "all": no choice repeats. */
  lemma ChoicesDistinct(habits: seq<Habit>)
    requires forall i :: 0 <= i < |habits| ==> ValidHabit(habits[i])
    ensures Distinct(CategoryChoices(habits))
  {
    var r := CategoryChoices(habits);
    assert "all" !in Categories;
    forall j | 1 <= j < |r| ensures r[j] != "all" {
      assert r[j] in r[1..];
    }
  }
}
