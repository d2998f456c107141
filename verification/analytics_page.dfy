/** The analytics page: the ranking of habits and the overall completion rate. */
module AnalyticsPage {
  import opened Percentages
  import opened Seqs
  import opened Sorting
  import opened Analytics

  /** How many habits the ranking shows. */
  const TopCount: nat := 5

  function PercentageOf(p: Performance): int
  {
    p.percentage
  }

  function CompletedOf(p: Performance): nat
  {
    p.completed
  }

  function TotalOf(p: Performance): nat
  {
    p.total
  }

  function Min(a: nat, b: nat): nat
  {
    if a <= b then a else b
  }

  /**
   * `topHabits`: the page's performance array is sorted in place by percentage, best
   * first, and its first five rows are the ranking. The array keeps every row, and rows
   * with equal percentages keep the order the server sent them in.
   */
  method TopHabits(performance: array<Performance>) returns (top: seq<Performance>)
    modifies performance
    ensures SortedDesc(performance[..], PercentageOf)
    ensures multiset(performance[..]) == old(multiset(performance[..]))
    ensures SameKeyOrder(performance[..], old(performance[..]), PercentageOf)
    ensures top == performance[..Min(TopCount, performance.Length)]
    ensures forall p :: p in old(performance[..]) && p !in top ==> forall q :: q in top ==> q.percentage >= p.percentage
    ensures top != [] ==> forall p :: p in old(performance[..]) ==> top[0].percentage >= p.percentage
  {
    SortDescending(performance, PercentageOf);
    var n := Min(TopCount, performance.Length);
    top := performance[..n];
    forall p | p in old(performance[..])
      ensures p !in top ==> forall q :: q in top ==> q.percentage >= p.percentage
      ensures top != [] ==> top[0].percentage >= p.percentage
    {
      assert p in multiset(performance[..]);
      var j :| 0 <= j < performance.Length && performance[j] == p;
      if p !in top {
        assert j >= n;
      }
    }
  }

  /** `overallPercentage`: completions over logs across all habits, rounded; 0 with no logs. */
  function OverallPercentage(performance: seq<Performance>): (p: nat)
    ensures Sum(performance, TotalOf) == 0 ==> p == 0
    ensures var c, t := Sum(performance, CompletedOf), Sum(performance, TotalOf);
            t > 0 ==> 2 * t * p <= 200 * c + t < 2 * t * (p + 1)
  {
    Percent(Sum(performance, CompletedOf), Sum(performance, TotalOf))
  }

  /**
   * With no row counting more completions than logs, the overall rate is a percentage:
   * at most 100, exactly 100 when every log is completed, 0 when none is.
   */
  lemma OverallBounds(performance: seq<Performance>)
    requires forall i :: 0 <= i < |performance| ==> performance[i].completed <= performance[i].total
    ensures OverallPercentage(performance) <= 100
    ensures Sum(performance, CompletedOf) == 0 ==> OverallPercentage(performance) == 0
    ensures 0 < Sum(performance, CompletedOf) == Sum(performance, TotalOf) ==> OverallPercentage(performance) == 100
  {
    SumBounded(performance, CompletedOf, TotalOf);
    PercentBounds(Sum(performance, CompletedOf), Sum(performance, TotalOf));
  }

  /** The ranking sorts the rows before they are summed; the overall rate is unaffected. */
  lemma OverallIgnoresOrder(a: seq<Performance>, b: seq<Performance>)
    requires multiset(a) == multiset(b)
    ensures OverallPercentage(a) == OverallPercentage(b)
  {
    SumPermutation(a, b, CompletedOf);
    SumPermutation(a, b, TotalOf);
  }
}
