/** `Math.round((completed / total) * 100)`, guarded by `total > 0`, on integers. */
module Percentages {

  /**
   * The completion percentage rounded half up, 0 when there is nothing to count.
   * The second postcondition says p is the integer nearest 100 * completed / total,
   * with halves going up: p <= 100c/t + 1/2 < p + 1.
   */
  function Percent(completed: nat, total: nat): (p: nat)
    ensures total == 0 ==> p == 0
    ensures total > 0 ==> 2 * total * p <= 200 * completed + total < 2 * total * (p + 1)
  {
    if total == 0 then 0
    else
      var q := (200 * completed + total) / (2 * total);
      assert q * (2 * total) <= 200 * completed + total < q * (2 * total) + 2 * total;
      q
  }

  /** A percentage of a part of a whole lies in [0, 100], and the extremes are exact. */
  lemma PercentBounds(completed: nat, total: nat)
    requires completed <= total
    ensures Percent(completed, total) <= 100
    ensures completed == total && total > 0 ==> Percent(completed, total) == 100
    ensures completed == 0 ==> Percent(completed, total) == 0
  {
    var p := Percent(completed, total);
    if total > 0 {
      if p >= 101 {
        MulMonotone(2 * total, 101, p);
        assert false;
      }
      if completed == total && p <= 99 {
        MulMonotone(2 * total, p + 1, 100);
        assert false;
      }
      if completed == 0 && p >= 1 {
        MulMonotone(2 * total, 1, p);
        assert false;
      }
    }
  }

  /** Multiplying by a natural number keeps the order. */
  lemma MulMonotone(a: nat, b: int, c: int)
    requires b <= c
    ensures a * b <= a * c
  {
    assert a * c - a * b == a * (c - b);
  }

  /** Two of three logs completed shows as 67 percent. */
  lemma TwoOfThree()
    ensures Percent(2, 3) == 67
  {
  }
}
