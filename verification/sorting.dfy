/**
 * `array.sort((a, b) => key(b) - key(a))`: sorting in place by a numeric key, largest first.
 * Used for the streak's `logs.sort`, the log query's `sort({ date: -1 })` and the
 * analytics page's ranking by percentage.
 */
module Sorting {

  /** Keys never increase from left to right. */
  ghost predicate SortedDesc<T>(s: seq<T>, key: T -> int)
  {
    forall i, j :: 0 <= i < j < |s| ==> key(s[i]) >= key(s[j])
  }

  /** Keys strictly decrease from left to right (no two elements share a key). */
  ghost predicate StrictlyDesc<T>(s: seq<T>, key: T -> int)
  {
    forall i, j :: 0 <= i < j < |s| ==> key(s[i]) > key(s[j])
  }

  /**
   * When the keys are all different there is only one way to sort: any sorted
   * rearrangement equals the strictly decreasing one.
   */
  lemma {:induction false} SortedPermutationUnique<T(!new)>(a: seq<T>, b: seq<T>, key: T -> int)
    requires SortedDesc(a, key) && StrictlyDesc(b, key)
    requires multiset(a) == multiset(b)
    ensures a == b
    decreases |a|
  {
    assert |a| == |multiset(a)| == |multiset(b)| == |b|;
    if a != [] {
      SameHead(a, b, key);
      DropHead(a, b);
      TailsOrdered(a, b, key);
      SortedPermutationUnique(a[1..], b[1..], key);
      assert a == [a[0]] + a[1..] && b == [b[0]] + b[1..];
    }
  }

  /** The largest key comes first in both, and only one element has it. */
  lemma SameHead<T>(a: seq<T>, b: seq<T>, key: T -> int)
    requires SortedDesc(a, key) && StrictlyDesc(b, key)
    requires multiset(a) == multiset(b) && a != [] && b != []
    ensures a[0] == b[0]
  {
    assert a[0] in multiset(b);
    var k :| 0 <= k < |b| && b[k] == a[0];
    assert b[0] in multiset(a);
    var m :| 0 <= m < |a| && a[m] == b[0];
    assert key(b[0]) == key(a[m]) <= key(a[0]) == key(b[k]);
  }

  /** Removing equal heads leaves equal multisets. */
  lemma DropHead<T>(a: seq<T>, b: seq<T>)
    requires multiset(a) == multiset(b) && a != [] && b != [] && a[0] == b[0]
    ensures multiset(a[1..]) == multiset(b[1..])
  {
    assert a == [a[0]] + a[1..] && b == [b[0]] + b[1..];
    assert multiset(a) == multiset{a[0]} + multiset(a[1..]);
    assert multiset(b) == multiset{b[0]} + multiset(b[1..]);
    assert multiset(a[1..]) == multiset(a) - multiset{a[0]};
    assert multiset(b[1..]) == multiset(b) - multiset{b[0]};
  }

  /** The tails of ordered sequences stay ordered. */
  lemma TailsOrdered<T>(a: seq<T>, b: seq<T>, key: T -> int)
    requires SortedDesc(a, key) && StrictlyDesc(b, key) && a != [] && b != []
    ensures SortedDesc(a[1..], key) && StrictlyDesc(b[1..], key)
  {
    TailSorted(a, key);
    forall i, j | 0 <= i < j < |b[1..]| ensures key(b[1..][i]) > key(b[1..][j]) {
      assert b[1..][i] == b[i + 1] && b[1..][j] == b[j + 1];
    }
  }

  /** Exchanges two neighbouring elements. */
  method SwapAdjacent<T>(a: array<T>, j: nat)
    requires 0 < j < a.Length
    modifies a
    ensures a[..] == old(a[..])[j - 1 := old(a[j])][j := old(a[j - 1])]
    ensures multiset(a[..]) == old(multiset(a[..]))
  {
    a[j - 1], a[j] := a[j], a[j - 1];
  }

  /**
   * Insertion sort by adjacent exchanges: sorted, a rearrangement of the input, and
   * stable, as `Array.prototype.sort` is required to be: elements with equal keys keep
   * their relative order.
   */
  method SortDescending<T>(a: array<T>, key: T -> int)
    modifies a
    ensures SortedDesc(a[..], key)
    ensures multiset(a[..]) == old(multiset(a[..]))
    ensures SameKeyOrder(a[..], old(a[..]), key)
  {
    var i := 0;
    while i < a.Length
      invariant 0 <= i <= a.Length
      invariant SortedDesc(a[..i], key)
      invariant multiset(a[..]) == old(multiset(a[..]))
      invariant SameKeyOrder(a[..], old(a[..]), key)
    {
      Insert(a, i, key);
      i := i + 1;
    }
    assert a[..i] == a[..];
  }

  /** Moves a[i] left past every larger-keyed neighbour, extending the sorted prefix by one. */
  method Insert<T>(a: array<T>, i: nat, key: T -> int)
    requires i < a.Length && SortedDesc(a[..i], key)
    modifies a
    ensures SortedDesc(a[..i + 1], key)
    ensures multiset(a[..]) == old(multiset(a[..]))
    ensures SameKeyOrder(a[..], old(a[..]), key)
  {
    var j := i;
    while 0 < j && key(a[j - 1]) < key(a[j])
      invariant 0 <= j <= i
      invariant forall p, q :: 0 <= p < q <= i && p != j && q != j ==> key(a[p]) >= key(a[q])
      invariant forall q :: j < q <= i ==> key(a[j]) > key(a[q])
      invariant multiset(a[..]) == old(multiset(a[..]))
      invariant SameKeyOrder(a[..], old(a[..]), key)
    {
      StepLeft(a, j, key, old(a[..]));
      j := j - 1;
    }
  }

  /** Exchanges a[j] with a smaller-keyed left neighbour; elements of equal key are never exchanged. */
  method StepLeft<T>(a: array<T>, j: nat, key: T -> int, ghost orig: seq<T>)
    requires 0 < j < a.Length && key(a[j - 1]) < key(a[j])
    requires SameKeyOrder(a[..], orig, key)
    modifies a
    ensures a[..] == old(a[..])[j - 1 := old(a[j])][j := old(a[j - 1])]
    ensures multiset(a[..]) == old(multiset(a[..]))
    ensures SameKeyOrder(a[..], orig, key)
  {
    ghost var before := a[..];
    SwapKeepsKeyOrder(before, j, key);
    SwapAdjacent(a, j);
    SameKeyOrderTrans(a[..], before, orig, key);
  }

  // ---------------------------------------------------------------------------
  // Stability
  // ---------------------------------------------------------------------------

  /** The elements of s whose key is k, in the order they occur in s. */
  ghost function WithKey<T>(s: seq<T>, key: T -> int, k: int): seq<T>
  {
    if |s| == 0 then []
    else if key(s[0]) == k then [s[0]] + WithKey(s[1..], key, k)
    else WithKey(s[1..], key, k)
  }

  /** s and t hold the same elements of each key, in the same order: a stable rearrangement. */
  ghost predicate SameKeyOrder<T>(s: seq<T>, t: seq<T>, key: T -> int)
  {
    forall k :: WithKey(s, key, k) == WithKey(t, key, k)
  }

  lemma SameKeyOrderTrans<T>(s: seq<T>, t: seq<T>, u: seq<T>, key: T -> int)
    requires SameKeyOrder(s, t, key) && SameKeyOrder(t, u, key)
    ensures SameKeyOrder(s, u, key)
  {
  }

  /** Selecting one key from a concatenation selects it from each part. */
  lemma {:induction false} WithKeyAppend<T>(s: seq<T>, t: seq<T>, key: T -> int, k: int)
    ensures WithKey(s + t, key, k) == WithKey(s, key, k) + WithKey(t, key, k)
    decreases |s|
  {
    if |s| == 0 {
      assert s + t == t;
    } else {
      assert (s + t)[1..] == s[1..] + t;
      WithKeyAppend(s[1..], t, key, k);
    }
  }

  /** Exchanging two neighbours with different keys keeps the order within every key. */
  lemma SwapKeepsKeyOrder<T>(s: seq<T>, j: nat, key: T -> int)
    requires 0 < j < |s| && key(s[j - 1]) != key(s[j])
    ensures SameKeyOrder(s[j - 1 := s[j]][j := s[j - 1]], s, key)
  {
    var t := s[j - 1 := s[j]][j := s[j - 1]];
    var front, back := s[..j - 1], s[j + 1..];
    assert s == front + [s[j - 1], s[j]] + back;
    assert t == front + [s[j], s[j - 1]] + back;
    forall k ensures WithKey(t, key, k) == WithKey(s, key, k) {
      WithKeyAppend(front + [s[j - 1], s[j]], back, key, k);
      WithKeyAppend(front, [s[j - 1], s[j]], key, k);
      WithKeyAppend(front + [s[j], s[j - 1]], back, key, k);
      WithKeyAppend(front, [s[j], s[j - 1]], key, k);
      assert [s[j - 1], s[j]][1..] == [s[j]] && [s[j], s[j - 1]][1..] == [s[j - 1]];
    }
  }

  /** Some element of s has key k when selecting k keeps anything. */
  lemma {:induction false} WithKeyWitness<T>(s: seq<T>, key: T -> int, k: int)
    requires |WithKey(s, key, k)| > 0
    ensures exists i :: 0 <= i < |s| && key(s[i]) == k
    decreases |s|
  {
    if key(s[0]) != k {
      WithKeyWitness(s[1..], key, k);
      var i :| 0 <= i < |s[1..]| && key(s[1..][i]) == k;
      assert key(s[i + 1]) == k;
    }
  }

  /**
   * There is only one stable way to sort: two descending sequences that hold the same
   * elements of every key in the same order are equal.
   */
  lemma {:induction false} StableSortUnique<T>(a: seq<T>, b: seq<T>, key: T -> int)
    requires SortedDesc(a, key) && SortedDesc(b, key)
    requires SameKeyOrder(a, b, key)
    ensures a == b
    decreases |a|
  {
    if |a| > 0 {
      assert WithKey(a, key, key(a[0]))[0] == a[0];
      WithKeyWitness(b, key, key(a[0]));
    }
    if |b| > 0 {
      assert WithKey(b, key, key(b[0]))[0] == b[0];
      WithKeyWitness(a, key, key(b[0]));
    }
    if |a| > 0 {
      var ka, kb := key(a[0]), key(b[0]);
      assert ka == kb;
      assert a[0] == b[0];
      assert SameKeyOrder(a[1..], b[1..], key) by {
        forall k ensures WithKey(a[1..], key, k) == WithKey(b[1..], key, k) {
          assert WithKey(a, key, k) == WithKey(b, key, k);
          if k == ka {
            assert WithKey(a, key, k)[1..] == WithKey(a[1..], key, k);
            assert WithKey(b, key, k)[1..] == WithKey(b[1..], key, k);
          }
        }
      }
      TailSorted(a, key);
      TailSorted(b, key);
      StableSortUnique(a[1..], b[1..], key);
      assert a == [a[0]] + a[1..] && b == [b[0]] + b[1..];
    }
  }

  /** The tail of a descending sequence is descending. */
  lemma TailSorted<T>(a: seq<T>, key: T -> int)
    requires SortedDesc(a, key) && |a| > 0
    ensures SortedDesc(a[1..], key)
  {
    forall i, j | 0 <= i < j < |a[1..]| ensures key(a[1..][i]) >= key(a[1..][j]) {
      assert a[1..][i] == a[i + 1] && a[1..][j] == a[j + 1];
    }
  }
}
