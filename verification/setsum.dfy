/**
 * Sums over finite sets of keys. The source accumulates over dictionary items in
 * whatever order the dictionary yields them; these lemmas show the order does not matter.
 */
module SetSums {
  import opened Monomials

  /** The sum of g over S, taking the elements in an arbitrary order. */
  ghost function SumOf(S: set<Key>, g: Key -> int): int
    decreases S
  {
    if S == {} then 0 else var p :| p in S; g(p) + SumOf(S - {p}, g)
  }

  /** Any element can be taken out first: the sum is independent of the order. */
  lemma {:induction false} SumOfRemove(S: set<Key>, g: Key -> int, y: Key)
    requires y in S
    ensures SumOf(S, g) == g(y) + SumOf(S - {y}, g)
    decreases S
  {
    var p :| p in S && SumOf(S, g) == g(p) + SumOf(S - {p}, g);
    if p != y {
      SumOfRemove(S - {p}, g, y);
      SumOfRemove(S - {y}, g, p);
      assert S - {p} - {y} == S - {y} - {p};
    }
  }

  /** Adding a fresh element adds its value. */
  lemma SumOfAdd(S: set<Key>, g: Key -> int, y: Key)
    requires y !in S
    ensures SumOf(S + {y}, g) == g(y) + SumOf(S, g)
  {
    SumOfRemove(S + {y}, g, y);
    assert S + {y} - {y} == S;
  }

  /** The sum depends only on the values of g on S. */
  lemma {:induction false} SumOfCongruent(S: set<Key>, g1: Key -> int, g2: Key -> int)
    requires forall p | p in S :: g1(p) == g2(p)
    ensures SumOf(S, g1) == SumOf(S, g2)
    decreases S
  {
    if S != {} {
      var p :| p in S && SumOf(S, g1) == g1(p) + SumOf(S - {p}, g1);
      SumOfRemove(S, g2, p);
      SumOfCongruent(S - {p}, g1, g2);
    }
  }

  /** A sum of zeros is zero. */
  lemma {:induction false} SumOfZero(S: set<Key>, g: Key -> int)
    requires forall p | p in S :: g(p) == 0
    ensures SumOf(S, g) == 0
    decreases S
  {
    if S != {} {
      var p :| p in S && SumOf(S, g) == g(p) + SumOf(S - {p}, g);
      SumOfZero(S - {p}, g);
    }
  }

  /** Enlarging the set by elements where g is 0 does not change the sum. */
  lemma {:induction false} SumOfExtend(S: set<Key>, T: set<Key>, g: Key -> int)
    requires S <= T
    requires forall p | p in T - S :: g(p) == 0
    ensures SumOf(T, g) == SumOf(S, g)
    decreases T
  {
    if T - S != {} {
      var p :| p in T - S;
      SumOfRemove(T, g, p);
      SumOfExtend(S, T - {p}, g);
    } else {
      forall p | p in T ensures p in S {
        assert p !in T - S;
      }
      assert T == S;
    }
  }

  /** Changing g at one element of S by delta changes the sum by delta. */
  lemma SumOfBump(S: set<Key>, g1: Key -> int, g2: Key -> int, y: Key, delta: int)
    requires y in S
    requires g2(y) == g1(y) + delta
    requires forall p | p in S && p != y :: g1(p) == g2(p)
    ensures SumOf(S, g2) == SumOf(S, g1) + delta
  {
    SumOfRemove(S, g1, y);
    SumOfRemove(S, g2, y);
    SumOfCongruent(S - {y}, g1, g2);
  }
}
