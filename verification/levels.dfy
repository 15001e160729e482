/**
 * The level bookkeeping of a Y-monomial for one index i: partial sums
 * y_i(0) + ... + y_i(k), their maximum phi_i, the first and last level where it is
 * reached (k_f and k_e), and the total sum <h_i, wt(M)>.
 */
module Levels {
  import opened Wrappers
  import opened Monomials

  /** y_i(0) + ... + y_i(k); levels without a stored entry count as 0. */
  function Prefix(m: Monomial, i: int, k: nat): int {
    if k == 0 then Exp(m, (i, 0)) else Prefix(m, i, k - 1) + Exp(m, (i, k))
  }

  /** The largest of the partial sums at levels 0..K. */
  function MaxPrefix(m: Monomial, i: int, K: nat): (r: int)
    ensures forall l: nat | l <= K :: Prefix(m, i, l) <= r
    ensures exists l: nat | l <= K :: Prefix(m, i, l) == r
  {
    if K == 0 then Prefix(m, i, 0)
    else
      var prev := MaxPrefix(m, i, K - 1);
      var here := Prefix(m, i, K);
      assert Prefix(m, i, K) == here;
      if here > prev then here else prev
  }

  /** The first level of 0..K whose partial sum is the maximum. */
  function FirstMax(m: Monomial, i: int, K: nat): (r: nat)
    ensures r <= K
    ensures Prefix(m, i, r) == MaxPrefix(m, i, K)
    ensures forall l: nat | l < r :: Prefix(m, i, l) < MaxPrefix(m, i, K)
  {
    if K == 0 then 0
    else if Prefix(m, i, K) > MaxPrefix(m, i, K - 1) then K
    else FirstMax(m, i, K - 1)
  }

  /** The last level of 0..K whose partial sum is the maximum. */
  function LastMax(m: Monomial, i: int, K: nat): (r: nat)
    ensures r <= K
    ensures Prefix(m, i, r) == MaxPrefix(m, i, K)
    ensures forall l: nat | r < l <= K :: Prefix(m, i, l) < MaxPrefix(m, i, K)
  {
    if K == 0 then 0
    else if Prefix(m, i, K) >= MaxPrefix(m, i, K - 1) then K
    else LastMax(m, i, K - 1)
  }

  /** A largest stored level of index i exists whenever i occurs. */
  lemma {:induction false} TopExists(m: Monomial, i: int)
    requires HasIndex(m, i)
    ensures exists K :: (i, K) in m && forall t | t in m && t.0 == i :: t.1 <= K
    decreases |m|
  {
    var t0 :| t0 in m && t0.0 == i;
    var rest := m - {t0};
    if HasIndex(rest, i) {
      TopExists(rest, i);
      var K :| (i, K) in rest && forall t | t in rest && t.0 == i :: t.1 <= K;
      if t0.1 <= K {
        assert (i, K) in m && forall t | t in m && t.0 == i :: t.1 <= K;
      } else {
        assert (i, t0.1) in m && forall t | t in m && t.0 == i :: t.1 <= t0.1;
      }
    } else {
      assert (i, t0.1) in m && forall t | t in m && t.0 == i :: t.1 <= t0.1;
    }
  }

  /** The largest stored level K of index i (the source's `max(x[1] for x in d if x[0] == i)`). */
  ghost function Top(m: Monomial, i: int): (K: int)
    requires HasIndex(m, i)
    ensures (i, K) in m
    ensures forall t | t in m && t.0 == i :: t.1 <= K
  {
    TopExists(m, i);
    var K :| (i, K) in m && forall t | t in m && t.0 == i :: t.1 <= K; K
  }

  /** The last level the source scans: K when i occurs, else 0. */
  ghost function Bound(m: Monomial, i: int): (B: nat)
    ensures forall t | t in m && t.0 == i :: t.1 <= B
  {
    if HasIndex(m, i) && Top(m, i) >= 0 then Top(m, i) else 0
  }

  /** phi_i(M). */
  ghost function Phi(m: Monomial, i: int): int {
    MaxPrefix(m, i, Bound(m, i))
  }

  /** <h_i, wt(M)> = sum over k of y_i(k). */
  ghost function Total(m: Monomial, i: int): int {
    Prefix(m, i, Bound(m, i))
  }

  /** epsilon_i(M) = phi_i(M) - <h_i, wt(M)>. */
  ghost function Epsilon(m: Monomial, i: int): int {
    Phi(m, i) - Total(m, i)
  }

  /** k_f: the first level reaching phi_i (0 when i does not occur). */
  ghost function KF(m: Monomial, i: int): nat {
    FirstMax(m, i, Bound(m, i))
  }

  /** k_e: the last level reaching phi_i, or None (the source's +Infinity) when epsilon_i is 0. */
  ghost function KE(m: Monomial, i: int): Option<nat> {
    if Epsilon(m, i) == 0 then None else Some(LastMax(m, i, Bound(m, i)))
  }

  /** Partial sums do not move past the largest stored level. */
  lemma {:induction false} PrefixBeyond(m: Monomial, i: int, B: nat)
    requires B >= Bound(m, i)
    ensures Prefix(m, i, B) == Total(m, i)
  {
    if B > Bound(m, i) {
      PrefixBeyond(m, i, B - 1);
      assert (i, B) !in m;
    }
  }

  /** Partial sums only look at index i and levels 0..k. */
  lemma {:induction false} PrefixCongruent(a: Monomial, b: Monomial, i: int, k: nat)
    requires forall l: nat | l <= k :: Exp(a, (i, l)) == Exp(b, (i, l))
    ensures Prefix(a, i, k) == Prefix(b, i, k)
  {
    if k > 0 {
      PrefixCongruent(a, b, i, k - 1);
    }
  }

  /** Partial sums are additive. */
  lemma {:induction false} PrefixAdd(x: Monomial, a: Monomial, b: Monomial, i: int, k: nat)
    requires forall l: nat | l <= k :: Exp(x, (i, l)) == Exp(a, (i, l)) + Exp(b, (i, l))
    ensures Prefix(x, i, k) == Prefix(a, i, k) + Prefix(b, i, k)
  {
    if k > 0 {
      PrefixAdd(x, a, b, i, k - 1);
    }
  }

  /** A map touching index i only at level l0 has partial sums 0 before l0 and m[(i,l0)] from l0 on. */
  lemma {:induction false} PrefixSpike(z: Monomial, i: int, l0: int, k: nat)
    requires forall l: nat | l != l0 :: Exp(z, (i, l)) == 0
    ensures Prefix(z, i, k) == if 0 <= l0 <= k then Exp(z, (i, l0)) else 0
  {
    if k > 0 {
      PrefixSpike(z, i, l0, k - 1);
    }
  }

  /** When the maximum is not reached at the last level, nothing past Bound changes k_e. */
  lemma {:induction false} LastMaxBeyond(m: Monomial, i: int, B: nat)
    requires B >= Bound(m, i)
    requires Total(m, i) < Phi(m, i)
    ensures MaxPrefix(m, i, B) == Phi(m, i)
    ensures FirstMax(m, i, B) == KF(m, i)
    ensures LastMax(m, i, B) == LastMax(m, i, Bound(m, i))
  {
    MaxPrefixBeyond(m, i, B);
    if B > Bound(m, i) {
      LastMaxBeyond(m, i, B - 1);
      PrefixBeyond(m, i, B);
    }
  }

  /** phi_i and k_f are the same whatever bound past the largest level is scanned. */
  lemma {:induction false} MaxPrefixBeyond(m: Monomial, i: int, B: nat)
    requires B >= Bound(m, i)
    ensures MaxPrefix(m, i, B) == Phi(m, i)
    ensures FirstMax(m, i, B) == KF(m, i)
  {
    if B > Bound(m, i) {
      MaxPrefixBeyond(m, i, B - 1);
      PrefixBeyond(m, i, B);
      PrefixBeyond(m, i, Bound(m, i));
      assert Prefix(m, i, Bound(m, i)) <= Phi(m, i);
    }
  }

  /** phi_i >= <h_i, wt(M)>, so epsilon_i(M) >= 0. */
  lemma EpsilonNonNegative(m: Monomial, i: int)
    ensures Phi(m, i) >= Total(m, i)
    ensures Epsilon(m, i) >= 0
  {
  }

  /** k_f <= k_e <= K when k_e is defined, and the last level is not a maximum then. */
  lemma KFBeforeKE(m: Monomial, i: int)
    requires KE(m, i).Some?
    ensures KF(m, i) <= KE(m, i).value < Bound(m, i)
  {
    var B := Bound(m, i);
    var f, e := FirstMax(m, i, B), LastMax(m, i, B);
    assert Prefix(m, i, e) == MaxPrefix(m, i, B);
    assert Prefix(m, i, B) == Total(m, i);
  }

  /** Without an entry for i, phi_i, epsilon_i and k_f are 0 and k_e is +Infinity. */
  lemma AbsentIndex(m: Monomial, i: int)
    requires !HasIndex(m, i)
    ensures Phi(m, i) == 0 && Total(m, i) == 0 && KF(m, i) == 0 && KE(m, i) == None
  {
    assert (i, 0) !in m;
  }

  /** Uniqueness: a value reached at w and bounding all partial sums is the maximum. */
  lemma MaxPrefixIs(m: Monomial, i: int, K: nat, w: nat, v: int)
    requires w <= K && Prefix(m, i, w) == v
    requires forall l: nat | l <= K :: Prefix(m, i, l) <= v
    ensures MaxPrefix(m, i, K) == v
  {
  }

  /** Uniqueness of the first maximising level. */
  lemma FirstMaxIs(m: Monomial, i: int, K: nat, w: nat)
    requires w <= K && Prefix(m, i, w) == MaxPrefix(m, i, K)
    requires forall l: nat | l < w :: Prefix(m, i, l) < MaxPrefix(m, i, K)
    ensures FirstMax(m, i, K) == w
  {
    var r := FirstMax(m, i, K);
    assert Prefix(m, i, r) == MaxPrefix(m, i, K);
  }

  /** Uniqueness of the last maximising level. */
  lemma LastMaxIs(m: Monomial, i: int, K: nat, w: nat)
    requires w <= K && Prefix(m, i, w) == MaxPrefix(m, i, K)
    requires forall l: nat | w < l <= K :: Prefix(m, i, l) < MaxPrefix(m, i, K)
    ensures LastMax(m, i, K) == w
  {
    var r := LastMax(m, i, K);
    assert Prefix(m, i, r) == MaxPrefix(m, i, K);
  }
}
