/**
 * The methods of a Y-monomial element as the source runs them: copy the exponent
 * dictionary, fill the missing levels of index i with 0, walk that column by level,
 * build the dictionary A_{i,k}^s and fold it into the copy. Each method is proved to
 * return what the specification functions of YMonomials and Levels describe.
 */
module YOperators {
  import opened Wrappers
  import opened Monomials
  import opened SetSums
  import opened Levels
  import opened Cartan
  import opened YMonomials

  /** The exponent of `t` when it carries index i, else 0: the summand of <h_i, wt M>. */
  function IndexPart(m: Monomial, i: int): Key -> int {
    (t: Key) => if t.0 == i then Exp(m, t) else 0
  }

  /** Removing one stored key from a levelled monomial removes its share of sum_k y_i(k). */
  lemma TotalRemove(m: Monomial, i: int, p: Key)
    requires Levelled(m) && p in m
    ensures Total(m, i) == Total(m - {p}, i) + IndexPart(m, i)(p)
  {
    var rest := m - {p};
    var z: Monomial := if p.0 == i then map[p := m[p]] else map[];
    var B := Bound(m, i) + Bound(rest, i);
    forall l: nat | l <= B ensures Exp(m, (i, l)) == Exp(rest, (i, l)) + Exp(z, (i, l)) {
    }
    PrefixAdd(m, rest, z, i, B);
    PrefixSpike(z, i, p.1, B);
    PrefixBeyond(m, i, B);
    PrefixBeyond(rest, i, B);
  }

  /** <h_i, wt M> summed over the stored keys in any order equals sum_k y_i(k). */
  lemma {:induction false} TotalIsSum(m: Monomial, i: int)
    requires Levelled(m)
    ensures SumOf(m.Keys, IndexPart(m, i)) == Total(m, i)
    decreases |m.Keys|
  {
    if m.Keys == {} {
      PrefixSpike(m, i, 0, Bound(m, i));
    } else {
      var p :| p in m;
      var rest := m - {p};
      assert rest.Keys == m.Keys - {p};
      TotalIsSum(rest, i);
      SumOfRemove(m.Keys, IndexPart(m, i), p);
      SumOfCongruent(rest.Keys, IndexPart(m, i), IndexPart(rest, i));
      TotalRemove(m, i, p);
    }
  }

  /** `max(x[1] for x in d if x[0] == i)`; found is false when no key carries index i. */
  method TopLevel(m: Monomial, i: int) returns (found: bool, K: int)
    ensures found <==> HasIndex(m, i)
    ensures found ==> K == Top(m, i)
  {
    found, K := false, 0;
    var keys := m.Keys;
    while keys != {}
      invariant keys <= m.Keys
      invariant found <==> exists t | t in m.Keys - keys :: t.0 == i
      invariant found ==> (i, K) in m && forall t | t in m.Keys - keys && t.0 == i :: t.1 <= K
      decreases keys
    {
      var t :| t in keys;
      if t.0 == i && (!found || t.1 > K) {
        found, K := true, t.1;
      }
      keys := keys - {t};
    }
    assert m.Keys - keys == m.Keys;
  }

  /** The copy of the dictionary with every missing level 0..K-1 of index i stored as 0. */
  method FillLevels(m: Monomial, i: int, K: int) returns (dd: Monomial)
    ensures forall t :: Exp(dd, t) == Exp(m, t)
    ensures m.Keys <= dd.Keys
    ensures forall t | t in dd && t !in m :: t.0 == i && 0 <= t.1 < K
    ensures forall l | 0 <= l < K :: (i, l) in dd
  {
    dd := m;
    var a := 0;
    while a < K
      invariant a <= K || a == 0
      invariant forall t :: Exp(dd, t) == Exp(m, t)
      invariant m.Keys <= dd.Keys
      invariant forall t | t in dd && t !in m :: t.0 == i && 0 <= t.1 < a
      invariant forall l | 0 <= l < a :: (i, l) in dd
    {
      if (i, a) !in dd {
        dd := dd[(i, a) := 0];
      }
      a := a + 1;
    }
  }

  /** `phi`: raises for an index outside the index set, 0 when i does not occur, else the largest partial sum of the column. */
  method ComputePhi(d: Datum, m: Monomial, i: int) returns (r: Result<int, Error>)
    requires Levelled(m)
    ensures r.Failure? <==> !d.InIndexSet(i)
    ensures r.Failure? ==> r.error == NotInIndexSet
    ensures r.Success? ==> r.value == Phi(m, i)
  {
    if !d.InIndexSet(i) {
      return Failure(NotInIndexSet);
    }
    var found, K := TopLevel(m, i);
    if !found {
      AbsentIndex(m, i);
      return Success(0);
    }
    var dd := FillLevels(m, i, K);
    var sum := dd[(i, 0)];
    var best := sum;
    for a := 1 to K + 1
      invariant sum == Prefix(m, i, a - 1)
      invariant best == MaxPrefix(m, i, a - 1)
    {
      sum := sum + dd[(i, a)];
      if sum > best {
        best := sum;
      }
    }
    return Success(best);
  }

  /**
   * `_classical_weight().scalar(h[i])`: the exponents stored with index i, summed over the
   * dictionary; looking up the fundamental weight of a label outside the index set fails.
   */
  method Pairing(d: Datum, m: Monomial, i: int) returns (r: Result<int, Error>)
    requires Levelled(m)
    ensures r.Failure? <==> !Labelled(d, m)
    ensures r.Failure? ==> r.error == UnknownLabel
    ensures r.Success? ==> r.value == Total(m, i)
  {
    var w := 0;
    var keys := m.Keys;
    while keys != {}
      invariant keys <= m.Keys
      invariant forall t | t in m.Keys - keys :: d.InIndexSet(t.0)
      invariant w == SumOf(m.Keys - keys, IndexPart(m, i))
      decreases keys
    {
      var t :| t in keys;
      if !d.InIndexSet(t.0) {
        return Failure(UnknownLabel);
      }
      SumOfAdd(m.Keys - keys, IndexPart(m, i), t);
      assert m.Keys - (keys - {t}) == (m.Keys - keys) + {t};
      if t.0 == i {
        w := w + m[t];
      }
      keys := keys - {t};
    }
    assert m.Keys - keys == m.Keys;
    TotalIsSum(m, i);
    return Success(w);
  }

  /** `epsilon`: phi_i minus the pairing of the classical weight with h_i. */
  method ComputeEpsilon(d: Datum, m: Monomial, i: int) returns (r: Result<int, Error>)
    requires Levelled(m)
    ensures r.Failure? <==> !d.InIndexSet(i) || !Labelled(d, m)
    ensures !d.InIndexSet(i) ==> r == Failure(NotInIndexSet)
    ensures d.InIndexSet(i) && !Labelled(d, m) ==> r == Failure(UnknownLabel)
    ensures r.Success? ==> r.value == Epsilon(m, i) && r.value >= 0
  {
    var phi := ComputePhi(d, m, i);
    if phi.Failure? {
      return Failure(phi.error);
    }
    var w := Pairing(d, m, i);
    if w.Failure? {
      return Failure(w.error);
    }
    EpsilonNonNegative(m, i);
    return Success(phi.value - w.value);
  }

  /** A non-zero epsilon_i needs a key of index i. */
  lemma EpsilonNeedsIndex(m: Monomial, i: int)
    requires Epsilon(m, i) != 0
    ensures HasIndex(m, i)
  {
    if !HasIndex(m, i) {
      AbsentIndex(m, i);
    }
  }

  /** `_kf`: 0 when i does not occur, else the first level whose running sum reaches phi_i. */
  method ComputeKF(d: Datum, m: Monomial, i: int) returns (r: Result<nat, Error>)
    requires Levelled(m)
    ensures r.Failure? <==> HasIndex(m, i) && !d.InIndexSet(i)
    ensures r.Success? ==> r.value == KF(m, i)
  {
    var found, K := TopLevel(m, i);
    if !found {
      AbsentIndex(m, i);
      return Success(0);
    }
    var dd := FillLevels(m, i, K);
    var phi := ComputePhi(d, m, i);
    if phi.Failure? {
      return Failure(phi.error);
    }
    var a := 0;
    var sum := dd[(i, 0)];
    while sum != phi.value
      invariant a <= KF(m, i)
      invariant sum == Prefix(m, i, a)
      decreases KF(m, i) - a
    {
      a := a + 1;
      sum := sum + dd[(i, a)];
    }
    return Success(a);
  }

  /** `_ke`: None (+Infinity) when epsilon_i is 0, else the last level whose running sum equals phi_i. */
  method ComputeKE(d: Datum, m: Monomial, i: int) returns (r: Result<Option<nat>, Error>)
    requires Levelled(m)
    ensures r.Failure? <==> !d.InIndexSet(i) || !Labelled(d, m)
    ensures !d.InIndexSet(i) ==> r == Failure(NotInIndexSet)
    ensures d.InIndexSet(i) && !Labelled(d, m) ==> r == Failure(UnknownLabel)
    ensures r.Success? ==> r.value == KE(m, i)
  {
    var phi := ComputePhi(d, m, i);
    if phi.Failure? {
      return Failure(phi.error);
    }
    var w := Pairing(d, m, i);
    if w.Failure? {
      return Failure(w.error);
    }
    if phi.value == w.value {
      return Success(None);
    }
    EpsilonNeedsIndex(m, i);
    var _, K := TopLevel(m, i);
    var dd := FillLevels(m, i, K);
    var total := 0;
    var seen := false;
    var last := 0;
    for a := 0 to K + 1
      invariant a > 0 ==> total == Prefix(m, i, a - 1)
      invariant a == 0 ==> total == 0
      invariant seen ==> last < a && Prefix(m, i, last) == phi.value
      invariant seen ==> forall l: nat | last < l < a :: Prefix(m, i, l) != phi.value
      invariant !seen ==> forall l: nat | l < a :: Prefix(m, i, l) != phi.value
    {
      total := total + dd[(i, a)];
      if total == phi.value {
        seen, last := true, a;
      }
    }
    if seen {
      LastMaxIs(m, i, K, last);
    }
    return Success(Some(if seen then last else 0));
  }

  /** The dictionary `Aik` of `e` (s = 1) and `f` (s = -1), filled label by label. */
  method BuildFactor(d: Datum, i: int, k: int, s: int) returns (aik: Monomial)
    requires d.Valid() && d.InIndexSet(i)
    ensures aik == Factor(d, i, k, s)
  {
    aik := map[(i, k) := s, (i, k + 1) := s];
    assert aik == FactorUpTo(d, i, k, s, 0);
    for jIndex := 0 to d.n
      invariant aik == FactorUpTo(d, i, k, s, jIndex)
    {
      var j := jIndex + d.Shift();
      if i != j {
        var c := d.c[jIndex][i - d.Shift()];
        if d.cartan[jIndex][i - d.Shift()] != 0 {
          aik := aik[(j, k + c) := s * d.cartan[jIndex][i - d.Shift()]];
        }
      }
    }
  }

  /** The source's "Multiply by Aik" loop: add each entry of f, deleting a key whose sum is 0. */
  method MultiplyInto(m: Monomial, f: Monomial) returns (r: Monomial)
    ensures r == Mul(m, f)
  {
    r := m;
    var keys := f.Keys;
    while keys != {}
      invariant keys <= f.Keys
      invariant forall t | t !in f.Keys - keys :: (t in r <==> t in m) && (t in r ==> r[t] == m[t])
      invariant forall t | t in f.Keys - keys :: (t in r <==> t in Mul(m, f)) && (t in r ==> r[t] == Mul(m, f)[t])
      decreases keys
    {
      var t :| t in keys;
      if t in r {
        if r[t] == -f[t] {
          r := r - {t};
        } else {
          r := r[t := r[t] + f[t]];
        }
      } else {
        r := r[t := f[t]];
      }
      keys := keys - {t};
    }
    assert f.Keys - keys == f.Keys;
  }

  /** `e`: raises outside the index set or on an unknown label, None when epsilon_i is 0, else M A_{i,k_e}. */
  method ComputeE(d: Datum, m: Monomial, i: int) returns (r: Result<Option<Monomial>, Error>)
    requires d.Valid() && Levelled(m)
    ensures r.Failure? <==> !d.InIndexSet(i) || !Labelled(d, m)
    ensures !d.InIndexSet(i) ==> r == Failure(NotInIndexSet)
    ensures d.InIndexSet(i) && !Labelled(d, m) ==> r == Failure(UnknownLabel)
    ensures r.Success? ==> r.value == ESpec(d, m, i)
  {
    if !d.InIndexSet(i) {
      return Failure(NotInIndexSet);
    }
    var eps := ComputeEpsilon(d, m, i);
    if eps.Failure? {
      return Failure(eps.error);
    }
    if eps.value == 0 {
      return Success(None);
    }
    var ke := ComputeKE(d, m, i);
    var aik := BuildFactor(d, i, ke.value.value, 1);
    var newdict := MultiplyInto(m, aik);
    return Success(Some(newdict));
  }

  /** `f`: raises outside the index set, else M A_{i,k_f}^-1. */
  method ComputeF(d: Datum, m: Monomial, i: int) returns (r: Result<Monomial, Error>)
    requires d.Valid() && Levelled(m)
    ensures r.Failure? <==> !d.InIndexSet(i)
    ensures r.Success? ==> r.value == FSpec(d, m, i)
  {
    if !d.InIndexSet(i) {
      return Failure(NotInIndexSet);
    }
    var kf := ComputeKF(d, m, i);
    var aik := BuildFactor(d, i, kf.value, -1);
    var newdict := MultiplyInto(m, aik);
    return Success(newdict);
  }
}
