/**
 * Crystal operators on Y-monomials: e_i multiplies by A_{i,k_e}, f_i by A_{i,k_f}^{-1}, where
 * A_{i,k} = Y_{i,k} Y_{i,k+1} prod_{j != i} Y_{j,k+c_ji}^{a_ji}.
 */
module YMonomials {
  import opened Wrappers
  import opened Monomials
  import opened Levels
  import opened Cartan

  /**
   * NotInIndexSet: "i must be an element of the index set".
   * UnknownLabel: the classical weight looks up the fundamental weight of every stored label,
   * which fails for a label outside the index set.
   */
  datatype Error = NotInIndexSet | UnknownLabel

  /** Every stored key carries a label of the index set. */
  predicate Labelled(d: Datum, m: Monomial) {
    forall t | t in m :: d.InIndexSet(t.0)
  }

  /** The exponent of Y_t in A_{i,k}. */
  function Unit(d: Datum, i: int, k: int, t: Key): int
    requires d.Valid() && d.InIndexSet(i)
  {
    if t.0 == i then (if t.1 == k || t.1 == k + 1 then 1 else 0)
    else if d.InIndexSet(t.0) && t.1 == k + d.C(t.0, i) then d.A(t.0, i)
    else 0
  }

  /** The rows j of the index set below Shift() + upTo whose factor entry is stored. */
  predicate RowStored(d: Datum, i: int, j: int, upTo: int)
    requires d.Valid() && d.InIndexSet(i)
  {
    d.Shift() <= j < d.Shift() + upTo && d.InIndexSet(j) && j != i && d.A(j, i) != 0
  }

  /** The entries Y_{j,k+c_ji}^{s a_ji} of the labels j != i at positions below upTo, added label by label. */
  function Rows(d: Datum, i: int, k: int, s: int, upTo: nat): Monomial
    requires d.Valid() && d.InIndexSet(i)
  {
    if upTo == 0 then map[]
    else
      var j := d.Shift() + upTo - 1;
      var before := Rows(d, i, k, s, upTo - 1);
      if RowStored(d, i, j, upTo) then before[(j, k + d.C(j, i)) := s * d.A(j, i)] else before
  }

  /** Which keys Rows stores, and with what value. */
  lemma {:induction false} RowsAt(d: Datum, i: int, k: int, s: int, upTo: nat, t: Key)
    requires d.Valid() && d.InIndexSet(i)
    ensures t in Rows(d, i, k, s, upTo) <==> RowStored(d, i, t.0, upTo) && t.1 == k + d.C(t.0, i)
    ensures t in Rows(d, i, k, s, upTo) ==> Rows(d, i, k, s, upTo)[t] == s * d.A(t.0, i)
  {
    if upTo > 0 {
      RowsAt(d, i, k, s, upTo - 1, t);
    }
  }

  /** The source's dictionary `Aik` after the rows below position upTo: A_{i,k}^s. */
  function FactorUpTo(d: Datum, i: int, k: int, s: int, upTo: nat): Monomial
    requires d.Valid() && d.InIndexSet(i)
  {
    map[(i, k) := s, (i, k + 1) := s] + Rows(d, i, k, s, upTo)
  }

  /** A_{i,k}^s (s = 1 for e_i, s = -1 for f_i). */
  function Factor(d: Datum, i: int, k: int, s: int): Monomial
    requires d.Valid() && d.InIndexSet(i)
  {
    FactorUpTo(d, i, k, s, d.n)
  }

  /** A_{i,k}^s has exponent s * Unit at every key and stores no zero. */
  lemma FactorExp(d: Datum, i: int, k: int, s: int, t: Key)
    requires d.Valid() && d.InIndexSet(i) && (s == 1 || s == -1)
    ensures Exp(Factor(d, i, k, s), t) == s * Unit(d, i, k, t)
    ensures NoZeros(Factor(d, i, k, s))
  {
    var rows := Rows(d, i, k, s, d.n);
    var f := Factor(d, i, k, s);
    assert f == map[(i, k) := s, (i, k + 1) := s] + rows;
    RowsAt(d, i, k, s, d.n, t);
    if t.0 == i {
      assert t !in rows;
    } else {
      assert Exp(f, t) == Exp(rows, t);
    }
    forall t' | t' in f ensures f[t'] != 0 {
      RowsAt(d, i, k, s, d.n, t');
    }
  }

  /** e_i(M): no edge when epsilon_i(M) = 0, otherwise M A_{i,k_e}. */
  ghost function ESpec(d: Datum, m: Monomial, i: int): Option<Monomial>
    requires d.Valid() && d.InIndexSet(i)
  {
    match KE(m, i)
    case None => None
    case Some(ke) => Some(Mul(m, Factor(d, i, ke, 1)))
  }

  /** f_i(M) = M A_{i,k_f}^{-1}: always defined on Y-monomials. */
  ghost function FSpec(d: Datum, m: Monomial, i: int): Monomial
    requires d.Valid() && d.InIndexSet(i)
  {
    Mul(m, Factor(d, i, KF(m, i), -1))
  }

  /** e_i is no edge exactly when epsilon_i(M) = 0. */
  lemma ENoEdge(d: Datum, m: Monomial, i: int)
    requires d.Valid() && d.InIndexSet(i)
    ensures ESpec(d, m, i).None? <==> Epsilon(m, i) == 0
  {
  }

  /** Partial sums of A_{i,k}^s along index j. */
  lemma {:induction false} FactorPrefix(d: Datum, i: int, k: nat, s: int, j: int, l: nat)
    requires d.Valid() && d.InIndexSet(i) && (s == 1 || s == -1)
    ensures Prefix(Factor(d, i, k, s), j, l) ==
      if j == i then s * ((if l >= k then 1 else 0) + (if l >= k + 1 then 1 else 0))
      else if d.InIndexSet(j) then (if l >= k + d.C(j, i) then s * d.A(j, i) else 0)
      else 0
  {
    FactorExp(d, i, k, s, (j, l));
    if l > 0 {
      FactorPrefix(d, i, k, s, j, l - 1);
    }
  }

  /** Multiplying by A_{i,k}^s adds the factor's partial sums. */
  lemma PrefixAfterMul(d: Datum, m: Monomial, i: int, k: nat, s: int, j: int, l: nat)
    requires d.Valid() && d.InIndexSet(i) && (s == 1 || s == -1)
    ensures Prefix(Mul(m, Factor(d, i, k, s)), j, l) == Prefix(m, j, l) + Prefix(Factor(d, i, k, s), j, l)
  {
    var f := Factor(d, i, k, s);
    forall l': nat | l' <= l ensures Exp(Mul(m, f), (j, l')) == Exp(m, (j, l')) + Exp(f, (j, l')) {
      MulExp(m, f, (j, l'));
    }
    PrefixAdd(Mul(m, f), m, f, j, l);
  }

  /** The change of <h_j, wt> caused by A_{i,k}: 2 for j = i, a_ji for the other labels. */
  function RootPairing(d: Datum, i: int, j: int): int
    requires d.Valid() && d.InIndexSet(i)
  {
    if j == i then 2 else if d.InIndexSet(j) then d.A(j, i) else 0
  }

  /** Multiplying by A_{i,k}^s moves sum_k y_j(k) by s * Shift(i, j). */
  lemma TotalAfterMul(d: Datum, m: Monomial, i: int, k: nat, s: int, j: int)
    requires d.Valid() && d.InIndexSet(i) && (s == 1 || s == -1)
    ensures Total(Mul(m, Factor(d, i, k, s)), j) == Total(m, j) + s * RootPairing(d, i, j)
  {
    var r := Mul(m, Factor(d, i, k, s));
    var B := Bound(m, j) + Bound(r, j) + k + 1;
    PrefixAfterMul(d, m, i, k, s, j, B);
    FactorPrefix(d, i, k, s, j, B);
    PrefixBeyond(m, j, B);
    PrefixBeyond(r, j, B);
  }

  /** Weight shift of e_i: <h_j, wt> rises by 2 for j = i and by a_ji otherwise. */
  lemma EWeight(d: Datum, m: Monomial, i: int, j: int)
    requires d.Valid() && d.InIndexSet(i) && ESpec(d, m, i).Some?
    ensures Total(ESpec(d, m, i).value, j) == Total(m, j) + RootPairing(d, i, j)
  {
    TotalAfterMul(d, m, i, KE(m, i).value, 1, j);
  }

  /** Weight shift of f_i: <h_j, wt> drops by 2 for j = i and by a_ji otherwise. */
  lemma FWeight(d: Datum, m: Monomial, i: int, j: int)
    requires d.Valid() && d.InIndexSet(i)
    ensures Total(FSpec(d, m, i), j) == Total(m, j) - RootPairing(d, i, j)
  {
    TotalAfterMul(d, m, i, KF(m, i), -1, j);
  }

  /** Multiplying by A_{i,k}^s moves every exponent by s * Unit and adds no zero. */
  lemma MulShift(d: Datum, m: Monomial, i: int, k: int, s: int)
    requires d.Valid() && d.InIndexSet(i) && (s == 1 || s == -1)
    ensures forall t :: Exp(Mul(m, Factor(d, i, k, s)), t) == Exp(m, t) + s * Unit(d, i, k, t)
    ensures NoZeros(m) ==> NoZeros(Mul(m, Factor(d, i, k, s)))
  {
    var f := Factor(d, i, k, s);
    forall t ensures Exp(Mul(m, f), t) == Exp(m, t) + s * Unit(d, i, k, t) {
      MulExp(m, f, t);
      FactorExp(d, i, k, s, t);
    }
    FactorExp(d, i, k, s, (i, k));
    if NoZeros(m) {
      MulNoZeros(m, f);
    }
  }

  /** The keys of A_{i,k}^s: (i,k), (i,k+1) and (j, k+c_ji) for the labels j != i with a_ji != 0. */
  lemma FactorKeys(d: Datum, i: int, k: int, s: int, t: Key)
    requires d.Valid() && d.InIndexSet(i)
    ensures t in Factor(d, i, k, s) <==>
              t == (i, k) || t == (i, k + 1)
              || (t.0 != i && d.InIndexSet(t.0) && t.1 == k + d.C(t.0, i) && d.A(t.0, i) != 0)
  {
    RowsAt(d, i, k, s, d.n, t);
  }

  /**
   * The footprint of e_i and f_i: keys outside A_{i,k}^s keep their entry, and the levels
   * and labels of the result stay in the domain.
   */
  lemma MulFootprint(d: Datum, m: Monomial, i: int, k: nat, s: int)
    requires d.Valid() && d.InIndexSet(i) && (s == 1 || s == -1)
    ensures forall t | t !in Factor(d, i, k, s) ::
              (t in Mul(m, Factor(d, i, k, s)) <==> t in m)
              && (t in m ==> Mul(m, Factor(d, i, k, s))[t] == m[t])
    ensures Levelled(m) ==> Levelled(Mul(m, Factor(d, i, k, s)))
    ensures Labelled(d, m) ==> Labelled(d, Mul(m, Factor(d, i, k, s)))
  {
    var f := Factor(d, i, k, s);
    forall t | t in f ensures t.1 >= 0 && d.InIndexSet(t.0) {
      FactorKeys(d, i, k, s, t);
    }
  }

  /** Multiplying by A_{i,k}^s and then by A_{i,k}^-s gives back a monomial without zero entries. */
  lemma MulCancel(d: Datum, m: Monomial, i: int, k: int, s: int)
    requires d.Valid() && d.InIndexSet(i) && NoZeros(m) && (s == 1 || s == -1)
    ensures Mul(Mul(m, Factor(d, i, k, s)), Factor(d, i, k, -s)) == m
  {
    var r := Mul(m, Factor(d, i, k, s));
    MulShift(d, m, i, k, s);
    MulShift(d, r, i, k, -s);
    Extensional(Mul(r, Factor(d, i, k, -s)), m);
  }

  /** The partial sums of M A_{i,k}^s along i: s is added from level k on and again from level k+1 on. */
  lemma PrefixOfStep(d: Datum, m: Monomial, i: int, k: nat, s: int, l: nat)
    requires d.Valid() && d.InIndexSet(i) && (s == 1 || s == -1)
    ensures Prefix(Mul(m, Factor(d, i, k, s)), i, l)
              == Prefix(m, i, l) + (if l >= k then s else 0) + (if l >= k + 1 then s else 0)
  {
    PrefixAfterMul(d, m, i, k, s, i, l);
    FactorPrefix(d, i, k, s, i, l);
  }

  /** Beyond the last maximum of the partial sums of M along i, they stay strictly below phi_i. */
  lemma BelowAfterKE(m: Monomial, i: int, l: nat)
    requires KE(m, i).Some? && KE(m, i).value < l
    ensures Prefix(m, i, l) < Phi(m, i)
  {
    EpsilonNonNegative(m, i);
    if l > Bound(m, i) {
      PrefixBeyond(m, i, l);
    }
  }

  /** After e_i, the first maximal partial sum sits at the level e_i touched. */
  lemma KFAfterE(d: Datum, m: Monomial, i: int)
    requires d.Valid() && d.InIndexSet(i) && ESpec(d, m, i).Some?
    ensures KF(ESpec(d, m, i).value, i) == KE(m, i).value
  {
    var phi := Phi(m, i);
    KFBeforeKE(m, i);
    var k := KE(m, i).value;
    assert Prefix(m, i, k) == phi;
    var r := Mul(m, Factor(d, i, k, 1));
    var B := Bound(m, i) + Bound(r, i);
    forall l: nat | l <= B
      ensures Prefix(r, i, l) <= phi + 1
      ensures l < k ==> Prefix(r, i, l) < phi + 1
    {
      PrefixOfStep(d, m, i, k, 1, l);
      if l > k {
        BelowAfterKE(m, i, l);
      }
    }
    PrefixOfStep(d, m, i, k, 1, k);
    MaxPrefixIs(r, i, B, k, phi + 1);
    FirstMaxIs(r, i, B, k);
    MaxPrefixBeyond(r, i, B);
  }

  /** After f_i, epsilon_i has grown by one and the last maximal partial sum sits at the level f_i touched. */
  lemma KEAfterF(d: Datum, m: Monomial, i: int)
    requires d.Valid() && d.InIndexSet(i)
    ensures Epsilon(FSpec(d, m, i), i) == Epsilon(m, i) + 1
    ensures KE(FSpec(d, m, i), i) == Some(KF(m, i))
  {
    var Bm := Bound(m, i);
    var phi := Phi(m, i);
    var k := KF(m, i);
    var r := FSpec(d, m, i);
    var B := Bm + Bound(r, i) + k + 1;
    forall l: nat | l <= B
      ensures Prefix(m, i, l) <= phi
      ensures l < k ==> Prefix(m, i, l) < phi
      ensures Prefix(r, i, l) == Prefix(m, i, l) - (if l >= k then 1 else 0) - (if l >= k + 1 then 1 else 0)
    {
      if l > Bm {
        PrefixBeyond(m, i, l);
      }
      PrefixOfStep(d, m, i, k, -1, l);
    }
    MaxPrefixIs(r, i, B, k, phi - 1);
    LastMaxIs(r, i, B, k);
    MaxPrefixBeyond(r, i, B);
    PrefixBeyond(r, i, B);
    PrefixBeyond(m, i, B);
    LastMaxBeyond(r, i, B);
  }

  /** f_i(e_i(M)) = M whenever e_i(M) is an edge. */
  lemma EThenF(d: Datum, m: Monomial, i: int)
    requires d.Valid() && d.InIndexSet(i) && NoZeros(m)
    requires ESpec(d, m, i).Some?
    ensures FSpec(d, ESpec(d, m, i).value, i) == m
  {
    KFAfterE(d, m, i);
    MulCancel(d, m, i, KE(m, i).value, 1);
  }

  /** e_i(f_i(M)) = M: f_i(M) always has epsilon_i > 0. */
  lemma FThenE(d: Datum, m: Monomial, i: int)
    requires d.Valid() && d.InIndexSet(i) && NoZeros(m)
    ensures ESpec(d, FSpec(d, m, i), i) == Some(m)
  {
    KEAfterF(d, m, i);
    MulCancel(d, m, i, KF(m, i), -1);
  }

  /** f_i lowers phi_i by one. */
  lemma PhiAfterF(d: Datum, m: Monomial, i: int)
    requires d.Valid() && d.InIndexSet(i)
    ensures Phi(FSpec(d, m, i), i) == Phi(m, i) - 1
  {
    KEAfterF(d, m, i);
    FWeight(d, m, i, i);
  }

  /** e_i, when it has an edge, raises phi_i by one and lowers epsilon_i by one. */
  lemma PhiAfterE(d: Datum, m: Monomial, i: int)
    requires d.Valid() && d.InIndexSet(i) && ESpec(d, m, i).Some?
    ensures Phi(ESpec(d, m, i).value, i) == Phi(m, i) + 1
    ensures Epsilon(ESpec(d, m, i).value, i) == Epsilon(m, i) - 1
  {
    var phi := Phi(m, i);
    KFBeforeKE(m, i);
    var k := KE(m, i).value;
    var r := Mul(m, Factor(d, i, k, 1));
    var B := Bound(m, i) + Bound(r, i);
    forall l: nat | l <= B ensures Prefix(r, i, l) <= phi + 1 {
      PrefixOfStep(d, m, i, k, 1, l);
      if l > k {
        BelowAfterKE(m, i, l);
      }
    }
    PrefixOfStep(d, m, i, k, 1, k);
    MaxPrefixIs(r, i, B, k, phi + 1);
    MaxPrefixBeyond(r, i, B);
    EWeight(d, m, i, i);
  }

  /** In type A1, A_{1,k}^s = Y_{1,k}^s Y_{1,k+1}^s. */
  lemma A1Factor(k: int, s: int)
    ensures Factor(TypeA1(), 1, k, s) == map[(1, k) := s, (1, k + 1) := s]
  {
    assert Rows(TypeA1(), 1, k, s, 1) == map[];
  }

  /** A_{1,0}^-1 in type A2 with the default commutation matrix is Y(1,0)^-1 Y(1,1)^-1 Y(2,0). */
  lemma A2Factor()
    ensures Factor(TypeA2(), 1, 0, -1) == map[(1, 0) := -1, (1, 1) := -1, (2, 0) := 1]
  {
    var d := TypeA2();
    assert d.C(2, 1) == 0 && d.A(2, 1) == -1;
    assert Rows(d, 1, 0, -1, 1) == map[];
    assert Rows(d, 1, 0, -1, 2) == map[(2, 0) := 1];
  }
}
