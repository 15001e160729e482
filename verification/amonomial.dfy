/**
 * A-monomials prod_p A_p^{a_p}: their conversion to Y-monomials (each A_{i,k} expands to
 * Y_{i,k} Y_{i,k+1} prod_{j != i} Y_{j,k+c_ji}^{a_ji}) and the crystal operators, which
 * compute k_e or k_f on the Y image and then edit a single A-exponent.
 */
module AMonomials {
  import opened Wrappers
  import opened Monomials
  import opened SetSums
  import opened Levels
  import opened Cartan
  import opened YMonomials
  import opened YOperators

  /** The share of A_p^{a_p} in the exponent of Y_t. */
  function Contrib(d: Datum, a: Monomial, t: Key): Key -> int
    requires d.Valid()
  {
    (p: Key) => if d.InIndexSet(p.0) then Exp(a, p) * Unit(d, p.0, p.1, t) else 0
  }

  /** The exponent of Y_t in prod_p A_p^{a_p}, summed over the stored keys in any order. */
  ghost function YExp(d: Datum, a: Monomial, t: Key): int
    requires d.Valid()
  {
    SumOf(a.Keys, Contrib(d, a, t))
  }

  /** The Y-keys that some stored A_p can touch. */
  function Touched(d: Datum, a: Monomial): set<Key>
    requires d.Valid()
  {
    set p, t | p in a.Keys && d.InIndexSet(p.0) && t in Factor(d, p.0, p.1, 1) :: t
  }

  /** A Y-key with a non-zero summed contribution is touched by some stored A_p. */
  lemma InsideTouched(d: Datum, a: Monomial, t: Key)
    requires d.Valid()
    ensures YExp(d, a, t) != 0 ==> t in Touched(d, a)
  {
    if t !in Touched(d, a) {
      OutsideTouched(d, a, t);
    }
  }

  /** No stored A_p reaches a Y-key outside Touched. */
  lemma OutsideTouched(d: Datum, a: Monomial, t: Key)
    requires d.Valid() && t !in Touched(d, a)
    ensures YExp(d, a, t) == 0
  {
    forall p | p in a.Keys ensures Contrib(d, a, t)(p) == 0 {
      if d.InIndexSet(p.0) {
        FactorExp(d, p.0, p.1, 1, t);
      }
    }
    SumOfZero(a.Keys, Contrib(d, a, t));
  }

  /** Some Y-monomial without zeros carries exactly the summed A-contributions. */
  lemma ToYExists(d: Datum, a: Monomial)
    requires d.Valid()
    ensures exists y :: NoZeros(y) && forall t :: Exp(y, t) == YExp(d, a, t)
  {
    var y := map t | t in Touched(d, a) && YExp(d, a, t) != 0 :: YExp(d, a, t);
    forall t ensures Exp(y, t) == YExp(d, a, t) {
      if t !in Touched(d, a) {
        OutsideTouched(d, a, t);
      }
    }
    assert NoZeros(y);
  }

  /** `to_Y_monomial`: the Y-monomial whose every exponent is the sum of the A-contributions, without zeros. */
  ghost function ToY(d: Datum, a: Monomial): (y: Monomial)
    requires d.Valid()
    ensures NoZeros(y)
    ensures forall t :: Exp(y, t) == YExp(d, a, t)
  {
    ToYExists(d, a);
    var y :| NoZeros(y) && forall t :: Exp(y, t) == YExp(d, a, t);
    y
  }

  /** A key that is not stored contributes nothing. */
  lemma ContribOutside(d: Datum, a: Monomial, t: Key)
    requires d.Valid()
    ensures forall p | p !in a.Keys :: Contrib(d, a, t)(p) == 0
  {
  }

  /** Moving the A-exponent at (i, k) by s moves that key's contribution by s times the exponent in A_{i,k}, and no other. */
  lemma ContribBump(d: Datum, a: Monomial, b: Monomial, i: int, k: int, s: int, t: Key)
    requires d.Valid() && d.InIndexSet(i)
    requires forall p :: Exp(b, p) == Exp(a, p) + (if p == (i, k) then s else 0)
    ensures Contrib(d, b, t)((i, k)) == Contrib(d, a, t)((i, k)) + s * Unit(d, i, k, t)
    ensures forall p | p != (i, k) :: Contrib(d, b, t)(p) == Contrib(d, a, t)(p)
  {
    var u := Unit(d, i, k, t);
    var e := Exp(a, (i, k));
    assert Exp(b, (i, k)) == e + s;
    assert (e + s) * u == e * u + s * u;
    forall p | p != (i, k) ensures Contrib(d, b, t)(p) == Contrib(d, a, t)(p) {
      assert Exp(b, p) == Exp(a, p);
    }
  }

  /** The summed contribution at `t` after the A-exponent at (i, k) moved by s. */
  lemma ToYStepAt(d: Datum, a: Monomial, b: Monomial, i: int, k: int, s: int, t: Key)
    requires d.Valid() && d.InIndexSet(i)
    requires forall p :: Exp(b, p) == Exp(a, p) + (if p == (i, k) then s else 0)
    ensures YExp(d, b, t) == YExp(d, a, t) + s * Unit(d, i, k, t)
  {
    var S := a.Keys + b.Keys + {(i, k)};
    var ga := Contrib(d, a, t);
    var gb := Contrib(d, b, t);
    ContribOutside(d, a, t);
    ContribOutside(d, b, t);
    SumOfExtend(a.Keys, S, ga);
    SumOfExtend(b.Keys, S, gb);
    ContribBump(d, a, b, i, k, s, t);
    SumOfBump(S, ga, gb, (i, k), s * Unit(d, i, k, t));
  }

  /**
   * to_Y is a homomorphism: moving the exponent of A_{i,k} by s multiplies the Y image by
   * A_{i,k}^s.
   */
  lemma ToYStep(d: Datum, a: Monomial, b: Monomial, i: int, k: int, s: int)
    requires d.Valid() && d.InIndexSet(i) && (s == 1 || s == -1)
    requires forall p :: Exp(b, p) == Exp(a, p) + (if p == (i, k) then s else 0)
    ensures ToY(d, b) == Mul(ToY(d, a), Factor(d, i, k, s))
  {
    var r := Mul(ToY(d, a), Factor(d, i, k, s));
    MulShift(d, ToY(d, a), i, k, s);
    forall t ensures Exp(ToY(d, b), t) == Exp(r, t) {
      ToYStepAt(d, a, b, i, k, s, t);
    }
    Extensional(ToY(d, b), r);
  }

  /** The Y image of a levelled A-monomial is levelled, since every c_ji is 0 or 1. */
  lemma ToYLevelled(d: Datum, a: Monomial)
    requires d.Valid() && Levelled(a)
    ensures Levelled(ToY(d, a))
  {
    forall t | t in ToY(d, a) ensures t.1 >= 0 {
      InsideTouched(d, a, t);
      var p :| p in a.Keys && d.InIndexSet(p.0) && t in Factor(d, p.0, p.1, 1);
      FactorKeys(d, p.0, p.1, 1, t);
    }
  }

  /** Every label of the Y image is in the index set, since A_{i,k} has Y-factors only there. */
  lemma ToYLabelled(d: Datum, a: Monomial)
    requires d.Valid()
    ensures Labelled(d, ToY(d, a))
  {
    forall t | t in ToY(d, a) ensures d.InIndexSet(t.0) {
      InsideTouched(d, a, t);
      var p :| p in a.Keys && d.InIndexSet(p.0) && t in Factor(d, p.0, p.1, 1);
      FactorKeys(d, p.0, p.1, 1, t);
    }
  }

  /** A-side `f`: A_{i,k_f}^{-1} is multiplied in, with k_f computed on the Y image; a 0 is left stored. */
  ghost function AFSpec(d: Datum, a: Monomial, i: int): Monomial
    requires d.Valid() && d.InIndexSet(i)
  {
    var kf := KF(ToY(d, a), i);
    a[(i, kf) := Exp(a, (i, kf)) - 1]
  }

  /** A-side `e`: None when epsilon_i of the Y image is 0, else A_{i,k_e} multiplied in and zeros dropped. */
  ghost function AESpec(d: Datum, a: Monomial, i: int): Option<Monomial>
    requires d.Valid() && d.InIndexSet(i)
  {
    match KE(ToY(d, a), i)
    case None => None
    case Some(ke) => Some(RemoveZeros(a[(i, ke) := Exp(a, (i, ke)) + 1]))
  }

  /** to_Y(f_i(M)) = f_i(to_Y(M)). */
  lemma AFCommutes(d: Datum, a: Monomial, i: int)
    requires d.Valid() && d.InIndexSet(i)
    ensures ToY(d, AFSpec(d, a, i)) == FSpec(d, ToY(d, a), i)
  {
    ToYStep(d, a, AFSpec(d, a, i), i, KF(ToY(d, a), i), -1);
  }

  /** e_i on A-monomials has an edge exactly when e_i on the Y image has one, and to_Y(e_i(M)) = e_i(to_Y(M)). */
  lemma AECommutes(d: Datum, a: Monomial, i: int)
    requires d.Valid() && d.InIndexSet(i)
    ensures AESpec(d, a, i).Some? <==> ESpec(d, ToY(d, a), i).Some?
    ensures AESpec(d, a, i).Some? ==> ToY(d, AESpec(d, a, i).value) == ESpec(d, ToY(d, a), i).value
  {
    if AESpec(d, a, i).Some? {
      ToYStep(d, a, AESpec(d, a, i).value, i, KE(ToY(d, a), i).value, 1);
    }
  }

  /** f_i(e_i(M)) has the exponents of M (it may hold an extra stored 0 at (i, k_e)). */
  lemma AEThenAF(d: Datum, a: Monomial, i: int)
    requires d.Valid() && d.InIndexSet(i) && AESpec(d, a, i).Some?
    ensures forall p :: Exp(AFSpec(d, AESpec(d, a, i).value, i), p) == Exp(a, p)
  {
    AECommutes(d, a, i);
    KFAfterE(d, ToY(d, a), i);
  }

  /** After A-side f_i, k_e of the Y image is the level f_i edited. */
  lemma KEAfterAF(d: Datum, a: Monomial, i: int)
    requires d.Valid() && d.InIndexSet(i)
    ensures KE(ToY(d, AFSpec(d, a, i)), i) == Some(KF(ToY(d, a), i))
  {
    AFCommutes(d, a, i);
    KEAfterF(d, ToY(d, a), i);
  }

  /** Lowering one exponent by 1 and raising it again, then dropping zeros, drops the zeros of the original. */
  lemma LowerRaise(a: Monomial, key: Key)
    ensures var down := a[key := Exp(a, key) - 1];
            RemoveZeros(down[key := Exp(down, key) + 1]) == RemoveZeros(a)
    ensures NoZeros(a) ==> RemoveZeros(a) == a
  {
    var down := a[key := Exp(a, key) - 1];
    var back := down[key := Exp(down, key) + 1];
    assert forall p :: Exp(back, p) == Exp(a, p);
    Extensional(RemoveZeros(back), RemoveZeros(a));
    if NoZeros(a) {
      Extensional(RemoveZeros(a), a);
    }
  }

  /** A-side e_i, once k_e of the Y image is known. */
  lemma AESpecAt(d: Datum, b: Monomial, i: int, k: nat)
    requires d.Valid() && d.InIndexSet(i) && KE(ToY(d, b), i) == Some(k)
    ensures AESpec(d, b, i) == Some(RemoveZeros(b[(i, k) := Exp(b, (i, k)) + 1]))
  {
  }

  /** e_i(f_i(M)) is M with its stored zeros dropped; it is M itself when M stores no zero. */
  lemma AFThenAE(d: Datum, a: Monomial, i: int)
    requires d.Valid() && d.InIndexSet(i)
    ensures AESpec(d, AFSpec(d, a, i), i) == Some(RemoveZeros(a))
    ensures NoZeros(a) ==> AESpec(d, AFSpec(d, a, i), i) == Some(a)
  {
    var kf := KF(ToY(d, a), i);
    var b := AFSpec(d, a, i);
    assert b == a[(i, kf) := Exp(a, (i, kf)) - 1];
    assert AESpec(d, b, i) == Some(RemoveZeros(b[(i, kf) := Exp(b, (i, kf)) + 1])) by {
      KEAfterAF(d, a, i);
      AESpecAt(d, b, i, kf);
    }
    assert RemoveZeros(b[(i, kf) := Exp(b, (i, kf)) + 1]) == RemoveZeros(a) by {
      LowerRaise(a, (i, kf));
    }
    LowerRaise(a, (i, kf));
  }

  /** The empty A-monomial has the empty Y image. */
  lemma ToYEmpty(d: Datum)
    requires d.Valid()
    ensures ToY(d, map[]) == map[]
  {
    forall t ensures Exp(ToY(d, map[]), t) == Exp(map[], t) {
      SumOfZero({}, Contrib(d, map[], t));
    }
    Extensional(ToY(d, map[]), map[]);
  }

  /** Y(1,0) Y(1,1) * Y(1,1)^-1 Y(1,2)^-1 = Y(1,0) Y(1,2)^-1. */
  lemma A1Product()
    ensures Mul(map[(1, 0) := 1, (1, 1) := 1], map[(1, 1) := -1, (1, 2) := -1]) == map[(1, 0) := 1, (1, 2) := -1]
  {
    var m1 := map[(1, 0) := 1, (1, 1) := 1];
    var f := map[(1, 1) := -1, (1, 2) := -1];
    forall t ensures Exp(Mul(m1, f), t) == Exp(map[(1, 0) := 1, (1, 2) := -1], t) {
      MulExp(m1, f, t);
    }
    MulNoZeros(m1, f);
    Extensional(Mul(m1, f), map[(1, 0) := 1, (1, 2) := -1]);
  }

  /** In type A1, A(1,0) = Y(1,0) Y(1,1). */
  lemma A1Generator()
    ensures ToY(TypeA1(), map[(1, 0) := 1]) == map[(1, 0) := 1, (1, 1) := 1]
  {
    var d := TypeA1();
    ToYEmpty(d);
    ToYStep(d, map[], map[(1, 0) := 1], 1, 0, 1);
    A1Factor(0, 1);
    assert Mul(map[], map[(1, 0) := 1, (1, 1) := 1]) == map[(1, 0) := 1, (1, 1) := 1];
  }

  /** In type A1, A(1,0) A(1,1)^-1 = Y(1,0) Y(1,2)^-1. */
  lemma A1Image()
    ensures ToY(TypeA1(), map[(1, 0) := 1, (1, 1) := -1]) == map[(1, 0) := 1, (1, 2) := -1]
  {
    var d := TypeA1();
    A1Generator();
    ToYStep(d, map[(1, 0) := 1], map[(1, 0) := 1, (1, 1) := -1], 1, 1, -1);
    A1Factor(1, -1);
    A1Product();
  }

  /** Along index 1, the partial sums of Y(1,0) Y(1,2)^-1 are 1, 1, 0: the first maximum is at level 0. */
  lemma A1FirstMax()
    ensures KF(map[(1, 0) := 1, (1, 2) := -1], 1) == 0
  {
    var y := map[(1, 0) := 1, (1, 2) := -1];
    assert (1, 2) in y;
    assert Top(y, 1) == 2;
    assert Prefix(y, 1, 0) == 1 && Prefix(y, 1, 1) == 1 && Prefix(y, 1, 2) == 0;
    MaxPrefixIs(y, 1, 2, 0, 1);
    FirstMaxIs(y, 1, 2, 0);
  }

  /** A-side f_1 on A(1,0) A(1,1)^-1 leaves the exponent of A(1,0) stored as 0. */
  lemma AFStoresZero()
    ensures AFSpec(TypeA1(), map[(1, 0) := 1, (1, 1) := -1], 1) == map[(1, 0) := 0, (1, 1) := -1]
  {
    var a := map[(1, 0) := 1, (1, 1) := -1];
    assert KF(ToY(TypeA1(), a), 1) == 0 by {
      A1Image();
      A1FirstMax();
    }
    assert Exp(a, (1, 0)) == 1;
    assert a[(1, 0) := 0] == map[(1, 0) := 0, (1, 1) := -1];
  }

  /** Delete every stored zero, as the clean-up loops of `to_Y_monomial` and A-side `e` do. */
  method DropZeros(m: Monomial) returns (r: Monomial)
    ensures r == RemoveZeros(m)
  {
    r := m;
    var keys := m.Keys;
    while keys != {}
      invariant keys <= m.Keys
      invariant forall t | t in m :: (t in r <==> t in keys || m[t] != 0)
      invariant forall t | t in r :: t in m && r[t] == m[t]
      decreases keys
    {
      var t :| t in keys;
      if r[t] == 0 {
        r := r - {t};
      }
      keys := keys - {t};
    }
  }

  /** Adding label j = Shift() + upTo to A_{i,k}^s changes only the exponent of Y_{j,k+c_ji}, by s a_ji. */
  lemma FactorUpToStep(d: Datum, i: int, k: int, s: int, upTo: nat, j: int, t: Key)
    requires d.Valid() && d.InIndexSet(i) && upTo < d.n && j == d.Shift() + upTo
    ensures Exp(FactorUpTo(d, i, k, s, upTo + 1), t)
            == Exp(FactorUpTo(d, i, k, s, upTo), t)
               + (if RowStored(d, i, j, upTo + 1) && t == (j, k + d.C(j, i)) then s * d.A(j, i) else 0)
  {
    RowsAt(d, i, k, s, upTo, t);
    RowsAt(d, i, k, s, upTo + 1, t);
  }

  /** The step of the inner loop of `to_Y_monomial` keeps the dictionary at Y0 * (A_p up to label j)^v. */
  lemma AccumulateStep(d: Datum, p: Key, v: int, upTo: nat, j: int, y0: Monomial, y1: Monomial, y2: Monomial)
    requires d.Valid() && d.InIndexSet(p.0) && upTo < d.n && j == d.Shift() + upTo
    requires forall t :: Exp(y1, t) == Exp(y0, t) + v * Exp(FactorUpTo(d, p.0, p.1, 1, upTo), t)
    requires RowStored(d, p.0, j, upTo + 1) ==> var key := (j, p.1 + d.C(j, p.0));
                                               y2 == y1[key := Exp(y1, key) + v * d.A(j, p.0)]
    requires !RowStored(d, p.0, j, upTo + 1) ==> y2 == y1
    ensures forall t :: Exp(y2, t) == Exp(y0, t) + v * Exp(FactorUpTo(d, p.0, p.1, 1, upTo + 1), t)
  {
    forall t ensures Exp(y2, t) == Exp(y0, t) + v * Exp(FactorUpTo(d, p.0, p.1, 1, upTo + 1), t) {
      FactorUpToStep(d, p.0, p.1, 1, upTo, j, t);
    }
  }

  /** One pass of the outer loop of `to_Y_monomial`: the dictionary gains v * A_p entry by entry. */
  method AccumulateFactor(d: Datum, y0: Monomial, p: Key, v: int) returns (y: Monomial)
    requires d.Valid() && d.InIndexSet(p.0)
    ensures forall t :: Exp(y, t) == Exp(y0, t) + v * Unit(d, p.0, p.1, t)
  {
    y := y0[p := Exp(y0, p) + v];
    y := y[(p.0, p.1 + 1) := Exp(y, (p.0, p.1 + 1)) + v];
    for jIndex := 0 to d.n
      invariant forall t :: Exp(y, t) == Exp(y0, t) + v * Exp(FactorUpTo(d, p.0, p.1, 1, jIndex), t)
    {
      var j := jIndex + d.Shift();
      ghost var y1 := y;
      if p.0 != j {
        var c := d.c[jIndex][p.0 - d.Shift()];
        if d.cartan[jIndex][p.0 - d.Shift()] != 0 {
          assert c == d.C(j, p.0) && d.cartan[jIndex][p.0 - d.Shift()] == d.A(j, p.0);
          y := y[(j, p.1 + c) := Exp(y, (j, p.1 + c)) + v * d.cartan[jIndex][p.0 - d.Shift()]];
        }
      }
      AccumulateStep(d, p, v, jIndex, j, y0, y1, y);
    }
    forall t ensures Exp(FactorUpTo(d, p.0, p.1, 1, d.n), t) == Unit(d, p.0, p.1, t) {
      FactorExp(d, p.0, p.1, 1, t);
    }
  }

  /** `to_Y_monomial`: accumulate v * A_p for every stored A_p, then delete the zero entries. */
  method ToYMonomial(d: Datum, a: Monomial) returns (y: Monomial)
    requires d.Valid() && Labelled(d, a)
    ensures y == ToY(d, a)
  {
    y := map[];
    var keys := a.Keys;
    while keys != {}
      invariant keys <= a.Keys
      invariant forall t :: Exp(y, t) == SumOf(a.Keys - keys, Contrib(d, a, t))
      decreases keys
    {
      var p :| p in keys;
      y := AccumulateFactor(d, y, p, a[p]);
      assert a.Keys - (keys - {p}) == (a.Keys - keys) + {p};
      forall t ensures Exp(y, t) == SumOf(a.Keys - (keys - {p}), Contrib(d, a, t)) {
        SumOfAdd(a.Keys - keys, Contrib(d, a, t), p);
      }
      keys := keys - {p};
    }
    assert a.Keys - keys == a.Keys;
    y := DropZeros(y);
    Extensional(y, ToY(d, a));
  }

  /** A-side `phi`: raises outside the index set, else phi_i of the Y image. */
  method ComputeAPhi(d: Datum, a: Monomial, i: int) returns (r: Result<int, Error>)
    requires d.Valid() && Labelled(d, a) && Levelled(a)
    ensures r.Failure? <==> !d.InIndexSet(i)
    ensures r.Success? ==> r.value == Phi(ToY(d, a), i)
  {
    if !d.InIndexSet(i) {
      return Failure(NotInIndexSet);
    }
    var y := ToYMonomial(d, a);
    ToYLevelled(d, a);
    r := ComputePhi(d, y, i);
  }

  /** A-side `epsilon`: raises outside the index set, else epsilon_i of the Y image. */
  method ComputeAEpsilon(d: Datum, a: Monomial, i: int) returns (r: Result<int, Error>)
    requires d.Valid() && Labelled(d, a) && Levelled(a)
    ensures r.Failure? <==> !d.InIndexSet(i)
    ensures r.Success? ==> r.value == Epsilon(ToY(d, a), i)
  {
    if !d.InIndexSet(i) {
      return Failure(NotInIndexSet);
    }
    var y := ToYMonomial(d, a);
    ToYLevelled(d, a);
    ToYLabelled(d, a);
    r := ComputeEpsilon(d, y, i);
  }

  /** A-side `e`: raises outside the index set, None when epsilon_i is 0, else bump (i, k_e) by 1 and drop zeros. */
  method ComputeAE(d: Datum, a: Monomial, i: int) returns (r: Result<Option<Monomial>, Error>)
    requires d.Valid() && Labelled(d, a) && Levelled(a)
    ensures r.Failure? <==> !d.InIndexSet(i)
    ensures r.Success? ==> r.value == AESpec(d, a, i)
  {
    if !d.InIndexSet(i) {
      return Failure(NotInIndexSet);
    }
    var eps := ComputeAEpsilon(d, a, i);
    if eps.value == 0 {
      return Success(None);
    }
    var y := ToYMonomial(d, a);
    ToYLevelled(d, a);
    ToYLabelled(d, a);
    var ke := ComputeKE(d, y, i);
    var k := ke.value.value;
    var bumped := a[(i, k) := Exp(a, (i, k)) + 1];
    var cleaned := DropZeros(bumped);
    return Success(Some(cleaned));
  }

  /** A-side `f`: raises outside the index set, else bump (i, k_f) by -1, keeping a resulting 0. */
  method ComputeAF(d: Datum, a: Monomial, i: int) returns (r: Result<Monomial, Error>)
    requires d.Valid() && Labelled(d, a) && Levelled(a)
    ensures r.Failure? <==> !d.InIndexSet(i)
    ensures r.Success? ==> r.value == AFSpec(d, a, i)
  {
    if !d.InIndexSet(i) {
      return Failure(NotInIndexSet);
    }
    var y := ToYMonomial(d, a);
    ToYLevelled(d, a);
    var kf := ComputeKF(d, y, i);
    var k := kf.value;
    return Success(a[(i, k) := Exp(a, (i, k)) - 1]);
  }
}
