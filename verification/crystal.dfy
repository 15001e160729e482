/**
 * The two crystals built from Y-monomials: B(infinity), generated by the empty monomial,
 * and the highest weight crystal B(Lambda), generated by prod_i Y_{i,0}^{lambda_i}, whose
 * f_i stops where phi_i reaches 0.
 */
module Crystals {
  import opened Wrappers
  import opened Monomials
  import opened Levels
  import opened Cartan
  import opened YMonomials
  import opened YOperators

  /** The module generator of B(infinity): the empty monomial `{}`. */
  function InfinityGenerator(): (g: Monomial)
    ensures NoZeros(g) && Levelled(g)
  {
    map[]
  }

  /** Every index has phi_i = epsilon_i = 0 on the empty monomial, so no e_i applies. */
  lemma InfinityGeneratorIsHighest(d: Datum, i: int)
    requires d.Valid() && d.InIndexSet(i)
    ensures Phi(InfinityGenerator(), i) == 0 && Epsilon(InfinityGenerator(), i) == 0
    ensures KF(InfinityGenerator(), i) == 0
    ensures ESpec(d, InfinityGenerator(), i) == None
  {
    AbsentIndex(InfinityGenerator(), i);
  }

  /**
   * The generator of B(Lambda) for Lambda = sum_p lam[p] Lambda_{Shift()+p}: one entry
   * (Shift()+p, 0) per position p of the support, added position by position.
   */
  function Generator(d: Datum, lam: seq<int>): (g: Monomial)
    ensures NoZeros(g) && Levelled(g)
    ensures forall t :: Exp(g, t) == if t.1 == 0 && d.Shift() <= t.0 < d.Shift() + |lam| then lam[t.0 - d.Shift()] else 0
    decreases |lam|
  {
    if |lam| == 0 then map[]
    else
      var p := |lam| - 1;
      var g := Generator(d, lam[..p]);
      if lam[p] != 0 then g[(d.Shift() + p, 0) := lam[p]] else g
  }

  /** `CrystalOfNakajimaMonomials.__init__`: gen[(j, 0)] = coefficient of Lambda_j over the support. */
  method BuildGenerator(d: Datum, lam: seq<int>) returns (gen: Monomial)
    ensures gen == Generator(d, lam)
  {
    gen := map[];
    for p := 0 to |lam|
      invariant gen == Generator(d, lam[..p])
    {
      assert lam[..p + 1][..p] == lam[..p];
      if lam[p] != 0 {
        gen := gen[(d.Shift() + p, 0) := lam[p]];
      }
    }
    assert lam[..|lam|] == lam;
  }

  /** A monomial stored at level 0 only. */
  predicate LevelZero(m: Monomial) {
    forall t | t in m :: t.1 == 0
  }

  /** On a monomial living at level 0, phi_i and sum_k y_i(k) are both y_i(0). */
  lemma LevelZeroPhi(m: Monomial, i: int)
    requires LevelZero(m)
    ensures Phi(m, i) == Exp(m, (i, 0)) && Total(m, i) == Exp(m, (i, 0))
    ensures Epsilon(m, i) == 0
  {
    assert Bound(m, i) == 0 by {
      if HasIndex(m, i) {
        assert (i, Top(m, i)) in m;
      }
    }
  }

  /** The generator of B(Lambda) is highest weight: epsilon_i = 0, no e_i, and phi_i is the coefficient of Lambda_i. */
  lemma GeneratorIsHighest(d: Datum, lam: seq<int>, i: int)
    requires d.Valid() && d.InIndexSet(i) && |lam| == d.n
    ensures Phi(Generator(d, lam), i) == lam[i - d.Shift()]
    ensures Epsilon(Generator(d, lam), i) == 0
    ensures ESpec(d, Generator(d, lam), i) == None
  {
    var g := Generator(d, lam);
    assert LevelZero(g) by {
      forall t | t in g ensures t.1 == 0 {
        assert Exp(g, t) != 0;
      }
    }
    LevelZeroPhi(g, i);
  }

  /** f_i of B(Lambda): None when phi_i = 0 (tested with `==`, as the source does), else the f_i of Y-monomials. */
  ghost function HwFSpec(d: Datum, m: Monomial, i: int): Option<Monomial>
    requires d.Valid() && d.InIndexSet(i)
  {
    if Phi(m, i) == 0 then None else Some(FSpec(d, m, i))
  }

  /** `CrystalOfNakajimaMonomialsElement.f`: raises outside the index set, None when phi_i = 0, else f_i. */
  method ComputeHwF(d: Datum, m: Monomial, i: int) returns (r: Result<Option<Monomial>, Error>)
    requires d.Valid() && Levelled(m)
    ensures r.Failure? <==> !d.InIndexSet(i)
    ensures r.Success? ==> r.value == HwFSpec(d, m, i)
  {
    var phi := ComputePhi(d, m, i);
    if phi.Failure? {
      return Failure(phi.error);
    }
    if phi.value == 0 {
      return Success(None);
    }
    var f := ComputeF(d, m, i);
    return Success(Some(f.value));
  }

  /** An edge of B(Lambda) needs phi_i != 0 and lowers phi_i by one, whatever M stores. */
  lemma HwFLowersPhi(d: Datum, m: Monomial, i: int)
    requires d.Valid() && d.InIndexSet(i) && HwFSpec(d, m, i).Some?
    ensures Phi(m, i) != 0
    ensures Phi(HwFSpec(d, m, i).value, i) == Phi(m, i) - 1
  {
    PhiAfterF(d, m, i);
  }

  /** On a monomial without stored zeros, an edge of B(Lambda) lowers phi_i by one and e_i undoes it. */
  lemma HwFEdge(d: Datum, m: Monomial, i: int)
    requires d.Valid() && d.InIndexSet(i) && NoZeros(m) && HwFSpec(d, m, i).Some?
    ensures Phi(m, i) != 0
    ensures Phi(HwFSpec(d, m, i).value, i) == Phi(m, i) - 1
    ensures ESpec(d, HwFSpec(d, m, i).value, i) == Some(m)
  {
    PhiAfterF(d, m, i);
    FThenE(d, m, i);
  }

  /** Starting from a monomial, apply the f_i of B(Lambda) t times; None once an application fails. */
  ghost function HwFIterate(d: Datum, m: Monomial, i: int, t: nat): Option<Monomial>
    requires d.Valid() && d.InIndexSet(i)
  {
    if t == 0 then Some(m)
    else
      match HwFIterate(d, m, i, t - 1)
      case None => None
      case Some(x) => HwFSpec(d, x, i)
  }

  /** The t-th element Y(1,0)^{m-t} Y(1,1)^{-t} of the f_1-string of m Lambda_1 in type A1 (zeros dropped). */
  function Chain(m: nat, t: nat): (y: Monomial)
    ensures NoZeros(y)
    ensures forall u :: Exp(y, u) == if u == (1, 0) then m as int - t else if u == (1, 1) then -(t as int) else 0
  {
    RemoveZeros(map[(1, 0) := m as int - t, (1, 1) := -(t as int)])
  }

  /** Along index 1, the partial sums of the t-th string element are m - t and m - 2t. */
  lemma ChainPhi(m: nat, t: nat)
    ensures Phi(Chain(m, t), 1) == m as int - t
    ensures KF(Chain(m, t), 1) == 0
  {
    var y := Chain(m, t);
    assert Bound(y, 1) <= 1 by {
      if HasIndex(y, 1) {
        assert (1, Top(y, 1)) in y;
        assert Exp(y, (1, Top(y, 1))) != 0;
      }
    }
    MaxPrefixBeyond(y, 1, 1);
    assert Prefix(y, 1, 0) == m - t && Prefix(y, 1, 1) == m as int - 2 * t;
  }

  /** In type A1, the f_1 of B(m Lambda_1) moves the t-th string element to the next one while t < m, and stops at t = m. */
  lemma ChainStep(m: nat, t: nat)
    requires t <= m
    ensures HwFSpec(TypeA1(), Chain(m, t), 1) == if t < m then Some(Chain(m, t + 1)) else None
  {
    var d := TypeA1();
    ChainPhi(m, t);
    if t < m {
      var f := Factor(d, 1, 0, -1);
      A1Factor(0, -1);
      forall u ensures Exp(Mul(Chain(m, t), f), u) == Exp(Chain(m, t + 1), u) {
        MulExp(Chain(m, t), f, u);
      }
      MulNoZeros(Chain(m, t), f);
      Extensional(Mul(Chain(m, t), f), Chain(m, t + 1));
    }
  }

  /** The generator of B(m Lambda_1) in type A1 is Y(1,0)^m, the start of the string. */
  lemma RankOneStart(m: nat)
    ensures Generator(TypeA1(), [m]) == Chain(m, 0)
  {
    var g := Generator(TypeA1(), [m]);
    forall u ensures Exp(g, u) == Exp(Chain(m, 0), u) {
    }
    Extensional(g, Chain(m, 0));
  }

  /** One more application of f_i continues from wherever the t-th application arrived. */
  lemma IterateStep(d: Datum, m: Monomial, i: int, t: nat, x: Monomial)
    requires d.Valid() && d.InIndexSet(i) && HwFIterate(d, m, i, t) == Some(x)
    ensures HwFIterate(d, m, i, t + 1) == HwFSpec(d, x, i)
  {
  }

  /**
   * A string s[0], ..., s[n] of B(Lambda) along index i: each f_i step moves to the next
   * element and the last one has none. Then t steps from s[0] reach s[t], and n + 1 steps fail.
   */
  lemma {:induction false} IterateString(d: Datum, i: int, s: seq<Monomial>, t: nat)
    requires d.Valid() && d.InIndexSet(i) && |s| > 0 && t <= |s|
    requires forall j | 0 <= j < |s| - 1 :: HwFSpec(d, s[j], i) == Some(s[j + 1])
    requires HwFSpec(d, s[|s| - 1], i) == None
    ensures t < |s| ==> HwFIterate(d, s[0], i, t) == Some(s[t])
    ensures t == |s| ==> HwFIterate(d, s[0], i, t) == None
  {
    if t > 0 {
      IterateString(d, i, s, t - 1);
      IterateStep(d, s[0], i, t - 1, s[t - 1]);
    }
  }

  /** The f_1-string of m Lambda_1 in type A1 as a sequence: Chain(m, 0), ..., Chain(m, m). */
  lemma ChainString(m: nat) returns (s: seq<Monomial>)
    ensures |s| == m + 1 && s[0] == Generator(TypeA1(), [m])
    ensures forall j | 0 <= j <= m :: s[j] == Chain(m, j)
    ensures forall j | 0 <= j < |s| - 1 :: HwFSpec(TypeA1(), s[j], 1) == Some(s[j + 1])
    ensures HwFSpec(TypeA1(), s[|s| - 1], 1) == None
  {
    s := seq(m + 1, j requires 0 <= j <= m => Chain(m, j));
    forall j | 0 <= j < |s| - 1 ensures HwFSpec(TypeA1(), s[j], 1) == Some(s[j + 1]) {
      ChainStep(m, j);
    }
    ChainStep(m, m);
    RankOneStart(m);
  }

  /** In type A1 with Lambda = m Lambda_1, exactly m successive f_1 steps from the generator succeed. */
  lemma RankOneString(m: nat, t: nat)
    requires t <= m + 1
    ensures t <= m ==> HwFIterate(TypeA1(), Generator(TypeA1(), [m]), 1, t) == Some(Chain(m, t))
    ensures t == m + 1 ==> HwFIterate(TypeA1(), Generator(TypeA1(), [m]), 1, t) == None
  {
    var s := ChainString(m);
    IterateString(TypeA1(), 1, s, t);
  }

  /** In type A2 with the default commutation matrix, f_1(1) = Y(1,0)^-1 Y(1,1)^-1 Y(2,0). */
  lemma A2FirstStep()
    ensures FSpec(TypeA2(), InfinityGenerator(), 1) == map[(1, 0) := -1, (1, 1) := -1, (2, 0) := 1]
  {
    var d, g := TypeA2(), InfinityGenerator();
    var f := map[(1, 0) := -1, (1, 1) := -1, (2, 0) := 1];
    assert KF(g, 1) == 0 by { AbsentIndex(g, 1); }
    assert Factor(d, 1, 0, -1) == f by { A2Factor(); }
    assert Mul(g, f) == f by {
      forall u ensures Exp(Mul(g, f), u) == Exp(f, u) {
        MulExp(g, f, u);
      }
      MulNoZeros(g, f);
      Extensional(Mul(g, f), f);
    }
  }

  /** In type A2, e_1 of Y(1,0)^-1 Y(1,1)^-1 Y(2,0) is 1 again. */
  lemma A2BackToOne()
    ensures ESpec(TypeA2(), map[(1, 0) := -1, (1, 1) := -1, (2, 0) := 1], 1) == Some(InfinityGenerator())
  {
    A2FirstStep();
    FThenE(TypeA2(), InfinityGenerator(), 1);
  }
}
