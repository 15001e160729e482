/**
 * Sparse exponent maps of modified Nakajima monomials: a key (i, k) is an index of the
 * Cartan datum and a level; the value is the exponent of Y_{i,k} (or A_{i,k}).
 * Missing keys have exponent 0.
 */
module Monomials {
  type Key = (int, int)
  type Monomial = map<Key, int>

  /** The exponent stored at `t`, or 0 when `t` is not stored. */
  function Exp(m: Monomial, t: Key): int {
    if t in m then m[t] else 0
  }

  /** Levels of the documented domain I x Z>=0. */
  predicate Levelled(m: Monomial) {
    forall t | t in m :: t.1 >= 0
  }

  /** The stored-exponent invariant of Y-monomials: no zero is stored. */
  predicate NoZeros(m: Monomial) {
    forall t | t in m :: m[t] != 0
  }

  /** Some key of `m` has index `i`. */
  predicate HasIndex(m: Monomial, i: int) {
    exists t | t in m :: t.0 == i
  }

  /** Monomial equality (`__eq__`): equality of the exponent maps. */
  function Same(a: Monomial, b: Monomial): (r: bool)
    ensures r <==> (a.Keys == b.Keys && forall t | t in a :: a[t] == b[t])
  {
    a == b
  }

  /**
   * Multiply `m` by the monomial `f`, key by key as the source's update loop does:
   * a key of `f` already in `m` whose sum would be 0 is deleted, any other key of `f`
   * gets the sum (or f's value when it was absent); keys outside `f` are untouched.
   */
  function Mul(m: Monomial, f: Monomial): Monomial {
    map t | t in m.Keys + f.Keys && (t !in f || t !in m || m[t] + f[t] != 0)
      :: if t in f then Exp(m, t) + f[t] else m[t]
  }

  /** Multiplication adds exponents pointwise. */
  lemma MulExp(m: Monomial, f: Monomial, t: Key)
    ensures Exp(Mul(m, f), t) == Exp(m, t) + Exp(f, t)
  {
  }

  /** Keys outside the factor keep their stored entry exactly. */
  lemma MulOutside(m: Monomial, f: Monomial, t: Key)
    requires t !in f
    ensures (t in Mul(m, f)) == (t in m)
    ensures t in m ==> Mul(m, f)[t] == m[t]
  {
  }

  /** A product of maps without stored zeros stores no zero. */
  lemma MulNoZeros(m: Monomial, f: Monomial)
    requires NoZeros(m) && NoZeros(f)
    ensures NoZeros(Mul(m, f))
  {
  }

  /** Two maps without stored zeros are equal when all their exponents agree. */
  lemma Extensional(a: Monomial, b: Monomial)
    requires NoZeros(a) && NoZeros(b)
    requires forall t :: Exp(a, t) == Exp(b, t)
    ensures a == b
  {
    forall t | t in a ensures t in b && a[t] == b[t] {
      assert Exp(a, t) == Exp(b, t);
    }
    forall t | t in b ensures t in a {
      assert Exp(a, t) == Exp(b, t);
    }
  }

  /** Drop every stored zero (the A-side `e` clean-up loop). */
  function RemoveZeros(m: Monomial): (r: Monomial)
    ensures NoZeros(r)
    ensures forall t :: Exp(r, t) == Exp(m, t)
    ensures r.Keys <= m.Keys
  {
    map t | t in m && m[t] != 0 :: m[t]
  }
}
