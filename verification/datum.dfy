/**
 * The Cartan datum as the crystal sees it: n labels numbered consecutively from Shift(),
 * an integer Cartan matrix, the commutation matrix, and whether the type is finite.
 * Finite types read column i - 1 for label i; the others read column i.
 */
module Cartan {
  import opened Commutation

  datatype Datum = Datum(n: nat, cartan: Matrix, c: Matrix, finite: bool) {

    /** 1 for finite Cartan types, 0 otherwise. */
    function Shift(): int {
      if finite then 1 else 0
    }

    predicate InIndexSet(i: int) {
      Shift() <= i < Shift() + n
    }

    /**
     * Both matrices are n x n, C passes NormalizeC and, as the module documentation asks
     * of its c_ij, has no negative entry.
     */
    predicate Valid() {
      Square(cartan, n) && IsCommutationMatrix(c, n)
      && forall r, x | r in c && x in r :: x >= 0
    }

    /** The Cartan matrix entry in row j, column i (labels, shifted to positions). */
    function A(j: int, i: int): int
      requires Valid() && InIndexSet(j) && InIndexSet(i)
    {
      cartan[j - Shift()][i - Shift()]
    }

    /** The commutation matrix entry in row j, column i; it is 0 or 1. */
    function C(j: int, i: int): (r: int)
      requires Valid() && InIndexSet(j) && InIndexSet(i)
      ensures 0 <= r <= 1
      ensures j != i ==> r + c[i - Shift()][j - Shift()] == 1
    {
      assert c[j - Shift()] in c && c[j - Shift()][i - Shift()] in c[j - Shift()];
      assert c[i - Shift()] in c && c[i - Shift()][j - Shift()] in c[i - Shift()];
      c[j - Shift()][i - Shift()]
    }
  }

  /** Finite type A1: one label 1, Cartan matrix [[2]], commutation matrix [[0]]. */
  function TypeA1(): (d: Datum)
    ensures d.Valid() && d.InIndexSet(1)
  {
    var d := Datum(1, [[2]], [[0]], true);
    assert d.c[0] == [0] && d.c[0][0] == 0;
    d
  }

  /** Finite type A2: labels 1 and 2, Cartan matrix [[2,-1],[-1,2]], the default commutation matrix [[0,1],[0,0]]. */
  function TypeA2(): (d: Datum)
    ensures d.Valid() && d.InIndexSet(1) && d.InIndexSet(2)
  {
    var d := Datum(2, [[2, -1], [-1, 2]], [[0, 1], [0, 0]], true);
    assert d.c[0] == [0, 1] && d.c[1] == [0, 0];
    assert d.cartan[0] == [2, -1] && d.cartan[1] == [-1, 2];
    d
  }
}
