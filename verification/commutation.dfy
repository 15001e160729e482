/**
 * The commutation matrix C = (c_ij) of a crystal of Nakajima monomials: zero diagonal
 * and c_ij + c_ji = 1 for i != j; by default c_ij = 1 exactly when i < j.
 */
module Commutation {
  import opened Wrappers

  type Matrix = seq<seq<int>>

  /** Why a matrix is refused. */
  datatype CError =
    | ShapeError      // not an n x n integer matrix
    | DiagonalError   // "the c matrix must have 0's on the diagonal"
    | TransposeError  // "transpose entries do not sum to 1"

  predicate Square(c: Matrix, n: nat) {
    |c| == n && forall r | r in c :: |r| == n
  }

  predicate ZeroDiagonal(c: Matrix, n: nat)
    requires Square(c, n)
  {
    forall i | 0 <= i < n :: c[i][i] == 0
  }

  /** c_ij + c_ji = 1 for every ordered pair of distinct positions. */
  predicate Complementary(c: Matrix, n: nat)
    requires Square(c, n)
  {
    forall i, j | 0 <= i < n && 0 <= j < n && i != j :: c[i][j] + c[j][i] == 1
  }

  predicate IsCommutationMatrix(c: Matrix, n: nat) {
    Square(c, n) && ZeroDiagonal(c, n) && Complementary(c, n)
  }

  /** The default choice: 1 above the diagonal, 0 elsewhere. */
  function Default(n: nat): (c: Matrix)
    ensures Square(c, n)
    ensures forall i, j | 0 <= i < n && 0 <= j < n :: c[i][j] == if i < j then 1 else 0
  {
    seq(n, i => seq(n, j => if i < j then 1 else 0))
  }

  /**
   * `_normalize_c`: take the default when no matrix is given, then refuse a nonzero
   * diagonal entry, then refuse a pair j < i whose transposed entries do not sum to 1.
   */
  function NormalizeC(c: Option<Matrix>, n: nat): (r: Result<Matrix, CError>)
    ensures r.Success? <==> IsCommutationMatrix(if c.None? then Default(n) else c.value, n)
    ensures r.Success? ==> r.value == if c.None? then Default(n) else c.value
    ensures (r.Failure? && r.error == DiagonalError)
              <==> (c.Some? && Square(c.value, n) && !ZeroDiagonal(c.value, n))
    ensures (r.Failure? && r.error == TransposeError)
              <==> (c.Some? && Square(c.value, n) && ZeroDiagonal(c.value, n) && !Complementary(c.value, n))
  {
    var m := if c.None? then Default(n) else c.value;
    if !Square(m, n) then Failure(ShapeError)
    else if exists i | 0 <= i < n :: m[i][i] != 0 then Failure(DiagonalError)
    else if exists i, j | 0 <= i < n && 0 <= j < i :: m[i][j] + m[j][i] != 1 then
      Failure(TransposeError)
    else
      assert Complementary(m, n) by {
        forall i, j | 0 <= i < n && 0 <= j < n && i != j ensures m[i][j] + m[j][i] == 1 {
          if j > i {
            assert m[j][i] + m[i][j] == 1;
          }
        }
      }
      Success(m)
  }

  /** The default matrix is always accepted, and c_ij = 1 iff i < j. */
  lemma DefaultAccepted(n: nat)
    ensures NormalizeC(None, n) == Success(Default(n))
    ensures forall i, j | 0 <= i < n && 0 <= j < n :: Default(n)[i][j] == 1 <==> i < j
  {
  }

  /** The n = 4 example: [[0,1,1,1],[0,0,1,1],[0,0,0,1],[0,0,0,0]]. */
  lemma DefaultRank4()
    ensures NormalizeC(None, 4) == Success([[0, 1, 1, 1], [0, 0, 1, 1], [0, 0, 0, 1], [0, 0, 0, 0]])
  {
    DefaultAccepted(4);
    var d := Default(4);
    assert d[0] == [0, 1, 1, 1];
    assert d[1] == [0, 0, 1, 1];
    assert d[2] == [0, 0, 0, 1];
    assert d[3] == [0, 0, 0, 0];
    assert d == [[0, 1, 1, 1], [0, 0, 1, 1], [0, 0, 0, 1], [0, 0, 0, 0]];
  }

  /** A non-default matrix that satisfies the conditions is returned unchanged. */
  lemma ExplicitAccepted()
    ensures NormalizeC(Some([[0, 1, 1], [0, 0, 0], [0, 1, 0]]), 3)
            == Success([[0, 1, 1], [0, 0, 0], [0, 1, 0]])
  {
    var c: Matrix := [[0, 1, 1], [0, 0, 0], [0, 1, 0]];
    assert Complementary(c, 3);
  }

  /** A symmetric off-diagonal pair is refused; so is a nonzero diagonal. */
  lemma Refusals()
    ensures NormalizeC(Some([[0, 1], [1, 0]]), 2) == Failure(TransposeError)
    ensures NormalizeC(Some([[1, 1], [0, 0]]), 2) == Failure(DiagonalError)
  {
    var c: Matrix := [[0, 1], [1, 0]];
    assert c[1][0] + c[0][1] != 1;
    var c2: Matrix := [[1, 1], [0, 0]];
    assert c2[0][0] != 0;
  }
}
