/** Semidefinite quadratic forms in terms of pivots, and their invariance under symmetric permutations. */
module Semidefinite {
  import opened LinearAlgebra

  // ----------------------------------------------------------------------------------- pivots and signs

  ghost predicate ZeroBelow(A: Mat, k: nat, n: int) {
    forall i: int :: k < i < n ==> Schur(A, k, i, k) == 0.0
  }

  /** Every zero pivot between from and to has a zero column below it. */
  ghost predicate ZeroColumns(A: Mat, from: nat, to: nat, n: int) {
    forall k: nat :: from <= k < to && Pivot(A, k) == 0.0 ==> ZeroBelow(A, k, n)
  }

  ghost predicate PivotsNonNegative(A: Mat, from: nat, n: int) {
    forall k: nat :: from <= k < n ==> Pivot(A, k) >= 0.0
  }

  ghost predicate SchurSemidefinite(A: Mat, k: nat, n: int) {
    forall x: Vec :: Quad(SchurMat(A, k), x, k, n) >= 0.0
  }

  lemma {:induction false} NonNegativePivots(A: Mat, k: nat, n: nat, x: Vec)
    requires Symmetric(A) && k <= n && ZeroColumns(A, k, n, n) && PivotsNonNegative(A, k, n)
    ensures Quad(SchurMat(A, k), x, k, n) >= 0.0
    decreases n - k
  {
    hide Schur, Dot, Sq, Prod;
    if k == n {
      DotNone(x, Mul(SchurMat(A, k), x, k, n), k);
    } else {
      NonNegativePivots(A, k + 1, n, x);
      if Pivot(A, k) == 0.0 {
        ZeroPivot(A, k, x, n);
      } else {
        CompleteSquare(A, k, x, n);
        AddSquare(Pivot(A, k), Completed(A, k, x, n), Quad(SchurMat(A, k + 1), x, k + 1, n), Quad(SchurMat(A, k), x, k, n));
      }
    }
  }

  ghost function Unit(i: int): Vec {
    p => if p == i then 1.0 else 0.0
  }

  lemma {:induction false} DotUnit(x: Vec, i: int, lo: int, hi: int)
    requires lo <= i < hi
    ensures Dot(x, Unit(i), lo, hi) == x(i)
    decreases hi - lo
  {
    hide Prod;
    DotLast(x, Unit(i), lo, hi - 1);
    if i == hi - 1 {
      DotZero(x, Unit(i), lo, hi - 1);
      TimesOne(x(i));
    } else {
      DotUnit(x, i, lo, hi - 1);
      TimesZero(x(hi - 1));
    }
  }

  lemma TimesOne(x: real)
    ensures Prod(x, 1.0) == x
  {
  }

  lemma TimesZero(x: real)
    ensures Prod(x, 0.0) == 0.0
  {
  }

  lemma PivotNonNegative(A: Mat, k: nat, n: nat)
    requires Symmetric(A) && k < n && SchurSemidefinite(A, k, n)
    ensures Pivot(A, k) >= 0.0
  {
    hide Schur, Dot, Prod;
    var x := Unit(k);
    QuadFirstSchur(A, k, x, n);
    DotZero(PivotCol(A, k), x, k + 1, n);
    DotZero(x, Mul(SchurMat(A, k), x, k + 1, n), k + 1, n);
    assert Quad(SchurMat(A, k), x, k, n) == Pivot(A, k);
  }

  /** A zero pivot with a nonzero entry below it: some combination of two unit vectors has a negative value. */
  lemma NegativeDirection(A: Mat, k: nat, n: nat, i: int) returns (x: Vec)
    requires Symmetric(A) && Pivot(A, k) == 0.0 && k < i < n && Schur(A, k, i, k) != 0.0
    ensures Quad(SchurMat(A, k), x, k, n) < 0.0
  {
    hide Schur, Dot, Prod;
    var c, q := Schur(A, k, i, k), Quad(SchurMat(A, k), Unit(i), k + 1, n);
    var t := -(q + 1.0) / (2.0 * c);
    x := With(Unit(i), k, t);
    QuadFirstSchur(A, k, x, n);
    DotEq(PivotCol(A, k), x, PivotCol(A, k), Unit(i), k + 1, n);
    DotUnit(PivotCol(A, k), i, k + 1, n);
    QuadEq(SchurMat(A, k), SchurMat(A, k), x, Unit(i), k + 1, n);
    assert 2.0 * t * c == -(q + 1.0);
  }

  lemma ZeroPivotColumn(A: Mat, k: nat, n: nat, i: int)
    requires Symmetric(A) && SchurSemidefinite(A, k, n) && Pivot(A, k) == 0.0 && k < i < n
    ensures Schur(A, k, i, k) == 0.0
  {
    if Schur(A, k, i, k) != 0.0 {
      var x := NegativeDirection(A, k, n, i);
      assert false;
    }
  }

  /** The next complement of a semidefinite complement is semidefinite. */
  lemma NextSemidefinite(A: Mat, k: nat, n: nat)
    requires Symmetric(A) && k < n && SchurSemidefinite(A, k, n)
    ensures SchurSemidefinite(A, k + 1, n)
  {
    var B, m := SchurMat(A, k + 1), k + 1;
    forall x: Vec ensures Quad(B, x, m, n) >= 0.0 {
      NextSemidefiniteAt(A, k, n, x);
    }
  }

  lemma NextSemidefiniteAt(A: Mat, k: nat, n: nat, x: Vec)
    requires Symmetric(A) && k < n && SchurSemidefinite(A, k, n)
    ensures Quad(SchurMat(A, k + 1), x, k + 1, n) >= 0.0
  {
    hide Schur, Dot, Prod, Sq;
    if Pivot(A, k) == 0.0 {
      forall i | k < i < n ensures Schur(A, k, i, k) == 0.0 {
        ZeroPivotColumn(A, k, n, i);
      }
      ZeroPivot(A, k, x, n);
    } else {
      var z := With(x, k, -Quot(Dot(PivotCol(A, k), x, k + 1, n), Pivot(A, k)));
      CompleteSquare(A, k, z, n);
      DotEq(PivotCol(A, k), z, PivotCol(A, k), x, k + 1, n);
      SqZero(Completed(A, k, z, n));
      QuadEq(SchurMat(A, k + 1), SchurMat(A, k + 1), z, x, k + 1, n);
    }
  }

  lemma {:induction false} SemidefinitePivots(A: Mat, k: nat, n: nat)
    requires Symmetric(A) && k <= n && SchurSemidefinite(A, k, n)
    ensures ZeroColumns(A, k, n, n) && PivotsNonNegative(A, k, n)
    decreases n - k
  {
    hide Schur, Pivot, SchurSemidefinite;
    if k < n {
      NextSemidefinite(A, k, n);
      SemidefinitePivots(A, k + 1, n);
      PivotNonNegative(A, k, n);
      if Pivot(A, k) == 0.0 {
        forall i | k < i < n ensures Schur(A, k, i, k) == 0.0 {
          ZeroPivotColumn(A, k, n, i);
        }
      }
    }
  }

  /** A symmetric matrix is positive semidefinite exactly when its pivots are nonnegative and every zero pivot
      has a zero column below it. */
  lemma SemidefiniteIffPivots(A: Mat, n: nat)
    requires Symmetric(A)
    ensures PositiveSemidefinite(A, n) <==> ZeroColumns(A, 0, n, n) && PivotsNonNegative(A, 0, n)
  {
    hide Pivot, ZeroColumns, PivotsNonNegative;
    forall x: Vec ensures Quad(SchurMat(A, 0), x, 0, n) == Quad(A, x, 0, n) {
      QuadEq(SchurMat(A, 0), A, x, x, 0, n);
    }
    if PositiveSemidefinite(A, n) {
      SemidefinitePivots(A, 0, n);
    }
    if ZeroColumns(A, 0, n, n) && PivotsNonNegative(A, 0, n) {
      forall x: Vec ensures Quad(A, x, 0, n) >= 0.0 {
        NonNegativePivots(A, 0, n, x);
      }
    }
  }

  // ------------------------------------------------------------------------------- symmetric permutations

  /** The transposition of a and b. */
  function Swap(a: int, b: int, i: int): int {
    if i == a then b else if i == b then a else i
  }

  ghost function SwapVec(a: int, b: int, x: Vec): Vec {
    i => x(Swap(a, b, i))
  }

  /** A with rows and columns a and b exchanged. */
  ghost function SwapMat(a: int, b: int, A: Mat): Mat {
    (i, j) => A(Swap(a, b, i), Swap(a, b, j))
  }

  /** Exchanging two terms does not change a sum. */
  lemma SumSwapped(n: int, a: int, b: int, f: Vec)
    requires 0 <= a <= b < n
    ensures Sum(0, n, SwapVec(a, b, f)) == Sum(0, n, f)
  {
    var g := SwapVec(a, b, f);
    forall i ensures g(i) == f(Swap(a, b, i)) {
    }
    if a == b {
      SumEq(0, n, g, f);
    } else {
      assert g(a) == f(b) && g(b) == f(a);
      SumPieces(n, a, b, f);
      SumPieces(n, a, b, g);
      SumEq(0, a, g, f);
      SumEq(a + 1, b, g, f);
      SumEq(b + 1, n, g, f);
    }
  }

  lemma SumPieces(n: int, a: int, b: int, f: Vec)
    requires 0 <= a < b < n
    ensures Sum(0, n, f) == Sum(0, a, f) + f(a) + Sum(a + 1, b, f) + f(b) + Sum(b + 1, n, f)
  {
    SumSplit(0, a, n, f);
    SumFirst(a, n, f);
    SumSplit(a + 1, b, n, f);
    SumFirst(b, n, f);
  }

  lemma DotSwapped(x: Vec, y: Vec, n: int, a: int, b: int)
    requires 0 <= a <= b < n
    ensures Dot(SwapVec(a, b, x), SwapVec(a, b, y), 0, n) == Dot(x, y, 0, n)
  {
    hide Prod;
    SumSwapped(n, a, b, Times(x, y));
    SumEq(0, n, Times(SwapVec(a, b, x), SwapVec(a, b, y)), SwapVec(a, b, Times(x, y)));
  }

  lemma MulSwapped(A: Mat, x: Vec, n: int, a: int, b: int, i: int)
    requires 0 <= a <= b < n
    ensures Mul(SwapMat(a, b, A), SwapVec(a, b, x), 0, n)(i) == Mul(A, x, 0, n)(Swap(a, b, i))
  {
    hide Dot;
    DotSwapped(Row(A, Swap(a, b, i)), x, n, a, b);
    DotEq(Row(SwapMat(a, b, A), i), SwapVec(a, b, x), SwapVec(a, b, Row(A, Swap(a, b, i))), SwapVec(a, b, x), 0, n);
  }

  lemma QuadSwapped(A: Mat, x: Vec, n: int, a: int, b: int)
    requires 0 <= a <= b < n
    ensures Quad(SwapMat(a, b, A), SwapVec(a, b, x), 0, n) == Quad(A, x, 0, n)
  {
    hide Dot;
    var y, z := Mul(SwapMat(a, b, A), SwapVec(a, b, x), 0, n), Mul(A, x, 0, n);
    forall i ensures y(i) == SwapVec(a, b, z)(i) {
      MulSwapped(A, x, n, a, b, i);
    }
    DotEq(SwapVec(a, b, x), y, SwapVec(a, b, x), SwapVec(a, b, z), 0, n);
    DotSwapped(x, z, n, a, b);
  }

  /** Semidefiniteness does not depend on the order of the rows and columns. */
  lemma SemidefiniteSwapped(A: Mat, n: int, a: int, b: int)
    requires 0 <= a <= b < n
    ensures PositiveSemidefinite(SwapMat(a, b, A), n) <==> PositiveSemidefinite(A, n)
  {
    hide Quad;
    var B := SwapMat(a, b, A);
    if PositiveSemidefinite(B, n) {
      forall x: Vec ensures Quad(A, x, 0, n) >= 0.0 {
        QuadSwapped(A, x, n, a, b);
      }
    }
    if PositiveSemidefinite(A, n) {
      forall x: Vec ensures Quad(B, x, 0, n) >= 0.0 {
        QuadSwapped(A, SwapVec(a, b, x), n, a, b);
        QuadEq(B, B, x, SwapVec(a, b, SwapVec(a, b, x)), 0, n);
      }
    }
  }

  lemma NonZeroSwapped(x: Vec, n: int, a: int, b: int)
    requires 0 <= a <= b < n && NonZero(x, 0, n)
    ensures NonZero(SwapVec(a, b, x), 0, n)
  {
    var i :| 0 <= i < n && x(i) != 0.0;
    assert SwapVec(a, b, x)(Swap(a, b, i)) == x(i);
  }

  /** Nor does definiteness. */
  lemma DefiniteSwapped(A: Mat, n: int, a: int, b: int)
    requires 0 <= a <= b < n && PositiveDefinite(A, n)
    ensures PositiveDefinite(SwapMat(a, b, A), n)
  {
    hide Quad, NonZero;
    var B := SwapMat(a, b, A);
    forall x: Vec | NonZero(x, 0, n) ensures Quad(B, x, 0, n) > 0.0 {
      var y := SwapVec(a, b, x);
      NonZeroSwapped(x, n, a, b);
      QuadSwapped(A, y, n, a, b);
      QuadEq(B, B, x, SwapVec(a, b, y), 0, n);
    }
  }

  /** Exchanging two rows and columns from k on commutes with the elimination of the first k. */
  lemma {:induction false} SchurSwapped(A: Mat, j: nat, a: int, b: int, i: int, c: int)
    requires j <= a && j <= b
    ensures Schur(SwapMat(a, b, A), j, i, c) == Schur(A, j, Swap(a, b, i), Swap(a, b, c))
    decreases j
  {
    hide Quot, Prod;
    if j > 0 {
      SchurSwapped(A, j - 1, a, b, i, c);
      SchurSwapped(A, j - 1, a, b, i, j - 1);
      SchurSwapped(A, j - 1, a, b, c, j - 1);
      SchurSwapped(A, j - 1, a, b, j - 1, j - 1);
    }
  }
}
