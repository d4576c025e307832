/** What a pivoted LDLT factorization says about its input: when it reconstructs it, and when the sign and the
return value decide whether the input is positive or negative semidefinite. */
module LDLTMeaning {
  import opened LinearAlgebra
  import opened RankOne
  import opened Semidefinite
  import opened LDLT

  /** `LDLT::isPositive` and `LDLT::isNegative` */
  predicate IsPositive(sign: SignMatrix) {
    sign == PositiveSemiDef || sign == ZeroSign
  }

  predicate IsNegative(sign: SignMatrix) {
    sign == NegativeSemiDef || sign == ZeroSign
  }

  lemma PositiveSign(B: Mat, n: nat, sign: SignMatrix)
    requires SignMeans(sign, B, n)
    ensures IsPositive(sign) <==> PivotsNonNegative(B, 0, n)
  {
    hide Pivot;
    if !PivotsNonNegative(B, 0, n) {
      var j: nat :| 0 <= j < n && Pivot(B, j) < 0.0;
      assert Somewhere(B, n, NegativeSemiDef);
    }
  }

  /** The input is positive semidefinite exactly when the sign says so and L D L' reconstructs it; so, when the
      factorization succeeds, exactly when the sign says so. */
  lemma SignDecidesPositive(A: Mat, tr: seq<int>, n: nat, ret: bool, sign: SignMatrix)
    requires Symmetric(A) && Transpositions(tr, n) && Factored(Permuted(A, tr), n, ZeroSign, ret, sign)
    ensures PositiveSemidefinite(A, n) <==> IsPositive(sign) && Reconstructs(Permuted(A, tr), n)
    ensures ret ==> Reconstructs(Permuted(A, tr), n) && (PositiveSemidefinite(A, n) <==> IsPositive(sign))
  {
    hide Pivot, Permuted, PositiveSemidefinite, SignMeans, ZeroColumns, PivotsNonNegative, Reconstructs, SortedDiagonal, ZerosLast;
    var B := Permuted(A, tr);
    PermutedSymmetric(A, tr);
    PermutedSemidefinite(A, tr, n);
    SemidefiniteIffPivots(B, n);
    PositiveSign(B, n, sign);
    ReconstructsIffZeroColumns(B, n);
  }

  // ------------------------------------------------------------------------------ negative semidefinite

  ghost predicate NegativeSemidefinite(A: Mat, n: int) {
    forall x: Vec :: Quad(A, x, 0, n) <= 0.0
  }

  ghost function Negated(A: Mat): Mat {
    (i, j) => -A(i, j)
  }

  lemma {:induction false} SchurNegated(A: Mat, k: nat, i: int, j: int)
    ensures Schur(Negated(A), k, i, j) == -Schur(A, k, i, j)
    decreases k
  {
    hide Quot, Prod;
    if k > 0 {
      SchurNegated(A, k - 1, i, j);
      SchurNegated(A, k - 1, i, k - 1);
      SchurNegated(A, k - 1, j, k - 1);
      SchurNegated(A, k - 1, k - 1, k - 1);
      QuotNegated(Schur(A, k - 1, i, k - 1), Schur(A, k - 1, j, k - 1), Pivot(A, k - 1));
    }
  }

  lemma QuotNegated(a: real, b: real, d: real)
    ensures Quot(Prod(-a, -b), -d) == -Quot(Prod(a, b), d)
  {
    assert (-a) * (-b) == a * b;
  }

  lemma QuadNegated(A: Mat, x: Vec, n: int)
    ensures Quad(Negated(A), x, 0, n) == -Quad(A, x, 0, n)
  {
    hide Prod;
    var y, z := Mul(A, x, 0, n), Mul(Negated(A), x, 0, n);
    forall i ensures z(i) == -y(i) {
      DotNegated(Row(A, i), Row(Negated(A), i), x, n);
    }
    DotNegated(y, z, x, n);
    DotCommutes(x, y, n);
    DotCommutes(x, z, n);
  }

  lemma DotNegated(c: Vec, d: Vec, x: Vec, n: int)
    requires forall i :: d(i) == -c(i)
    ensures Dot(d, x, 0, n) == -Dot(c, x, 0, n)
  {
    var zero: Vec := i => 0.0;
    SumZero(0, n, zero);
    SumLinear(0, n, zero, -1.0, Times(c, x), Times(d, x));
  }

  lemma NegativeIsNegated(A: Mat, n: nat)
    ensures NegativeSemidefinite(A, n) <==> PositiveSemidefinite(Negated(A), n)
  {
    hide Quad;
    forall x: Vec ensures Quad(Negated(A), x, 0, n) == -Quad(A, x, 0, n) {
      QuadNegated(A, x, n);
    }
  }

  lemma {:induction false} PermutedNegated(A: Mat, tr: seq<int>, i: int, j: int)
    ensures Permuted(Negated(A), tr)(i, j) == Negated(Permuted(A, tr))(i, j)
  {
    if tr != [] {
      var k := |tr| - 1;
      PermutedNegated(A, tr[..k], Swap(k, tr[k], i), Swap(k, tr[k], j));
    }
  }

  lemma PermutedNegative(A: Mat, tr: seq<int>, n: nat)
    requires Transpositions(tr, n)
    ensures NegativeSemidefinite(Permuted(A, tr), n) <==> NegativeSemidefinite(A, n)
  {
    hide Permuted, Quad;
    NegativeIsNegated(A, n);
    NegativeIsNegated(Permuted(A, tr), n);
    PermutedSemidefinite(Negated(A), tr, n);
    var M, N := Permuted(Negated(A), tr), Negated(Permuted(A, tr));
    forall i, j ensures M(i, j) == N(i, j) {
      PermutedNegated(A, tr, i, j);
    }
    forall x: Vec ensures Quad(M, x, 0, n) == Quad(N, x, 0, n) {
      QuadEq(M, N, x, x, 0, n);
    }
  }

  ghost predicate PivotsNonPositive(A: Mat, n: nat) {
    forall k: nat :: k < n ==> Pivot(A, k) <= 0.0
  }

  lemma NegatedPivots(B: Mat, n: nat)
    ensures PivotsNonNegative(Negated(B), 0, n) <==> PivotsNonPositive(B, n)
    ensures ZeroColumns(Negated(B), 0, n, n) <==> ZeroColumns(B, 0, n, n)
  {
    hide Schur, Pivot;
    forall k: nat ensures Pivot(Negated(B), k) == -Pivot(B, k) && (ZeroBelow(Negated(B), k, n) <==> ZeroBelow(B, k, n)) {
      NegatedColumn(B, k, n);
    }
  }

  lemma NegatedColumn(B: Mat, k: nat, n: nat)
    ensures Pivot(Negated(B), k) == -Pivot(B, k) && (ZeroBelow(Negated(B), k, n) <==> ZeroBelow(B, k, n))
  {
    hide Schur;
    forall i ensures Schur(Negated(B), k, i, k) == -Schur(B, k, i, k) {
      SchurNegated(B, k, i, k);
    }
  }

  lemma NegativeIffPivots(B: Mat, n: nat)
    requires Symmetric(B)
    ensures NegativeSemidefinite(B, n) <==> ZeroColumns(B, 0, n, n) && PivotsNonPositive(B, n)
  {
    hide PositiveSemidefinite, NegativeSemidefinite, Schur, ZeroColumns, PivotsNonNegative, PivotsNonPositive;
    NegativeIsNegated(B, n);
    SemidefiniteIffPivots(Negated(B), n);
    NegatedPivots(B, n);
  }

  lemma NegativeSign(B: Mat, n: nat, sign: SignMatrix)
    requires SignMeans(sign, B, n)
    ensures IsNegative(sign) <==> PivotsNonPositive(B, n)
  {
    hide Pivot;
    if !PivotsNonPositive(B, n) {
      var j: nat :| j < n && Pivot(B, j) > 0.0;
      assert Somewhere(B, n, PositiveSemiDef);
    }
  }

  /** The mirror image for negative semidefinite inputs. */
  lemma SignDecidesNegative(A: Mat, tr: seq<int>, n: nat, ret: bool, sign: SignMatrix)
    requires Symmetric(A) && Transpositions(tr, n) && Factored(Permuted(A, tr), n, ZeroSign, ret, sign)
    ensures NegativeSemidefinite(A, n) <==> IsNegative(sign) && Reconstructs(Permuted(A, tr), n)
    ensures ret ==> (NegativeSemidefinite(A, n) <==> IsNegative(sign))
  {
    hide Pivot, Permuted, NegativeSemidefinite, SignMeans, ZeroColumns, Reconstructs, SortedDiagonal, ZerosLast;
    var B := Permuted(A, tr);
    PermutedSymmetric(A, tr);
    PermutedNegative(A, tr, n);
    NegativeIffPivots(B, n);
    NegativeSign(B, n, sign);
    ReconstructsIffZeroColumns(B, n);
  }

  // ------------------------------------------------------------------------- success on definite matrices

  lemma {:induction false} PermutedDefinite(A: Mat, tr: seq<int>, n: nat)
    requires Transpositions(tr, n) && PositiveDefinite(A, n)
    ensures PositiveDefinite(Permuted(A, tr), n)
  {
    hide PositiveDefinite;
    if tr != [] {
      var k := |tr| - 1;
      PermutedDefinite(A, tr[..k], n);
      DefiniteSwapped(Permuted(A, tr[..k]), n, k, tr[k]);
    }
  }

  /** A positive definite input is always factored successfully. */
  lemma DefiniteSucceeds(A: Mat, tr: seq<int>, n: nat, ret: bool, sign: SignMatrix)
    requires Symmetric(A) && Transpositions(tr, n) && Factored(Permuted(A, tr), n, ZeroSign, ret, sign)
    requires PositiveDefinite(A, n)
    ensures ret && (n > 0 ==> sign == PositiveSemiDef)
  {
    hide Pivot, Permuted, PositiveDefinite;
    var B := Permuted(A, tr);
    PermutedSymmetric(A, tr);
    PermutedDefinite(A, tr, n);
    PositiveDefiniteIffPivots(B, n);
    if n > 0 {
      assert Pivot(B, 0) > 0.0;
      assert Somewhere(B, n, PositiveSemiDef);
    }
    assert !Somewhere(B, n, NegativeSemiDef);
  }

  // --------------------------------------------------------------------------- which inputs are factored

  /** Nothing is left of B after the elimination of its first r rows and columns. */
  ghost predicate Exhausted(B: Mat, r: nat, n: nat) {
    forall i: int, j: int :: r <= i < n && r <= j < n ==> Schur(B, r, i, j) == 0.0
  }

  /** The leading r by r block can be eliminated and nothing is left after that: the rank is r, and it is visible in
      the leading block. */
  ghost predicate RankLeads(B: Mat, r: nat, n: nat) {
    r <= n && (forall k: nat :: k < r ==> Pivot(B, k) != 0.0) && Exhausted(B, r, n)
  }

  /** A symmetric input is factored successfully exactly when, its rows and columns taken in the order that the diagonal
      alone dictates, the leading ones carry the whole rank. */
  lemma SucceedsIff(A: Mat, n: nat, ret: bool, sign: SignMatrix)
    requires Symmetric(A) && Factored(Permuted(A, PivotOrder(A, n)), n, ZeroSign, ret, sign)
    ensures ret <==> exists r: nat :: RankLeads(Permuted(A, PivotOrder(A, n)), r, n)
  {
    hide Schur, Permuted, PivotOrder, ZeroColumns, ZerosLast, SignMeans, SortedDiagonal;
    var B := Permuted(A, PivotOrder(A, n));
    PermutedSymmetric(A, PivotOrder(A, n));
    if ret {
      var r := LeadingRank(B, n);
    }
    if r: nat :| RankLeads(B, r, n) {
      NothingLeft(B, r, n);
    }
  }

  /** For a positive semidefinite input: exactly when the leading rows that carry the rank are positive definite. */
  lemma SemidefiniteSucceedsIff(A: Mat, n: nat, ret: bool, sign: SignMatrix)
    requires Symmetric(A) && Factored(Permuted(A, PivotOrder(A, n)), n, ZeroSign, ret, sign)
    requires PositiveSemidefinite(A, n)
    ensures ret <==> exists r: nat :: r <= n && DefiniteLeads(Permuted(A, PivotOrder(A, n)), r, n)
  {
    hide RankLeads, DefiniteLeads, Permuted, PivotOrder, PositiveSemidefinite, PivotsNonNegative, ZeroColumns, Factored;
    var B := Permuted(A, PivotOrder(A, n));
    SucceedsIff(A, n, ret, sign);
    PermutedSymmetric(A, PivotOrder(A, n));
    PermutedSemidefinite(A, PivotOrder(A, n), n);
    SemidefiniteIffPivots(B, n);
    forall r: nat | r <= n ensures RankLeads(B, r, n) <==> DefiniteLeads(B, r, n) {
      LeadsDefinite(B, r, n);
    }
    if r: nat :| RankLeads(B, r, n) {
      RankBound(B, r, n);
    }
  }

  /** For a negative semidefinite input: exactly when that holds of its negation. */
  lemma NegativeSucceedsIff(A: Mat, n: nat, ret: bool, sign: SignMatrix)
    requires Symmetric(A) && Factored(Permuted(A, PivotOrder(A, n)), n, ZeroSign, ret, sign)
    requires NegativeSemidefinite(A, n)
    ensures ret <==> exists r: nat :: r <= n && DefiniteLeads(Negated(Permuted(A, PivotOrder(A, n))), r, n)
  {
    hide RankLeads, DefiniteLeads, Permuted, PivotOrder, PositiveSemidefinite, NegativeSemidefinite, PivotsNonNegative, PivotsNonPositive, ZeroColumns, Factored;
    var B := Permuted(A, PivotOrder(A, n));
    SucceedsIff(A, n, ret, sign);
    PermutedSymmetric(A, PivotOrder(A, n));
    PermutedNegative(A, PivotOrder(A, n), n);
    NegativeIffPivots(B, n);
    NegatedPivots(B, n);
    forall r: nat | r <= n ensures RankLeads(B, r, n) <==> DefiniteLeads(Negated(B), r, n) {
      LeadsDefinite(Negated(B), r, n);
      LeadsNegated(B, r, n);
    }
    if r: nat :| RankLeads(B, r, n) {
      RankBound(B, r, n);
    }
  }

  /** The leading r by r block is positive definite and nothing is left after eliminating it. */
  ghost predicate DefiniteLeads(B: Mat, r: nat, n: nat) {
    PositiveDefinite(B, r) && Exhausted(B, r, n)
  }

  lemma RankBound(B: Mat, r: nat, n: nat)
    requires RankLeads(B, r, n)
    ensures r <= n
  {
    hide Schur;
  }

  lemma LeadsDefinite(B: Mat, r: nat, n: nat)
    requires Symmetric(B) && r <= n && PivotsNonNegative(B, 0, n)
    ensures RankLeads(B, r, n) <==> DefiniteLeads(B, r, n)
  {
    hide Schur, Pivot, PositiveDefinite;
    PositiveDefiniteIffPivots(B, r);
  }

  lemma LeadsNegated(B: Mat, r: nat, n: nat)
    ensures RankLeads(Negated(B), r, n) <==> RankLeads(B, r, n)
  {
    hide Schur, Exhausted;
    var C := Negated(B);
    forall k: nat ensures Pivot(C, k) == -Pivot(B, k) {
      SchurNegated(B, k, k, k);
    }
    ExhaustedNegated(B, r, n);
  }

  lemma ExhaustedNegated(B: Mat, r: nat, n: nat)
    ensures Exhausted(Negated(B), r, n) <==> Exhausted(B, r, n)
  {
    hide Schur;
    if Exhausted(B, r, n) {
      forall i: int, j: int | r <= i < n && r <= j < n ensures Schur(Negated(B), r, i, j) == 0.0 {
        SchurNegated(B, r, i, j);
      }
    }
    if Exhausted(Negated(B), r, n) {
      forall i: int, j: int | r <= i < n && r <= j < n ensures Schur(B, r, i, j) == 0.0 {
        SchurNegated(B, r, i, j);
      }
    }
  }

  lemma NothingLeft(B: Mat, r: nat, n: nat)
    requires RankLeads(B, r, n)
    ensures ZeroColumns(B, 0, n, n) && ZerosLast(B, n)
  {
    hide Schur;
    forall k: nat, i: int | r <= k <= i < n ensures Schur(B, k, i, k) == 0.0 {
      StaysZero(B, r, n, k, i, k);
    }
    forall k: nat | r <= k < n ensures Pivot(B, k) == 0.0 {
      assert Schur(B, k, k, k) == 0.0;
    }
  }

  lemma {:induction false} StaysZero(B: Mat, r: nat, n: nat, k: nat, i: int, j: int)
    requires r <= k <= i < n && k <= j < n
    requires forall p: int, q: int :: r <= p < n && r <= q < n ==> Schur(B, r, p, q) == 0.0
    ensures Schur(B, k, i, j) == 0.0
    decreases k
  {
    if r < k {
      StaysZero(B, r, n, k - 1, i, j);
      StaysZero(B, r, n, k - 1, k - 1, k - 1);
    }
  }

  lemma LeadingRank(B: Mat, n: nat) returns (r: nat)
    requires Symmetric(B) && ZeroColumns(B, 0, n, n) && ZerosLast(B, n)
    ensures RankLeads(B, r, n)
  {
    hide Schur;
    r := 0;
    while r < n && Pivot(B, r) != 0.0
      invariant r <= n && forall k: nat :: k < r ==> Pivot(B, k) != 0.0
    {
      r := r + 1;
    }
    forall i: int, j: int | r <= i < n && r <= j < n ensures Schur(B, r, i, j) == 0.0 {
      SchurSymmetric(B, r);
      assert SchurMat(B, r)(i, j) == SchurMat(B, r)(j, i);
      if i <= j {
        LeftOver(B, r, n, j, i);
      } else {
        LeftOver(B, r, n, i, j);
      }
    }
  }

  lemma LeftOver(B: Mat, r: nat, n: nat, i: int, j: nat)
    requires r <= j <= i < n && Pivot(B, r) == 0.0 && ZeroColumns(B, 0, n, n) && ZerosLast(B, n)
    ensures Schur(B, r, i, j) == 0.0
  {
    hide Schur;
    Unchanged(B, r, n, j, i, j);
    assert Pivot(B, j) == 0.0;
    if j < i {
      assert ZeroBelow(B, j, n);
    }
  }

  /** Zero pivots eliminate nothing. */
  lemma {:induction false} Unchanged(B: Mat, r: nat, n: nat, k: nat, i: int, j: int)
    requires r <= k < n && (r < n ==> Pivot(B, r) == 0.0) && ZerosLast(B, n)
    ensures Schur(B, k, i, j) == Schur(B, r, i, j)
    decreases k
  {
    hide Prod;
    if r < k {
      Unchanged(B, r, n, k - 1, i, j);
    }
  }

  // ----------------------------------------------------------------------------------- concrete witnesses

  /** 2 2 0 / 2 2 0 / 0 0 1 */
  ghost const DEPENDENT: Mat :=
    (i, j) => if 0 <= i <= 1 && 0 <= j <= 1 then 2.0 else if i == 2 && j == 2 then 1.0 else 0.0

  lemma DependentPivots(B: Mat)
    requires forall i, j :: 0 <= i < 3 && 0 <= j < 3 ==> B(i, j) == DEPENDENT(i, j)
    ensures Pivot(B, 0) == 2.0 && Pivot(B, 1) == 0.0 && Pivot(B, 2) == 1.0 && Schur(B, 1, 2, 1) == 0.0
  {
    assert forall i, j :: Schur(B, 0, i, j) == B(i, j);
    assert Schur(B, 1, 1, 1) == B(1, 1) - Quot(Prod(B(1, 0), B(1, 0)), B(0, 0));
    assert Schur(B, 1, 2, 1) == B(2, 1) - Quot(Prod(B(2, 0), B(1, 0)), B(0, 0));
    assert Schur(B, 1, 2, 2) == B(2, 2) - Quot(Prod(B(2, 0), B(2, 0)), B(0, 0));
    assert Schur(B, 2, 2, 2) == Schur(B, 1, 2, 2) - Quot(Prod(Schur(B, 1, 2, 1), Schur(B, 1, 2, 1)), Pivot(B, 1));
  }

  lemma PermutedThree(A: Mat, tr: seq<int>)
    requires |tr| == 3 && Transpositions(tr, 3)
    ensures Permuted(A, tr) == SwapMat(2, 2, SwapMat(1, tr[1], SwapMat(0, tr[0], A)))
  {
    hide Permuted;
    var t0, t1 := tr[0], tr[1];
    assert tr == (([] + [t0]) + [t1]) + [2];
    PermutedNone(A);
    PermutedNext(A, [], t0);
    PermutedNext(A, [] + [t0], t1);
    PermutedNext(A, ([] + [t0]) + [t1], 2);
  }

  /** The largest diagonal entries come first, so the last row and column stay where they are. */
  lemma DependentPermuted(tr: seq<int>, i: int, j: int)
    requires |tr| == 3 && Transpositions(tr, 3) && SortedDiagonal(Permuted(DEPENDENT, tr), 3, 3)
    requires 0 <= i < 3 && 0 <= j < 3
    ensures Permuted(DEPENDENT, tr)(i, j) == DEPENDENT(i, j)
  {
    hide Permuted;
    var A, t0, t1 := DEPENDENT, tr[0], tr[1];
    var B := SwapMat(2, 2, SwapMat(1, t1, SwapMat(0, t0, A)));
    PermutedThree(A, tr);
    assert Abs(B(2, 2)) <= Abs(B(1, 1)) <= Abs(B(0, 0));
    forall p ensures B(p, p) == A(Order(t0, t1, p), Order(t0, t1, p)) {
    }
    assert B(i, j) == A(Order(t0, t1, i), Order(t0, t1, j));
    assert t0 != 2 && t1 != 2;
  }

  function Order(t0: int, t1: int, i: int): int {
    Swap(0, t0, Swap(1, t1, Swap(2, 2, i)))
  }

  /** A positive semidefinite matrix whose factorization reports failure: whatever pivots of equal size are
      preferred, a zero pivot comes before a nonzero one. */
  lemma SemidefiniteCanFail(tr: seq<int>, ret: bool, sign: SignMatrix)
    requires |tr| == 3 && Transpositions(tr, 3) && Factored(Permuted(DEPENDENT, tr), 3, ZeroSign, ret, sign)
    ensures Symmetric(DEPENDENT) && PositiveSemidefinite(DEPENDENT, 3) && !ret
  {
    hide PositiveSemidefinite, Schur, Permuted;
    var A, B := DEPENDENT, Permuted(DEPENDENT, tr);
    DependentPivots(A);
    SemidefiniteIffPivots(A, 3);
    forall i, j | 0 <= i < 3 && 0 <= j < 3 ensures B(i, j) == A(i, j) {
      DependentPermuted(tr, i, j);
    }
    DependentPivots(B);
    var a: nat, b: nat := 1, 2;
    assert a < b < 3 && Pivot(B, a) == 0.0 && Pivot(B, b) != 0.0;
  }

  /** 0 1 / 1 0 */
  ghost const EXCHANGE: Mat := (i, j) => if i != j then 1.0 else 0.0

  /** A failed factorization says nothing about definiteness: here `isPositive` and `isNegative` both hold of a
      matrix that is neither positive nor negative semidefinite. */
  lemma SignCanMislead(tr: seq<int>, ret: bool, sign: SignMatrix)
    requires |tr| == 2 && Transpositions(tr, 2) && Factored(Permuted(EXCHANGE, tr), 2, ZeroSign, ret, sign)
    ensures !ret && IsPositive(sign) && IsNegative(sign)
    ensures !PositiveSemidefinite(EXCHANGE, 2) && !NegativeSemidefinite(EXCHANGE, 2)
  {
    hide Schur, PositiveSemidefinite, NegativeSemidefinite, Permuted;
    var A, B := EXCHANGE, Permuted(EXCHANGE, tr);
    assert forall i, j :: B(i, j) == A(i, j) by {
      forall i, j ensures B(i, j) == A(i, j) {
        ExchangePermuted(tr, i, j);
      }
    }
    ExchangePivots(B, 0);
    ExchangePivots(B, 1);
    assert !ZeroBelow(B, 0, 2);
    SignDecidesPositive(A, tr, 2, ret, sign);
    SignDecidesNegative(A, tr, 2, ret, sign);
    ReconstructsIffZeroColumns(B, 2);
  }

  lemma ExchangePivots(B: Mat, k: nat)
    requires k < 2 && forall i, j :: B(i, j) == EXCHANGE(i, j)
    ensures Pivot(B, k) == 0.0 && Schur(B, 0, 1, 0) == 1.0
  {
    assert Schur(B, 0, 0, 0) == B(0, 0) && Schur(B, 0, 1, 1) == B(1, 1);
  }

  lemma {:induction false} ExchangePermuted(tr: seq<int>, i: int, j: int)
    ensures Permuted(EXCHANGE, tr)(i, j) == EXCHANGE(i, j)
  {
    if tr != [] {
      var k := |tr| - 1;
      ExchangePermuted(tr[..k], Swap(k, tr[k], i), Swap(k, tr[k], j));
    }
  }
}
