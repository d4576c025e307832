/** Updating a pivoted LDLT factorization in place (`update` and `rankUpdate` of Cholesky/LDLT.h): the matrix ends up
as if the updated input had been factored with the transpositions already chosen, so solving, reconstructing and
further updates work on it as on a fresh factorization. */
module LDLTUpdate {
  import opened LinearAlgebra
  import opened RankOne
  import opened Semidefinite
  import opened LDLT
  import opened LDLTSolve

  /** A + sigma v v' */
  ghost function Plus(A: Mat, v: Vec, sigma: real): Mat {
    (i, j) => A(i, j) + Term(v(i), sigma, v(j))
  }

  lemma PlusSymmetric(A: Mat, v: Vec, sigma: real)
    requires Symmetric(A)
    ensures Symmetric(Plus(A, v, sigma))
  {
    hide Term;
    forall i, j ensures Plus(A, v, sigma)(i, j) == Plus(A, v, sigma)(j, i) {
      TermSymmetric(v(i), sigma, v(j));
    }
  }

  /** P (A + sigma v v') P' == P A P' + sigma (P v) (P v)' */
  lemma {:induction false} PermutedPlus(A: Mat, v: Vec, sigma: real, tr: seq<int>, i: int, j: int)
    ensures Permuted(Plus(A, v, sigma), tr)(i, j) == Plus(Permuted(A, tr), PermutedVec(v, tr), sigma)(i, j)
    decreases |tr|
  {
    hide Term;
    if tr != [] {
      var k := |tr| - 1;
      PermutedPlus(A, v, sigma, tr[..k], Swap(k, tr[k], i), Swap(k, tr[k], j));
    }
  }

  ghost predicate SameBlock(A: Mat, B: Mat, n: int) {
    forall i, j :: 0 <= i < n && 0 <= j < n ==> A(i, j) == B(i, j)
  }

  /** Elimination within a block depends on that block only. */
  lemma {:induction false} SchurWithin(A: Mat, B: Mat, n: nat, k: nat, i: int, j: int)
    requires SameBlock(A, B, n) && k <= n && 0 <= i < n && 0 <= j < n
    ensures Schur(A, k, i, j) == Schur(B, k, i, j)
    decreases k
  {
    hide Quot, Prod;
    if k > 0 {
      SchurWithin(A, B, n, k - 1, i, j);
      SchurWithin(A, B, n, k - 1, i, k - 1);
      SchurWithin(A, B, n, k - 1, j, k - 1);
      SchurWithin(A, B, n, k - 1, k - 1, k - 1);
    }
  }

  /** A factorization without zero pivots reconstructs its matrix, so its update is that of the matrix. */
  lemma UpdatedIsPlus(B: Mat, u: Vec, sigma: real, n: nat)
    requires Symmetric(B) && forall k: nat :: k < n ==> Pivot(B, k) != 0.0
    ensures Reconstructs(B, n)
    ensures SameBlock(Updated(UnitFactor(B), Diag(B), u, sigma), Plus(B, u, sigma), n)
  {
    hide Weighted, Term, Schur, Pivot, UnitFactor, Diag;
    var L, d := UnitFactor(B), Diag(B);
    ReconstructsIffZeroColumns(B, n);
    forall i, j | 0 <= i < n && 0 <= j < n ensures Updated(L, d, u, sigma)(i, j) == Plus(B, u, sigma)(i, j) {
      if j > i {
        WeightedSymmetric(L, d, i, j, 0, i + 1);
        assert B(i, j) == B(j, i);
      }
    }
  }

  /** The permuted updated input, as `updateInPlace` sees it. */
  lemma UpdatedIsPermuted(A: Mat, v: Vec, sigma: real, tr: seq<int>, n: nat)
    requires Symmetric(A) && forall k: nat :: k < n ==> Pivot(Permuted(A, tr), k) != 0.0
    ensures var B := Permuted(A, tr);
            SameBlock(Updated(UnitFactor(B), Diag(B), PermutedVec(v, tr), sigma), Permuted(Plus(A, v, sigma), tr), n)
  {
    hide Updated, Permuted, PermutedVec, Plus, Pivot, UnitFactor, Diag;
    var B, B' := Permuted(A, tr), Permuted(Plus(A, v, sigma), tr);
    PermutedSymmetric(A, tr);
    UpdatedIsPlus(B, PermutedVec(v, tr), sigma, n);
    forall i, j | 0 <= i < n && 0 <= j < n ensures Plus(B, PermutedVec(v, tr), sigma)(i, j) == B'(i, j) {
      PermutedPlus(A, v, sigma, tr, i, j);
    }
  }

  /** Unit columns N and a diagonal e that multiply to U are what eliminating U gives, up to a zero in the last place
      of e. */
  lemma FactorIsPartial(U: Mat, N: Mat, e: Vec, n: nat, i: int, j: nat)
    requires Symmetric(U) && j < i < n
    requires forall r, c :: 0 <= c <= r < n ==> Weighted(N, e, r, c, 0, c + 1) == U(r, c)
    requires forall p: nat :: p < n ==> N(p, p) == 1.0
    requires forall p: nat :: p <= j ==> e(p) == Pivot(U, p) != 0.0
    ensures N(i, j) == Lower(U)(i, j)
  {
    hide Weighted, Schur, Pivot, Term;
    FactorColumn(U, N, e, j, n, i);
    TermUnit(N(i, j), e(j));
    OverPivotEntry(N(i, j), e(j));
  }

  lemma OverPivotEntry(x: real, d: real)
    requires d != 0.0
    ensures OverPivot(x * d, d) == x
  {
  }

  /** `ldlt_inplace<Lower>::update`. The matrix held the factorization of the permuted A and holds that of the permuted
      A + sigma v v', provided no pivot of the first is zero and of the second at most the last. */
  method Update(mat: array2<real>, transpositions: array<int>, tmp: array<real>, w: array<real>, sigma: real, ghost A: Mat, ghost v: Vec)
      returns (ret: bool)
    requires mat.Length0 == mat.Length1 == transpositions.Length == tmp.Length == w.Length && tmp != w
    requires Symmetric(A) && Transpositions(transpositions[..], mat.Length0)
    requires Holds(mat, Partial(Permuted(A, transpositions[..]), mat.Length0))
    requires forall p :: 0 <= p < w.Length ==> w[p] == v(p)
    requires forall k: nat :: k < mat.Length0 ==> Pivot(Permuted(A, transpositions[..]), k) != 0.0
    requires forall k: nat :: k < mat.Length0 - 1 ==> Pivot(Permuted(Plus(A, v, sigma), transpositions[..]), k) != 0.0
    modifies mat, tmp
    ensures ret && Symmetric(Plus(A, v, sigma))
    ensures Holds(mat, Partial(Permuted(Plus(A, v, sigma), transpositions[..]), mat.Length0))
    ensures Reconstructs(Permuted(Plus(A, v, sigma), transpositions[..]), mat.Length0)
    ensures forall i, j :: 0 <= i < j < mat.Length0 ==> mat[i, j] == old(mat[i, j])
  {
    hide Permuted, PermutedVec, Pivot, Schur, Updated, Plus, Lower, Transpositions, Weighted, Prod, Alpha, Symmetric;
    ghost var n, tr, u := mat.Length0, transpositions[..], PermutedVec(v, transpositions[..]);
    ghost var B := Permuted(A, tr);
    ghost var L, d := UnitFactor(B), Diag(B);
    for i := 0 to tmp.Length
      modifies tmp
      invariant forall p :: 0 <= p < i ==> tmp[p] == v(p)
    {
      tmp[i] := w[i];
    }
    ApplyTranspositions(tmp, transpositions[..], v);
    PivotsStay(A, v, sigma, tr, n);
    ghost var N, e;
    ret, N, e := UpdateInPlace(mat, tmp, sigma, L, d, u);
    PlusSymmetric(A, v, sigma);
    UpdateResult(mat, A, v, sigma, tr, N, e);
  }

  /** Pivots of the updated factors are pivots of the permuted updated input. */
  lemma PivotsStay(A: Mat, v: Vec, sigma: real, tr: seq<int>, n: nat)
    requires Symmetric(A) && forall k: nat :: k < n ==> Pivot(Permuted(A, tr), k) != 0.0
    ensures var B := Permuted(A, tr);
            forall k: nat :: k < n ==>
              Pivot(Updated(UnitFactor(B), Diag(B), PermutedVec(v, tr), sigma), k) == Pivot(Permuted(Plus(A, v, sigma), tr), k)
  {
    hide Permuted, PermutedVec, Schur, Updated, Plus, Symmetric, UnitFactor, Diag;
    var B := Permuted(A, tr);
    UpdatedIsPermuted(A, v, sigma, tr, n);
    forall k: nat | k < n
      ensures Pivot(Updated(UnitFactor(B), Diag(B), PermutedVec(v, tr), sigma), k) == Pivot(Permuted(Plus(A, v, sigma), tr), k)
    {
      SchurWithin(Updated(UnitFactor(B), Diag(B), PermutedVec(v, tr), sigma), Permuted(Plus(A, v, sigma), tr), n, k, k, k);
    }
  }

  lemma UpdateResult(mat: array2<real>, A: Mat, v: Vec, sigma: real, tr: seq<int>, N: Mat, e: Vec)
    requires mat.Length0 == mat.Length1 && Symmetric(A)
    requires forall k: nat :: k < mat.Length0 ==> Pivot(Permuted(A, tr), k) != 0.0
    requires forall k: nat :: k < mat.Length0 - 1 ==> Pivot(Permuted(Plus(A, v, sigma), tr), k) != 0.0
    requires var U := Updated(UnitFactor(Permuted(A, tr)), Diag(Permuted(A, tr)), PermutedVec(v, tr), sigma);
             && (forall p: nat :: p < mat.Length0 ==> N(p, p) == 1.0 && e(p) == Pivot(U, p))
             && (forall i, c :: 0 <= c <= i < mat.Length0 ==> Weighted(N, e, i, c, 0, c + 1) == U(i, c))
    requires UnitRewritten(mat, UnitFactor(Permuted(A, tr)), Diag(Permuted(A, tr)), N, e, mat.Length0)
    ensures Holds(mat, Partial(Permuted(Plus(A, v, sigma), tr), mat.Length0))
    ensures Reconstructs(Permuted(Plus(A, v, sigma), tr), mat.Length0)
  {
    hide Permuted, PermutedVec, Pivot, Schur, Updated, Plus, Lower, Weighted, Symmetric, UnitFactor, Diag;
    var n, B, B' := mat.Length0, Permuted(A, tr), Permuted(Plus(A, v, sigma), tr);
    var U := Updated(UnitFactor(B), Diag(B), PermutedVec(v, tr), sigma);
    PivotsStay(A, v, sigma, tr, n);
    UpdatedIsPermuted(A, v, sigma, tr, n);
    UpdatedSymmetric(UnitFactor(B), Diag(B), PermutedVec(v, tr), sigma);
    forall i, j | 0 <= j < i < n ensures mat[i, j] == Partial(B', n)(i, j) {
      var j': nat := j;
      FactorIsPartial(U, N, e, n, i, j');
      LowerWithin(U, B', n, i, j');
    }
    ReconstructsIffZeroColumns(B', n);
    NoZeroColumns(B', n);
  }

  lemma LowerWithin(U: Mat, B: Mat, n: nat, i: int, j: nat)
    requires SameBlock(U, B, n) && j < i < n
    ensures Lower(U)(i, j) == Lower(B)(i, j)
  {
    hide Schur;
    SchurWithin(U, B, n, j, i, j);
    SchurWithin(U, B, n, j, j, j);
  }

  lemma NoZeroColumns(B: Mat, n: nat)
    requires forall k: nat :: k < n - 1 ==> Pivot(B, k) != 0.0
    ensures ZeroColumns(B, 0, n, n)
  {
    hide Pivot, Schur;
  }

  /** Solving with an updated factorization solves the updated system, when no pivot is dropped. */
  lemma SolvesUpdated(A: Mat, v: Vec, sigma: real, tr: seq<int>, n: nat, tolerance: real, b: Vec, y: Vec, x: Vec)
    requires Symmetric(A) && Transpositions(tr, n) && tolerance >= 0.0
    requires Reconstructs(Permuted(Plus(A, v, sigma), tr), n)
    requires Chain(Permuted(Plus(A, v, sigma), tr), tr, n, tolerance, b, y, x)
    requires forall i :: 0 <= i < n ==> Abs(Diag(Permuted(Plus(A, v, sigma), tr))(i)) > tolerance
    ensures forall i :: 0 <= i < n ==> Mul(A, x, 0, n)(i) + (sigma * v(i)) * Dot(v, x, 0, n) == b(i)
  {
    hide Permuted, Diag, Chain, Reconstructs, Mul, Dot, Plus, Symmetric;
    PlusSymmetric(A, v, sigma);
    ChainSolvesIff(Plus(A, v, sigma), tr, n, tolerance, b, y, x);
    forall i | 0 <= i < n ensures Mul(A, x, 0, n)(i) + (sigma * v(i)) * Dot(v, x, 0, n) == b(i) {
      forall j ensures Plus(A, v, sigma)(i, j) == A(i, j) + (sigma * v(i)) * v(j) {
        PlusEntry(A, v, sigma, i, j);
      }
      MulAdd(A, Plus(A, v, sigma), v, sigma * v(i), x, 0, n, i);
    }
  }

  lemma PlusEntry(A: Mat, v: Vec, sigma: real, i: int, j: int)
    ensures Plus(A, v, sigma)(i, j) == A(i, j) + (sigma * v(i)) * v(j)
  {
    TermIs(v(i), sigma, v(j));
    assert sigma * (v(i) * v(j)) == (sigma * v(i)) * v(j);
  }
}
