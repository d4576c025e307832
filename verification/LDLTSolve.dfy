/** Solving with a pivoted LDLT factorization (`_solve_impl_transposed` of Cholesky/LDLT.h) and multiplying its
factors back together (`reconstructedMatrix`). */
module LDLTSolve {
  import opened LinearAlgebra
  import opened LLT
  import opened RankOne
  import opened Semidefinite
  import opened LDLT

  // ------------------------------------------------------------------------------ permutations of vectors

  /** P x */
  ghost function PermutedVec(x: Vec, tr: seq<int>): Vec {
    if tr == [] then x else SwapVec(|tr| - 1, tr[|tr| - 1], PermutedVec(x, tr[..|tr| - 1]))
  }

  /** P' u: the same transpositions in the opposite order. */
  ghost function UnpermutedVec(u: Vec, tr: seq<int>): Vec
    decreases |tr|
  {
    if tr == [] then u else UnpermutedVec(SwapVec(|tr| - 1, tr[|tr| - 1], u), tr[..|tr| - 1])
  }

  lemma LastTransposition(u: Vec, tr: seq<int>)
    ensures tr == [] ==> PermutedVec(u, tr) == u && UnpermutedVec(u, tr) == u
    ensures tr != [] ==> var k := |tr| - 1;
                         && PermutedVec(u, tr) == SwapVec(k, tr[k], PermutedVec(u, tr[..k]))
                         && UnpermutedVec(u, tr) == UnpermutedVec(SwapVec(k, tr[k], u), tr[..k])
  {
  }

  /** P P' u == u */
  lemma {:induction false} PermutedInverse(u: Vec, tr: seq<int>, i: int)
    ensures PermutedVec(UnpermutedVec(u, tr), tr)(i) == u(i)
    decreases |tr|
  {
    hide PermutedVec, UnpermutedVec;
    LastTransposition(u, tr);
    if tr != [] {
      var k := |tr| - 1;
      var v, i' := UnpermutedVec(u, tr), Swap(k, tr[k], i);
      LastTransposition(v, tr);
      PermutedInverse(SwapVec(k, tr[k], u), tr[..k], i');
      assert PermutedVec(v, tr)(i) == PermutedVec(v, tr[..k])(i');
      assert Swap(k, tr[k], i') == i;
    }
  }

  ghost predicate Agree(x: Vec, y: Vec, n: int) {
    forall i :: 0 <= i < n ==> x(i) == y(i)
  }

  lemma {:induction false} PermutedAgree(x: Vec, y: Vec, tr: seq<int>, n: nat)
    requires Transpositions(tr, n)
    ensures Agree(PermutedVec(x, tr), PermutedVec(y, tr), n) <==> Agree(x, y, n)
  {
    if tr != [] {
      var k := |tr| - 1;
      PermutedAgree(x, y, tr[..k], n);
      SwapAgree(PermutedVec(x, tr[..k]), PermutedVec(y, tr[..k]), k, tr[k], n);
    }
  }

  lemma SwapAgree(x: Vec, y: Vec, a: int, b: int, n: int)
    requires 0 <= a < n && 0 <= b < n
    ensures Agree(SwapVec(a, b, x), SwapVec(a, b, y), n) <==> Agree(x, y, n)
  {
    var x', y' := SwapVec(a, b, x), SwapVec(a, b, y);
    if Agree(x', y', n) {
      forall i | 0 <= i < n ensures x(i) == y(i) {
        var i' := Swap(a, b, i);
        assert x'(i') == y'(i') && Swap(a, b, i') == i;
      }
    }
    if Agree(x, y, n) {
      forall i | 0 <= i < n ensures x'(i) == y'(i) {
        var i' := Swap(a, b, i);
        assert x(i') == y(i');
      }
    }
  }

  /** (P A P') (P x) == P (A x) */
  lemma {:induction false} PermutedProduct(A: Mat, x: Vec, tr: seq<int>, n: nat, i: int)
    requires Transpositions(tr, n)
    ensures Mul(Permuted(A, tr), PermutedVec(x, tr), 0, n)(i) == PermutedVec(Mul(A, x, 0, n), tr)(i)
  {
    hide Mul;
    if tr != [] {
      var k := |tr| - 1;
      PermutedProduct(A, x, tr[..k], n, Swap(k, tr[k], i));
      MulSwapped(Permuted(A, tr[..k]), PermutedVec(x, tr[..k]), n, k, tr[k], i);
    }
  }

  // ---------------------------------------------------------------------------------- products of factors

  /** L' u */
  ghost function TransposedMul(L: Mat, u: Vec, n: int): Vec {
    p => Dot(Col(L, p), u, 0, n)
  }

  lemma ProdAssociates(a: real, b: real, c: real)
    ensures Prod(Prod(a, b), c) == Prod(a, Prod(b, c))
  {
  }

  ghost predicate UnitLower(L: Mat) {
    forall i, p :: (i < p ==> L(i, p) == 0.0) && (i == p ==> L(i, p) == 1.0)
  }

  /** B == L diag(d) L', all columns. */
  ghost predicate FullProduct(B: Mat, L: Mat, d: Vec, n: int) {
    forall i, c :: 0 <= i < n && 0 <= c < n ==> B(i, c) == Weighted(L, d, i, c, 0, n)
  }

  ghost function Summand(L: Mat, d: Vec, u: Vec, i: int): Mat {
    (c, p) => Prod(L(i, p), Prod(d(p), Prod(L(c, p), u(c))))
  }

  /** (L D L') u == L (D (L' u)) */
  lemma FactorsApplied(B: Mat, L: Mat, d: Vec, u: Vec, n: int, i: int)
    requires FullProduct(B, L, d, n) && 0 <= i < n
    ensures Mul(B, u, 0, n)(i) == Dot(Row(L, i), Times(d, TransposedMul(L, u, n)), 0, n)
  {
    hide Prod, Weighted;
    var G := Summand(L, d, u, i);
    var byRow := c => Sum(0, n, p => G(c, p));
    forall c | 0 <= c < n ensures Times(Row(B, i), u)(c) == byRow(c) {
      EntryApplied(L, d, u, n, i, c);
      SumEq(0, n, Row(G, c), p => G(c, p));
    }
    SumEq(0, n, Times(Row(B, i), u), byRow);
    SumSwap(0, n, 0, n, G);
    var byColumn := p => Sum(0, n, c => G(c, p));
    forall p | 0 <= p < n ensures byColumn(p) == Times(Row(L, i), Times(d, TransposedMul(L, u, n)))(p) {
      ColumnApplied(L, d, u, n, i, p);
      SumEq(0, n, Col(G, p), c => G(c, p));
    }
    SumEq(0, n, byColumn, Times(Row(L, i), Times(d, TransposedMul(L, u, n))));
  }

  lemma EntryApplied(L: Mat, d: Vec, u: Vec, n: int, i: int, c: int)
    ensures Prod(Weighted(L, d, i, c, 0, n), u(c)) == Sum(0, n, Row(Summand(L, d, u, i), c))
  {
    hide Prod;
    var f, g := Times(Row(L, i), Times(d, Row(L, c))), Row(Summand(L, d, u, i), c);
    forall p ensures g(p) == Prod(u(c), f(p)) {
      ProdCommutes(u(c), f(p));
      ProdAssociates(L(i, p), Prod(d(p), L(c, p)), u(c));
      ProdAssociates(d(p), L(c, p), u(c));
    }
    SumScaled(0, n, u(c), f, g);
    ProdCommutes(u(c), Sum(0, n, f));
  }

  lemma ColumnApplied(L: Mat, d: Vec, u: Vec, n: int, i: int, p: int)
    ensures Sum(0, n, Col(Summand(L, d, u, i), p)) == Prod(L(i, p), Prod(d(p), TransposedMul(L, u, n)(p)))
  {
    hide Prod;
    var f, g := Times(Col(L, p), u), Col(Summand(L, d, u, i), p);
    var a := Prod(L(i, p), d(p));
    forall c ensures g(c) == Prod(a, f(c)) {
      ProdAssociates(L(i, p), d(p), f(c));
    }
    SumScaled(0, n, a, f, g);
    ProdAssociates(L(i, p), d(p), Sum(0, n, f));
  }

  /** A factorization that reconstructs the lower triangle of a symmetric matrix reconstructs all of it. */
  lemma ReconstructsFully(B: Mat, n: nat)
    requires Symmetric(B) && Reconstructs(B, n)
    ensures FullProduct(B, UnitFactor(B), Diag(B), n)
  {
    hide Weighted, UnitFactor, Diag;
    var L, d := UnitFactor(B), Diag(B);
    forall i, c | 0 <= i < n && 0 <= c < n ensures B(i, c) == Weighted(L, d, i, c, 0, n) {
      if c <= i {
        ColumnsBeyond(B, i, c, n);
      } else {
        ColumnsBeyond(B, c, i, n);
        WeightedSymmetric(L, d, i, c, 0, n);
      }
    }
  }

  lemma ColumnsBeyond(B: Mat, i: int, c: int, n: int)
    requires 0 <= c <= i < n
    ensures Weighted(UnitFactor(B), Diag(B), i, c, 0, n) == Weighted(UnitFactor(B), Diag(B), i, c, 0, c + 1)
  {
    hide Diag, Prod, Lower;
    var L, d := UnitFactor(B), Diag(B);
    var f := Times(Row(L, i), Times(d, Row(L, c)));
    SumSplit(0, c + 1, n, f);
    forall p | c + 1 <= p < n ensures f(p) == 0.0 {
      ProdSign(d(p), 0.0);
      ProdSign(L(i, p), 0.0);
    }
    SumZero(c + 1, n, f);
  }

  lemma UnitFactorUnit(B: Mat)
    ensures UnitLower(UnitFactor(B))
  {
    hide Lower;
  }

  /** Unit lower triangular systems have at most one solution. */
  lemma {:induction false} UnitInjective(L: Mat, x: Vec, y: Vec, n: int, i: int)
    requires UnitLower(L) && Agree(Mul(L, x, 0, n), Mul(L, y, 0, n), n) && 0 <= i < n
    ensures x(i) == y(i)
    decreases i
  {
    hide Dot, Prod;
    forall p | 0 <= p < i ensures x(p) == y(p) {
      UnitInjective(L, x, y, n, p);
    }
    assert Mul(L, x, 0, n)(i) == Mul(L, y, 0, n)(i);
    UnitRow(L, x, n, i);
    UnitRow(L, y, n, i);
    DotEq(Row(L, i), x, Row(L, i), y, 0, i);
  }

  lemma UnitRow(L: Mat, x: Vec, n: int, i: int)
    requires UnitLower(L) && 0 <= i < n
    ensures Mul(L, x, 0, n)(i) == Dot(Row(L, i), x, 0, i) + x(i)
  {
    var f := Times(Row(L, i), x);
    SumSplit(0, i + 1, n, f);
    DotZero(Row(L, i), x, i + 1, n);
  }

  lemma UnitColumn(L: Mat, u: Vec, n: int, p: int)
    requires UnitLower(L) && 0 <= p < n
    ensures TransposedMul(L, u, n)(p) == u(p) + Dot(Col(L, p), u, p + 1, n)
  {
    var f := Times(Col(L, p), u);
    SumSplit(0, p, n, f);
    DotZero(Col(L, p), u, 0, p);
    SumFirst(p, n, f);
  }

  // ------------------------------------------------------------------------------------------ the theorem

  /** A x == b on the first n rows. */
  ghost predicate Solves(A: Mat, x: Vec, b: Vec, n: int) {
    Agree(Mul(A, x, 0, n), b, n)
  }

  /** The pseudo-inverse of D applied to y: components whose pivot is within the tolerance are dropped. */
  ghost predicate Divided(d: Vec, tolerance: real, y: Vec, z: Vec, n: int) {
    forall i :: 0 <= i < n ==> if Abs(d(i)) > tolerance then Prod(d(i), z(i)) == y(i) else z(i) == 0.0
  }

  /** x is what the factors of B = P A P' give for the right-hand side b; y solves the first triangular system. */
  ghost predicate Chain(B: Mat, tr: seq<int>, n: nat, tolerance: real, b: Vec, y: Vec, x: Vec) {
    && Agree(Mul(UnitFactor(B), y, 0, n), PermutedVec(b, tr), n)
    && Divided(Diag(B), tolerance, y, TransposedMul(UnitFactor(B), PermutedVec(x, tr), n), n)
  }

  /** The dropped components of y all vanish. */
  ghost predicate NothingLost(B: Mat, n: nat, tolerance: real, y: Vec) {
    forall i :: 0 <= i < n && Abs(Diag(B)(i)) <= tolerance ==> y(i) == 0.0
  }

  /** The result solves A x == b exactly when no nonzero component was dropped. */
  lemma ChainSolvesIff(A: Mat, tr: seq<int>, n: nat, tolerance: real, b: Vec, y: Vec, x: Vec)
    requires Symmetric(A) && Transpositions(tr, n) && tolerance >= 0.0
    requires Reconstructs(Permuted(A, tr), n) && Chain(Permuted(A, tr), tr, n, tolerance, b, y, x)
    ensures Solves(A, x, b, n) <==> NothingLost(Permuted(A, tr), n, tolerance, y)
  {
    hide Prod, Permuted, PermutedVec, Mul, Reconstructs, TransposedMul, Diag, UnitFactor, Agree, Divided;
    var B, u := Permuted(A, tr), PermutedVec(x, tr);
    var L, d := UnitFactor(B), Diag(B);
    var z := TransposedMul(L, u, n);
    PermutedSymmetric(A, tr);
    ReconstructsFully(B, n);
    UnitFactorUnit(B);
    ProductIsChain(A, tr, n, x);
    PermutedAgree(Mul(A, x, 0, n), b, tr, n);
    SameImage(L, Times(d, z), y, PermutedVec(Mul(A, x, 0, n), tr), PermutedVec(b, tr), n);
    DividedExact(d, tolerance, y, z, n);
  }

  /** P A x == L (D (L' P x)) */
  lemma ProductIsChain(A: Mat, tr: seq<int>, n: nat, x: Vec)
    requires Transpositions(tr, n) && FullProduct(Permuted(A, tr), UnitFactor(Permuted(A, tr)), Diag(Permuted(A, tr)), n)
    ensures var B, u := Permuted(A, tr), PermutedVec(x, tr);
            var L, d := UnitFactor(B), Diag(B);
            Agree(Mul(L, Times(d, TransposedMul(L, u, n)), 0, n), PermutedVec(Mul(A, x, 0, n), tr), n)
  {
    hide Prod, Permuted, PermutedVec, TransposedMul, Diag, UnitFactor, FullProduct, Dot;
    var B, u := Permuted(A, tr), PermutedVec(x, tr);
    forall i | 0 <= i < n
      ensures Mul(UnitFactor(B), Times(Diag(B), TransposedMul(UnitFactor(B), u, n)), 0, n)(i) == PermutedVec(Mul(A, x, 0, n), tr)(i)
    {
      FactorsApplied(B, UnitFactor(B), Diag(B), u, n, i);
      PermutedProduct(A, x, tr, n, i);
    }
  }

  /** L w == e and L y == f: then e == f exactly when w == y. */
  lemma SameImage(L: Mat, w: Vec, y: Vec, e: Vec, f: Vec, n: int)
    requires UnitLower(L) && Agree(Mul(L, w, 0, n), e, n) && Agree(Mul(L, y, 0, n), f, n)
    ensures Agree(e, f, n) <==> Agree(w, y, n)
  {
    hide Dot;
    if Agree(e, f, n) {
      assert Agree(Mul(L, w, 0, n), Mul(L, y, 0, n), n);
      forall i | 0 <= i < n ensures w(i) == y(i) {
        UnitInjective(L, w, y, n, i);
      }
    }
    if Agree(w, y, n) {
      forall i | 0 <= i < n ensures e(i) == f(i) {
        DotEq(Row(L, i), w, Row(L, i), y, 0, n);
        assert Mul(L, w, 0, n)(i) == Mul(L, y, 0, n)(i);
      }
    }
  }

  lemma DividedExact(d: Vec, tolerance: real, y: Vec, z: Vec, n: int)
    requires Divided(d, tolerance, y, z, n)
    ensures Agree(Times(d, z), y, n) <==> forall i :: 0 <= i < n && Abs(d(i)) <= tolerance ==> y(i) == 0.0
  {
    hide Prod;
    forall i | 0 <= i < n && Abs(d(i)) <= tolerance ensures Times(d, z)(i) == 0.0 {
      ProdSign(d(i), 0.0);
    }
  }

  /** When every dropped pivot is zero, the result solves A x == b whenever anything does. */
  lemma ChainSolvesWhenSolvable(A: Mat, tr: seq<int>, n: nat, tolerance: real, b: Vec, y: Vec, x: Vec, v: Vec)
    requires Symmetric(A) && Transpositions(tr, n) && tolerance >= 0.0
    requires Reconstructs(Permuted(A, tr), n) && Chain(Permuted(A, tr), tr, n, tolerance, b, y, x)
    requires forall i :: 0 <= i < n && Abs(Diag(Permuted(A, tr))(i)) <= tolerance ==> Diag(Permuted(A, tr))(i) == 0.0
    requires Solves(A, v, b, n)
    ensures Solves(A, x, b, n)
  {
    hide Prod, Permuted, PermutedVec, Mul, Reconstructs, TransposedMul, Diag, UnitFactor, Agree, Divided;
    var B := Permuted(A, tr);
    var L, d, w := UnitFactor(B), Diag(B), TransposedMul(UnitFactor(B), PermutedVec(v, tr), n);
    PermutedSymmetric(A, tr);
    ReconstructsFully(B, n);
    UnitFactorUnit(B);
    ProductIsChain(A, tr, n, v);
    PermutedAgree(Mul(A, v, 0, n), b, tr, n);
    SameImage(L, Times(d, w), y, PermutedVec(Mul(A, v, 0, n), tr), PermutedVec(b, tr), n);
    ZeroPivotsLoseNothing(B, n, tolerance, y, w);
    ChainSolvesIff(A, tr, n, tolerance, b, y, x);
  }

  lemma ZeroPivotsLoseNothing(B: Mat, n: nat, tolerance: real, y: Vec, w: Vec)
    requires forall i :: 0 <= i < n && Abs(Diag(B)(i)) <= tolerance ==> Diag(B)(i) == 0.0
    requires Agree(Times(Diag(B), w), y, n)
    ensures NothingLost(B, n, tolerance, y)
  {
    hide Prod, Diag;
    forall i | 0 <= i < n && Abs(Diag(B)(i)) <= tolerance ensures y(i) == 0.0 {
      ProdSign(Diag(B)(i), w(i));
    }
  }

  // -------------------------------------------------------------------------------------------- the code

  /** transpositions * dst */
  method ApplyTranspositions(dst: array<real>, tr: seq<int>, ghost x: Vec)
    requires |tr| == dst.Length && Transpositions(tr, dst.Length)
    requires forall i :: 0 <= i < dst.Length ==> dst[i] == x(i)
    modifies dst
    ensures forall i :: 0 <= i < dst.Length ==> dst[i] == PermutedVec(x, tr)(i)
  {
    hide PermutedVec;
    LastTransposition(x, []);
    for k := 0 to |tr|
      invariant tr[..0] == []
      invariant forall i :: 0 <= i < dst.Length ==> dst[i] == PermutedVec(x, tr[..k])(i)
    {
      ghost var y := PermutedVec(x, tr[..k]);
      var j := tr[k];
      if j != k {
        dst[k], dst[j] := dst[j], dst[k];
      }
      LastTransposition(x, tr[..k + 1]);
      assert tr[..k + 1][..k] == tr[..k];
      forall i | 0 <= i < dst.Length ensures dst[i] == SwapVec(k, j, y)(i) {
        assert SwapVec(k, j, y)(i) == y(Swap(k, j, i));
      }
    }
    assert tr[..|tr|] == tr;
  }

  /** transpositions.transpose() * dst */
  method ApplyInverse(dst: array<real>, tr: seq<int>, ghost u: Vec)
    requires |tr| == dst.Length && Transpositions(tr, dst.Length)
    requires forall i :: 0 <= i < dst.Length ==> dst[i] == u(i)
    modifies dst
    ensures forall i :: 0 <= i < dst.Length ==> dst[i] == UnpermutedVec(u, tr)(i)
  {
    hide UnpermutedVec;
    ghost var y := u;
    assert tr[..|tr|] == tr;
    for k := |tr| downto 0
      invariant UnpermutedVec(y, tr[..k]) == UnpermutedVec(u, tr)
      invariant forall i :: 0 <= i < dst.Length ==> dst[i] == y(i)
    {
      var j := tr[k];
      if j != k {
        dst[k], dst[j] := dst[j], dst[k];
      }
      LastTransposition(y, tr[..k + 1]);
      assert tr[..k + 1][..k] == tr[..k];
      forall i | 0 <= i < dst.Length ensures dst[i] == SwapVec(k, j, y)(i) {
        assert SwapVec(k, j, y)(i) == y(Swap(k, j, i));
      }
      y := SwapVec(k, j, y);
    }
    LastTransposition(y, tr[..0]);
  }

  /** matrixL().solveInPlace(dst): unit lower triangular, the diagonal of `mat` is not read. */
  method SolveLower(mat: array2<real>, dst: array<real>, ghost L: Mat, ghost b: Vec)
    requires mat.Length0 == mat.Length1 == dst.Length && UnitLower(L)
    requires forall i, p :: 0 <= p < i < dst.Length ==> mat[i, p] == L(i, p)
    requires forall i :: 0 <= i < dst.Length ==> dst[i] == b(i)
    modifies dst
    ensures Agree(Mul(L, Content(dst[..]), 0, dst.Length), b, dst.Length)
  {
    hide Prod, Dot;
    var n := dst.Length;
    for j := 0 to n
      invariant forall i :: j <= i < n ==> dst[i] == b(i)
      invariant forall i :: 0 <= i < j ==> Dot(Row(L, i), Content(dst[..]), 0, i) + dst[i] == b(i)
    {
      ghost var y := Content(dst[..]);
      var s := RowSum(mat, dst, j, Row(L, j), y);
      dst[j] := dst[j] - s;
      forall i | 0 <= i <= j ensures Dot(Row(L, i), Content(dst[..]), 0, i) == Dot(Row(L, i), y, 0, i) {
        DotEq(Row(L, i), Content(dst[..]), Row(L, i), y, 0, i);
      }
    }
    forall i | 0 <= i < n ensures Mul(L, Content(dst[..]), 0, n)(i) == b(i) {
      UnitRow(L, Content(dst[..]), n, i);
    }
  }

  method RowSum(mat: array2<real>, dst: array<real>, j: nat, ghost r: Vec, ghost y: Vec) returns (s: real)
    requires j < dst.Length == mat.Length0 == mat.Length1
    requires forall p :: 0 <= p < j ==> mat[j, p] == r(p) && dst[p] == y(p)
    ensures s == Dot(r, y, 0, j)
  {
    hide Prod;
    s := 0.0;
    for p := 0 to j
      invariant s == Dot(r, y, 0, p)
    {
      s := s + Prod(mat[j, p], dst[p]);
    }
  }

  /** matrixL().transpose().solveInPlace(dst) */
  method SolveUpper(mat: array2<real>, dst: array<real>, ghost L: Mat, ghost b: Vec)
    requires mat.Length0 == mat.Length1 == dst.Length && UnitLower(L)
    requires forall i, p :: 0 <= p < i < dst.Length ==> mat[i, p] == L(i, p)
    requires forall i :: 0 <= i < dst.Length ==> dst[i] == b(i)
    modifies dst
    ensures Agree(TransposedMul(L, Content(dst[..]), dst.Length), b, dst.Length)
  {
    hide Prod, Dot;
    var n := dst.Length;
    for j := n downto 0
      invariant forall i :: 0 <= i < j ==> dst[i] == b(i)
      invariant forall p :: j <= p < n ==> dst[p] + Dot(Col(L, p), Content(dst[..]), p + 1, n) == b(p)
    {
      ghost var y := Content(dst[..]);
      var s := ColumnSum(mat, dst, j, Col(L, j), y);
      dst[j] := dst[j] - s;
      forall p | j <= p < n ensures Dot(Col(L, p), Content(dst[..]), p + 1, n) == Dot(Col(L, p), y, p + 1, n) {
        DotEq(Col(L, p), Content(dst[..]), Col(L, p), y, p + 1, n);
      }
    }
    forall p | 0 <= p < n ensures TransposedMul(L, Content(dst[..]), n)(p) == b(p) {
      UnitColumn(L, Content(dst[..]), n, p);
    }
  }

  method ColumnSum(mat: array2<real>, dst: array<real>, j: nat, ghost c: Vec, ghost y: Vec) returns (s: real)
    requires j < dst.Length == mat.Length0 == mat.Length1
    requires forall i :: j < i < dst.Length ==> mat[i, j] == c(i) && dst[i] == y(i)
    ensures s == Dot(c, y, j + 1, dst.Length)
  {
    hide Prod;
    s := 0.0;
    for i := j + 1 to dst.Length
      invariant s == Dot(c, y, j + 1, i)
    {
      s := s + Prod(mat[i, j], dst[i]);
    }
  }

  /** dst = D^-1 dst, the pseudo-inverse with a tolerance. */
  method DivideByDiagonal(mat: array2<real>, dst: array<real>, tolerance: real, ghost d: Vec, ghost y: Vec)
    requires mat.Length0 == mat.Length1 == dst.Length && tolerance >= 0.0
    requires forall i :: 0 <= i < dst.Length ==> mat[i, i] == d(i) && dst[i] == y(i)
    modifies dst
    ensures Divided(d, tolerance, y, Content(dst[..]), dst.Length)
  {
    hide Prod;
    for k := 0 to dst.Length
      invariant forall i :: 0 <= i < k ==> if Abs(d(i)) > tolerance then Prod(d(i), dst[i]) == y(i) else dst[i] == 0.0
      invariant forall i :: k <= i < dst.Length ==> dst[i] == y(i)
    {
      if Abs(mat[k, k]) > tolerance {
        dst[k] := dst[k] / mat[k, k];
        ProdQuotient(d(k), y(k));
      } else {
        dst[k] := 0.0;
      }
    }
  }

  lemma ProdQuotient(d: real, y: real)
    requires d != 0.0
    ensures Prod(d, y / d) == y
  {
  }

  /** `_solve_impl_transposed<true>`. */
  method Solve(mat: array2<real>, transpositions: array<int>, rhs: array<real>, tolerance: real, ghost A: Mat)
      returns (dst: array<real>, ghost y: Vec)
    requires mat.Length0 == mat.Length1 == transpositions.Length == rhs.Length && tolerance >= 0.0
    requires Transpositions(transpositions[..], mat.Length0)
    requires Holds(mat, Partial(Permuted(A, transpositions[..]), mat.Length0))
    ensures fresh(dst) && dst.Length == rhs.Length
    ensures Chain(Permuted(A, transpositions[..]), transpositions[..], rhs.Length, tolerance, Content(rhs[..]), y, Content(dst[..]))
  {
    hide Permuted, PermutedVec, UnpermutedVec, Pivot, Lower, TransposedMul, Mul, Divided, Transpositions;
    var n := rhs.Length;
    ghost var tr, b := transpositions[..], Content(rhs[..]);
    ghost var L, d := UnitFactor(Permuted(A, tr)), Diag(Permuted(A, tr));
    UnitFactorUnit(Permuted(A, tr));
    dst := new real[n];
    for i := 0 to n
      invariant forall p :: 0 <= p < i ==> dst[p] == rhs[p]
    {
      dst[i] := rhs[i];
    }
    ApplyTranspositions(dst, transpositions[..], b);
    SolveLower(mat, dst, L, PermutedVec(b, tr));
    y := Content(dst[..]);
    DivideByDiagonal(mat, dst, tolerance, d, y);
    ghost var z := Content(dst[..]);
    SolveUpper(mat, dst, L, z);
    ghost var u := Content(dst[..]);
    ApplyInverse(dst, transpositions[..], u);
    ChainEnd(tr, n, L, d, tolerance, y, z, u, Content(dst[..]));
  }

  lemma ChainEnd(tr: seq<int>, n: nat, L: Mat, d: Vec, tolerance: real, y: Vec, z: Vec, u: Vec, x: Vec)
    requires Transpositions(tr, n) && Divided(d, tolerance, y, z, n)
    requires Agree(TransposedMul(L, u, n), z, n) && Agree(x, UnpermutedVec(u, tr), n)
    ensures Divided(d, tolerance, y, TransposedMul(L, PermutedVec(x, tr), n), n)
  {
    hide PermutedVec, UnpermutedVec, Prod, Dot, Transpositions;
    PermutedAgree(x, UnpermutedVec(u, tr), tr, n);
    var w := PermutedVec(x, tr);
    forall i | 0 <= i < n ensures w(i) == u(i) {
      PermutedInverse(u, tr, i);
      assert PermutedVec(UnpermutedVec(u, tr), tr)(i) == w(i);
    }
    forall p | 0 <= p < n ensures TransposedMul(L, w, n)(p) == z(p) {
      DotEq(Col(L, p), w, Col(L, p), u, 0, n);
    }
  }

  /** Column j of `reconstructedMatrix`: P' (L (D (L' (P e_j)))). */
  ghost function ReconstructedColumn(B: Mat, tr: seq<int>, n: nat, j: int): Vec {
    var L, d := UnitFactor(B), Diag(B);
    UnpermutedVec(Mul(L, Times(d, TransposedMul(L, PermutedVec(Unit(j), tr), n)), 0, n), tr)
  }

  /** Whenever the factors reproduce the permuted matrix, multiplying them back together gives the input. */
  lemma ReconstructedMatrix(A: Mat, tr: seq<int>, n: nat, i: int, j: int)
    requires Symmetric(A) && Transpositions(tr, n) && Reconstructs(Permuted(A, tr), n) && 0 <= i < n && 0 <= j < n
    ensures ReconstructedColumn(Permuted(A, tr), tr, n, j)(i) == A(i, j)
  {
    hide Prod, Permuted, PermutedVec, UnpermutedVec, Reconstructs, TransposedMul, Diag, UnitFactor, Dot, Transpositions;
    var B := Permuted(A, tr);
    var w := Mul(UnitFactor(B), Times(Diag(B), TransposedMul(UnitFactor(B), PermutedVec(Unit(j), tr), n)), 0, n);
    PermutedSymmetric(A, tr);
    ReconstructsFully(B, n);
    ProductIsChain(A, tr, n, Unit(j));
    forall p | 0 <= p < n ensures PermutedVec(UnpermutedVec(w, tr), tr)(p) == PermutedVec(Mul(A, Unit(j), 0, n), tr)(p) {
      PermutedInverse(w, tr, p);
    }
    PermutedAgree(UnpermutedVec(w, tr), Mul(A, Unit(j), 0, n), tr, n);
    DotUnit(Row(A, i), j, 0, n);
  }
}
