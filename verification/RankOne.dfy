/** Rank-one updates of Cholesky factors: `llt_rank_update_lower` of Cholesky/LLT.h and `updateInPlace` of
Cholesky/LDLT.h.

All three loops (Givens rotations, the LLT downdate and the LDLT update) obey one conservation law. Before step
j, every entry of the updated matrix is a product over the columns already rewritten, plus a product over the
old columns still to come, plus rho times a product of two entries of the working vector. */
module RankOne {
  import opened Integers
  import opened LinearAlgebra
  import opened LLT

  /** Entry (i, c) of L diag(d) L', over the columns lo..hi. */
  ghost function Weighted(L: Mat, d: Vec, i: int, c: int, lo: int, hi: int): real {
    Dot(Row(L, i), Times(d, Row(L, c)), lo, hi)
  }

  /** a diag(d) b', one term of it */
  function Term(a: real, d: real, b: real): real {
    Prod(a, Prod(d, b))
  }

  /** L diag(d) L' + sigma v v', for a lower triangular L. */
  ghost function Updated(L: Mat, d: Vec, v: Vec, sigma: real): Mat {
    (i, c) => Weighted(L, d, i, c, 0, Min(i, c) + 1) + Term(v(i), sigma, v(c))
  }

  ghost const ONES: Vec := i => 1.0

  lemma TermSymmetric(a: real, d: real, b: real)
    ensures Term(a, d, b) == Term(b, d, a)
  {
  }

  lemma WeightedSymmetric(L: Mat, d: Vec, i: int, c: int, lo: int, hi: int)
    ensures Weighted(L, d, i, c, lo, hi) == Weighted(L, d, c, i, lo, hi)
  {
    hide Prod;
    var f, g := Times(Row(L, i), Times(d, Row(L, c))), Times(Row(L, c), Times(d, Row(L, i)));
    forall p | lo <= p < hi ensures f(p) == g(p) {
      TermSymmetric(L(i, p), d(p), L(c, p));
    }
    SumEq(lo, hi, f, g);
  }

  lemma UpdatedSymmetric(L: Mat, d: Vec, v: Vec, sigma: real)
    ensures Symmetric(Updated(L, d, v, sigma))
  {
    hide Weighted, Term;
    forall i, c ensures Updated(L, d, v, sigma)(i, c) == Updated(L, d, v, sigma)(c, i) {
      WeightedSymmetric(L, d, i, c, 0, Min(i, c) + 1);
      TermSymmetric(v(i), sigma, v(c));
    }
  }

  // --------------------------------------------------------------------------------- the conservation law

  /** (N, e) are the rewritten columns, (L, d) the original ones, rho and T the pending rank-one term. */
  ghost predicate Conserved(A: Mat, L: Mat, d: Vec, N: Mat, e: Vec, rho: real, T: Vec, j: nat, n: nat) {
    && (forall i, c :: j <= c <= i < n ==>
         A(i, c) == Weighted(N, e, i, c, 0, j) + Weighted(L, d, i, c, j, c + 1) + Term(T(i), rho, T(c)))
    && (forall i, c :: 0 <= c < j && c <= i < n ==> A(i, c) == Weighted(N, e, i, c, 0, c + 1))
  }

  /** One step that conserves every product of two rows: `col` and `weight` replace column j, and the entry of
      the working vector that the step consumes is cleared. */
  ghost predicate Step(L: Mat, d: Vec, rho: real, T: Vec, j: nat, n: nat, col: Vec, weight: real, rho': real, T': Vec) {
    && T'(j) == 0.0
    && forall i, c :: j <= c <= i < n ==>
         Term(L(i, j), d(j), L(c, j)) + Term(T(i), rho, T(c)) == Term(col(i), weight, col(c)) + Term(T'(i), rho', T'(c))
  }

  ghost function SetColumn(N: Mat, j: int, col: Vec): Mat {
    (i, p) => if p == j then col(i) else N(i, p)
  }

  lemma WeightedLast(L: Mat, d: Vec, i: int, c: int, lo: int, hi: int)
    requires lo <= hi
    ensures Weighted(L, d, i, c, lo, hi + 1) == Weighted(L, d, i, c, lo, hi) + Term(L(i, hi), d(hi), L(c, hi))
  {
    hide Prod;
    DotLast(Row(L, i), Times(d, Row(L, c)), lo, hi);
  }

  lemma WeightedFirst(L: Mat, d: Vec, i: int, c: int, lo: int, hi: int)
    requires lo < hi
    ensures Weighted(L, d, i, c, lo, hi) == Term(L(i, lo), d(lo), L(c, lo)) + Weighted(L, d, i, c, lo + 1, hi)
  {
    hide Prod;
    SumFirst(lo, hi, Times(Row(L, i), Times(d, Row(L, c))));
  }

  lemma WeightedNone(L: Mat, d: Vec, i: int, c: int, lo: int)
    ensures Weighted(L, d, i, c, lo, lo) == 0.0
  {
    DotNone(Row(L, i), Times(d, Row(L, c)), lo);
  }

  lemma WeightedEq(L: Mat, d: Vec, L': Mat, d': Vec, i: int, c: int, lo: int, hi: int)
    requires forall p :: lo <= p < hi ==> L(i, p) == L'(i, p) && L(c, p) == L'(c, p) && d(p) == d'(p)
    ensures Weighted(L, d, i, c, lo, hi) == Weighted(L', d', i, c, lo, hi)
  {
    hide Prod;
    DotEq(Row(L, i), Times(d, Row(L, c)), Row(L', i), Times(d', Row(L', c)), lo, hi);
  }

  lemma ConservedStart(L: Mat, d: Vec, v: Vec, sigma: real, N: Mat, e: Vec, n: nat)
    ensures Conserved(Updated(L, d, v, sigma), L, d, N, e, sigma, v, 0, n)
  {
    hide Weighted, Term;
    forall i, c ensures Weighted(N, e, i, c, 0, 0) == 0.0 {
      WeightedNone(N, e, i, c, 0);
    }
  }

  /** A step that conserves the products of two rows carries the law one column further. */
  lemma ConservedStep(A: Mat, L: Mat, d: Vec, N: Mat, e: Vec, rho: real, T: Vec, j: nat, n: nat,
                      col: Vec, weight: real, rho': real, T': Vec)
    requires j < n && Conserved(A, L, d, N, e, rho, T, j, n) && Step(L, d, rho, T, j, n, col, weight, rho', T')
    ensures Conserved(A, L, d, SetColumn(N, j, col), With(e, j, weight), rho', T', j + 1, n)
  {
    hide Weighted, SetColumn, With, Term;
    var N', e' := SetColumn(N, j, col), With(e, j, weight);
    forall i, c | j <= c <= i < n
      ensures A(i, c) == Weighted(N', e', i, c, 0, j + 1) + Weighted(L, d, i, c, j + 1, c + 1) + Term(T'(i), rho', T'(c))
    {
      NewColumn(N, e, j, col, weight, i, c);
      WeightedFirst(L, d, i, c, j, c + 1);
    }
    forall i | j <= i < n ensures A(i, j) == Weighted(N', e', i, j, 0, j + 1) {
      WeightedNone(L, d, i, j, j + 1);
      TermZero(T'(i), rho', T'(j));
    }
    forall i, c | 0 <= c < j && c <= i < n ensures A(i, c) == Weighted(N', e', i, c, 0, c + 1) {
      OldColumns(N, e, j, col, weight, i, c, c + 1);
    }
  }

  lemma TermZero(a: real, d: real, b: real)
    requires b == 0.0
    ensures Term(a, d, b) == 0.0
  {
  }

  lemma OldColumns(N: Mat, e: Vec, j: nat, col: Vec, weight: real, i: int, c: int, hi: int)
    requires hi <= j
    ensures Weighted(SetColumn(N, j, col), With(e, j, weight), i, c, 0, hi) == Weighted(N, e, i, c, 0, hi)
  {
    WeightedEq(N, e, SetColumn(N, j, col), With(e, j, weight), i, c, 0, hi);
  }

  lemma NewColumn(N: Mat, e: Vec, j: nat, col: Vec, weight: real, i: int, c: int)
    ensures Weighted(SetColumn(N, j, col), With(e, j, weight), i, c, 0, j + 1)
         == Weighted(N, e, i, c, 0, j) + Term(col(i), weight, col(c))
  {
    hide Weighted, Term;
    OldColumns(N, e, j, col, weight, i, c, j);
    WeightedLast(SetColumn(N, j, col), With(e, j, weight), i, c, 0, j);
  }

  // ------------------------------------------------------------------- pivots of a matrix given by a factor

  /** The first j columns of (N, e) factor A: on rows c..n, column c < j of A is the product over columns 0..c. */
  ghost predicate Factors(A: Mat, N: Mat, e: Vec, j: nat, n: nat) {
    && (forall i, c :: 0 <= c < j && c <= i < n ==> A(i, c) == Weighted(N, e, i, c, 0, c + 1))
    && (forall c :: 0 <= c < j ==> N(c, c) != 0.0 && e(c) != 0.0)
  }

  lemma {:induction false} SchurOfFactor(A: Mat, N: Mat, e: Vec, j: nat, n: nat, i: int, c: int)
    requires Symmetric(A) && Factors(A, N, e, j, n) && j <= i < n && j <= c < n
    ensures Schur(A, j, i, c) == A(i, c) - Weighted(N, e, i, c, 0, j)
    decreases j, 0
  {
    hide Weighted, Quot, Schur, Term;
    if j == 0 {
      WeightedNone(N, e, i, c, 0);
      SchurZero(A, i, c);
    } else {
      var k := j - 1;
      FactorColumn(A, N, e, k, n, i);
      FactorColumn(A, N, e, k, n, c);
      FactorColumn(A, N, e, k, n, k);
      SchurOfFactor(A, N, e, k, n, i, c);
      WeightedLast(N, e, i, c, 0, k);
      EliminateProduct(A, k, i, c, N(i, k), e(k), N(k, k), N(c, k));
    }
  }

  lemma EliminateProduct(A: Mat, k: nat, i: int, c: int, a: real, e: real, d: real, b: real)
    requires e != 0.0 && d != 0.0
    requires Schur(A, k, i, k) == Term(a, e, d) && Schur(A, k, c, k) == Term(b, e, d) && Pivot(A, k) == Term(d, e, d)
    ensures Schur(A, k + 1, i, c) == Schur(A, k, i, c) - Term(a, e, b)
  {
    hide Quot, Prod, Term;
    ColumnProduct(a, e, d, b);
  }

  /** Column k of the k-th complement. */
  lemma FactorColumn(A: Mat, N: Mat, e: Vec, k: nat, n: nat, i: int)
    requires Symmetric(A) && Factors(A, N, e, k + 1, n) && k <= i < n
    ensures Schur(A, k, i, k) == Term(N(i, k), e(k), N(k, k))
    decreases k, 1
  {
    hide Weighted, Schur, Term;
    SchurOfFactor(A, N, e, k, n, i, k);
    WeightedLast(N, e, i, k, 0, k);
  }

  lemma ColumnProduct(a: real, e: real, d: real, b: real)
    requires e != 0.0 && d != 0.0
    ensures Quot(Prod(Term(a, e, d), Term(b, e, d)), Term(d, e, d)) == Term(a, e, b)
  {
    var s, t, p := Term(a, e, d), Term(b, e, d), Term(d, e, d);
    NonZeroProduct(e, d);
    NonZeroProduct(d, e * d);
    calc {
      s * t;
      (a * (e * d)) * (b * (e * d));
      (a * (e * b)) * (d * (e * d));
      (a * (e * b)) * p;
    }
    DivideBoth(a * (e * b), p, s * t);
  }

  lemma NonZeroProduct(a: real, b: real)
    requires a != 0.0 && b != 0.0
    ensures a * b != 0.0
  {
  }

  /** The pivot the conservation law predicts for the updated matrix. */
  lemma ConservedPivot(A: Mat, L: Mat, d: Vec, N: Mat, e: Vec, rho: real, T: Vec, j: nat, n: nat)
    requires j < n && Symmetric(A) && Conserved(A, L, d, N, e, rho, T, j, n)
    requires forall c :: 0 <= c < j ==> N(c, c) != 0.0 && e(c) != 0.0
    ensures Pivot(A, j) == Term(L(j, j), d(j), L(j, j)) + Term(T(j), rho, T(j))
  {
    hide Weighted, Schur, Term;
    SchurOfFactor(A, N, e, j, n, j, j);
    WeightedLast(L, d, j, j, j, j);
    WeightedNone(L, d, j, j, j);
  }

  // ------------------------------------------------------------------------------ the scalar step identities

  lemma Cross(r: real, y: real, g: real, r': real, x: real, d: real)
    requires x != 0.0 && x == d + r * (y * y) && g * x == r * y && r' * x == r * d
    ensures (r * y) * g + r' == r
  {
    calc {
      ((r * y) * g + r') * x;
      (r * y) * (g * x) + r' * x;
      (r * y) * (r * y) + r * d;
      r * (r * (y * y) + d);
      r * x;
    }
    Cancel((r * y) * g + r', r, x);
  }

  /** The heart of the LLT downdate and the LDLT update: u, u' are entries of the unit column, v + y u and
      v' + y u' the working vector before the step and v, v' after it. */
  lemma Transfer(d: real, x: real, r: real, r': real, g: real, y: real, u: real, u': real, v: real, v': real)
    requires x != 0.0 && x == d + r * (y * y) && g * x == r * y && r' * x == r * d
    ensures (u * d) * u' + r * ((v + y * u) * (v' + y * u'))
         == ((u + g * v) * x) * (u' + g * v') + r' * (v * v')
  {
    Cross(r, y, g, r', x, d);
    var p, q, s := u * u', u * v' + u' * v, v * v';
    assert (u * d) * u' == d * p;
    assert (v + y * u) * (v' + y * u') == s + y * q + (y * y) * p;
    assert r * (s + y * q + (y * y) * p) == r * s + (r * y) * q + (r * (y * y)) * p;
    assert (u + g * v) * (u' + g * v') == p + g * q + (g * g) * s;
    calc {
      ((u + g * v) * x) * (u' + g * v');
      x * ((u + g * v) * (u' + g * v'));
      x * (p + g * q + (g * g) * s);
      x * p + (g * x) * q + ((g * x) * g) * s;
      x * p + (r * y) * q + ((r * y) * g) * s;
    }
    assert ((r * y) * g) * s + r' * s == r * s;
  }

  /** The ratios of one step: beta is the divisor before the step, beta' after it, gamma = beta x = beta' d. */
  lemma StepRatios(d: real, beta: real, sigma: real, y: real, x: real, gamma: real, beta': real, rho: real, g: real, rho': real)
    requires d != 0.0 && beta != 0.0 && gamma != 0.0 && beta * x == gamma && beta' * d == gamma
    requires rho * beta == sigma && g * gamma == sigma * y && rho' * beta' == sigma
    ensures g * x == rho * y && rho' * x == rho * d
  {
    calc {
      (g * x) * beta;
      g * (beta * x);
      sigma * y;
      (rho * y) * beta;
    }
    Cancel(g * x, rho * y, beta);
    calc {
      (rho' * x) * beta;
      rho' * (beta * x);
      rho' * (beta' * d);
      (rho' * beta') * d;
      (rho * d) * beta;
    }
    Cancel(rho' * x, rho * d, beta);
  }

  /** beta' and gamma from the assignments of the code, where s is sigma times a square. */
  lemma StepScalars(d: real, beta: real, s: real)
    requires d != 0.0 && beta != 0.0
    ensures beta * (d + s / beta) == d * beta + s
    ensures (beta + s / d) * d == d * beta + s
  {
    assert (s / beta) * beta == s;
    assert (s / d) * d == s;
  }

  lemma StepPositive(d: real, beta: real, s: real)
    requires d > 0.0 && beta > 0.0 && d + s / beta > 0.0
    ensures d * beta + s > 0.0 && beta + s / d > 0.0
    ensures beta * (d + s / beta) == d * beta + s && (beta + s / d) * d == d * beta + s
  {
    StepScalars(d, beta, s);
    ProdSign(beta, d + s / beta);
    ProdSign(-(beta + s / d), d);
    ProdSign(beta + s / d, d);
  }

  // --------------------------------------------------------------------------- the loops over a column's tail

  ghost function Minus(T: Vec, f: real, l: Vec): Vec {
    i => T(i) - Prod(f, l(i))
  }

  ghost function Combine(a: real, l: Vec, b: real, T: Vec): Vec {
    i => Prod(a, l(i)) + Prod(b, T(i))
  }

  /** temp.tail(rs) -= f * mat.col(j).tail(rs) */
  method SubtractColumn(temp: array<real>, mat: array2<real>, j: nat, f: real, ghost T: Vec, ghost l: Vec)
    requires j < temp.Length == mat.Length0 && j < mat.Length1
    requires forall i :: j < i < temp.Length ==> mat[i, j] == l(i) && temp[i] == T(i)
    modifies temp
    ensures forall i :: j < i < temp.Length ==> temp[i] == Minus(T, f, l)(i)
    ensures forall i :: 0 <= i <= j ==> temp[i] == old(temp[i])
  {
    hide Prod;
    for i := j + 1 to temp.Length
      invariant forall r :: j < r < i ==> temp[r] == Minus(T, f, l)(r)
      invariant forall r :: i <= r < temp.Length ==> temp[r] == T(r)
      invariant forall r :: 0 <= r <= j ==> temp[r] == old(temp[r])
    {
      temp[i] := temp[i] - Prod(f, mat[i, j]);
    }
  }

  /** mat.col(j).tail(rs) = a * mat.col(j).tail(rs) + b * temp.tail(rs) */
  method CombineColumn(mat: array2<real>, temp: array<real>, j: nat, a: real, b: real, ghost T: Vec, ghost l: Vec)
    requires j < temp.Length == mat.Length0 && j < mat.Length1
    requires forall i :: j < i < temp.Length ==> mat[i, j] == l(i) && temp[i] == T(i)
    modifies mat
    ensures forall i :: j < i < temp.Length ==> mat[i, j] == Combine(a, l, b, T)(i)
    ensures forall i, p :: 0 <= i < mat.Length0 && 0 <= p < mat.Length1 && !(p == j < i) ==> mat[i, p] == old(mat[i, p])
  {
    hide Prod;
    for i := j + 1 to temp.Length
      invariant forall r :: j < r < i ==> mat[r, j] == Combine(a, l, b, T)(r)
      invariant forall r :: i <= r < temp.Length ==> mat[r, j] == l(r)
      invariant forall r, p :: 0 <= r < mat.Length0 && 0 <= p < mat.Length1 && !(p == j < r < i) ==> mat[r, p] == old(mat[r, p])
    {
      mat[i, j] := Prod(a, mat[i, j]) + Prod(b, temp[i]);
    }
  }

  /** The two vector statements that close an iteration. */
  method TailUpdate(mat: array2<real>, temp: array<real>, j: nat, f: real, a: real, b: real, combine: bool,
                    ghost T: Vec, ghost l: Vec)
    requires j < mat.Length0 == mat.Length1 == temp.Length
    requires forall i :: j < i < temp.Length ==> mat[i, j] == l(i) && temp[i] == T(i)
    modifies mat, temp
    ensures forall i :: j < i < temp.Length ==> temp[i] == Minus(T, f, l)(i)
    ensures combine ==> forall i :: j < i < temp.Length ==> mat[i, j] == Combine(a, l, b, Minus(T, f, l))(i)
    ensures forall i, p :: 0 <= i < mat.Length0 && 0 <= p < mat.Length1 && !(combine && p == j < i) ==> mat[i, p] == old(mat[i, p])
  {
    hide Minus, Combine;
    var rs := mat.Length0 - j - 1;
    if rs != 0 {
      SubtractColumn(temp, mat, j, f, T, l);
      if combine {
        CombineColumn(mat, temp, j, a, b, Minus(T, f, l), l);
      }
    }
  }

  /** The state of the matrix before step j: the first j columns rewritten, the others original. */
  ghost predicate Rewritten(mat: array2<real>, L: Mat, N: Mat, j: nat)
    requires mat.Length0 == mat.Length1
    reads mat
  {
    forall i, p :: 0 <= p <= i < mat.Length0 ==> mat[i, p] == if p < j then N(i, p) else L(i, p)
  }

  ghost predicate AllOnes(e: Vec) {
    forall p :: e(p) == 1.0
  }

  lemma OnesStay(e: Vec, j: int)
    requires AllOnes(e)
    ensures AllOnes(With(e, j, 1.0))
  {
  }

  /** What the conservation law says of the columns already rewritten, with all weights 1. */
  lemma ConservedFactors(A: Mat, L: Mat, d: Vec, N: Mat, e: Vec, rho: real, T: Vec, j: nat, n: nat)
    requires Conserved(A, L, d, N, e, rho, T, j, n) && AllOnes(e)
    requires forall c :: 0 <= c < j ==> N(c, c) > 0.0
    ensures Factors(A, N, ONES, j, n)
  {
    hide Weighted, Term;
    forall i, c | 0 <= c < j && c <= i < n ensures A(i, c) == Weighted(N, ONES, i, c, 0, c + 1) {
      WeightedEq(N, e, N, ONES, i, c, 0, c + 1);
    }
  }

  /** A matrix with a factor of positive diagonal has positive pivots. */
  lemma FactorPivots(A: Mat, N: Mat, j: nat, n: nat, k: nat)
    requires Symmetric(A) && Factors(A, N, ONES, j, n) && k < j <= n
    ensures Pivot(A, k) > 0.0
  {
    hide Schur, Weighted;
    FactorColumn(A, N, ONES, k, n, k);
    SqSign(N(k, k));
  }

  lemma FactorOutcome(A: Mat, N: Mat, j: nat, n: nat)
    requires Symmetric(A) && Factors(A, N, ONES, j, n) && j <= n
    requires j < n ==> Pivot(A, j) <= 0.0
    ensures Outcome(A, n, if j == n then -1 else j)
  {
    hide Schur, Weighted, Factors, Outcome, Pivot;
    forall k: nat | k < j ensures Pivot(A, k) > 0.0 {
      FactorPivots(A, N, j, n, k);
    }
    PivotsDecide(A, n, if j == n then -1 else j);
  }

  // ---------------------------------------------------------------------------------------- the LLT downdate

  /** The scalars of one downdate step, in multiplied-out form: r is the diagonal entry, y the consumed entry of
      the working vector, n the new diagonal entry, and f, a, b the factors of the two vector statements. */
  ghost predicate Coefficients(r: real, y: real, rho: real, x: real, rho': real, g: real, n: real, f: real, a: real, b: real) {
    && r > 0.0 && n > 0.0 && x > 0.0 && Sq(n) == x && x == Sq(r) + rho * Sq(y)
    && f * r == y && a * r == n && b == n * g && g * x == rho * y && rho' * x == rho * Sq(r)
  }

  /** One iteration of the downdate conserves every product of two rows: l, l' are the old entries of the
      column, w, w' those of the working vector. */
  lemma DowndateStep(r: real, y: real, rho: real, x: real, rho': real, g: real, n: real, f: real, a: real, b: real,
                     l: real, l': real, w: real, w': real)
    requires Coefficients(r, y, rho, x, rho', g, n, f, a, b)
    ensures var v, v' := w - Prod(f, l), w' - Prod(f, l');
            var m, m' := Prod(a, l) + Prod(b, v), Prod(a, l') + Prod(b, v');
            Term(l, 1.0, l') + Term(w, rho, w') == Term(m, 1.0, m') + Term(v, rho', v')
  {
    var u, u' := l / r, l' / r;
    var v, v' := w - Prod(f, l), w' - Prod(f, l');
    UnitEntry(f, r, y, l, u);
    UnitEntry(f, r, y, l', u');
    ScaledEntry(n, a, r, l, u, b, g, v);
    ScaledEntry(n, a, r, l', u', b, g, v');
    UnSquare(l, l', u, u', r);
    DowndateCore(Sq(r), x, rho, rho', g, y, u, u', v, v', w, w', n, Prod(a, l) + Prod(b, v), Prod(a, l') + Prod(b, v'), l, l');
  }

  lemma DowndateCore(d: real, x: real, r: real, r': real, g: real, y: real, u: real, u': real, v: real, v': real,
                     w: real, w': real, n: real, m: real, m': real, l: real, l': real)
    requires x != 0.0 && x == d + r * Sq(y) && g * x == r * y && r' * x == r * d
    requires w == v + y * u && w' == v' + y * u'
    requires Sq(n) == x && m == n * (u + g * v) && m' == n * (u' + g * v')
    requires (u * d) * u' == l * l'
    ensures Term(l, 1.0, l') + Term(w, r, w') == Term(m, 1.0, m') + Term(v, r', v')
  {
    SqTimes(r, y);
    DowndateRaw(d, x, r, r', g, y, u, u', v, v', w, w', n, m, m', l, l');
    TermIs(l, 1.0, l');
    TermIs(w, r, w');
    TermIs(m, 1.0, m');
    TermIs(v, r', v');
  }

  lemma SqTimes(r: real, y: real)
    ensures r * Sq(y) == r * (y * y)
  {
  }

  lemma DowndateRaw(d: real, x: real, r: real, r': real, g: real, y: real, u: real, u': real, v: real, v': real,
                    w: real, w': real, n: real, m: real, m': real, l: real, l': real)
    requires x != 0.0 && x == d + r * (y * y) && g * x == r * y && r' * x == r * d
    requires w == v + y * u && w' == v' + y * u'
    requires Sq(n) == x && m == n * (u + g * v) && m' == n * (u' + g * v')
    requires (u * d) * u' == l * l'
    ensures l * l' + r * (w * w') == m * m' + r' * (v * v')
  {
    var c, c' := u + g * v, u' + g * v';
    calc {
      l * l' + r * (w * w');
      (u * d) * u' + r * (w * w');
      { assert w * w' == (v + y * u) * (v' + y * u'); }
      (u * d) * u' + r * ((v + y * u) * (v' + y * u'));
      { Transfer(d, x, r, r', g, y, u, u', v, v'); }
      (c * x) * c' + r' * (v * v');
      { SquareOut(n, c, c', x); }
      (n * c) * (n * c') + r' * (v * v');
      m * m' + r' * (v * v');
    }
  }

  lemma TermIs(a: real, d: real, b: real)
    ensures Term(a, d, b) == d * (a * b)
  {
  }

  lemma UnSquare(l: real, l': real, u: real, u': real, r: real)
    requires u * r == l && u' * r == l'
    ensures (u * Sq(r)) * u' == l * l'
  {
    calc {
      (u * Sq(r)) * u';
      (u * (r * r)) * u';
      (u * r) * (u' * r);
    }
  }

  lemma UnitEntry(f: real, r: real, y: real, l: real, u: real)
    requires f * r == y && u * r == l
    ensures Prod(f, l) == y * u
  {
    assert f * (u * r) == (f * r) * u;
  }

  lemma ScaledEntry(n: real, a: real, r: real, l: real, u: real, b: real, g: real, v: real)
    requires a * r == n && u * r == l && b == n * g
    ensures Prod(a, l) + Prod(b, v) == n * (u + g * v)
  {
    assert a * (u * r) == (a * r) * u;
    assert (n * g) * v == n * (g * v);
  }

  lemma SquareOut(n: real, a: real, b: real, x: real)
    requires Sq(n) == x
    ensures (n * a) * (n * b) == (a * x) * b
  {
    assert (n * a) * (n * b) == (a * (n * n)) * b;
  }

  lemma DowndateLaw(L: Mat, T: Vec, j: nat, n: nat, rho: real, x: real, rho': real, g: real, nLjj: real, f: real, a: real, b: real)
    requires Coefficients(L(j, j), T(j), rho, x, rho', g, nLjj, f, a, b)
    ensures var T' := Minus(T, f, Col(L, j));
            var col := Combine(a, Col(L, j), b, T');
            col(j) == nLjj && Step(L, ONES, rho, T, j, n, col, 1.0, rho', T')
  {
    hide Coefficients, Prod, Term;
    var T' := Minus(T, f, Col(L, j));
    var col := Combine(a, Col(L, j), b, T');
    DowndateDiagonal(L(j, j), T(j), rho, x, rho', g, nLjj, f, a, b);
    forall i, c | j <= c <= i < n
      ensures Term(L(i, j), ONES(j), L(c, j)) + Term(T(i), rho, T(c)) == Term(col(i), 1.0, col(c)) + Term(T'(i), rho', T'(c))
    {
      DowndateStep(L(j, j), T(j), rho, x, rho', g, nLjj, f, a, b, L(i, j), L(c, j), T(i), T(c));
    }
  }

  lemma DowndateDiagonal(r: real, y: real, rho: real, x: real, rho': real, g: real, n: real, f: real, a: real, b: real)
    requires Coefficients(r, y, rho, x, rho', g, n, f, a, b)
    ensures y - Prod(f, r) == 0.0 && Prod(a, r) + Prod(b, y - Prod(f, r)) == n
  {
  }

  /** The scalar statements of one iteration. */
  method DowndateScalars(Ljj: real, wj: real, sigma: real, beta: real, sqrt: real -> real, ghost rho: real)
      returns (x: real, gamma: real, beta': real, nLjj: real, f: real, a: real, b: real, ghost rho': real, ghost g: real)
    requires IsSqrt(sqrt) && beta > 0.0 && Ljj > 0.0 && rho * beta == sigma
    ensures x == Term(Ljj, 1.0, Ljj) + Term(wj, rho, wj)
    ensures x > 0.0 ==> gamma > 0.0 && beta' > 0.0 && rho' * beta' == sigma
    ensures x > 0.0 ==> Coefficients(Ljj, wj, rho, x, rho', g, nLjj, f, a, b)
  {
    var dj := Sq(Ljj);
    var swj2 := sigma * Sq(wj);
    gamma := dj * beta + swj2;
    x := dj + swj2 / beta;
    beta', nLjj, f, a, b, g, rho' := beta, Ljj, 0.0, 0.0, 0.0, 0.0, rho;
    PivotIs(Ljj, sigma, wj, beta, rho);
    if x > 0.0 {
      hide Prod, Sq, Term;
      nLjj := sqrt(x);
      SqSign(Ljj);
      StepPositive(dj, beta, swj2);
      beta' := beta + swj2 / dj;
      f, a, b := wj / Ljj, nLjj / Ljj, nLjj * sigma * wj / gamma;
      g, rho' := sigma * wj / gamma, sigma / beta';
      StepRatios(dj, beta, sigma, wj, x, gamma, beta', rho, g, rho');
      ThreeOver(nLjj, sigma * wj, gamma);
    }
  }

  lemma ThreeOver(n: real, s: real, d: real)
    requires d != 0.0
    ensures n * s / d == n * (s / d)
  {
  }

  lemma PivotIs(l: real, sigma: real, w: real, beta: real, rho: real)
    requires beta != 0.0 && rho * beta == sigma
    ensures Sq(l) + sigma * Sq(w) / beta == Term(l, 1.0, l) + Term(w, rho, w)
    ensures Sq(l) + sigma * Sq(w) / beta == Sq(l) + rho * Sq(w)
  {
    var s := Sq(w);
    assert sigma * s == (rho * s) * beta;
    assert ((rho * s) * beta) / beta == rho * s;
    TermIs(w, rho, w);
  }

  /** One iteration of the `sigma <= 0` branch. A pivot that is not positive stops it before any write. */
  method DowndateColumn(mat: array2<real>, temp: array<real>, j: nat, sigma: real, beta: real, sqrt: real -> real,
                        ghost L: Mat, ghost T: Vec, ghost rho: real)
      returns (x: real, beta': real, ghost rho': real, ghost col: Vec, ghost T': Vec)
    requires j < mat.Length0 == mat.Length1 == temp.Length && IsSqrt(sqrt) && beta > 0.0 && L(j, j) > 0.0 && rho * beta == sigma
    requires forall i :: j <= i < temp.Length ==> mat[i, j] == L(i, j) && temp[i] == T(i)
    modifies mat, temp
    ensures x == Term(L(j, j), 1.0, L(j, j)) + Term(T(j), rho, T(j))
    ensures x <= 0.0 ==> forall i, p :: 0 <= i < mat.Length0 && 0 <= p < mat.Length1 ==> mat[i, p] == old(mat[i, p])
    ensures x > 0.0 ==> beta' > 0.0 && col(j) > 0.0 && rho' * beta' == sigma
    ensures x > 0.0 ==> Step(L, ONES, rho, T, j, mat.Length0, col, 1.0, rho', T')
    ensures x > 0.0 ==> forall i :: j <= i < mat.Length0 ==> mat[i, j] == col(i)
    ensures x > 0.0 ==> forall i :: j < i < mat.Length0 ==> temp[i] == T'(i)
    ensures forall i, p :: 0 <= i < mat.Length0 && 0 <= p < mat.Length1 && !(p == j <= i) ==> mat[i, p] == old(mat[i, p])
  {
    hide Step, Minus, Combine, Term;
    var gamma, nLjj, f, a, b;
    ghost var g;
    x, gamma, beta', nLjj, f, a, b, rho', g := DowndateScalars(mat[j, j], temp[j], sigma, beta, sqrt, rho);
    col, T' := T, T;
    if x > 0.0 {
      mat[j, j] := nLjj;
      DowndateLaw(L, T, j, mat.Length0, rho, x, rho', g, nLjj, f, a, b);
      assert nLjj > 0.0;
      T' := Minus(T, f, Col(L, j));
      col := Combine(a, Col(L, j), b, T');
      TailUpdate(mat, temp, j, f, a, b, gamma != 0.0, T, Col(L, j));
    }
  }

  /** The `sigma <= 0` branch of `llt_rank_update_lower`. */
  method Downdate(mat: array2<real>, temp: array<real>, sigma: real, sqrt: real -> real, ghost L: Mat, ghost v: Vec)
      returns (ret: int, ghost N: Mat)
    requires mat.Length0 == mat.Length1 == temp.Length && IsSqrt(sqrt) && sigma <= 0.0
    requires Rewritten(mat, L, L, 0) && forall p :: 0 <= p < temp.Length ==> L(p, p) > 0.0 && temp[p] == v(p)
    modifies mat, temp
    ensures -1 <= ret < mat.Length0
    ensures UpdateDone(mat, Updated(L, ONES, v, sigma), L, N, ret)
    ensures forall i, p :: 0 <= i < p < mat.Length0 ==> mat[i, p] == old(mat[i, p])
  {
    hide Weighted, Updated, Outcome, Conserved, Factors, Step, With, Term;
    var n, beta := mat.Length0, 1.0;
    ghost var A := Updated(L, ONES, v, sigma);
    ghost var e, T, rho := ONES, v, sigma;
    N := L;
    UpdatedSymmetric(L, ONES, v, sigma);
    ConservedStart(L, ONES, v, sigma, N, e, n);
    for j := 0 to n
      invariant beta > 0.0 && AllOnes(e) && rho * beta == sigma
      invariant Conserved(A, L, ONES, N, e, rho, T, j, n)
      invariant Rewritten(mat, L, N, j)
      invariant forall i :: j <= i < n ==> temp[i] == T(i)
      invariant forall c :: 0 <= c < j ==> N(c, c) > 0.0
      invariant forall i, p :: 0 <= i < p < n ==> mat[i, p] == old(mat[i, p])
    {
      ConservedPivot(A, L, ONES, N, e, rho, T, j, n);
      var x, beta';
      ghost var col, T', rho';
      x, beta', rho', col, T' := DowndateColumn(mat, temp, j, sigma, beta, sqrt, L, T, rho);
      if x <= 0.0 {
        ConservedFactors(A, L, ONES, N, e, rho, T, j, n);
        FactorOutcome(A, N, j, n);
        return j, N;
      }
      ConservedStep(A, L, ONES, N, e, rho, T, j, n, col, 1.0, rho', T');
      OnesStay(e, j);
      N, e, T, rho, beta := SetColumn(N, j, col), With(e, j, 1.0), T', rho', beta';
    }
    ConservedFactors(A, L, ONES, N, e, rho, T, n, n);
    FactorOutcome(A, N, n, n);
    ret := -1;
  }

  /** What a rank-one update of a Cholesky factor L promises: the outcome is that of a factorization of the
      updated matrix A, and the columns before a failure are those of a factor of A with positive diagonal. */
  ghost predicate UpdateDone(mat: array2<real>, A: Mat, L: Mat, N: Mat, ret: int)
    requires mat.Length0 == mat.Length1 && -1 <= ret < mat.Length0
    reads mat
  {
    var done := if ret == -1 then mat.Length0 else ret;
    && Outcome(A, mat.Length0, ret)
    && Rewritten(mat, L, N, done)
    && Factors(A, N, ONES, done, mat.Length0)
    && forall c :: 0 <= c < done ==> N(c, c) > 0.0
  }

  // ------------------------------------------------------------------------------- Givens rotations

  /** `JacobiRotation::makeGivens` for real scalars: the rotation that takes (p, q) to (r, 0). */
  method MakeGivens(p: real, q: real, sqrt: real -> real) returns (c: real, s: real, r: real)
    requires IsSqrt(sqrt)
    ensures c * c + s * s == 1.0
    ensures c * p - s * q == r && s * p + c * q == 0.0
    ensures p != 0.0 || q != 0.0 ==> r > 0.0
  {
    if q == 0.0 {
      c := if p < 0.0 then -1.0 else 1.0;
      s := 0.0;
      r := Abs(p);
    } else if p == 0.0 {
      c := 0.0;
      s := if q < 0.0 then 1.0 else -1.0;
      r := Abs(q);
    } else if Abs(p) > Abs(q) {
      var t := q / p;
      var u := Hypotenuse(t, sqrt, p);
      c := 1.0 / u;
      s := -t * c;
      r := p * u;
      GivensThird(p, q, t, u, c, s, r);
    } else {
      var t := p / q;
      var u := Hypotenuse(t, sqrt, q);
      s := -1.0 / u;
      c := -t * s;
      r := q * u;
      GivensFourth(p, q, t, u, c, s, r);
    }
  }

  /** sqrt(1 + t^2) with the sign of p */
  method Hypotenuse(t: real, sqrt: real -> real, p: real) returns (u: real)
    requires IsSqrt(sqrt)
    ensures u * u == 1.0 + t * t
    ensures if p < 0.0 then u < 0.0 else u > 0.0
  {
    SqSign(t);
    u := sqrt(1.0 + Sq(t));
    if p < 0.0 {
      u := -u;
    }
  }

  lemma GivensThird(p: real, q: real, t: real, u: real, c: real, s: real, r: real)
    requires p != 0.0 && t == q / p && u * u == 1.0 + t * t && (if p < 0.0 then u < 0.0 else u > 0.0)
    requires c == 1.0 / u && s == -t * c && r == p * u
    ensures c * c + s * s == 1.0 && c * p - s * q == r && s * p + c * q == 0.0 && r > 0.0
  {
    RotationSquares(t, u, c);
    RotationProducts(p, q, t, u, c);
    var v := t * c;
    assert s == -v && s * s == v * v && s * q == -(v * q) && s * p == -(v * p);
  }

  lemma GivensFourth(p: real, q: real, t: real, u: real, c: real, s: real, r: real)
    requires q != 0.0 && t == p / q && u * u == 1.0 + t * t && (if q < 0.0 then u < 0.0 else u > 0.0)
    requires s == -1.0 / u && c == -t * s && r == q * u
    ensures c * c + s * s == 1.0 && c * p - s * q == r && s * p + c * q == 0.0 && r > 0.0
  {
    var d := 1.0 / u;
    assert s == -d;
    RotationSquares(t, u, d);
    RotationProducts(q, p, t, u, d);
    var v := t * d;
    assert c == v && c * c == v * v && s * s == d * d && s * q == -(d * q) && s * p == -(d * p) && c * p == v * p && c * q == v * q;
  }

  lemma RotationSquares(t: real, u: real, c: real)
    requires u * u == 1.0 + t * t && u != 0.0 && c == 1.0 / u
    ensures c * c + (t * c) * (t * c) == 1.0
  {
    assert c * u == 1.0;
    calc {
      c * c + (t * c) * (t * c);
      (c * c) * (1.0 + t * t);
      (c * c) * (u * u);
      (c * u) * (c * u);
      1.0;
    }
  }

  lemma RotationProducts(p: real, q: real, t: real, u: real, c: real)
    requires p != 0.0 && t == q / p && u * u == 1.0 + t * t && c == 1.0 / u
    requires if p < 0.0 then u < 0.0 else u > 0.0
    ensures c * p + (t * c) * q == p * u && (t * c) * p == c * q
    ensures p * u > 0.0
  {
    assert t * p == q && c * u == 1.0;
    ProdSign(p, u);
    assert p * u == Prod(p, u);
    calc {
      c * p + (t * c) * q;
      c * p + (t * c) * (t * p);
      (c * p) * (1.0 + t * t);
      (c * p) * (u * u);
      (c * u) * (p * u);
      p * u;
    }
  }

  ghost function Rotated(c: real, l: Vec, s: real, T: Vec): Vec {
    i => Prod(c, l(i)) + Prod(s, T(i))
  }

  /** A rotation conserves the product of any two rows. */
  lemma RotationConserves(c: real, s: real, l: real, t: real, l': real, t': real)
    requires c * c + s * s == 1.0
    ensures Term(l, 1.0, l') + Term(t, 1.0, t')
         == Term(Prod(c, l) + Prod(s, t), 1.0, Prod(c, l') + Prod(s, t'))
          + Term(Prod(-s, l) + Prod(c, t), 1.0, Prod(-s, l') + Prod(c, t'))
  {
    calc {
      (c * l + s * t) * (c * l' + s * t') + (-s * l + c * t) * (-s * l' + c * t');
      (c * c + s * s) * (l * l' + t * t');
      l * l' + t * t';
    }
  }

  /** `apply_rotation_in_the_plane` on the tails of column j and of temp. */
  method ApplyRotation(mat: array2<real>, temp: array<real>, j: nat, c: real, s: real, ghost l: Vec, ghost T: Vec)
    requires j < mat.Length0 == mat.Length1 == temp.Length
    requires forall i :: j < i < temp.Length ==> mat[i, j] == l(i) && temp[i] == T(i)
    modifies mat, temp
    ensures forall i :: j < i < temp.Length ==> mat[i, j] == Rotated(c, l, s, T)(i) && temp[i] == Rotated(-s, l, c, T)(i)
    ensures forall i, p :: 0 <= i < mat.Length0 && 0 <= p < mat.Length1 && !(p == j < i) ==> mat[i, p] == old(mat[i, p])
  {
    if c == 1.0 && s == 0.0 {
      Identity(l, T);
      return;
    }
    hide Prod;
    for i := j + 1 to temp.Length
      invariant forall r :: j < r < i ==> mat[r, j] == Rotated(c, l, s, T)(r) && temp[r] == Rotated(-s, l, c, T)(r)
      invariant forall r :: i <= r < temp.Length ==> mat[r, j] == l(r) && temp[r] == T(r)
      invariant forall r, p :: 0 <= r < mat.Length0 && 0 <= p < mat.Length1 && !(p == j < r < i) ==> mat[r, p] == old(mat[r, p])
    {
      var xi, yi := mat[i, j], temp[i];
      mat[i, j] := Prod(c, xi) + Prod(s, yi);
      temp[i] := Prod(-s, xi) + Prod(c, yi);
    }
  }

  lemma Identity(l: Vec, T: Vec)
    ensures forall i :: Rotated(1.0, l, 0.0, T)(i) == l(i) && Rotated(-0.0, l, 1.0, T)(i) == T(i)
  {
  }

  lemma GivensLaw(L: Mat, T: Vec, j: nat, n: nat, c: real, s: real, r: real)
    requires c * c + s * s == 1.0 && Prod(c, L(j, j)) + Prod(s, T(j)) == r && Prod(-s, L(j, j)) + Prod(c, T(j)) == 0.0
    ensures Rotated(c, Col(L, j), s, T)(j) == r
    ensures Step(L, ONES, 1.0, T, j, n, Rotated(c, Col(L, j), s, T), 1.0, 1.0, Rotated(-s, Col(L, j), c, T))
  {
    hide Term, Prod;
    forall i, k | j <= k <= i < n
      ensures Term(L(i, j), ONES(j), L(k, j)) + Term(T(i), 1.0, T(k))
           == Term(Rotated(c, Col(L, j), s, T)(i), 1.0, Rotated(c, Col(L, j), s, T)(k))
            + Term(Rotated(-s, Col(L, j), c, T)(i), 1.0, Rotated(-s, Col(L, j), c, T)(k))
    {
      RotationConserves(c, s, L(i, j), T(i), L(k, j), T(k));
    }
  }

  lemma GivensSigns(c: real, s: real, l: real, t: real, r: real)
    requires c * l - s * -t == r && s * l + c * -t == 0.0
    ensures Prod(c, l) + Prod(s, t) == r && Prod(-s, l) + Prod(c, t) == 0.0
  {
  }

  method GivensColumn(mat: array2<real>, temp: array<real>, j: nat, sqrt: real -> real, ghost L: Mat, ghost T: Vec)
      returns (ghost col: Vec, ghost T': Vec)
    requires j < mat.Length0 == mat.Length1 == temp.Length && IsSqrt(sqrt) && L(j, j) > 0.0
    requires forall i :: j <= i < temp.Length ==> mat[i, j] == L(i, j) && temp[i] == T(i)
    modifies mat, temp
    ensures col(j) > 0.0 && Step(L, ONES, 1.0, T, j, mat.Length0, col, 1.0, 1.0, T')
    ensures forall i :: j <= i < mat.Length0 ==> mat[i, j] == col(i)
    ensures forall i :: j < i < mat.Length0 ==> temp[i] == T'(i)
    ensures forall i, p :: 0 <= i < mat.Length0 && 0 <= p < mat.Length1 && !(p == j <= i) ==> mat[i, p] == old(mat[i, p])
  {
    hide Step, Rotated;
    var c, s, r := MakeGivens(mat[j, j], -temp[j], sqrt);
    mat[j, j] := r;
    GivensSigns(c, s, L(j, j), T(j), r);
    GivensLaw(L, T, j, mat.Length0, c, s, r);
    col, T' := Rotated(c, Col(L, j), s, T), Rotated(-s, Col(L, j), c, T);
    var rs := mat.Length0 - j - 1;
    if rs > 0 {
      ApplyRotation(mat, temp, j, c, s, Col(L, j), T);
    }
  }

  lemma ScaledTerm(f: real, sigma: real, a: real, b: real)
    requires Sq(f) == sigma
    ensures Term(Prod(f, a), 1.0, Prod(f, b)) == Term(a, sigma, b)
  {
    TermIs(a, sigma, b);
    calc {
      (f * a) * (f * b);
      (f * f) * (a * b);
      sigma * (a * b);
    }
  }

  lemma GivensStart(L: Mat, v: Vec, f: real, sigma: real, N: Mat, e: Vec, n: nat)
    requires Sq(f) == sigma
    ensures Conserved(Updated(L, ONES, v, sigma), L, ONES, N, e, 1.0, Scaled(f, v), 0, n)
  {
    hide Weighted, Term, Prod;
    forall i, c ensures Term(Scaled(f, v)(i), 1.0, Scaled(f, v)(c)) == Term(v(i), sigma, v(c)) {
      ScaledTerm(f, sigma, v(i), v(c));
    }
    ConservedStart(L, ONES, v, sigma, N, e, n);
  }

  /** The `sigma > 0` branch of `llt_rank_update_lower`, which never fails. */
  method GivensUpdate(mat: array2<real>, temp: array<real>, sqrt: real -> real, ghost L: Mat, ghost v: Vec, ghost f: real, ghost sigma: real)
      returns (ghost N: Mat)
    requires mat.Length0 == mat.Length1 == temp.Length && IsSqrt(sqrt) && Sq(f) == sigma
    requires Rewritten(mat, L, L, 0) && forall p :: 0 <= p < temp.Length ==> L(p, p) > 0.0 && temp[p] == Prod(f, v(p))
    modifies mat, temp
    ensures UpdateDone(mat, Updated(L, ONES, v, sigma), L, N, -1)
    ensures forall i, p :: 0 <= i < p < mat.Length0 ==> mat[i, p] == old(mat[i, p])
  {
    hide Weighted, Updated, Outcome, Conserved, Factors, Step, With, Term;
    var n := mat.Length0;
    ghost var A := Updated(L, ONES, v, sigma);
    ghost var e, T := ONES, Scaled(f, v);
    N := L;
    UpdatedSymmetric(L, ONES, v, sigma);
    GivensStart(L, v, f, sigma, N, e, n);
    for j := 0 to n
      invariant AllOnes(e)
      invariant Conserved(A, L, ONES, N, e, 1.0, T, j, n)
      invariant Rewritten(mat, L, N, j)
      invariant forall i :: j <= i < n ==> temp[i] == T(i)
      invariant forall c :: 0 <= c < j ==> N(c, c) > 0.0
      invariant forall i, p :: 0 <= i < p < n ==> mat[i, p] == old(mat[i, p])
    {
      ghost var col, T' := GivensColumn(mat, temp, j, sqrt, L, T);
      ConservedStep(A, L, ONES, N, e, 1.0, T, j, n, col, 1.0, 1.0, T');
      OnesStay(e, j);
      N, e, T := SetColumn(N, j, col), With(e, j, 1.0), T';
    }
    ConservedFactors(A, L, ONES, N, e, 1.0, T, n, n);
    FactorOutcome(A, N, n, n);
  }

  /** `llt_rank_update_lower`. With L the Cholesky factor held in the lower triangle of `mat`, the update returns
      -1 exactly when L L' + sigma v v' is positive definite, and then `mat` holds its Cholesky factor; otherwise
      it returns the size of the largest positive definite leading block. A positive sigma never fails. */
  method RankUpdateLower(mat: array2<real>, vec: array<real>, sigma: real, sqrt: real -> real, ghost L: Mat, ghost v: Vec)
      returns (ret: int, ghost N: Mat)
    requires mat.Length0 == mat.Length1 == vec.Length && IsSqrt(sqrt)
    requires Rewritten(mat, L, L, 0) && forall p :: 0 <= p < vec.Length ==> L(p, p) > 0.0 && vec[p] == v(p)
    modifies mat
    ensures -1 <= ret < mat.Length0 && (sigma > 0.0 ==> ret == -1)
    ensures UpdateDone(mat, Updated(L, ONES, v, sigma), L, N, ret)
    ensures forall i, p :: 0 <= i < p < mat.Length0 ==> mat[i, p] == old(mat[i, p])
  {
    hide UpdateDone, Prod;
    var n := mat.Length0;
    var temp := new real[n];
    if sigma > 0.0 {
      var f := sqrt(sigma);
      for i := 0 to n
        modifies temp
        invariant forall p :: 0 <= p < i ==> temp[p] == Prod(f, v(p))
      {
        temp[i] := Prod(f, vec[i]);
      }
      N := GivensUpdate(mat, temp, sqrt, L, v, f, sigma);
      ret := -1;
    } else {
      for i := 0 to n
        modifies temp
        invariant forall p :: 0 <= p < i ==> temp[p] == vec[p]
      {
        temp[i] := vec[i];
      }
      ret, N := Downdate(mat, temp, sigma, sqrt, L, v);
    }
  }

  // --------------------------------------------------------------------------------- the LDLT update

  /** Forward substitution with unit lower L. */
  ghost function Substituted(L: Mat, w: Vec): Vec {
    i => if i < 0 then 0.0 else Forward(L, w, 0, i)
  }

  /** 1 + sigma (y_0^2 / d_0 + ... + y_{k-1}^2 / d_{k-1}), where L y = w. It is the factor by which the update
      changes the determinant of the leading k by k block. */
  ghost function Alpha(L: Mat, d: Vec, w: Vec, sigma: real, k: nat): real {
    if k == 0 then 1.0 else Alpha(L, d, w, sigma, k - 1) + Quot(Prod(sigma, Sq(Substituted(L, w)(k - 1))), d(k - 1))
  }

  /** The working vector before step j. */
  ghost function Pending(L: Mat, w: Vec, j: nat): Vec {
    i => w(i) - Dot(Substituted(L, w), Row(L, i), 0, j)
  }

  lemma PendingStep(L: Mat, w: Vec, j: nat, i: int)
    ensures Pending(L, w, j + 1)(i) == Pending(L, w, j)(i) - Prod(Substituted(L, w)(j), L(i, j))
  {
    hide Dot, Prod;
    DotLast(Substituted(L, w), Row(L, i), 0, j);
  }

  lemma PendingDiagonal(L: Mat, w: Vec, j: nat)
    requires L(j, j) == 1.0
    ensures Pending(L, w, j)(j) == Substituted(L, w)(j)
  {
    hide Dot;
    DotEq(Substituted(L, w), Row(L, j), ForwardVec(L, w, 0, j), Row(L, j), 0, j);
  }

  /** One iteration of the update conserves every product of two rows of the unit factor. */
  lemma UpdateStep(d: real, y: real, rho: real, x: real, rho': real, g: real, l: real, l': real, w: real, w': real)
    requires x != 0.0 && x == d + Prod(rho, Sq(y)) && Prod(g, x) == Prod(rho, y) && Prod(rho', x) == Prod(rho, d)
    ensures var v, v' := w - Prod(y, l), w' - Prod(y, l');
            Term(l, d, l') + Term(w, rho, w') == Term(Prod(1.0, l) + Prod(g, v), x, Prod(1.0, l') + Prod(g, v')) + Term(v, rho', v')
  {
    var v, v' := w - Prod(y, l), w' - Prod(y, l');
    var m, m' := Prod(1.0, l) + Prod(g, v), Prod(1.0, l') + Prod(g, v');
    SqTimes(rho, y);
    UpdateRaw(d, x, rho, rho', g, y, l, l', v, v', w, w', m, m');
    TermIs(l, d, l');
    TermIs(w, rho, w');
    TermIs(m, x, m');
    TermIs(v, rho', v');
  }

  lemma UpdateRaw(d: real, x: real, r: real, r': real, g: real, y: real, l: real, l': real, v: real, v': real,
                  w: real, w': real, m: real, m': real)
    requires x != 0.0 && x == d + r * (y * y) && g * x == r * y && r' * x == r * d
    requires w == v + y * l && w' == v' + y * l' && m == l + g * v && m' == l' + g * v'
    ensures d * (l * l') + r * (w * w') == x * (m * m') + r' * (v * v')
  {
    calc {
      d * (l * l') + r * (w * w');
      { assert w * w' == (v + y * l) * (v' + y * l'); }
      (l * d) * l' + r * ((v + y * l) * (v' + y * l'));
      { Transfer(d, x, r, r', g, y, l, l', v, v'); }
      ((l + g * v) * x) * (l' + g * v') + r' * (v * v');
      { assert ((l + g * v) * x) * (l' + g * v') == (m * x) * m'; }
      x * (m * m') + r' * (v * v');
    }
  }

  lemma UpdateLaw(L: Mat, d: Vec, w: Vec, j: nat, n: nat, rho: real, x: real, rho': real, g: real)
    requires j < n && L(j, j) == 1.0 && x == d(j) + Prod(rho, Sq(Substituted(L, w)(j)))
    requires j + 1 < n ==> x != 0.0 && Prod(g, x) == Prod(rho, Substituted(L, w)(j)) && Prod(rho', x) == Prod(rho, d(j))
    ensures var T' := Pending(L, w, j + 1);
            var col := With(Combine(1.0, Col(L, j), g, T'), j, 1.0);
            Step(L, d, rho, Pending(L, w, j), j, n, col, x, rho', T')
  {
    hide Prod, Term, Sq, Pending, Substituted;
    var y, T, T' := Substituted(L, w)(j), Pending(L, w, j), Pending(L, w, j + 1);
    var col := With(Combine(1.0, Col(L, j), g, T'), j, 1.0);
    PendingDiagonal(L, w, j);
    PendingStep(L, w, j, j);
    UnitProd(y, L(j, j));
    forall i, c | j <= c <= i < n
      ensures Term(L(i, j), d(j), L(c, j)) + Term(T(i), rho, T(c)) == Term(col(i), x, col(c)) + Term(T'(i), rho', T'(c))
    {
      UpdatePair(L, d, w, j, rho, x, rho', g, i, c);
    }
  }

  lemma UnitProd(y: real, l: real)
    requires l == 1.0
    ensures Prod(y, l) == y && Prod(l, y) == y
  {
  }

  lemma UpdatePair(L: Mat, d: Vec, w: Vec, j: nat, rho: real, x: real, rho': real, g: real, i: int, c: int)
    requires j <= c <= i && L(j, j) == 1.0 && x == d(j) + Prod(rho, Sq(Substituted(L, w)(j)))
    requires Pending(L, w, j)(j) == Substituted(L, w)(j) && Pending(L, w, j + 1)(j) == 0.0
    requires j < i ==> x != 0.0 && Prod(g, x) == Prod(rho, Substituted(L, w)(j)) && Prod(rho', x) == Prod(rho, d(j))
    ensures var T, T' := Pending(L, w, j), Pending(L, w, j + 1);
            var col := With(Combine(1.0, Col(L, j), g, T'), j, 1.0);
            Term(L(i, j), d(j), L(c, j)) + Term(T(i), rho, T(c)) == Term(col(i), x, col(c)) + Term(T'(i), rho', T'(c))
  {
    hide Pending, Substituted, Sq, Term, Prod;
    var y, T, T' := Substituted(L, w)(j), Pending(L, w, j), Pending(L, w, j + 1);
    if j == i {
      UpdateCorner(d(j), y, rho, x, rho');
    } else {
      PendingStep(L, w, j, i);
      PendingStep(L, w, j, c);
      OneEntry(g);
      UpdateStep(d(j), y, rho, x, rho', g, L(i, j), L(c, j), T(i), T(c));
    }
  }

  lemma OneEntry(g: real)
    ensures Prod(1.0, 1.0) + Prod(g, 0.0) == 1.0
  {
  }

  lemma UpdateCorner(d: real, y: real, rho: real, x: real, rho': real)
    requires x == d + Prod(rho, Sq(y))
    ensures Term(1.0, d, 1.0) + Term(y, rho, y) == Term(1.0, x, 1.0) + Term(0.0, rho', 0.0)
  {
    TermIs(y, rho, y);
  }

  /** The scalar statements of one iteration; alpha stays nonzero as long as there is a column to update. */
  method UpdateScalars(dj: real, wj: real, sigma: real, alpha: real, last: bool, ghost rho: real, ghost next: real)
      returns (x: real, gamma: real, alpha': real, g: real, ghost rho': real)
    requires dj != 0.0 && alpha != 0.0 && Prod(rho, alpha) == sigma
    requires next == alpha + Quot(Prod(sigma, Sq(wj)), dj) && (!last ==> next != 0.0)
    ensures x == dj + Prod(rho, Sq(wj)) && alpha' == next && Prod(x, alpha) == Prod(dj, next)
    ensures !last ==> gamma != 0.0 && x != 0.0 && Prod(g, x) == Prod(rho, wj) && Prod(rho', x) == Prod(rho, dj)
    ensures !last ==> Prod(rho', alpha') == sigma
  {
    hide Sq, Prod;
    var swj2 := Prod(sigma, Sq(wj));
    gamma := Prod(dj, alpha) + swj2;
    x := dj + swj2 / alpha;
    alpha' := alpha + swj2 / dj;
    g, rho' := 0.0, rho;
    RhoTimes(sigma, Sq(wj), alpha, rho);
    GammaTwice(dj, alpha, swj2, x, alpha', gamma);
    if gamma != 0.0 {
      g := sigma * wj / gamma;
      rho' := sigma / alpha';
      UpdateRatios(dj, alpha, sigma, wj, x, gamma, alpha', rho);
    }
  }

  lemma GammaTwice(d: real, alpha: real, s: real, x: real, alpha': real, gamma: real)
    requires d != 0.0 && alpha != 0.0 && x == d + s / alpha && alpha' == alpha + s / d && gamma == Prod(d, alpha) + s
    ensures Prod(x, alpha) == gamma && Prod(d, alpha') == gamma
    ensures alpha' != 0.0 ==> gamma != 0.0
    ensures gamma != 0.0 ==> alpha' != 0.0 && x != 0.0
  {
    StepScalars(d, alpha, s);
    ProdSign(d, alpha');
    ProdSign(-d, alpha');
    ProdSign(d, -alpha');
  }

  lemma UpdateRatios(d: real, alpha: real, sigma: real, y: real, x: real, gamma: real, alpha': real, rho: real)
    requires d != 0.0 && alpha != 0.0 && gamma != 0.0 && alpha' != 0.0
    requires Prod(x, alpha) == gamma && Prod(d, alpha') == gamma && Prod(rho, alpha) == sigma
    ensures Prod(sigma * y / gamma, x) == Prod(rho, y) && Prod(sigma / alpha', x) == Prod(rho, d)
    ensures Prod(sigma / alpha', alpha') == sigma
  {
    var g, rho' := sigma * y / gamma, sigma / alpha';
    assert g * gamma == sigma * y && rho' * alpha' == sigma;
    StepRatios(d, alpha, sigma, y, x, gamma, alpha', rho, g, rho');
  }

  lemma RhoTimes(sigma: real, s: real, alpha: real, rho: real)
    requires alpha != 0.0 && Prod(rho, alpha) == sigma
    ensures Prod(sigma, s) / alpha == Prod(rho, s)
  {
    assert sigma * s == (rho * s) * alpha;
  }

  /** The state of the matrix before step j of the update: unit columns N and diagonal e in the first j columns. */
  ghost predicate UnitRewritten(mat: array2<real>, L: Mat, d: Vec, N: Mat, e: Vec, j: nat)
    requires mat.Length0 == mat.Length1
    reads mat
  {
    && (forall i, p :: 0 <= p < i < mat.Length0 ==> mat[i, p] == if p < j then N(i, p) else L(i, p))
    && (forall p :: 0 <= p < mat.Length0 ==> mat[p, p] == if p < j then e(p) else d(p))
  }

  /** One iteration of `updateInPlace`. */
  method UpdateColumn(mat: array2<real>, w: array<real>, j: nat, sigma: real, alpha: real, ghost L: Mat, ghost d: Vec, ghost w0: Vec, ghost rho: real)
      returns (x: real, alpha': real, ghost rho': real, ghost col: Vec)
    requires j < mat.Length0 == mat.Length1 == w.Length && L(j, j) == 1.0 && d(j) != 0.0
    requires mat[j, j] == d(j) && w[j] == Pending(L, w0, j)(j)
    requires forall i :: j < i < w.Length ==> mat[i, j] == L(i, j) && w[i] == Pending(L, w0, j)(i)
    requires alpha == Alpha(L, d, w0, sigma, j) != 0.0 && Prod(rho, alpha) == sigma
    requires j + 1 < mat.Length0 ==> Alpha(L, d, w0, sigma, j + 1) != 0.0
    modifies mat, w
    ensures alpha' == Alpha(L, d, w0, sigma, j + 1) && Prod(x, alpha) == Prod(d(j), alpha')
    ensures x == d(j) + Prod(rho, Sq(Substituted(L, w0)(j)))
    ensures j + 1 < mat.Length0 ==> Prod(rho', alpha') == sigma
    ensures col(j) == 1.0 && Step(L, d, rho, Pending(L, w0, j), j, mat.Length0, col, x, rho', Pending(L, w0, j + 1))
    ensures mat[j, j] == x && forall i :: j < i < mat.Length0 ==> mat[i, j] == col(i)
    ensures forall i :: j < i < w.Length ==> w[i] == Pending(L, w0, j + 1)(i)
    ensures forall i, p :: 0 <= i < mat.Length0 && 0 <= p < mat.Length1 && !(p == j <= i) ==> mat[i, p] == old(mat[i, p])
  {
    hide Step, Term, Pending, Substituted, Sq, Prod, Quot, Combine;
    PendingDiagonal(L, w0, j);
    var gamma, g;
    x, gamma, alpha', g, rho' := UpdateScalars(mat[j, j], w[j], sigma, alpha, j + 1 == mat.Length0, rho, Alpha(L, d, w0, sigma, j + 1));
    UpdateLaw(L, d, w0, j, mat.Length0, rho, x, rho', g);
    col := With(Combine(1.0, Col(L, j), g, Pending(L, w0, j + 1)), j, 1.0);
    UpdateTail(mat, w, j, x, w[j], g, gamma != 0.0, L, w0);
  }

  /** What the conservation law says of the next step: its divisor is a pivot of the updated matrix, so alpha is not
      zero after it unless that pivot is. */
  lemma NextAlpha(A: Mat, L: Mat, d: Vec, w: Vec, N: Mat, e: Vec, sigma: real, rho: real, j: nat, n: nat)
    requires j < n && Symmetric(A) && Conserved(A, L, d, N, e, rho, Pending(L, w, j), j, n)
    requires forall c :: 0 <= c < j ==> N(c, c) == 1.0 && e(c) != 0.0
    requires L(j, j) == 1.0 && d(j) != 0.0 && Alpha(L, d, w, sigma, j) != 0.0 && Prod(rho, Alpha(L, d, w, sigma, j)) == sigma
    ensures Pivot(A, j) == d(j) + Prod(rho, Sq(Substituted(L, w)(j)))
    ensures Pivot(A, j) != 0.0 ==> Alpha(L, d, w, sigma, j + 1) != 0.0
  {
    hide Schur, Pivot, Conserved, Pending, Substituted, Sq, Prod, Term;
    var y, alpha, alpha' := Substituted(L, w)(j), Alpha(L, d, w, sigma, j), Alpha(L, d, w, sigma, j + 1);
    var x, s := d(j) + Prod(rho, Sq(y)), Prod(sigma, Sq(y));
    ConservedPivot(A, L, d, N, e, rho, Pending(L, w, j), j, n);
    PendingDiagonal(L, w, j);
    UpdateDivisor(d(j), y, rho);
    RhoTimes(sigma, Sq(y), alpha, rho);
    GammaTwice(d(j), alpha, s, x, alpha', Prod(d(j), alpha) + s);
    if x != 0.0 {
      ProductNonZero(x, alpha);
    }
  }

  lemma UpdateDivisor(d: real, y: real, rho: real)
    ensures Term(1.0, d, 1.0) + Term(y, rho, y) == d + Prod(rho, Sq(y))
  {
    TermIs(y, rho, y);
  }

  lemma ProductNonZero(a: real, b: real)
    requires a != 0.0 && b != 0.0
    ensures Prod(a, b) != 0.0
  {
  }

  /** `ldlt_inplace<Lower>::updateInPlace`: from L D L' to the factorization of L D L' + sigma w w', whenever no
      entry of D is zero and the pivots of the updated matrix, the last one excepted, are not zero either. */
  method UpdateInPlace(mat: array2<real>, w: array<real>, sigma: real, ghost L: Mat, ghost d: Vec, ghost w0: Vec)
      returns (ret: bool, ghost N: Mat, ghost e: Vec)
    requires mat.Length0 == mat.Length1 == w.Length
    requires UnitRewritten(mat, L, d, L, d, 0) && forall p :: 0 <= p < w.Length ==> w[p] == w0(p) && L(p, p) == 1.0 && d(p) != 0.0
    requires forall k: nat :: k < mat.Length0 - 1 ==> Pivot(Updated(L, d, w0, sigma), k) != 0.0
    modifies mat, w
    ensures ret && UnitRewritten(mat, L, d, N, e, mat.Length0)
    ensures forall p: nat :: p < mat.Length0 ==> N(p, p) == 1.0 && e(p) == Pivot(Updated(L, d, w0, sigma), p)
    ensures forall p: nat :: p < mat.Length0 ==> Prod(e(p), Alpha(L, d, w0, sigma, p)) == Prod(d(p), Alpha(L, d, w0, sigma, p + 1))
    ensures forall i, c :: 0 <= c <= i < mat.Length0 ==> Weighted(N, e, i, c, 0, c + 1) == Updated(L, d, w0, sigma)(i, c)
    ensures forall i, p :: 0 <= i < p < mat.Length0 ==> mat[i, p] == old(mat[i, p])
  {
    hide Weighted, Updated, Conserved, Step, Term, Pending, Prod, With, Alpha, Schur, Pivot, Sq, Substituted;
    var size, alpha := mat.Length0, 1.0;
    ghost var A, rho := Updated(L, d, w0, sigma), sigma;
    N, e := L, d;
    UpdatedSymmetric(L, d, w0, sigma);
    PendingBegins(L, w0);
    AlphaBegins(L, d, w0, sigma);
    ConservedStart(L, d, w0, sigma, N, e, size);
    ConservedSame(A, L, d, N, e, sigma, w0, Pending(L, w0, 0), 0, size);
    for j := 0 to size
      invariant alpha == Alpha(L, d, w0, sigma, j) && (j < size ==> alpha != 0.0 && Prod(rho, alpha) == sigma)
      invariant Conserved(A, L, d, N, e, rho, Pending(L, w0, j), j, size)
      invariant UnitRewritten(mat, L, d, N, e, j)
      invariant forall i :: j <= i < size ==> w[i] == Pending(L, w0, j)(i)
      invariant forall p: nat :: p < j ==> N(p, p) == 1.0 && e(p) == Pivot(A, p)
      invariant forall p: nat :: p < j ==> Prod(e(p), Alpha(L, d, w0, sigma, p)) == Prod(d(p), Alpha(L, d, w0, sigma, p + 1))
      invariant forall i, p :: 0 <= i < p < size ==> mat[i, p] == old(mat[i, p])
    {
      NextAlpha(A, L, d, w0, N, e, sigma, rho, j, size);
      var x, alpha';
      ghost var rho', col;
      x, alpha', rho', col := UpdateColumn(mat, w, j, sigma, alpha, L, d, w0, rho);
      ConservedStep(A, L, d, N, e, rho, Pending(L, w0, j), j, size, col, x, rho', Pending(L, w0, j + 1));
      WithAt(e, j, x);
      N, e, rho, alpha := SetColumn(N, j, col), With(e, j, x), rho', alpha';
    }
    ConservedEnd(A, L, d, N, e, rho, Pending(L, w0, size), size);
    ret := true;
  }

  lemma ConservedEnd(A: Mat, L: Mat, d: Vec, N: Mat, e: Vec, rho: real, T: Vec, n: nat)
    requires Conserved(A, L, d, N, e, rho, T, n, n)
    ensures forall i, c :: 0 <= c <= i < n ==> Weighted(N, e, i, c, 0, c + 1) == A(i, c)
  {
    hide Weighted, Term;
  }

  lemma WithAt(x: Vec, k: int, v: real)
    ensures With(x, k, v)(k) == v && forall p :: p != k ==> With(x, k, v)(p) == x(p)
  {
  }

  lemma AlphaBegins(L: Mat, d: Vec, w: Vec, sigma: real)
    ensures Alpha(L, d, w, sigma, 0) == 1.0 && Prod(sigma, 1.0) == sigma
  {
  }

  /** The array statements of one iteration. */
  method UpdateTail(mat: array2<real>, w: array<real>, j: nat, x: real, wj: real, g: real, combine: bool, ghost L: Mat, ghost w0: Vec)
    requires j < mat.Length0 == mat.Length1 == w.Length && wj == Substituted(L, w0)(j)
    requires forall i :: j < i < w.Length ==> mat[i, j] == L(i, j) && w[i] == Pending(L, w0, j)(i)
    modifies mat, w
    ensures mat[j, j] == x
    ensures forall i :: j < i < w.Length ==> w[i] == Pending(L, w0, j + 1)(i)
    ensures combine ==> forall i :: j < i < w.Length ==> mat[i, j] == Combine(1.0, Col(L, j), g, Pending(L, w0, j + 1))(i)
    ensures forall i, p :: 0 <= i < mat.Length0 && 0 <= p < mat.Length1 && !(p == j <= i) ==> mat[i, p] == old(mat[i, p])
  {
    hide Pending, Substituted, Combine, Prod;
    mat[j, j] := x;
    SubtractColumn(w, mat, j, wj, Pending(L, w0, j), Col(L, j));
    forall i | j < i < w.Length ensures w[i] == Pending(L, w0, j + 1)(i) {
      PendingStep(L, w0, j, i);
    }
    if combine {
      CombineColumn(mat, w, j, 1.0, g, Pending(L, w0, j + 1), Col(L, j));
    }
  }

  lemma PendingBegins(L: Mat, w: Vec)
    ensures forall i :: Pending(L, w, 0)(i) == w(i)
  {
  }

  lemma ConservedSame(A: Mat, L: Mat, d: Vec, N: Mat, e: Vec, rho: real, T: Vec, T': Vec, j: nat, n: nat)
    requires Conserved(A, L, d, N, e, rho, T, j, n) && forall i :: T(i) == T'(i)
    ensures Conserved(A, L, d, N, e, rho, T', j, n)
  {
    hide Weighted, Term;
  }
}
