/** Exact real linear algebra: finite sums, quadratic forms and Schur complements.

A vector is a total function on indices and a matrix a total function on index pairs; only the entries in
the stated range matter. `Schur(A, k, i, j)` is the (i, j) entry of what is left of a symmetric matrix `A`
after its first `k` rows and columns have been eliminated, and `Pivot(A, k)` the entry the next elimination
divides by. Both Cholesky modules are specified by these pivots. */
module LinearAlgebra {

  type Vec = int -> real
  type Mat = (int, int) -> real

  // ------------------------------------------------------------------------------------ real arithmetic

  function Prod(a: real, b: real): real {
    a * b
  }

  function Sq(y: real): real {
    Prod(y, y)
  }

  lemma ProdSign(a: real, b: real)
    ensures a > 0.0 && b > 0.0 ==> Prod(a, b) > 0.0
    ensures a >= 0.0 && b >= 0.0 ==> Prod(a, b) >= 0.0
    ensures a < 0.0 && b < 0.0 ==> Prod(a, b) > 0.0
    ensures a < 0.0 && b > 0.0 ==> Prod(a, b) < 0.0
    ensures a == 0.0 || b == 0.0 ==> Prod(a, b) == 0.0
  {
  }

  lemma ProdCommutes(a: real, b: real)
    ensures Prod(a, b) == Prod(b, a)
  {
  }

  lemma SqSign(y: real)
    ensures Sq(y) >= 0.0 && (y != 0.0 ==> Sq(y) > 0.0)
  {
    ProdSign(y, y);
  }

  function Abs(x: real): real {
    if x < 0.0 then -x else x
  }

  /** a / d, and 0 when the divisor is 0. */
  function Quot(a: real, d: real): real {
    if d == 0.0 then 0.0 else a / d
  }

  /** The contents of a vector's storage. */
  ghost function Content(s: seq<real>): Vec {
    i => if 0 <= i < |s| then s[i] else 0.0
  }

  // ---------------------------------------------------------------------------------------------- sums

  /** f(lo) + ... + f(hi - 1) */
  ghost function Sum(lo: int, hi: int, f: Vec): real
    decreases hi - lo
  {
    if hi <= lo then 0.0 else Sum(lo, hi - 1, f) + f(hi - 1)
  }

  lemma {:induction false} SumEq(lo: int, hi: int, f: Vec, g: Vec)
    requires forall i :: lo <= i < hi ==> f(i) == g(i)
    ensures Sum(lo, hi, f) == Sum(lo, hi, g)
    decreases hi - lo
  {
    if lo < hi {
      SumEq(lo, hi - 1, f, g);
    }
  }

  lemma {:induction false} SumSplit(lo: int, mid: int, hi: int, f: Vec)
    requires lo <= mid <= hi
    ensures Sum(lo, hi, f) == Sum(lo, mid, f) + Sum(mid, hi, f)
    decreases hi - mid
  {
    if mid < hi {
      SumSplit(lo, mid, hi - 1, f);
    }
  }

  lemma SumFirst(lo: int, hi: int, f: Vec)
    requires lo < hi
    ensures Sum(lo, hi, f) == f(lo) + Sum(lo + 1, hi, f)
  {
    SumSplit(lo, lo + 1, hi, f);
    assert Sum(lo, lo + 1, f) == Sum(lo, lo, f) + f(lo);
  }

  lemma {:induction false} SumLinear(lo: int, hi: int, f: Vec, a: real, g: Vec, h: Vec)
    requires forall i :: lo <= i < hi ==> h(i) == f(i) + a * g(i)
    ensures Sum(lo, hi, h) == Sum(lo, hi, f) + a * Sum(lo, hi, g)
    decreases hi - lo
  {
    if lo < hi {
      SumLinear(lo, hi - 1, f, a, g, h);
      var s, t, m := Sum(lo, hi - 1, f), Sum(lo, hi - 1, g), g(hi - 1);
      assert a * (t + m) == a * t + a * m;
    }
  }

  lemma {:induction false} SumScaled(lo: int, hi: int, a: real, f: Vec, g: Vec)
    requires forall i :: lo <= i < hi ==> g(i) == Prod(a, f(i))
    ensures Sum(lo, hi, g) == Prod(a, Sum(lo, hi, f))
    decreases hi - lo
  {
    hide Prod;
    if lo < hi {
      SumScaled(lo, hi - 1, a, f, g);
      ProdAdd(a, Sum(lo, hi - 1, f), f(hi - 1));
    } else {
      ProdSign(a, 0.0);
    }
  }

  lemma ProdAdd(a: real, b: real, c: real)
    ensures Prod(a, b + c) == Prod(a, b) + Prod(a, c)
  {
  }

  lemma {:induction false} SumZero(lo: int, hi: int, f: Vec)
    requires forall i :: lo <= i < hi ==> f(i) == 0.0
    ensures Sum(lo, hi, f) == 0.0
    decreases hi - lo
  {
    if lo < hi {
      SumZero(lo, hi - 1, f);
    }
  }

  lemma {:induction false} SumMonotone(lo: int, hi: int, f: Vec, g: Vec)
    requires forall i :: lo <= i < hi ==> f(i) <= g(i)
    ensures Sum(lo, hi, f) <= Sum(lo, hi, g)
    decreases hi - lo
  {
    if lo < hi {
      SumMonotone(lo, hi - 1, f, g);
    }
  }

  /** The order of a double sum does not matter. */
  lemma {:induction false} SumSwap(lo: int, hi: int, lo': int, hi': int, F: Mat)
    ensures Sum(lo, hi, i => Sum(lo', hi', j => F(i, j))) == Sum(lo', hi', j => Sum(lo, hi, i => F(i, j)))
    decreases hi - lo
  {
    var right := j => Sum(lo, hi, i => F(i, j));
    if hi <= lo {
      SumZero(lo', hi', right);
    } else {
      var less := j => Sum(lo, hi - 1, i => F(i, j));
      var last := j => F(hi - 1, j);
      SumSwap(lo, hi - 1, lo', hi', F);
      SumEq(lo, hi - 1, i => Sum(lo', hi', j => F(i, j)), i => Sum(lo', hi', j => F(i, j)));
      forall j | lo' <= j < hi' ensures right(j) == less(j) + 1.0 * last(j) {
        SumEq(lo, hi - 1, i => F(i, j), i => F(i, j));
      }
      SumLinear(lo', hi', less, 1.0, last, right);
    }
  }

  // ------------------------------------------------------------------------------------ quadratic forms

  ghost predicate Symmetric(A: Mat) {
    forall i, j :: A(i, j) == A(j, i)
  }

  ghost function Times(x: Vec, y: Vec): Vec {
    i => Prod(x(i), y(i))
  }

  /** The inner product of x and y over lo..hi. */
  ghost function Dot(x: Vec, y: Vec, lo: int, hi: int): real {
    Sum(lo, hi, Times(x, y))
  }

  ghost function Row(A: Mat, i: int): Vec {
    j => A(i, j)
  }

  ghost function Col(A: Mat, j: int): Vec {
    i => A(i, j)
  }

  /** A x over the columns lo..hi. */
  ghost function Mul(A: Mat, x: Vec, lo: int, hi: int): Vec {
    i => Dot(Row(A, i), x, lo, hi)
  }

  /** x' A x over the index range lo..hi. */
  ghost function Quad(A: Mat, x: Vec, lo: int, hi: int): real {
    Dot(x, Mul(A, x, lo, hi), lo, hi)
  }

  /** f x */
  ghost function Scaled(f: real, x: Vec): Vec {
    i => Prod(f, x(i))
  }

  lemma DotLast(x: Vec, y: Vec, lo: int, hi: int)
    requires lo <= hi
    ensures Dot(x, y, lo, hi + 1) == Dot(x, y, lo, hi) + Prod(x(hi), y(hi))
  {
  }

  lemma DotZero(x: Vec, y: Vec, lo: int, hi: int)
    requires forall i :: lo <= i < hi ==> x(i) == 0.0 || y(i) == 0.0
    ensures Dot(x, y, lo, hi) == 0.0
  {
    SumZero(lo, hi, Times(x, y));
  }

  lemma DotNone(x: Vec, y: Vec, lo: int)
    ensures Dot(x, y, lo, lo) == 0.0
  {
  }

  lemma DotCommutes(x: Vec, y: Vec, n: int)
    ensures Dot(x, y, 0, n) == Dot(y, x, 0, n)
  {
    hide Prod;
    forall i ensures Times(x, y)(i) == Times(y, x)(i) {
      ProdCommutes(x(i), y(i));
    }
    SumEq(0, n, Times(x, y), Times(y, x));
  }

  lemma DotEq(x: Vec, y: Vec, x': Vec, y': Vec, lo: int, hi: int)
    requires forall i :: lo <= i < hi ==> x(i) == x'(i) && y(i) == y'(i)
    ensures Dot(x, y, lo, hi) == Dot(x', y', lo, hi)
  {
    SumEq(lo, hi, Times(x, y), Times(x', y'));
  }

  lemma QuadEq(A: Mat, B: Mat, x: Vec, y: Vec, lo: int, hi: int)
    requires forall i, j :: lo <= i < hi && lo <= j < hi ==> A(i, j) == B(i, j)
    requires forall i :: lo <= i < hi ==> x(i) == y(i)
    ensures Quad(A, x, lo, hi) == Quad(B, y, lo, hi)
  {
    forall i | lo <= i < hi ensures Mul(A, x, lo, hi)(i) == Mul(B, y, lo, hi)(i) {
      DotEq(Row(A, i), x, Row(B, i), y, lo, hi);
    }
    DotEq(x, Mul(A, x, lo, hi), y, Mul(B, y, lo, hi), lo, hi);
  }

  lemma MulAdd(A: Mat, B: Mat, c: Vec, b: real, x: Vec, lo: int, hi: int, i: int)
    requires forall j :: lo <= j < hi ==> B(i, j) == A(i, j) + b * c(j)
    ensures Mul(B, x, lo, hi)(i) == Mul(A, x, lo, hi)(i) + b * Dot(c, x, lo, hi)
  {
    var f, g, h := Times(Row(A, i), x), Times(c, x), Times(Row(B, i), x);
    forall j | lo <= j < hi ensures h(j) == f(j) + b * g(j) {
      Distribute(A(i, j), b, c(j), x(j));
    }
    SumLinear(lo, hi, f, b, g, h);
  }

  lemma Distribute(m: real, b: real, c: real, x: real)
    ensures (m + b * c) * x == m * x + b * (c * x)
  {
  }

  lemma QuadAdd(A: Mat, B: Mat, c: Vec, t: real, x: Vec, lo: int, hi: int)
    requires forall i :: lo <= i < hi ==> Mul(B, x, lo, hi)(i) == Mul(A, x, lo, hi)(i) + t * c(i)
    ensures Quad(B, x, lo, hi) == Quad(A, x, lo, hi) + t * Dot(c, x, lo, hi)
  {
    var f, g, h := Times(x, Mul(A, x, lo, hi)), Times(c, x), Times(x, Mul(B, x, lo, hi));
    forall i | lo <= i < hi ensures h(i) == f(i) + t * g(i) {
      Distribute(Mul(A, x, lo, hi)(i), t, c(i), x(i));
    }
    SumLinear(lo, hi, f, t, g, h);
  }

  /** What adding the rank-one matrix b c', with b parallel to c, does to a quadratic form. */
  lemma QuadRankOne(A: Mat, B: Mat, b: Vec, c: Vec, t: real, x: Vec, lo: int, hi: int)
    requires forall i, j :: lo <= i < hi && lo <= j < hi ==> B(i, j) == A(i, j) + b(i) * c(j)
    requires forall i :: lo <= i < hi ==> b(i) * Dot(c, x, lo, hi) == t * c(i)
    ensures Quad(B, x, lo, hi) == Quad(A, x, lo, hi) + t * Dot(c, x, lo, hi)
  {
    hide Mul, Dot, Quad;
    forall i | lo <= i < hi ensures Mul(B, x, lo, hi)(i) == Mul(A, x, lo, hi)(i) + t * c(i) {
      MulAdd(A, B, c, b(i), x, lo, hi, i);
    }
    QuadAdd(A, B, c, t, x, lo, hi);
  }

  /** The first index of a symmetric quadratic form split off from the rest. */
  lemma QuadFirst(A: Mat, x: Vec, lo: int, hi: int)
    requires lo < hi && Symmetric(A)
    ensures Quad(A, x, lo, hi) == A(lo, lo) * x(lo) * x(lo)
                                + 2.0 * x(lo) * Dot(Col(A, lo), x, lo + 1, hi) + Quad(A, x, lo + 1, hi)
  {
    SumFirst(lo, hi, Times(x, Mul(A, x, lo, hi)));
    QuadHead(A, x, lo, hi);
    QuadRest(A, x, lo, hi);
    SplitFirst(A(lo, lo), x(lo), Dot(Col(A, lo), x, lo + 1, hi), Quad(A, x, lo + 1, hi));
  }

  lemma MulFirst(A: Mat, x: Vec, lo: int, hi: int, i: int)
    requires lo < hi
    ensures Mul(A, x, lo, hi)(i) == A(i, lo) * x(lo) + Mul(A, x, lo + 1, hi)(i)
  {
    SumFirst(lo, hi, Times(Row(A, i), x));
  }

  lemma QuadHead(A: Mat, x: Vec, lo: int, hi: int)
    requires lo < hi && Symmetric(A)
    ensures Times(x, Mul(A, x, lo, hi))(lo) == x(lo) * (A(lo, lo) * x(lo) + Dot(Col(A, lo), x, lo + 1, hi))
  {
    MulFirst(A, x, lo, hi, lo);
    DotEq(Row(A, lo), x, Col(A, lo), x, lo + 1, hi);
  }

  lemma SplitFirst(a: real, x: real, s: real, q: real)
    ensures x * (a * x + s) + (q + x * s) == a * x * x + 2.0 * x * s + q
  {
  }

  lemma QuadRest(A: Mat, x: Vec, lo: int, hi: int)
    requires lo < hi
    ensures Sum(lo + 1, hi, Times(x, Mul(A, x, lo, hi)))
         == Quad(A, x, lo + 1, hi) + x(lo) * Dot(Col(A, lo), x, lo + 1, hi)
  {
    var whole, rest, col := Times(x, Mul(A, x, lo, hi)), Times(x, Mul(A, x, lo + 1, hi)), Times(Col(A, lo), x);
    forall i | lo + 1 <= i < hi ensures whole(i) == rest(i) + x(lo) * col(i) {
      MulFirst(A, x, lo, hi, i);
      Regroup(x(i), A(i, lo), x(lo), Mul(A, x, lo + 1, hi)(i));
    }
    SumLinear(lo + 1, hi, rest, x(lo), col, whole);
  }

  lemma Regroup(x: real, a: real, y: real, m: real)
    ensures x * (a * y + m) == x * m + y * (a * x)
  {
  }

  ghost predicate NonZero(x: Vec, lo: int, hi: int) {
    exists i :: lo <= i < hi && x(i) != 0.0
  }

  /** x' A x > 0 for every vector that is not zero on the first n indices. */
  ghost predicate PositiveDefinite(A: Mat, n: int) {
    forall x: Vec :: NonZero(x, 0, n) ==> Quad(A, x, 0, n) > 0.0
  }

  ghost predicate PositiveSemidefinite(A: Mat, n: int) {
    forall x: Vec :: Quad(A, x, 0, n) >= 0.0
  }

  // ----------------------------------------------------------------------------------- Schur complements

  ghost function Schur(A: Mat, k: nat, i: int, j: int): real
    decreases k, 0
  {
    if k == 0 then A(i, j)
    else Schur(A, k - 1, i, j) - Quot(Prod(Schur(A, k - 1, i, k - 1), Schur(A, k - 1, j, k - 1)), Pivot(A, k - 1))
  }

  ghost function Pivot(A: Mat, k: nat): real
    decreases k, 1
  {
    Schur(A, k, k, k)
  }

  ghost function SchurMat(A: Mat, k: nat): Mat {
    (i, j) => Schur(A, k, i, j)
  }

  lemma {:induction false} SchurSymmetric(A: Mat, k: nat)
    requires Symmetric(A)
    ensures Symmetric(SchurMat(A, k))
  {
    if k > 0 {
      SchurSymmetric(A, k - 1);
      forall i, j ensures Schur(A, k, i, j) == Schur(A, k, j, i) {
        assert SchurMat(A, k - 1)(i, j) == SchurMat(A, k - 1)(j, i);
        ProdCommutes(Schur(A, k - 1, i, k - 1), Schur(A, k - 1, j, k - 1));
      }
    }
  }

  /** Column k of the k-th complement, the entries an elimination step divides by the pivot. */
  ghost function PivotCol(A: Mat, k: nat): Vec {
    Col(SchurMat(A, k), k)
  }

  /** The quantity whose square elimination step k splits off the quadratic form. */
  ghost function Completed(A: Mat, k: nat, x: Vec, n: int): real {
    x(k) + Quot(Dot(PivotCol(A, k), x, k + 1, n), Pivot(A, k))
  }

  /** What one elimination step does to the quadratic form of the trailing block. */
  lemma EliminateQuad(A: Mat, k: nat, x: Vec, n: int)
    requires Pivot(A, k) != 0.0
    ensures var s := Dot(PivotCol(A, k), x, k + 1, n);
            Quad(SchurMat(A, k + 1), x, k + 1, n) == Quad(SchurMat(A, k), x, k + 1, n) - Quot(s, Pivot(A, k)) * s
  {
    hide Quot, Quad, Dot, Schur, NegQuot;
    var c, p := PivotCol(A, k), Pivot(A, k);
    var b, s := NegQuot(c, p), Dot(c, x, k + 1, n);
    forall i, j ensures SchurMat(A, k + 1)(i, j) == SchurMat(A, k)(i, j) + b(i) * c(j) {
      SchurStep(A, k, i, j);
    }
    forall i ensures b(i) * s == -Quot(s, p) * c(i) {
      NegQuotAt(c, p, i, s);
    }
    QuadRankOne(SchurMat(A, k), SchurMat(A, k + 1), b, c, -Quot(s, p), x, k + 1, n);
  }

  ghost function NegQuot(c: Vec, p: real): Vec {
    i => -Quot(c(i), p)
  }

  lemma NegQuotAt(c: Vec, p: real, i: int, s: real)
    ensures NegQuot(c, p)(i) * s == -Quot(s, p) * c(i)
  {
    QuotSwap(c(i), s, p);
  }

  lemma SchurStep(A: Mat, k: nat, i: int, j: int)
    ensures Schur(A, k + 1, i, j) == Schur(A, k, i, j) + NegQuot(PivotCol(A, k), Pivot(A, k))(i) * PivotCol(A, k)(j)
  {
    QuotProd(Schur(A, k, i, k), Schur(A, k, j, k), Pivot(A, k));
  }

  lemma QuotProd(a: real, b: real, d: real)
    ensures Quot(Prod(a, b), d) == Quot(a, d) * b
  {
  }

  lemma QuotSwap(a: real, b: real, d: real)
    ensures -Quot(a, d) * b == -Quot(b, d) * a
  {
  }

  /** One elimination step completes a square: the quadratic form of the k-th complement is a multiple of a
      square plus the quadratic form of the next one. */
  lemma CompleteSquare(A: Mat, k: nat, x: Vec, n: int)
    requires k < n && Symmetric(A) && Pivot(A, k) != 0.0
    ensures Quad(SchurMat(A, k), x, k, n)
         == Pivot(A, k) * Sq(Completed(A, k, x, n)) + Quad(SchurMat(A, k + 1), x, k + 1, n)
  {
    hide Quot, Quad, Dot, Sq, Schur;
    QuadFirstSchur(A, k, x, n);
    EliminateQuad(A, k, x, n);
    SquareIdentity(Pivot(A, k), x(k), Dot(PivotCol(A, k), x, k + 1, n));
  }

  lemma QuadFirstSchur(A: Mat, k: nat, x: Vec, n: int)
    requires k < n && Symmetric(A)
    ensures Quad(SchurMat(A, k), x, k, n)
         == Pivot(A, k) * x(k) * x(k) + 2.0 * x(k) * Dot(PivotCol(A, k), x, k + 1, n) + Quad(SchurMat(A, k), x, k + 1, n)
  {
    SchurSymmetric(A, k);
    QuadFirst(SchurMat(A, k), x, k, n);
  }

  lemma SquareIdentity(p: real, x: real, s: real)
    requires p != 0.0
    ensures p * Sq(x + Quot(s, p)) == p * x * x + 2.0 * x * s + Quot(s, p) * s
  {
    var q := s / p;
    assert q * p == s;
    calc {
      p * Sq(x + q);
      p * ((x + q) * (x + q));
      p * x * x + 2.0 * x * (q * p) + q * (q * p);
      p * x * x + 2.0 * x * s + q * s;
    }
  }

  /** When a zero pivot has a zero column below it, elimination leaves the quadratic form alone. */
  lemma ZeroPivot(A: Mat, k: nat, x: Vec, n: int)
    requires k < n && Symmetric(A) && Pivot(A, k) == 0.0
    requires forall i :: k < i < n ==> Schur(A, k, i, k) == 0.0
    ensures Quad(SchurMat(A, k), x, k, n) == Quad(SchurMat(A, k + 1), x, k + 1, n)
  {
    hide Dot;
    SchurSymmetric(A, k);
    QuadFirst(SchurMat(A, k), x, k, n);
    DotZero(PivotCol(A, k), x, k + 1, n);
    QuadEq(SchurMat(A, k), SchurMat(A, k + 1), x, x, k + 1, n);
  }

  // ------------------------------------------------------------------------------- triangular systems

  /** Component j of the solution of L x = b by forward substitution, unknowns and equations starting at `from`. */
  ghost function Forward(L: Mat, b: Vec, from: nat, j: nat): real
    decreases j, 1
  {
    Quot(b(j) - Dot(ForwardVec(L, b, from, j), Row(L, j), from, j), L(j, j))
  }

  ghost function ForwardVec(L: Mat, b: Vec, from: nat, j: nat): Vec
    decreases j, 0
  {
    p => if from <= p < j then Forward(L, b, from, p) else 0.0
  }

  /** Forward substitution gives the only solution. */
  lemma {:induction false} ForwardUnique(L: Mat, b: Vec, from: nat, j: nat, x: Vec)
    requires from <= j
    requires forall p: nat :: from <= p <= j ==> L(p, p) != 0.0 && Dot(x, Row(L, p), from, p + 1) == b(p)
    ensures x(j) == Forward(L, b, from, j)
    decreases j
  {
    hide Quot, Dot;
    forall p: nat | from <= p < j ensures x(p) == ForwardVec(L, b, from, j)(p) {
      ForwardUnique(L, b, from, p, x);
    }
    DotEq(x, Row(L, j), ForwardVec(L, b, from, j), Row(L, j), from, j);
    DotLast(x, Row(L, j), from, j);
    DivideBoth(x(j), L(j, j), b(j) - Dot(x, Row(L, j), from, j));
  }

  /** ... and it is a solution. */
  lemma ForwardSolves(L: Mat, b: Vec, from: nat, j: nat, x: Vec)
    requires from <= j && L(j, j) != 0.0
    requires forall p: nat :: from <= p <= j ==> x(p) == Forward(L, b, from, p)
    ensures Dot(x, Row(L, j), from, j + 1) == b(j)
  {
    hide Dot;
    DotEq(x, Row(L, j), ForwardVec(L, b, from, j), Row(L, j), from, j);
    DotLast(x, Row(L, j), from, j);
  }

  lemma DivideBoth(x: real, r: real, s: real)
    requires r != 0.0 && x * r == s
    ensures x == Quot(s, r)
  {
  }

  // ------------------------------------------------------------- positive definiteness is a pivot condition

  lemma AddSquare(p: real, y: real, rest: real, q: real)
    requires p > 0.0 && rest >= 0.0 && q == p * Sq(y) + rest
    ensures q >= 0.0 && (y != 0.0 || rest > 0.0 ==> q > 0.0)
  {
    SqSign(y);
    ProdSign(p, Sq(y));
  }

  lemma {:induction false} PivotsPositive(A: Mat, k: nat, n: int, x: Vec)
    requires k <= n && Symmetric(A)
    requires forall j: nat :: k <= j < n ==> Pivot(A, j) > 0.0
    ensures Quad(SchurMat(A, k), x, k, n) >= 0.0
    ensures NonZero(x, k, n) ==> Quad(SchurMat(A, k), x, k, n) > 0.0
    decreases n - k
  {
    hide Schur, Dot, Sq;
    if k == n {
      DotNone(x, Mul(SchurMat(A, k), x, k, n), k);
    } else {
      PivotsPositive(A, k + 1, n, x);
      CompleteSquare(A, k, x, n);
      var y := Completed(A, k, x, n);
      AddSquare(Pivot(A, k), y, Quad(SchurMat(A, k + 1), x, k + 1, n), Quad(SchurMat(A, k), x, k, n));
      if y == 0.0 && !NonZero(x, k + 1, n) {
        DotZero(PivotCol(A, k), x, k + 1, n);
        assert x(k) == 0.0;
      }
    }
  }

  /** A vector, 1 at index f and 0 after it, that annihilates every square before the f-th. */
  lemma {:induction false} BackSubstitute(A: Mat, k: nat, f: nat) returns (x: Vec)
    requires k <= f && Symmetric(A)
    requires forall j: nat :: k <= j < f ==> Pivot(A, j) > 0.0
    ensures x(f) == 1.0 && forall i :: i > f ==> x(i) == 0.0
    ensures Quad(SchurMat(A, k), x, k, f + 1) == Pivot(A, f)
    decreases f - k
  {
    hide Schur, Dot, Sq;
    if k == f {
      x := i => if i == f then 1.0 else 0.0;
      QuadFirstSchur(A, f, x, f + 1);
      DotNone(x, Mul(SchurMat(A, f), x, f + 1, f + 1), f + 1);
      DotNone(PivotCol(A, f), x, f + 1);
    } else {
      var x' := BackSubstitute(A, k + 1, f);
      x := With(x', k, -Quot(Dot(PivotCol(A, k), x', k + 1, f + 1), Pivot(A, k)));
      CompleteSquare(A, k, x, f + 1);
      DotEq(PivotCol(A, k), x, PivotCol(A, k), x', k + 1, f + 1);
      SqZero(Completed(A, k, x, f + 1));
      QuadEq(SchurMat(A, k + 1), SchurMat(A, k + 1), x, x', k + 1, f + 1);
    }
  }

  lemma SqZero(y: real)
    requires y == 0.0
    ensures Sq(y) == 0.0
  {
  }

  ghost function With(x: Vec, k: int, v: real): Vec {
    i => if i == k then v else x(i)
  }

  ghost predicate PivotsUpTo(A: Mat, n: int) {
    forall k: nat :: k < n ==> Pivot(A, k) > 0.0
  }

  /** A symmetric matrix is positive definite exactly when every pivot is positive. */
  lemma PositiveDefiniteIffPivots(A: Mat, n: nat)
    requires Symmetric(A)
    ensures PositiveDefinite(A, n) <==> PivotsUpTo(A, n)
  {
    if PivotsUpTo(A, n) {
      forall x: Vec | NonZero(x, 0, n) ensures Quad(A, x, 0, n) > 0.0 {
        PivotsPositive(A, 0, n, x);
        QuadEq(SchurMat(A, 0), A, x, x, 0, n);
      }
    } else {
      var f := FirstBadPivot(A, n);
      var x := BackSubstitute(A, 0, f);
      QuadEq(SchurMat(A, 0), A, x, x, 0, f + 1);
      QuadPad(A, x, f + 1, n);
      assert x(f) != 0.0;
      assert NonZero(x, 0, n);
    }
  }

  lemma FirstBadPivot(A: Mat, n: nat) returns (f: nat)
    requires exists k: nat :: k < n && Pivot(A, k) <= 0.0
    ensures f < n && Pivot(A, f) <= 0.0
    ensures forall k: nat :: k < f ==> Pivot(A, k) > 0.0
  {
    f := 0;
    while Pivot(A, f) > 0.0
      invariant f < n
      invariant forall k: nat :: k < f ==> Pivot(A, k) > 0.0
      decreases n - f
    {
      f := f + 1;
    }
  }

  /** Indices on which the vector is zero do not contribute. */
  lemma QuadPad(A: Mat, x: Vec, m: int, n: int)
    requires 0 <= m <= n && forall i :: m <= i < n ==> x(i) == 0.0
    ensures Quad(A, x, 0, n) == Quad(A, x, 0, m)
  {
    forall i ensures Mul(A, x, 0, n)(i) == Mul(A, x, 0, m)(i) {
      SumSplit(0, m, n, Times(Row(A, i), x));
      SumZero(m, n, Times(Row(A, i), x));
    }
    var f := Times(x, Mul(A, x, 0, n));
    SumSplit(0, m, n, f);
    SumZero(m, n, f);
    DotEq(x, Mul(A, x, 0, n), x, Mul(A, x, 0, m), 0, m);
  }
}
