/** The in-place Cholesky factorizations of Cholesky/LLT.h, unblocked and blocked, over exact reals.

Both read and overwrite the lower triangle of `mat` only. The ghost argument `A` is the symmetric matrix whose
lower triangle `mat` holds on entry. Square roots come from a function argument that is only known to be a
positive square root of every positive real. */
module LLT {
  import opened Integers
  import opened LinearAlgebra

  ghost predicate IsSqrt(sqrt: real -> real) {
    forall x: real :: x > 0.0 ==> sqrt(x) > 0.0 && Sq(sqrt(x)) == x
  }

  /** Entry (i, j), j <= i, of the Cholesky factor of A. */
  ghost function Factor(A: Mat, sqrt: real -> real): Mat {
    (i, j) => if j < 0 then 0.0 else Quot(Schur(A, j, i, j), sqrt(Pivot(A, j)))
  }

  /** What the return value of a factorization of an n by n matrix promises. */
  ghost predicate Outcome(A: Mat, n: nat, ret: int) {
    && -1 <= ret < n
    && (ret == -1 ==> PositiveDefinite(A, n))
    && (ret >= 0 ==> PositiveDefinite(A, ret) && !PositiveDefinite(A, ret + 1))
  }

  // ------------------------------------------------------------------------------------------- the factor

  /** The product of two entries of column p of the factor is what elimination step p subtracts. */
  lemma FactorProduct(A: Mat, sqrt: real -> real, i: int, j: int, p: nat)
    requires IsSqrt(sqrt) && Pivot(A, p) > 0.0
    ensures Schur(A, p + 1, i, j) == Schur(A, p, i, j) - Factor(A, sqrt)(i, p) * Factor(A, sqrt)(j, p)
  {
    var r := sqrt(Pivot(A, p));
    QuotTwice(Schur(A, p, i, p), Schur(A, p, j, p), r, Pivot(A, p));
  }

  lemma QuotTwice(a: real, b: real, r: real, d: real)
    requires r > 0.0 && Sq(r) == d
    ensures d > 0.0 && Quot(Prod(a, b), d) == Quot(a, r) * Quot(b, r)
  {
    SqSign(r);
    var x, y := a / r, b / r;
    assert x * r == a && y * r == b;
    calc {
      a * b;
      (x * r) * (y * r);
      (x * y) * (r * r);
      (x * y) * d;
    }
  }

  /** Left-looking elimination: subtracting the rows' products over columns from..k leaves the k-th complement. */
  lemma {:induction false} LeftLooking(A: Mat, sqrt: real -> real, from: nat, k: nat, i: int, j: int)
    requires from <= k && IsSqrt(sqrt) && PivotsUpTo(A, k)
    ensures Schur(A, k, i, j) == Schur(A, from, i, j) - Dot(Row(Factor(A, sqrt), i), Row(Factor(A, sqrt), j), from, k)
    decreases k
  {
    hide Schur, Factor, Quot;
    if from == k {
      assert Dot(Row(Factor(A, sqrt), i), Row(Factor(A, sqrt), j), from, k) == 0.0;
    } else {
      LeftLooking(A, sqrt, from, k - 1, i, j);
      FactorProduct(A, sqrt, i, j, k - 1);
      DotLast(Row(Factor(A, sqrt), i), Row(Factor(A, sqrt), j), from, k - 1);
    }
  }

  lemma FactorDiagonal(A: Mat, sqrt: real -> real, k: nat)
    requires IsSqrt(sqrt) && Pivot(A, k) > 0.0
    ensures Factor(A, sqrt)(k, k) == sqrt(Pivot(A, k)) > 0.0
  {
    var r := sqrt(Pivot(A, k));
    assert Sq(r) == r * r;
    assert (r * r) / r == r;
  }

  /** L L' = A on the first n indices: `Factor` is a Cholesky factor. */
  lemma FactorReconstructs(A: Mat, sqrt: real -> real, n: int, i: nat, j: nat)
    requires IsSqrt(sqrt) && PivotsUpTo(A, n) && j <= i < n
    ensures Dot(Row(Factor(A, sqrt), i), Row(Factor(A, sqrt), j), 0, j + 1) == A(i, j)
  {
    hide Schur, Quot, Dot, Factor;
    var F := Factor(A, sqrt);
    LeftLooking(A, sqrt, 0, j, i, j);
    DotLast(Row(F, i), Row(F, j), 0, j);
    FactorDiagonal(A, sqrt, j);
    FactorTimesDiagonal(A, sqrt, i, j);
    assert Prod(F(i, j), F(j, j)) == Schur(A, j, i, j);
    SchurZero(A, i, j);
  }

  lemma FactorTimesDiagonal(A: Mat, sqrt: real -> real, i: int, j: nat)
    requires IsSqrt(sqrt) && Pivot(A, j) > 0.0
    ensures Factor(A, sqrt)(i, j) * sqrt(Pivot(A, j)) == Schur(A, j, i, j)
  {
  }

  lemma SchurZero(A: Mat, i: int, j: int)
    ensures Schur(A, 0, i, j) == A(i, j)
  {
  }

  /** Any lower triangular matrix with positive diagonal whose product with its transpose is A is `Factor`:
      the factor is unique. */
  lemma {:induction false} FactorUnique(A: Mat, sqrt: real -> real, n: int, L: Mat, i: nat, j: nat)
    requires IsSqrt(sqrt) && PivotsUpTo(A, n) && j <= i < n
    requires forall p: nat :: p < n ==> L(p, p) > 0.0
    requires forall p: nat, q: nat :: q <= p < n ==> Dot(Row(L, p), Row(L, q), 0, q + 1) == A(p, q)
    ensures L(i, j) == Factor(A, sqrt)(i, j)
    decreases j
  {
    hide Schur, Quot, Dot, Factor, Sq;
    var F := Factor(A, sqrt);
    forall r: nat, p: nat | p < j && p <= r < n ensures L(r, p) == F(r, p) {
      FactorUnique(A, sqrt, n, L, r, p);
    }
    UniqueColumn(A, sqrt, n, L, j, j);
    UniqueColumn(A, sqrt, n, L, i, j);
    FactorDiagonal(A, sqrt, j);
    FactorTimesDiagonal(A, sqrt, j, j);
    FactorTimesDiagonal(A, sqrt, i, j);
    SqInjective(L(j, j), F(j, j));
    Cancel(L(i, j), F(i, j), L(j, j));
  }

  /** A factor that agrees with `Factor` before column j has the same product with its diagonal in it. */
  lemma UniqueColumn(A: Mat, sqrt: real -> real, n: int, L: Mat, i: nat, j: nat)
    requires IsSqrt(sqrt) && PivotsUpTo(A, n) && j <= i < n
    requires Dot(Row(L, i), Row(L, j), 0, j + 1) == A(i, j)
    requires forall r: nat, p: nat :: p < j && p <= r < n ==> L(r, p) == Factor(A, sqrt)(r, p)
    ensures L(i, j) * L(j, j) == Schur(A, j, i, j)
  {
    hide Schur, Quot, Dot, Factor;
    var F := Factor(A, sqrt);
    DotEq(Row(L, i), Row(L, j), Row(F, i), Row(F, j), 0, j);
    DotLast(Row(L, i), Row(L, j), 0, j);
    LeftLooking(A, sqrt, 0, j, i, j);
    SchurZero(A, i, j);
  }

  lemma Cancel(x: real, y: real, r: real)
    requires r != 0.0 && x * r == y * r
    ensures x == y
  {
    assert (x - y) * r == 0.0;
  }

  lemma SqInjective(a: real, b: real)
    requires a > 0.0 && b > 0.0 && a * a == b * b
    ensures a == b
  {
    ProdSign(a - b, a + b);
    ProdSign(b - a, a + b);
  }

  /** The pivots decide the outcome; two runs with the same promise agree on the return value. */
  lemma PivotsDecide(A: Mat, n: nat, ret: int)
    requires Symmetric(A) && -1 <= ret < n
    requires ret == -1 ==> PivotsUpTo(A, n)
    requires ret >= 0 ==> PivotsUpTo(A, ret) && Pivot(A, ret) <= 0.0
    ensures Outcome(A, n, ret)
  {
    PositiveDefiniteIffPivots(A, if ret == -1 then n else ret);
    if ret >= 0 {
      PositiveDefiniteIffPivots(A, ret + 1);
    }
  }

  lemma OutcomeUnique(A: Mat, n: nat, r: int, s: int)
    requires Symmetric(A) && Outcome(A, n, r) && Outcome(A, n, s)
    ensures r == s
  {
    OutcomeOrder(A, n, r, s);
    OutcomeOrder(A, n, s, r);
  }

  lemma OutcomeOrder(A: Mat, n: nat, r: int, s: int)
    requires Symmetric(A) && Outcome(A, n, r) && Outcome(A, n, s)
    ensures !(0 <= r && (s == -1 || r < s))
  {
    if 0 <= r && (s == -1 || r < s) {
      PositiveDefiniteIffPivots(A, if s == -1 then n else s);
      PositiveDefiniteIffPivots(A, r + 1);
      assert false;
    }
  }

  // ------------------------------------------------------------------------------- loops inside one step

  /** sum of mat(i, p) mat(k, p) over lo <= p < hi */
  method RowProduct(mat: array2<real>, i: nat, k: nat, lo: nat, hi: nat, ghost x: Vec, ghost y: Vec) returns (s: real)
    requires i < mat.Length0 && k < mat.Length0 && lo <= hi <= mat.Length1
    requires forall p :: lo <= p < hi ==> mat[i, p] == x(p) && mat[k, p] == y(p)
    ensures s == Dot(x, y, lo, hi)
  {
    s := 0.0;
    for p := lo to hi
      invariant s == Dot(x, y, lo, p)
    {
      s := s + mat[i, p] * mat[k, p];
    }
  }

  /** A21 -= A20 * A10' : column g below the diagonal, minus products over the columns lo..g. */
  method SubtractProducts(mat: array2<real>, lo: nat, g: nat, end: nat, ghost L: Mat)
    requires lo <= g < end <= mat.Length0 && end <= mat.Length1
    requires forall i, p :: g <= i < end && lo <= p < g ==> mat[i, p] == L(i, p)
    modifies mat
    ensures forall i :: g < i < end ==> mat[i, g] == old(mat[i, g]) - Dot(Row(L, i), Row(L, g), lo, g)
    ensures forall i, j :: 0 <= i < mat.Length0 && 0 <= j < mat.Length1 && !(j == g < i < end) ==> mat[i, j] == old(mat[i, j])
  {
    for i := g + 1 to end
      invariant forall r :: g < r < i ==> mat[r, g] == old(mat[r, g]) - Dot(Row(L, r), Row(L, g), lo, g)
      invariant forall r, j :: 0 <= r < mat.Length0 && 0 <= j < mat.Length1 && !(j == g < r < i) ==> mat[r, j] == old(mat[r, j])
    {
      var s := RowProduct(mat, i, g, lo, g, Row(L, i), Row(L, g));
      mat[i, g] := mat[i, g] - s;
    }
  }

  /** A21 /= x */
  method DivideColumn(mat: array2<real>, g: nat, end: nat, x: real)
    requires g < end <= mat.Length0 && end <= mat.Length1 && x != 0.0
    modifies mat
    ensures forall i :: g < i < end ==> mat[i, g] == Quot(old(mat[i, g]), x)
    ensures forall i, j :: 0 <= i < mat.Length0 && 0 <= j < mat.Length1 && !(j == g < i < end) ==> mat[i, j] == old(mat[i, j])
  {
    for i := g + 1 to end
      invariant forall r :: g < r < i ==> mat[r, g] == Quot(old(mat[r, g]), x)
      invariant forall r, j :: 0 <= r < mat.Length0 && 0 <= j < mat.Length1 && !(j == g < r < i) ==> mat[r, j] == old(mat[r, j])
    {
      mat[i, g] := mat[i, g] / x;
    }
  }

  // --------------------------------------------------------------------------------- unblocked and blocked

  /** The lower triangle of the block [off, end) holds the factor in the columns before `done` and the
      off-th complement from there on. */
  ghost predicate PartFactored(mat: array2<real>, A: Mat, sqrt: real -> real, off: nat, done: nat, end: nat)
    requires end <= mat.Length0 && end <= mat.Length1
    reads mat
  {
    forall i, j :: off <= j <= i < end ==> mat[i, j] == if j < done then Factor(A, sqrt)(i, j) else Schur(A, off, i, j)
  }

  /** One iteration: the pivot of column g and, when it is positive, the column itself. */
  method Column(mat: array2<real>, off: nat, g: nat, end: nat, sqrt: real -> real, ghost A: Mat) returns (pivot: real)
    requires off <= g < end <= mat.Length0 && end <= mat.Length1
    requires IsSqrt(sqrt) && PivotsUpTo(A, g) && PartFactored(mat, A, sqrt, off, g, end)
    modifies mat
    ensures pivot == Pivot(A, g)
    ensures pivot <= 0.0 ==> forall i, j :: 0 <= i < mat.Length0 && 0 <= j < mat.Length1 ==> mat[i, j] == old(mat[i, j])
    ensures pivot > 0.0 ==> PartFactored(mat, A, sqrt, off, g + 1, end)
    ensures forall i, j :: 0 <= i < mat.Length0 && 0 <= j < mat.Length1 && !(j == g <= i < end) ==> mat[i, j] == old(mat[i, j])
  {
    hide Schur, Quot, Dot, PivotsUpTo;
    ghost var L := Factor(A, sqrt);
    pivot := mat[g, g];
    if g > off {
      var s := RowProduct(mat, g, g, off, g, Row(L, g), Row(L, g));
      pivot := pivot - s;
    }
    LeftLooking(A, sqrt, off, g, g, g);
    if pivot > 0.0 {
      mat[g, g] := sqrt(pivot);
      FactorDiagonal(A, sqrt, g);
      BelowDiagonal(mat, off, g, end, mat[g, g], sqrt, A);
    }
  }

  /** The column below a positive pivot. */
  method BelowDiagonal(mat: array2<real>, off: nat, g: nat, end: nat, x: real, sqrt: real -> real, ghost A: Mat)
    requires off <= g < end <= mat.Length0 && end <= mat.Length1
    requires IsSqrt(sqrt) && PivotsUpTo(A, g) && Pivot(A, g) > 0.0 && x == Factor(A, sqrt)(g, g)
    requires forall i, j :: off <= j < g && g <= i < end ==> mat[i, j] == Factor(A, sqrt)(i, j)
    requires forall i :: g < i < end ==> mat[i, g] == Schur(A, off, i, g)
    modifies mat
    ensures forall i :: g < i < end ==> mat[i, g] == Factor(A, sqrt)(i, g)
    ensures forall i, j :: 0 <= i < mat.Length0 && 0 <= j < mat.Length1 && !(j == g < i < end) ==> mat[i, j] == old(mat[i, j])
  {
    hide Schur, Quot, Dot, PivotsUpTo;
    FactorDiagonal(A, sqrt, g);
    if g > off && g + 1 < end {
      SubtractProducts(mat, off, g, end, Factor(A, sqrt));
    }
    forall i | g < i < end ensures mat[i, g] == Schur(A, g, i, g) {
      LeftLooking(A, sqrt, off, g, i, g);
    }
    if g + 1 < end {
      DivideColumn(mat, g, end, x);
    }
  }

  /** `llt_inplace<Lower>::unblocked` on the square block of `mat` that starts at (off, off). */
  method Unblocked(mat: array2<real>, off: nat, size: nat, sqrt: real -> real, ghost A: Mat) returns (ret: int)
    requires off + size <= mat.Length0 && off + size <= mat.Length1
    requires IsSqrt(sqrt) && PivotsUpTo(A, off)
    requires PartFactored(mat, A, sqrt, off, off, off + size)
    modifies mat
    ensures -1 <= ret < size
    ensures PivotsUpTo(A, off + if ret == -1 then size else ret)
    ensures ret >= 0 ==> Pivot(A, off + ret) <= 0.0
    ensures PartFactored(mat, A, sqrt, off, off + if ret == -1 then size else ret, off + size)
    ensures forall i, j :: 0 <= i < mat.Length0 && 0 <= j < mat.Length1 && !(off <= j <= i < off + size) ==> mat[i, j] == old(mat[i, j])
  {
    hide Schur, Factor, Pivot;
    for k := 0 to size
      invariant PivotsUpTo(A, off + k)
      invariant PartFactored(mat, A, sqrt, off, off + k, off + size)
      invariant forall i, j :: 0 <= i < mat.Length0 && 0 <= j < mat.Length1 && !(off <= j <= i < off + size) ==> mat[i, j] == old(mat[i, j])
    {
      var x := Column(mat, off, off + k, off + size, sqrt, A);
      if x <= 0.0 {
        return k;
      }
    }
    return -1;
  }

  /** A11.adjoint().triangularView<Upper>().solveInPlace<OnTheRight>(A21): rows mid..end of the columns
      from..mid become the solution of X A11' = A21, one row at a time. */
  method SolveOnTheRight(mat: array2<real>, from: nat, mid: nat, end: nat, ghost L: Mat, ghost B: Mat)
    requires from <= mid <= end <= mat.Length0 && end <= mat.Length1
    requires forall i, j :: from <= j <= i < mid ==> mat[i, j] == L(i, j)
    requires forall j :: from <= j < mid ==> L(j, j) != 0.0
    requires forall i, j :: mid <= i < end && from <= j < mid ==> mat[i, j] == B(i, j)
    modifies mat
    ensures forall i, j: nat :: mid <= i < end && from <= j < mid ==> mat[i, j] == Forward(L, Row(B, i), from, j)
    ensures forall i, j :: 0 <= i < mat.Length0 && 0 <= j < mat.Length1 && !(mid <= i < end && from <= j < mid) ==> mat[i, j] == old(mat[i, j])
  {
    hide Forward;
    for i := mid to end
      invariant forall r, j: nat :: mid <= r < i && from <= j < mid ==> mat[r, j] == Forward(L, Row(B, r), from, j)
      invariant forall r, j :: i <= r < end && from <= j < mid ==> mat[r, j] == B(r, j)
      invariant forall r, j :: 0 <= r < mat.Length0 && 0 <= j < mat.Length1 && !(mid <= r < i && from <= j < mid) ==> mat[r, j] == old(mat[r, j])
    {
      SolveRow(mat, from, mid, i, L, Row(B, i));
    }
  }

  method SolveRow(mat: array2<real>, from: nat, mid: nat, i: nat, ghost L: Mat, ghost b: Vec)
    requires from <= mid <= i < mat.Length0 && mid <= mat.Length1
    requires forall r, j :: from <= j <= r < mid ==> mat[r, j] == L(r, j)
    requires forall j :: from <= j < mid ==> L(j, j) != 0.0
    requires forall j :: from <= j < mid ==> mat[i, j] == b(j)
    modifies mat
    ensures forall j: nat :: from <= j < mid ==> mat[i, j] == Forward(L, b, from, j)
    ensures forall r, j :: 0 <= r < mat.Length0 && 0 <= j < mat.Length1 && !(r == i && from <= j < mid) ==> mat[r, j] == old(mat[r, j])
  {
    hide Dot;
    for j := from to mid
      invariant forall q: nat :: from <= q < j ==> mat[i, q] == Forward(L, b, from, q)
      invariant forall q :: j <= q < mid ==> mat[i, q] == b(q)
      invariant forall r, q :: 0 <= r < mat.Length0 && 0 <= q < mat.Length1 && !(r == i && from <= q < j) ==> mat[r, q] == old(mat[r, q])
    {
      var s := RowProduct(mat, i, j, from, j, ForwardVec(L, b, from, j), Row(L, j));
      mat[i, j] := (mat[i, j] - s) / mat[j, j];
    }
  }

  /** A22.selfadjointView<Lower>().rankUpdate(A21, -1): subtracts A21 A21' from the lower triangle of A22. */
  method RankUpdate(mat: array2<real>, from: nat, mid: nat, end: nat, ghost L: Mat)
    requires from <= mid <= end <= mat.Length0 && end <= mat.Length1
    requires forall i, p :: mid <= i < end && from <= p < mid ==> mat[i, p] == L(i, p)
    modifies mat
    ensures forall i, j :: mid <= j <= i < end ==> mat[i, j] == old(mat[i, j]) - Dot(Row(L, i), Row(L, j), from, mid)
    ensures forall i, j :: 0 <= i < mat.Length0 && 0 <= j < mat.Length1 && !(mid <= j <= i < end) ==> mat[i, j] == old(mat[i, j])
  {
    hide Dot;
    for g := mid to end
      invariant forall i, j :: mid <= j <= i < end && j < g ==> mat[i, j] == old(mat[i, j]) - Dot(Row(L, i), Row(L, j), from, mid)
      invariant forall i, j :: 0 <= i < mat.Length0 && 0 <= j < mat.Length1 && !(mid <= j <= i < end && j < g) ==> mat[i, j] == old(mat[i, j])
    {
      RankUpdateColumn(mat, from, mid, g, end, L);
    }
  }

  method RankUpdateColumn(mat: array2<real>, from: nat, mid: nat, g: nat, end: nat, ghost L: Mat)
    requires from <= mid <= g < end <= mat.Length0 && end <= mat.Length1
    requires forall i, p :: mid <= i < end && from <= p < mid ==> mat[i, p] == L(i, p)
    modifies mat
    ensures forall i :: g <= i < end ==> mat[i, g] == old(mat[i, g]) - Dot(Row(L, i), Row(L, g), from, mid)
    ensures forall i, j :: 0 <= i < mat.Length0 && 0 <= j < mat.Length1 && !(j == g <= i < end) ==> mat[i, j] == old(mat[i, j])
  {
    hide Dot;
    for i := g to end
      invariant forall r :: g <= r < i ==> mat[r, g] == old(mat[r, g]) - Dot(Row(L, r), Row(L, g), from, mid)
      invariant forall r, j :: 0 <= r < mat.Length0 && 0 <= j < mat.Length1 && !(j == g <= r < i) ==> mat[r, j] == old(mat[r, j])
    {
      var s := RowProduct(mat, i, g, from, mid, Row(L, i), Row(L, g));
      mat[i, g] := mat[i, g] - s;
    }
  }

  /** In exact arithmetic the triangular solve leaves exactly the factor's entries. */
  lemma SolveGivesFactor(A: Mat, sqrt: real -> real, from: nat, i: int, j: nat)
    requires IsSqrt(sqrt) && PivotsUpTo(A, j + 1) && from <= j
    ensures Forward(Factor(A, sqrt), Row(SchurMat(A, from), i), from, j) == Factor(A, sqrt)(i, j)
  {
    hide Dot, Quot, Schur, Factor, Forward;
    var F := Factor(A, sqrt);
    forall p: nat | from <= p <= j
      ensures F(p, p) != 0.0 && Dot(Row(F, i), Row(F, p), from, p + 1) == Row(SchurMat(A, from), i)(p)
    {
      FactorDiagonal(A, sqrt, p);
      LeftLooking(A, sqrt, from, p, i, p);
      DotLast(Row(F, i), Row(F, p), from, p);
      FactorTimesDiagonal(A, sqrt, i, p);
    }
    ForwardUnique(F, Row(SchurMat(A, from), i), from, j, Row(F, i));
  }

  /** The lower triangle between two blocks: factored before column `done`, the done-th complement from there on. */
  ghost predicate BlocksFactored(mat: array2<real>, A: Mat, sqrt: real -> real, done: nat, size: nat)
    requires size <= mat.Length0 && size <= mat.Length1
    reads mat
  {
    forall i, j :: 0 <= j <= i < size ==> mat[i, j] == if j < done then Factor(A, sqrt)(i, j) else Schur(A, done, i, j)
  }

  /** The three block operations advance the factorization from column k to column mid. */
  method FactorBlock(m: array2<real>, k: nat, mid: nat, size: nat, sqrt: real -> real, ghost A: Mat) returns (ret: int)
    requires k < mid <= size == m.Length0 == m.Length1
    requires IsSqrt(sqrt) && PivotsUpTo(A, k)
    requires BlocksFactored(m, A, sqrt, k, size)
    modifies m
    ensures -1 <= ret < mid - k
    ensures ret == -1 ==> PivotsUpTo(A, mid) && BlocksFactored(m, A, sqrt, mid, size)
    ensures ret >= 0 ==> PivotsUpTo(A, k + ret) && Pivot(A, k + ret) <= 0.0
    ensures ret >= 0 ==> forall i, j :: 0 <= j <= i < k + ret ==> m[i, j] == Factor(A, sqrt)(i, j)
    ensures forall i, j :: 0 <= i < j < size ==> m[i, j] == old(m[i, j])
  {
    hide Dot, Schur, Factor, Quot, Forward;
    ghost var L := Factor(A, sqrt);
    ret := Unblocked(m, k, mid - k, sqrt, A);
    if ret >= 0 {
      return;
    }
    if mid < size {
      forall j | k <= j < mid ensures L(j, j) != 0.0 {
        FactorDiagonal(A, sqrt, j);
      }
      SolveOnTheRight(m, k, mid, size, L, SchurMat(A, k));
      forall i, j: nat | mid <= i < size && k <= j < mid ensures m[i, j] == L(i, j) {
        SolveGivesFactor(A, sqrt, k, i, j);
      }
      RankUpdate(m, k, mid, size, L);
      forall i, j | mid <= j <= i < size ensures m[i, j] == Schur(A, mid, i, j) {
        LeftLooking(A, sqrt, k, mid, i, j);
      }
    }
  }

  /** `llt_inplace<Lower>::blocked`. The outcome does not depend on the block size: the matrix is reported
      positive definite exactly when it is, a failure is reported at the size of the largest positive definite
      leading block, and the factor is the one the unblocked code computes. */
  method Blocked(m: array2<real>, sqrt: real -> real, ghost A: Mat) returns (ret: int)
    requires m.Length0 == m.Length1 && IsSqrt(sqrt) && Symmetric(A)
    requires forall i, j :: 0 <= j <= i < m.Length0 ==> m[i, j] == A(i, j)
    modifies m
    ensures Outcome(A, m.Length0, ret)
    ensures forall i, j :: 0 <= j <= i < (if ret == -1 then m.Length0 else ret) ==> m[i, j] == Factor(A, sqrt)(i, j)
    ensures forall i, j :: 0 <= i < j < m.Length0 ==> m[i, j] == old(m[i, j])
  {
    hide Factor, Pivot, Schur, BlocksFactored, PivotsUpTo, Outcome;
    var size := m.Length0;
    StartBlocks(m, sqrt, A);
    if size < 32 {
      ret := UnblockedWhole(m, sqrt, A);
      return;
    }
    var blockSize := size / 8;
    blockSize := (blockSize / 16) * 16;
    blockSize := Min(Max(blockSize, 8), 128);
    var k := 0;
    ghost var done := 0;
    while k < size
      invariant k >= 0 && done == Min(k, size)
      invariant PivotsUpTo(A, done) && BlocksFactored(m, A, sqrt, done, size)
      invariant forall i, j :: 0 <= i < j < size ==> m[i, j] == old(m[i, j])
      decreases size - k
    {
      var bs := Min(blockSize, size - k);
      ret := FactorBlock(m, k, k + bs, size, sqrt, A);
      if ret >= 0 {
        PivotsDecide(A, size, k + ret);
        return k + ret;
      }
      done := k + bs;
      k := k + blockSize;
    }
    PivotsDecide(A, size, -1);
    EndBlocks(m, sqrt, A);
    return -1;
  }

  lemma StartBlocks(m: array2<real>, sqrt: real -> real, A: Mat)
    requires m.Length0 == m.Length1 && forall i, j :: 0 <= j <= i < m.Length0 ==> m[i, j] == A(i, j)
    ensures PivotsUpTo(A, 0) && BlocksFactored(m, A, sqrt, 0, m.Length0)
  {
  }

  lemma EndBlocks(m: array2<real>, sqrt: real -> real, A: Mat)
    requires m.Length0 == m.Length1 && BlocksFactored(m, A, sqrt, m.Length0, m.Length0)
    ensures forall i, j :: 0 <= j <= i < m.Length0 ==> m[i, j] == Factor(A, sqrt)(i, j)
  {
    hide Factor, Schur;
  }

  /** `unblocked` on a whole matrix keeps the same promise as `Blocked`. */
  method UnblockedWhole(m: array2<real>, sqrt: real -> real, ghost A: Mat) returns (ret: int)
    requires m.Length0 == m.Length1 && IsSqrt(sqrt) && Symmetric(A)
    requires forall i, j :: 0 <= j <= i < m.Length0 ==> m[i, j] == A(i, j)
    modifies m
    ensures Outcome(A, m.Length0, ret)
    ensures forall i, j :: 0 <= j <= i < (if ret == -1 then m.Length0 else ret) ==> m[i, j] == Factor(A, sqrt)(i, j)
    ensures forall i, j :: 0 <= i < j < m.Length0 ==> m[i, j] == old(m[i, j])
  {
    hide Factor, Pivot;
    ret := Unblocked(m, 0, m.Length0, sqrt, A);
    PivotsDecide(A, m.Length0, ret);
  }
}
