/** The 1-norm estimator of Core/ConditionEstimator.h and the matrix norm that `compute` takes from the lower
triangle, over exact reals.

A decomposition is seen through its two solve operations: for an invertible matrix with inverse M, `solve` is
multiplication by M and `adjoint().solve` multiplication by the transpose of M. */
module ConditionEstimator {
  import LDLT
  import opened LinearAlgebra
  import opened Semidefinite

  // ------------------------------------------------------------------------------------------------- norms

  ghost function AbsVec(x: Vec): Vec {
    i => Abs(x(i))
  }

  /** |x_0| + ... + |x_{n-1}| */
  ghost function L1(x: Vec, n: int): real {
    Sum(0, n, AbsVec(x))
  }

  /** The largest absolute sum among the first m columns. */
  ghost function LargestColumn(M: Mat, n: int, m: nat): real {
    if m == 0 then 0.0
    else if L1(Col(M, m - 1), n) > LargestColumn(M, n, m - 1) then L1(Col(M, m - 1), n)
    else LargestColumn(M, n, m - 1)
  }

  /** ||M||_1, the largest absolute column sum. */
  ghost function OneNorm(M: Mat, n: nat): real {
    LargestColumn(M, n, n)
  }

  lemma {:induction false} LargestColumnBound(M: Mat, n: int, m: nat, j: int)
    requires 0 <= j < m
    ensures L1(Col(M, j), n) <= LargestColumn(M, n, m)
  {
    if j < m - 1 {
      LargestColumnBound(M, n, m - 1, j);
    }
  }

  /** The norm is attained at a unit vector. */
  lemma {:induction false} LargestColumnAttained(M: Mat, n: int, m: nat) returns (j: nat)
    requires 0 < m
    ensures j < m && L1(Col(M, j), n) == LargestColumn(M, n, m)
  {
    hide L1;
    L1NonNegative(Col(M, m - 1), n);
    j := m - 1;
    if m > 1 && L1(Col(M, m - 1), n) <= LargestColumn(M, n, m - 1) {
      j := LargestColumnAttained(M, n, m - 1);
    }
  }

  lemma {:induction false} AbsSum(lo: int, hi: int, f: Vec)
    ensures Abs(Sum(lo, hi, f)) <= Sum(lo, hi, AbsVec(f))
    decreases hi - lo
  {
    if lo < hi {
      AbsSum(lo, hi - 1, f);
    }
  }

  lemma AbsProd(a: real, b: real)
    ensures Abs(Prod(a, b)) == Prod(Abs(a), Abs(b))
  {
    ProdSign(a, b);
    ProdSign(b, a);
    assert (-a) * b == -(a * b) && a * (-b) == -(a * b) && (-a) * (-b) == a * b;
  }

  lemma AbsTimes(x: Vec, y: Vec, lo: int, hi: int)
    ensures Abs(Dot(x, y, lo, hi)) <= Dot(AbsVec(x), AbsVec(y), lo, hi)
  {
    hide Prod, Abs;
    AbsSum(lo, hi, Times(x, y));
    forall i | lo <= i < hi ensures AbsVec(Times(x, y))(i) == Times(AbsVec(x), AbsVec(y))(i) {
      AbsProd(x(i), y(i));
    }
    SumEq(lo, hi, AbsVec(Times(x, y)), Times(AbsVec(x), AbsVec(y)));
  }

  lemma ProdMonotone(a: real, b: real, c: real)
    requires a >= 0.0 && b <= c
    ensures Prod(a, b) <= Prod(a, c)
  {
    ProdSign(a, c - b);
  }

  /** ||M x||_1 <= ||M||_1 ||x||_1 */
  lemma NormBound(M: Mat, n: nat, x: Vec)
    ensures L1(Mul(M, x, 0, n), n) <= Prod(OneNorm(M, n), L1(x, n))
  {
    hide Prod, Abs, OneNorm;
    var N := OneNorm(M, n);
    var G := (i, j) => Prod(Abs(M(i, j)), Abs(x(j)));
    var rows := i => Sum(0, n, j => G(i, j));
    var columns := j => Sum(0, n, i => G(i, j));
    forall i | 0 <= i < n ensures AbsVec(Mul(M, x, 0, n))(i) <= rows(i) {
      AbsTimes(Row(M, i), x, 0, n);
      SumEq(0, n, Times(AbsVec(Row(M, i)), AbsVec(x)), j => G(i, j));
    }
    SumMonotone(0, n, AbsVec(Mul(M, x, 0, n)), rows);
    SumSwap(0, n, 0, n, G);
    var bound := j => Prod(N, AbsVec(x)(j));
    forall j | 0 <= j < n ensures columns(j) <= bound(j) {
      ColumnOfNorm(M, n, j);
      ColumnBound(M, n, N, x, j);
      forall i ensures G(i, j) == Scaled(Abs(x(j)), AbsVec(Col(M, j)))(i) {
        ProdCommutes(Abs(M(i, j)), Abs(x(j)));
      }
      SumEq(0, n, i => G(i, j), Scaled(Abs(x(j)), AbsVec(Col(M, j))));
    }
    SumMonotone(0, n, columns, bound);
    SumScaled(0, n, N, AbsVec(x), bound);
  }

  lemma ColumnOfNorm(M: Mat, n: nat, j: int)
    requires 0 <= j < n
    ensures L1(Col(M, j), n) <= OneNorm(M, n)
  {
    LargestColumnBound(M, n, n, j);
  }

  lemma ColumnBound(M: Mat, n: int, N: real, x: Vec, j: int)
    requires L1(Col(M, j), n) <= N
    ensures Sum(0, n, Scaled(Abs(x(j)), AbsVec(Col(M, j)))) <= Prod(N, AbsVec(x)(j))
  {
    hide Prod;
    var a := Abs(x(j));
    SumScaled(0, n, a, AbsVec(Col(M, j)), Scaled(a, AbsVec(Col(M, j))));
    ProdMonotone(a, L1(Col(M, j), n), N);
    ProdCommutes(a, N);
  }

  lemma L1NonNegative(x: Vec, n: int)
    ensures L1(x, n) >= 0.0
  {
    var zero: Vec := i => 0.0;
    SumZero(0, n, zero);
    forall i ensures zero(i) <= AbsVec(x)(i) {
      assert AbsVec(x)(i) == Abs(x(i));
    }
    SumMonotone(0, n, zero, AbsVec(x));
  }

  // --------------------------------------------------------------------------------------------- the ascent

  /** Signs as `rcond_compute_sign` takes them: 1 for zero. */
  function SignOf(x: real): real {
    if x < 0.0 then -1.0 else 1.0
  }

  ghost function Signs(v: Vec): Vec {
    i => SignOf(v(i))
  }

  lemma SignTimes(x: real)
    ensures Prod(SignOf(x), x) == Abs(x)
  {
  }

  lemma SignsNorm(v: Vec, n: int)
    ensures Dot(Signs(v), v, 0, n) == L1(v, n)
  {
    hide Prod, SignOf, Abs;
    forall i ensures Times(Signs(v), v)(i) == AbsVec(v)(i) {
      SignTimes(v(i));
    }
    SumEq(0, n, Times(Signs(v), v), AbsVec(v));
  }

  /** M' s */
  ghost function AdjointMul(M: Mat, s: Vec, n: int): Vec {
    j => Dot(Col(M, j), s, 0, n)
  }

  /** s' (M x) == (M' s)' x */
  lemma AdjointDot(M: Mat, s: Vec, x: Vec, n: int)
    ensures Dot(s, Mul(M, x, 0, n), 0, n) == Dot(AdjointMul(M, s, n), x, 0, n)
  {
    hide Prod;
    var G := (i, j) => Prod(s(i), Prod(M(i, j), x(j)));
    var rows := i => Sum(0, n, j => G(i, j));
    var columns := j => Sum(0, n, i => G(i, j));
    forall i | 0 <= i < n ensures Times(s, Mul(M, x, 0, n))(i) == rows(i) {
      SumScaled(0, n, s(i), Times(Row(M, i), x), j => G(i, j));
    }
    SumEq(0, n, Times(s, Mul(M, x, 0, n)), rows);
    SumSwap(0, n, 0, n, G);
    forall j | 0 <= j < n ensures Times(AdjointMul(M, s, n), x)(j) == columns(j) {
      AdjointTerm(M, s, x, n, j);
      SumEq(0, n, i => Prod(s(i), Prod(M(i, j), x(j))), i => G(i, j));
    }
    SumEq(0, n, Times(AdjointMul(M, s, n), x), columns);
  }

  lemma AdjointTerm(M: Mat, s: Vec, x: Vec, n: int, j: int)
    ensures Times(AdjointMul(M, s, n), x)(j) == Sum(0, n, i => Prod(s(i), Prod(M(i, j), x(j))))
  {
    hide Prod;
    var f, g := Times(Col(M, j), s), i => Prod(s(i), Prod(M(i, j), x(j)));
    forall i ensures g(i) == Prod(x(j), f(i)) {
      Rotate(s(i), M(i, j), x(j));
    }
    SumScaled(0, n, x(j), f, g);
    ProdCommutes(x(j), Sum(0, n, f));
  }

  lemma Rotate(s: real, m: real, x: real)
    ensures Prod(s, Prod(m, x)) == Prod(x, Prod(m, s))
  {
  }

  /** The gradient of ||M x||_1. */
  ghost function Gradient(M: Mat, n: int, x: Vec): Vec {
    AdjointMul(M, Signs(Mul(M, x, 0, n)), n)
  }

  /** Moving to the unit vector of the largest gradient component never loses: x is any vector of norm 1. */
  lemma AscentStep(M: Mat, n: int, x: Vec, j: int)
    requires 0 <= j < n && L1(x, n) == 1.0
    requires forall i :: 0 <= i < n ==> Abs(Gradient(M, n, x)(i)) <= Abs(Gradient(M, n, x)(j))
    ensures L1(Mul(M, x, 0, n), n) <= L1(Col(M, j), n)
  {
    hide Prod, Abs, Dot, SignOf;
    var v := Mul(M, x, 0, n);
    var s := Signs(v);
    var g := Gradient(M, n, x);
    SignsNorm(v, n);
    AdjointDot(M, s, x, n);
    LargestComponent(g, x, n, Abs(g(j)));
    SignedSum(Col(M, j), v, n);
  }

  /** |g' x| <= G when |x|_1 == 1 and no component of g exceeds G. */
  lemma LargestComponent(g: Vec, x: Vec, n: int, G: real)
    requires L1(x, n) == 1.0 && forall i :: 0 <= i < n ==> Abs(g(i)) <= G
    ensures Dot(g, x, 0, n) <= G
  {
    hide Prod;
    AbsTimes(g, x, 0, n);
    var bound := i => Prod(G, AbsVec(x)(i));
    forall i | 0 <= i < n ensures Times(AbsVec(g), AbsVec(x))(i) <= bound(i) {
      ProdCommutes(Abs(g(i)), Abs(x(i)));
      ProdCommutes(G, Abs(x(i)));
      ProdMonotone(Abs(x(i)), Abs(g(i)), G);
    }
    SumMonotone(0, n, Times(AbsVec(g), AbsVec(x)), bound);
    SumScaled(0, n, G, AbsVec(x), bound);
    TimesOne(G);
  }

  /** |c' s| <= |c|_1 for a vector s of signs. */
  lemma SignedSum(c: Vec, v: Vec, n: int)
    ensures Abs(Dot(c, Signs(v), 0, n)) <= L1(c, n)
  {
    hide Prod;
    AbsTimes(c, Signs(v), 0, n);
    forall i ensures Times(AbsVec(c), AbsVec(Signs(v)))(i) == AbsVec(c)(i) {
      assert AbsVec(Signs(v))(i) == Abs(SignOf(v(i))) == 1.0;
      TimesOne(Abs(c(i)));
    }
    SumEq(0, n, Times(AbsVec(c), AbsVec(Signs(v))), AbsVec(c));
  }

  /** M e_j is column j. */
  lemma UnitColumn(M: Mat, n: int, j: int)
    requires 0 <= j < n
    ensures L1(Mul(M, Unit(j), 0, n), n) == L1(Col(M, j), n)
    ensures forall i :: 0 <= i < n ==> Mul(M, Unit(j), 0, n)(i) == M(i, j)
    ensures L1(Unit(j), n) == 1.0
  {
    hide Dot;
    forall i ensures Mul(M, Unit(j), 0, n)(i) == M(i, j) {
      DotUnit(Row(M, i), j, 0, n);
    }
    SumEq(0, n, AbsVec(Mul(M, Unit(j), 0, n)), AbsVec(Col(M, j)));
    UnitNorm(j, n);
  }

  lemma UnitNorm(j: int, n: int)
    requires 0 <= j < n
    ensures L1(Unit(j), n) == 1.0
  {
    hide Prod;
    var one: Vec := i => 1.0;
    DotUnit(one, j, 0, n);
    forall i ensures Times(one, Unit(j))(i) == AbsVec(Unit(j))(i) {
      TimesOne(Unit(j)(i));
      ProdCommutes(1.0, Unit(j)(i));
    }
    SumEq(0, n, Times(one, Unit(j)), AbsVec(Unit(j)));
  }

  // ------------------------------------------------------------------------------- where the ascent leads

  /** 1/n, ..., 1/n */
  ghost function Average(n: int): Vec
    requires n > 0
  {
    i => 1.0 / n as real
  }

  /** The first of its largest components. */
  ghost function Steepest(M: Mat, n: nat, x: Vec): (j: nat)
    requires n > 0
    ensures j < n
  {
    LDLT.FirstLargest(AsDiagonal(Gradient(M, n, x)), 0, n)
  }

  ghost function AsDiagonal(g: Vec): Mat {
    (i, j) => g(i)
  }

  lemma SteepestUnique(M: Mat, n: nat, x: Vec, j: nat)
    requires j < n
    requires forall i :: 0 <= i < n ==> Abs(Gradient(M, n, x)(i)) <= Abs(Gradient(M, n, x)(j))
    requires forall i :: 0 <= i < j ==> Abs(Gradient(M, n, x)(i)) < Abs(Gradient(M, n, x)(j))
    ensures j == Steepest(M, n, x)
  {
    hide Abs, Gradient;
    LDLT.FirstLargestUnique(AsDiagonal(Gradient(M, n, x)), 0, n, j);
  }

  lemma SteepestIs(M: Mat, n: nat, x: Vec)
    requires n > 0
    ensures forall i :: 0 <= i < n ==> Abs(Gradient(M, n, x)(i)) <= Abs(Gradient(M, n, x)(Steepest(M, n, x)))
    ensures forall i :: 0 <= i < Steepest(M, n, x) ==> Abs(Gradient(M, n, x)(i)) < Abs(Gradient(M, n, x)(Steepest(M, n, x)))
  {
    hide Abs, Gradient;
    var B, j := AsDiagonal(Gradient(M, n, x)), Steepest(M, n, x);
    forall i | 0 <= i < n
      ensures Abs(Gradient(M, n, x)(i)) <= Abs(Gradient(M, n, x)(j))
      ensures i < j ==> Abs(Gradient(M, n, x)(i)) < Abs(Gradient(M, n, x)(j))
    {
      assert Abs(B(i, i)) <= Abs(B(j, j)) && (i < j ==> Abs(B(i, i)) < Abs(B(j, j)));
    }
  }

  /** Equal signs of the images give the same direction. */
  lemma SameSigns(M: Mat, n: nat, x: Vec, y: Vec)
    requires n > 0 && forall i :: 0 <= i < n ==> Signs(Mul(M, x, 0, n))(i) == Signs(Mul(M, y, 0, n))(i)
    ensures Steepest(M, n, x) == Steepest(M, n, y)
  {
    hide Abs, Dot, SignOf, Steepest;
    forall j ensures Gradient(M, n, x)(j) == Gradient(M, n, y)(j) {
      DotEq(Col(M, j), Signs(Mul(M, x, 0, n)), Col(M, j), Signs(Mul(M, y, 0, n)), 0, n);
    }
    SteepestIs(M, n, x);
    SteepestUnique(M, n, y, Steepest(M, n, x));
  }

  /** The norm at which at most `steps` moves from x end: each goes to the unit vector of the first largest gradient
      component, and the last is the first that does not gain. */
  ghost function ClimbFrom(M: Mat, n: nat, x: Vec, steps: nat): real
    requires n > 0
    decreases steps
  {
    if steps == 0 then L1(Mul(M, x, 0, n), n)
    else
      var j := Steepest(M, n, x);
      if L1(Col(M, j), n) <= L1(Mul(M, x, 0, n), n) then L1(Col(M, j), n) else ClimbFrom(M, n, Unit(j), steps - 1)
  }

  /** The climb ends no lower than where it starts and than its first move, at a column of M. */
  lemma {:induction false} ClimbRises(M: Mat, n: nat, x: Vec, steps: nat) returns (j: nat)
    requires n > 0 && steps > 0 && L1(x, n) == 1.0
    ensures L1(Mul(M, x, 0, n), n) <= L1(Col(M, Steepest(M, n, x)), n) <= ClimbFrom(M, n, x, steps)
    ensures j < n && ClimbFrom(M, n, x, steps) == L1(Col(M, j), n) <= OneNorm(M, n)
    decreases steps
  {
    hide L1, Mul, Steepest, OneNorm;
    j := Steepest(M, n, x);
    SteepestGains(M, n, x);
    ColumnOfNorm(M, n, j);
    UnitColumn(M, n, j);
    if L1(Col(M, j), n) > L1(Mul(M, x, 0, n), n) {
      if steps == 1 {
        assert ClimbFrom(M, n, Unit(j), 0) == L1(Mul(M, Unit(j), 0, n), n);
      } else {
        j := ClimbRises(M, n, Unit(j), steps - 1);
      }
    }
  }

  lemma SteepestGains(M: Mat, n: nat, x: Vec)
    requires n > 0 && L1(x, n) == 1.0
    ensures L1(Mul(M, x, 0, n), n) <= L1(Col(M, Steepest(M, n, x)), n)
  {
    hide Steepest, L1, Mul, Abs, Gradient;
    SteepestIs(M, n, x);
    AscentStep(M, n, x, Steepest(M, n, x));
  }

  /** A climb that would stay where it is ends there. */
  lemma ClimbStays(M: Mat, n: nat, j: nat, steps: nat)
    requires j < n && Steepest(M, n, Unit(j)) == j
    ensures ClimbFrom(M, n, Unit(j), steps) == L1(Mul(M, Unit(j), 0, n), n)
  {
    hide L1, Mul, Steepest;
    UnitColumn(M, n, j);
  }

  // ---------------------------------------------------------------------------------- the alternating vector

  /** (-1)^i (1 + i / (n - 1)) */
  function Alternating(n: int): Vec
    requires n > 1
  {
    i => (if i % 2 == 0 then 1.0 else -1.0) * (1.0 + i as real / (n - 1) as real)
  }

  lemma {:induction false} AlternatingPrefix(n: int, m: int)
    requires n > 1 && 0 <= m <= n
    ensures Sum(0, m, AbsVec(Alternating(n))) == m as real + Quot((m * (m - 1)) as real, 2.0 * (n - 1) as real)
    decreases m
  {
    if m > 0 {
      AlternatingPrefix(n, m - 1);
      var q := (m - 1) as real / (n - 1) as real;
      assert q >= 0.0;
      assert Alternating(n)(m - 1) == 1.0 + q || Alternating(n)(m - 1) == -1.0 * (1.0 + q);
      assert AbsVec(Alternating(n))(m - 1) == 1.0 + q;
      QuotStep(m, 2.0 * (n - 1) as real);
      Halve((m - 1) as real, (n - 1) as real);
    }
  }

  lemma Halve(a: real, d: real)
    requires d != 0.0
    ensures 2.0 * a / (2.0 * d) == a / d
  {
    var q := a / d;
    assert q * d == a;
    assert q * (2.0 * d) == 2.0 * a;
  }

  lemma QuotStep(m: int, d: real)
    requires d != 0.0
    ensures Quot((m * (m - 1)) as real, d) == Quot(((m - 1) * (m - 2)) as real, d) + 2.0 * (m - 1) as real / d
  {
    assert m * (m - 1) == (m - 1) * (m - 2) + 2 * (m - 1);
    var a, b := ((m - 1) * (m - 2)) as real, 2.0 * (m - 1) as real;
    assert (a + b) / d == a / d + b / d;
  }

  /** The 1-norm of the alternating vector is 3 n / 2, the constant the estimate divides by. */
  lemma AlternatingNorm(n: int)
    requires n > 1
    ensures L1(Alternating(n), n) == 3.0 * n as real / 2.0
  {
    AlternatingPrefix(n, n);
    var a, d := n as real, (n - 1) as real;
    assert (n * (n - 1)) as real == a * d;
    assert a / 2.0 * (2.0 * d) == a * d;
    DivideBoth(a / 2.0, 2.0 * d, a * d);
  }

  // --------------------------------------------------------------------------------------------- the code

  /** The decomposition: an n by n inverse M, seen through solve and adjoint().solve. `solves` counts calls. */
  class Decomposition {
    const rows: nat
    const inverse: (int, int) -> real
    var solves: nat

    constructor (rows: nat, inverse: (int, int) -> real)
      ensures this.rows == rows && this.inverse == inverse && solves == 0
    {
      this.rows, this.inverse, solves := rows, inverse, 0;
    }

    /** solve(b) */
    method Solve(b: seq<real>) returns (x: seq<real>)
      requires |b| == rows
      modifies this
      ensures |x| == rows && forall i :: 0 <= i < rows ==> x[i] == Mul(inverse, Content(b), 0, rows)(i)
      ensures solves == old(solves) + 1
    {
      hide Dot;
      x := [];
      for i := 0 to rows
        invariant |x| == i && solves == old(solves)
        invariant forall r :: 0 <= r < i ==> x[r] == Mul(inverse, Content(b), 0, rows)(r)
      {
        var s := WeightedSum(j => inverse(i, j), b);
        DotEq(j => inverse(i, j), Content(b), Row(inverse, i), Content(b), 0, rows);
        x := x + [s];
      }
      solves := solves + 1;
    }

    /** adjoint().solve(b) */
    method AdjointSolve(b: seq<real>) returns (x: seq<real>)
      requires |b| == rows
      modifies this
      ensures |x| == rows && forall j :: 0 <= j < rows ==> x[j] == AdjointMul(inverse, Content(b), rows)(j)
      ensures solves == old(solves) + 1
    {
      hide Dot;
      x := [];
      for j := 0 to rows
        invariant |x| == j && solves == old(solves)
        invariant forall r :: 0 <= r < j ==> x[r] == AdjointMul(inverse, Content(b), rows)(r)
      {
        var s := WeightedSum(i => inverse(i, j), b);
        DotEq(i => inverse(i, j), Content(b), Col(inverse, j), Content(b), 0, rows);
        x := x + [s];
      }
      solves := solves + 1;
    }
  }

  method WeightedSum(a: int -> real, b: seq<real>) returns (s: real)
    ensures s == Dot(a, Content(b), 0, |b|)
  {
    hide Prod;
    s := 0.0;
    for i := 0 to |b|
      invariant s == Dot(a, Content(b), 0, i)
    {
      s := s + Prod(a(i), b[i]);
    }
  }

  /** v.lpNorm<1>() */
  method Norm(v: seq<real>) returns (s: real)
    ensures s == L1(Content(v), |v|)
  {
    s := 0.0;
    for i := 0 to |v|
      invariant s == Sum(0, i, AbsVec(Content(v)))
    {
      s := s + Abs(v[i]);
    }
  }

  /** v.cwiseAbs().maxCoeff(&j) */
  method LargestIndex(v: seq<real>) returns (j: nat)
    requires |v| > 0
    ensures j < |v| && forall i :: 0 <= i < |v| ==> Abs(v[i]) <= Abs(v[j])
    ensures forall i :: 0 <= i < j ==> Abs(v[i]) < Abs(v[j])
  {
    j := 0;
    for i := 1 to |v|
      invariant j < i && forall r :: 0 <= r < i ==> Abs(v[r]) <= Abs(v[j])
      invariant forall r :: 0 <= r < j ==> Abs(v[r]) < Abs(v[j])
    {
      if Abs(v[i]) > Abs(v[j]) {
        j := i;
      }
    }
  }

  /** `rcond_compute_sign` for real vectors. */
  method SignVector(v: seq<real>) returns (s: seq<real>)
    ensures |s| == |v| && forall i :: 0 <= i < |v| ==> s[i] == Signs(Content(v))(i)
  {
    s := [];
    for i := 0 to |v|
      invariant |s| == i && forall r :: 0 <= r < i ==> s[r] == Signs(Content(v))(r)
    {
      assert Signs(Content(v))(i) == SignOf(v[i]);
      s := s + [if v[i] < 0.0 then -1.0 else 1.0];
    }
  }

  method UnitVector(n: nat, j: nat) returns (e: seq<real>)
    requires j < n
    ensures |e| == n && forall i :: 0 <= i < n ==> e[i] == Unit(j)(i)
  {
    e := seq(n, i => if i == j then 1.0 else 0.0);
  }

  /** The loop that fills the alternating vector. */
  method FillAlternating(v: seq<real>) returns (w: seq<real>)
    requires |v| > 1
    ensures |w| == |v| && forall i :: 0 <= i < |w| ==> w[i] == Alternating(|v|)(i)
    ensures w[0] == 1.0 && forall i :: 0 < i < |w| ==> Alternates(w[i - 1], w[i], 1.0 / (|v| - 1) as real)
  {
    w := v;
    var sign, n := 1.0, |v|;
    for i := 0 to n
      invariant |w| == n && sign == (if i % 2 == 0 then 1.0 else -1.0)
      invariant forall r :: 0 <= r < i ==> w[r] == Alternating(n)(r)
    {
      w := w[i := sign * (1.0 + i as real / (n - 1) as real)];
      sign := -sign;
    }
    AlternatingFirst(n);
    forall i | 0 < i < n ensures Alternates(w[i - 1], w[i], 1.0 / (n - 1) as real) {
      AlternatingNext(n, i);
    }
  }

  /** The next entry has the other sign and is larger by the step. */
  predicate Alternates(a: real, b: real, step: real) {
    (a < 0.0 <==> b > 0.0) && Abs(b) == Abs(a) + step
  }

  lemma AlternatingFirst(n: int)
    requires n > 1
    ensures Alternating(n)(0) == 1.0
  {
  }

  lemma AlternatingNext(n: int, i: int)
    requires n > 1 && 0 < i < n
    ensures Alternates(Alternating(n)(i - 1), Alternating(n)(i), 1.0 / (n - 1) as real)
  {
    var p, q := (i - 1) as real / (n - 1) as real, i as real / (n - 1) as real;
    assert q == p + 1.0 / (n - 1) as real && p >= 0.0;
    assert Alternating(n)(i) == 1.0 + q || Alternating(n)(i) == -(1.0 + q);
    assert Alternating(n)(i - 1) == 1.0 + p || Alternating(n)(i - 1) == -(1.0 + p);
  }

  /** One iteration of the ascent after the sign test: v == M x for some x of norm 1, and bound its norm. */
  method Ascend(dec: Decomposition, signs: seq<real>, ghost x: Vec, ghost v: Vec) returns (j: nat)
    requires |signs| == dec.rows > 0 && L1(x, dec.rows) == 1.0
    requires forall i :: 0 <= i < dec.rows ==> v(i) == Mul(dec.inverse, x, 0, dec.rows)(i) && signs[i] == Signs(v)(i)
    modifies dec
    ensures j < dec.rows && dec.solves == old(dec.solves) + 1
    ensures j == Steepest(dec.inverse, dec.rows, x)
    ensures L1(v, dec.rows) <= L1(Col(dec.inverse, j), dec.rows)
  {
    hide Dot, Abs, SignOf, Steepest;
    var n := dec.rows;
    var g := dec.AdjointSolve(signs);
    j := LargestIndex(g);
    forall i | 0 <= i < n ensures g[i] == Gradient(dec.inverse, n, x)(i) {
      DotEq(Col(dec.inverse, i), Content(signs), Col(dec.inverse, i), Signs(Mul(dec.inverse, x, 0, n)), 0, n);
    }
    SteepestUnique(dec.inverse, n, x, j);
    AscentStep(dec.inverse, n, x, j);
    SumEq(0, n, AbsVec(v), AbsVec(Mul(dec.inverse, x, 0, n)));
  }

  /** A bound on the ratio of the image of x to x is a bound from below on the norm. */
  lemma RatioBound(M: Mat, n: nat, x: Vec)
    requires L1(x, n) == 1.0
    ensures L1(Mul(M, x, 0, n), n) <= OneNorm(M, n)
  {
    hide OneNorm, L1;
    NormBound(M, n, x);
    TimesOne(OneNorm(M, n));
  }

  lemma AverageNorm(n: int)
    requires n > 0
    ensures L1(Average(n), n) == 1.0
  {
    AveragePrefix(n, n);
  }

  lemma {:induction false} AveragePrefix(n: int, m: int)
    requires 0 <= m <= n && n > 0
    ensures Sum(0, m, AbsVec(Average(n))) == m as real / n as real
    decreases m
  {
    if m > 0 {
      AveragePrefix(n, m - 1);
      assert 1.0 / n as real > 0.0;
      assert Average(n)(m - 1) == 1.0 / n as real;
      assert AbsVec(Average(n))(m - 1) == Abs(Average(n)(m - 1));
      assert (m - 1) as real / n as real + 1.0 / n as real == m as real / n as real;
    }
  }

  /** The state of the ascent: v is the image of a vector of norm 1 and `bound` its norm. */
  ghost predicate Ascending(M: Mat, n: nat, v: seq<real>, x: Vec, bound: real)
    requires n > 0
  {
    && |v| == n && L1(x, n) == 1.0 && bound == L1(Content(v), n)
    && (forall i :: 0 <= i < n ==> v[i] == Mul(M, x, 0, n)(i))
    && L1(Mul(M, Average(n), 0, n), n) <= bound
  }

  lemma AscendingBounded(M: Mat, n: nat, v: seq<real>, x: Vec, bound: real)
    requires n > 0 && Ascending(M, n, v, x, bound)
    ensures bound <= OneNorm(M, n)
  {
    hide OneNorm, Mul;
    RatioBound(M, n, x);
    SumEq(0, n, AbsVec(Content(v)), AbsVec(Mul(M, x, 0, n)));
  }

  /** lower_bound = (v = solve(e_j)).lpNorm<1>() */
  method VisitUnit(dec: Decomposition, j: nat, ghost oldBound: real) returns (v: seq<real>, bound: real)
    requires j < dec.rows && oldBound <= L1(Col(dec.inverse, j), dec.rows)
    requires L1(Mul(dec.inverse, Average(dec.rows), 0, dec.rows), dec.rows) <= oldBound
    modifies dec
    ensures Ascending(dec.inverse, dec.rows, v, Unit(j), bound) && bound == L1(Col(dec.inverse, j), dec.rows) >= oldBound
    ensures dec.solves == old(dec.solves) + 1
  {
    hide Dot, Abs;
    var n := dec.rows;
    var e := UnitVector(n, j);
    v := dec.Solve(e);
    forall i | 0 <= i < n ensures v[i] == Mul(dec.inverse, Unit(j), 0, n)(i) {
      DotEq(Row(dec.inverse, i), Content(e), Row(dec.inverse, i), Unit(j), 0, n);
    }
    UnitColumn(dec.inverse, n, j);
    bound := Norm(v);
    SumEq(0, n, AbsVec(Content(v)), AbsVec(Mul(dec.inverse, Unit(j), 0, n)));
  }

  /** v = solve(1/n, ..., 1/n) */
  method Begin(dec: Decomposition) returns (v: seq<real>, bound: real)
    requires dec.rows > 0
    modifies dec
    ensures Ascending(dec.inverse, dec.rows, v, Average(dec.rows), bound)
    ensures dec.solves == old(dec.solves) + 1
  {
    hide Dot, Abs;
    var n := dec.rows;
    var b := seq(n, i => 1.0 / n as real);
    v := dec.Solve(b);
    AverageNorm(n);
    forall i | 0 <= i < n ensures v[i] == Mul(dec.inverse, Average(n), 0, n)(i) {
      DotEq(Row(dec.inverse, i), Content(b), Row(dec.inverse, i), Average(n), 0, n);
    }
    bound := Norm(v);
    SumEq(0, n, AbsVec(Content(v)), AbsVec(Mul(dec.inverse, Average(n), 0, n)));
  }

  /** The gradient ascent of at most four steps. Its tests for a repeated sign vector or index only save solves: the
      result is where the plain climb ends. */
  method Climb(dec: Decomposition, v0: seq<real>, bound0: real) returns (v: seq<real>, lowerBound: real)
    requires dec.rows > 1 && Ascending(dec.inverse, dec.rows, v0, Average(dec.rows), bound0)
    modifies dec
    ensures |v| == dec.rows && bound0 <= lowerBound <= OneNorm(dec.inverse, dec.rows)
    ensures lowerBound == ClimbFrom(dec.inverse, dec.rows, Average(dec.rows), 4)
    ensures L1(Col(dec.inverse, Steepest(dec.inverse, dec.rows, Average(dec.rows))), dec.rows) <= lowerBound
    ensures dec.solves <= old(dec.solves) + 8
  {
    hide OneNorm, Ascending, L1, Mul, Steepest, Signs;
    var n := dec.rows;
    v, lowerBound := v0, bound0;
    var oldLowerBound: real, oldIndex: int := bound0, -1;
    var oldSignVector: seq<real> := [];
    ghost var x, y := Average(n), Average(n);
    AscendingBounded(dec.inverse, n, v, x, lowerBound);
    AscendingState(dec.inverse, n, v, x, lowerBound);
    ghost var first := ClimbRises(dec.inverse, n, x, 4);
    for k := 0 to 4
      invariant Ascending(dec.inverse, n, v, x, lowerBound)
      invariant |v| == n && lowerBound == oldLowerBound
      invariant bound0 <= lowerBound <= OneNorm(dec.inverse, n)
      invariant ClimbFrom(dec.inverse, n, x, 4 - k) == ClimbFrom(dec.inverse, n, Average(n), 4)
      invariant k == 0 ==> oldIndex == -1
      invariant k > 0 ==> oldIndex == Steepest(dec.inverse, n, y) && x == Unit(oldIndex) && SignsOf(dec.inverse, n, y, oldSignVector)
      invariant dec.solves == old(dec.solves) + 2 * k
    {
      AscendingState(dec.inverse, n, v, x, lowerBound);
      var signVector := SignVector(v);
      SignsOfImage(dec.inverse, n, x, v, signVector);
      if k > 0 && signVector == oldSignVector {
        SameDirection(dec.inverse, n, x, y, signVector);
        ClimbStays(dec.inverse, n, oldIndex, 4 - k);
        break;
      }
      var j := Ascend(dec, signVector, x, Content(v));
      if j == oldIndex {
        ClimbStays(dec.inverse, n, j, 4 - k);
        break;
      }
      ghost var last := lowerBound;
      v, lowerBound := VisitUnit(dec, j, lowerBound);
      ClimbMoves(dec.inverse, n, x, 4 - k, last, lowerBound);
      x, y := Unit(j), x;
      AscendingBounded(dec.inverse, n, v, x, lowerBound);
      AscendingState(dec.inverse, n, v, x, lowerBound);
      if lowerBound <= oldLowerBound {
        break;
      }
      oldSignVector, oldIndex, oldLowerBound := signVector, j, lowerBound;
    }
    AscendingState(dec.inverse, n, v, x, lowerBound);
  }

  /** The signs of M x. */
  ghost predicate SignsOf(M: Mat, n: nat, x: Vec, signs: seq<real>) {
    |signs| == n && forall i :: 0 <= i < n ==> signs[i] == Signs(Mul(M, x, 0, n))(i)
  }

  lemma SignsOfImage(M: Mat, n: nat, x: Vec, v: seq<real>, signs: seq<real>)
    requires |signs| == |v| == n && forall i :: 0 <= i < n ==> v[i] == Mul(M, x, 0, n)(i) && signs[i] == Signs(Content(v))(i)
    ensures SignsOf(M, n, x, signs)
  {
    hide Dot;
  }

  lemma SameDirection(M: Mat, n: nat, x: Vec, y: Vec, signs: seq<real>)
    requires n > 0 && SignsOf(M, n, x, signs) && SignsOf(M, n, y, signs)
    ensures Steepest(M, n, x) == Steepest(M, n, y)
  {
    hide Steepest, Signs, Mul;
    SameSigns(M, n, x, y);
  }

  /** One more move of the climb. */
  lemma ClimbMoves(M: Mat, n: nat, x: Vec, steps: nat, last: real, next: real)
    requires n > 0 && steps > 0 && last == L1(Mul(M, x, 0, n), n) && next == L1(Col(M, Steepest(M, n, x)), n)
    ensures ClimbFrom(M, n, x, steps) == if next <= last then next else ClimbFrom(M, n, Unit(Steepest(M, n, x)), steps - 1)
  {
  }

  lemma AscendingState(M: Mat, n: nat, v: seq<real>, x: Vec, bound: real)
    requires n > 0 && Ascending(M, n, v, x, bound)
    ensures |v| == n && L1(x, n) == 1.0 && bound == L1(Content(v), n) == L1(Mul(M, x, 0, n), n)
    ensures forall i :: 0 <= i < n ==> Content(v)(i) == Mul(M, x, 0, n)(i)
    ensures L1(Mul(M, Average(n), 0, n), n) <= bound
  {
    hide Dot;
    SumEq(0, n, AbsVec(Content(v)), AbsVec(Mul(M, x, 0, n)));
  }

  /** The independent estimate from the alternating vector. */
  method Alternate(dec: Decomposition, v: seq<real>) returns (bound: real)
    requires |v| == dec.rows > 1
    modifies dec
    ensures Prod(bound, L1(Alternating(dec.rows), dec.rows)) == L1(Mul(dec.inverse, Alternating(dec.rows), 0, dec.rows), dec.rows)
    ensures bound == AlternateValue(dec.inverse, dec.rows) <= OneNorm(dec.inverse, dec.rows)
    ensures dec.solves == old(dec.solves) + 1
  {
    hide Dot, Abs, OneNorm, Alternating;
    var n := dec.rows;
    var a := FillAlternating(v);
    var w := dec.Solve(a);
    forall i | 0 <= i < n ensures w[i] == Mul(dec.inverse, Alternating(n), 0, n)(i) {
      DotEq(Row(dec.inverse, i), Content(a), Row(dec.inverse, i), Alternating(n), 0, n);
    }
    var s := Norm(w);
    SumEq(0, n, AbsVec(Content(w)), AbsVec(Mul(dec.inverse, Alternating(n), 0, n)));
    bound := (2.0 * s) / (3.0 * n as real);
    AlternatingNorm(n);
    NormBound(dec.inverse, n, Alternating(n));
    RatioOf(s, 3.0 * n as real / 2.0, OneNorm(dec.inverse, n), bound);
  }

  /** The ratio of the image of the alternating vector to the vector itself. */
  ghost function AlternateValue(M: Mat, n: nat): real
    requires n > 1
  {
    Quot(L1(Mul(M, Alternating(n), 0, n), n), L1(Alternating(n), n))
  }

  /** What the estimate is of any M: the larger of the end of the plain climb and the alternating ratio. */
  ghost function EstimateOf(M: Mat, n: nat): real
    requires n > 1
  {
    var climb, alternate := ClimbFrom(M, n, Average(n), 4), AlternateValue(M, n);
    if climb < alternate then alternate else climb
  }

  lemma RatioOf(s: real, d: real, N: real, r: real)
    requires d > 0.0 && s <= Prod(N, d) && r == (2.0 * s) / (2.0 * d)
    ensures Prod(r, d) == s && r == Quot(s, d) <= N
  {
    Halve(s, d);
    assert r * d == s;
    ProdSign(r - N, d);
  }

  /** `rcond_invmatrix_L1_norm_estimate`: never above the norm of the inverse, never below what the average
      and the alternating vectors and the first column of the ascent show, and at most 10 solves. */
  method Estimate(dec: Decomposition) returns (estimate: real)
    modifies dec
    ensures dec.rows == 0 ==> estimate == 0.0
    ensures estimate <= OneNorm(dec.inverse, dec.rows)
    ensures dec.rows > 0 ==> L1(Mul(dec.inverse, Average(dec.rows), 0, dec.rows), dec.rows) <= estimate
    ensures dec.rows > 1 ==> L1(Mul(dec.inverse, Alternating(dec.rows), 0, dec.rows), dec.rows) <= Prod(estimate, L1(Alternating(dec.rows), dec.rows))
    ensures dec.rows > 1 ==> L1(Col(dec.inverse, Steepest(dec.inverse, dec.rows, Average(dec.rows))), dec.rows) <= estimate
    ensures dec.rows > 1 ==> estimate == EstimateOf(dec.inverse, dec.rows)
    ensures dec.rows == 1 ==> estimate == OneNorm(dec.inverse, 1)
    ensures dec.solves <= old(dec.solves) + 10
  {
    hide OneNorm, L1, Ascending, Alternating, Mul, Prod, ClimbFrom, Steepest, AlternateValue;
    var n := dec.rows;
    if n == 0 {
      NoColumns(dec.inverse);
      return 0.0;
    }
    var v, lowerBound := Begin(dec);
    AscendingBounded(dec.inverse, n, v, Average(n), lowerBound);
    AscendingState(dec.inverse, n, v, Average(n), lowerBound);
    if n == 1 {
      OneColumn(dec.inverse);
      return lowerBound;
    }
    v, lowerBound := Climb(dec, v, lowerBound);
    var alternateBound := Alternate(dec, v);
    estimate := if lowerBound < alternateBound then alternateBound else lowerBound;
    L1NonNegative(Alternating(n), n);
    ProdMonotone(L1(Alternating(n), n), alternateBound, estimate);
    ProdCommutes(L1(Alternating(n), n), alternateBound);
    ProdCommutes(L1(Alternating(n), n), estimate);
  }

  lemma NoColumns(M: Mat)
    ensures OneNorm(M, 0) == 0.0
  {
  }

  lemma OneColumn(M: Mat)
    ensures L1(Mul(M, Average(1), 0, 1), 1) == OneNorm(M, 1)
  {
    var c := M(0, 0);
    TimesOne(c);
    DotNone(Row(M, 0), Average(1), 0);
    assert Mul(M, Average(1), 0, 1)(0) == Prod(c, 1.0);
    assert L1(Mul(M, Average(1), 0, 1), 1) == Sum(0, 0, AbsVec(Mul(M, Average(1), 0, 1))) + Abs(c);
    assert L1(Col(M, 0), 1) == Sum(0, 0, AbsVec(Col(M, 0))) + Abs(c);
    assert OneNorm(M, 1) == if Abs(c) > LargestColumn(M, 1, 0) then Abs(c) else LargestColumn(M, 1, 0);
  }

  // ---------------------------------------------------------------------------------- the reciprocal condition

  /** A M == I: M is the inverse of A. */
  ghost predicate Inverse(A: Mat, M: Mat, n: int) {
    forall i, j :: 0 <= i < n && 0 <= j < n ==> Dot(Row(A, i), Col(M, j), 0, n) == if i == j then 1.0 else 0.0
  }

  datatype Rcond = Infinity | Finite(value: real)

  /** A (M x) == x */
  lemma InverseApplied(A: Mat, M: Mat, n: int, x: Vec, i: int)
    requires Inverse(A, M, n) && 0 <= i < n
    ensures Mul(A, Mul(M, x, 0, n), 0, n)(i) == x(i)
  {
    hide Prod, Dot;
    AdjointRow(A, M, n, x, i);
    forall j | 0 <= j < n ensures AdjointMul(M, Row(A, i), n)(j) == Unit(i)(j) {
      DotCommutes(Col(M, j), Row(A, i), n);
    }
    DotEq(AdjointMul(M, Row(A, i), n), x, Unit(i), x, 0, n);
    DotCommutes(Unit(i), x, n);
    DotUnit(x, i, 0, n);
  }

  lemma AdjointRow(A: Mat, M: Mat, n: int, x: Vec, i: int)
    ensures Mul(A, Mul(M, x, 0, n), 0, n)(i) == Dot(AdjointMul(M, Row(A, i), n), x, 0, n)
  {
    AdjointDot(M, Row(A, i), x, n);
  }

  /** ||x|| <= ||A|| ||M x||: an inverse shrinks no vector to nothing. */
  lemma InverseNorm(A: Mat, M: Mat, n: nat, x: Vec)
    requires Inverse(A, M, n)
    ensures L1(x, n) <= Prod(OneNorm(A, n), L1(Mul(M, x, 0, n), n))
  {
    hide Mul, OneNorm, Abs;
    NormBound(A, n, Mul(M, x, 0, n));
    forall i | 0 <= i < n ensures AbsVec(x)(i) == AbsVec(Mul(A, Mul(M, x, 0, n), 0, n))(i) {
      InverseApplied(A, M, n, x, i);
    }
    SumEq(0, n, AbsVec(x), AbsVec(Mul(A, Mul(M, x, 0, n), 0, n)));
  }

  /** The image of the averaging vector already shows that no norm involved vanishes. */
  lemma AverageImage(A: Mat, M: Mat, n: nat)
    requires Inverse(A, M, n) && n > 0
    ensures Prod(OneNorm(A, n), L1(Mul(M, Average(n), 0, n), n)) >= 1.0
    ensures OneNorm(A, n) > 0.0 && L1(Mul(M, Average(n), 0, n), n) > 0.0
  {
    hide Mul, OneNorm, L1, Prod;
    AverageNorm(n);
    InverseNorm(A, M, n, Average(n));
    L1NonNegative(Mul(M, Average(n), 0, n), n);
    NormNonNegative(A, n);
    ProdSign(OneNorm(A, n), L1(Mul(M, Average(n), 0, n), n));
  }

  lemma NormNonNegative(A: Mat, n: nat)
    requires n > 0
    ensures OneNorm(A, n) >= 0.0
  {
    hide L1;
    ColumnOfNorm(A, n, 0);
    L1NonNegative(Col(A, 0), n);
  }

  lemma Reciprocal(norm: real, estimate: real, image: real, bound: real)
    requires norm > 0.0 && 0.0 < image <= estimate <= bound && Prod(norm, image) >= 1.0
    ensures Prod(norm, bound) > 0.0 && 1.0 / Prod(norm, bound) <= 1.0 / estimate / norm <= 1.0
  {
    ProdMonotone(norm, image, estimate);
    ProdMonotone(norm, estimate, bound);
    var a, b, e := Prod(norm, estimate), Prod(norm, bound), 1.0 / estimate;
    var r, t := e / norm, 1.0 / b;
    assert e * estimate == 1.0 && r * norm == e && t * b == 1.0;
    assert r * (norm * estimate) == (r * norm) * estimate;
    RatioOrder(t, r, a, b);
  }

  lemma RatioOrder(t: real, r: real, a: real, b: real)
    requires 1.0 <= a <= b && r * a == 1.0 && t * b == 1.0
    ensures t <= r <= 1.0
  {
    ProdSign(-r, a);
    ProdSign(-t, b);
    assert (-r) * a == -1.0 && (-t) * b == -1.0;
    assert r > 0.0 && t > 0.0;
    ProdMonotone(r, 1.0, a);
    ProdMonotone(t, a, b);
    ProdSign(t - r, a);
    assert (t - r) * a == t * a - r * a;
  }

  lemma OneByOne(A: Mat, M: Mat)
    requires Inverse(A, M, 1)
    ensures Prod(OneNorm(A, 1), OneNorm(M, 1)) == 1.0
  {
    hide Prod;
    SingleEntry(A);
    SingleEntry(M);
    AbsProd(A(0, 0), M(0, 0));
    DotNone(Row(A, 0), Col(M, 0), 0);
    DotLast(Row(A, 0), Col(M, 0), 0, 0);
    assert Dot(Row(A, 0), Col(M, 0), 0, 1) == 1.0;
  }

  lemma SingleEntry(M: Mat)
    ensures OneNorm(M, 1) == Abs(M(0, 0))
  {
    assert L1(Col(M, 0), 1) == Sum(0, 0, AbsVec(Col(M, 0))) + AbsVec(Col(M, 0))(0);
    assert OneNorm(M, 1) == if L1(Col(M, 0), 1) > LargestColumn(M, 1, 0) then L1(Col(M, 0), 1) else LargestColumn(M, 1, 0);
  }

  lemma NeverBelow(norm: real, estimate: real, bound: real)
    requires norm > 0.0 && 0.0 < estimate <= bound
    ensures 1.0 / estimate / norm > 0.0 && Prod(Prod(1.0 / estimate / norm, norm), bound) >= 1.0
  {
    var e := 1.0 / estimate;
    var r := e / norm;
    assert r * norm == e && e * estimate == 1.0;
    assert e > 0.0;
    ProdMonotone(e, estimate, bound);
    ProdSign(-r, norm);
  }

  /** The result is no larger than what any demonstrated lower bound on the norm of the inverse allows. */
  lemma NeverAbove(rcond: real, norm: real, estimate: real, image: real, size: real)
    requires rcond >= 0.0 && norm > 0.0 && Prod(Prod(rcond, norm), estimate) <= 1.0
    requires size >= 0.0 && image <= Prod(estimate, size)
    ensures Prod(Prod(rcond, norm), image) <= size
  {
    hide Prod;
    var u := Prod(rcond, norm);
    NonNegativeProd(rcond, norm);
    ProdMonotone(u, image, Prod(estimate, size));
    Regroup(u, estimate, size);
    ProdMonotone(size, Prod(u, estimate), 1.0);
    TimesOne(size);
  }

  lemma NothingAbove(M: Mat, n: nat, rcond: real, norm: real, estimate: real)
    requires n > 1 && rcond >= 0.0 && norm > 0.0 && Prod(Prod(rcond, norm), estimate) <= 1.0
    requires L1(Mul(M, Average(n), 0, n), n) <= estimate && L1(Col(M, Steepest(M, n, Average(n))), n) <= estimate
    requires L1(Mul(M, Alternating(n), 0, n), n) <= Prod(estimate, L1(Alternating(n), n))
    ensures Prod(Prod(rcond, norm), L1(Mul(M, Average(n), 0, n), n)) <= 1.0
    ensures Prod(Prod(rcond, norm), L1(Mul(M, Alternating(n), 0, n), n)) <= L1(Alternating(n), n)
    ensures Prod(Prod(rcond, norm), L1(Col(M, Steepest(M, n, Average(n))), n)) <= 1.0
  {
    hide L1, Mul, Alternating, Prod, Steepest;
    L1NonNegative(Alternating(n), n);
    TimesOne(estimate);
    NeverAbove(rcond, norm, estimate, L1(Mul(M, Average(n), 0, n), n), 1.0);
    NeverAbove(rcond, norm, estimate, L1(Mul(M, Alternating(n), 0, n), n), L1(Alternating(n), n));
    NeverAbove(rcond, norm, estimate, L1(Col(M, Steepest(M, n, Average(n))), n), 1.0);
  }

  lemma NonNegativeProd(a: real, b: real)
    requires a >= 0.0 && b >= 0.0
    ensures Prod(a, b) >= 0.0
  {
  }

  lemma Regroup(u: real, e: real, s: real)
    ensures Prod(u, Prod(e, s)) == Prod(s, Prod(u, e))
  {
  }

  lemma ExactReciprocal(norm: real, estimate: real)
    requires norm != 0.0 && estimate != 0.0
    ensures Prod(Prod(1.0 / estimate / norm, norm), estimate) == 1.0
  {
    var e := 1.0 / estimate;
    var r := e / norm;
    assert r * norm == e && e * estimate == 1.0;
  }

  lemma ZeroRcond(norm: real, estimate: real)
    ensures Prod(Prod(0.0, norm), estimate) == 0.0
  {
  }

  /** `rcond_estimate_helper`. For more than one row the result is exactly the reciprocal of matrixNorm times the
      estimate, and zero when the estimate is. Whatever linear map the solves are, the result is never above what the
      solves show: times the norm, times the norm of the image of the averaging vector, of the alternating one, or of
      the first unit vector of the ascent, it is at most the norm of that vector. A result that is not zero is never
      below the reciprocal of the product of the norms, and it is zero only if the solve takes the averaging vector to
      zero.
      When they are those of the inverse of A and matrixNorm is the norm of A, the result lies between the true
      reciprocal condition number and 1, and is exact for a 1 by 1 matrix. */
  method RcondEstimate(matrixNorm: real, dec: Decomposition, ghost A: Mat) returns (rcond: Rcond)
    modifies dec
    ensures rcond.Infinity? <==> dec.rows == 0
    ensures dec.rows > 0 && matrixNorm == 0.0 ==> rcond.value == 0.0
    ensures dec.rows == 1 && matrixNorm != 0.0 ==> rcond.value == 1.0
    ensures dec.rows > 0 && Inverse(A, dec.inverse, dec.rows) && matrixNorm == OneNorm(A, dec.rows) ==>
              var product := Prod(matrixNorm, OneNorm(dec.inverse, dec.rows));
              product > 0.0 && 1.0 / product <= rcond.value <= 1.0
    ensures dec.rows > 1 && matrixNorm > 0.0 ==>
              if rcond.value == 0.0 then L1(Mul(dec.inverse, Average(dec.rows), 0, dec.rows), dec.rows) == 0.0
              else rcond.value > 0.0 && Prod(Prod(rcond.value, matrixNorm), OneNorm(dec.inverse, dec.rows)) >= 1.0
    ensures dec.rows > 1 && matrixNorm != 0.0 ==>
              var estimate := EstimateOf(dec.inverse, dec.rows);
              if estimate == 0.0 then rcond.value == 0.0 else Prod(Prod(rcond.value, matrixNorm), estimate) == 1.0
    ensures dec.rows > 1 && matrixNorm > 0.0 ==>
              var n, M, u := dec.rows, dec.inverse, Prod(rcond.value, matrixNorm);
              && Prod(u, L1(Mul(M, Average(n), 0, n), n)) <= 1.0
              && Prod(u, L1(Mul(M, Alternating(n), 0, n), n)) <= L1(Alternating(n), n)
              && Prod(u, L1(Col(M, Steepest(M, n, Average(n))), n)) <= 1.0
    ensures dec.solves <= old(dec.solves) + 10
  {
    hide OneNorm, L1, Mul, Alternating, Prod, Inverse, Steepest, EstimateOf;
    var n := dec.rows;
    if n == 0 {
      return Infinity;
    }
    if Inverse(A, dec.inverse, n) {
      AverageImage(A, dec.inverse, n);
    }
    if matrixNorm == 0.0 {
      return Finite(0.0);
    }
    if n == 1 {
      if Inverse(A, dec.inverse, 1) {
        OneByOne(A, dec.inverse);
      }
      return Finite(1.0);
    }
    var estimate := Estimate(dec);
    L1NonNegative(Mul(dec.inverse, Average(n), 0, n), n);
    if estimate == 0.0 {
      ZeroRcond(matrixNorm, estimate);
      if matrixNorm > 0.0 {
        NothingAbove(dec.inverse, n, 0.0, matrixNorm, estimate);
      }
      return Finite(0.0);
    }
    ExactReciprocal(matrixNorm, estimate);
    if Inverse(A, dec.inverse, n) && matrixNorm == OneNorm(A, n) {
      Reciprocal(matrixNorm, estimate, L1(Mul(dec.inverse, Average(n), 0, n), n), OneNorm(dec.inverse, n));
    }
    if matrixNorm > 0.0 {
      NeverBelow(matrixNorm, estimate, OneNorm(dec.inverse, n));
      NothingAbove(dec.inverse, n, 1.0 / estimate / matrixNorm, matrixNorm, estimate);
    }
    rcond := Finite(1.0 / estimate / matrixNorm);
  }

  // ------------------------------------------------------------------------- the norm taken by `compute`

  lemma ColumnHalves(A: Mat, n: int, col: int)
    requires Symmetric(A) && 0 <= col < n
    ensures L1(Col(A, col), n) == Sum(col, n, AbsVec(Col(A, col))) + Sum(0, col, AbsVec(Row(A, col)))
  {
    hide Abs;
    SumSplit(0, col, n, AbsVec(Col(A, col)));
    SumEq(0, col, AbsVec(Col(A, col)), AbsVec(Row(A, col)));
  }

  /** The loop of `LLT::compute` and `LDLT::compute`: from the lower triangle alone, the 1-norm of the symmetric
      matrix it stands for. */
  method LowerNorm(mat: array2<real>, ghost A: Mat) returns (norm: real)
    requires mat.Length0 == mat.Length1 && Symmetric(A)
    requires forall i, j :: 0 <= j <= i < mat.Length0 ==> mat[i, j] == A(i, j)
    ensures norm == OneNorm(A, mat.Length0)
  {
    hide Abs, L1;
    var size := mat.Length0;
    norm := 0.0;
    for col := 0 to size
      invariant norm == LargestColumn(A, size, col)
    {
      var below, left := 0.0, 0.0;
      for i := col to size
        invariant below == Sum(col, i, AbsVec(Col(A, col)))
      {
        below := below + Abs(mat[i, col]);
      }
      for j := 0 to col
        invariant left == Sum(0, j, AbsVec(Row(A, col)))
      {
        left := left + Abs(mat[col, j]);
      }
      ColumnHalves(A, size, col);
      if below + left > norm {
        norm := below + left;
      }
    }
  }
}
