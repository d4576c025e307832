/** The pivoted in-place factorization P A P' = L D L' of Cholesky/LDLT.h, over exact reals.

`unblocked` is left-looking: before step k the lower triangle holds finished columns of L and D before column k and
untouched (only permuted) entries of the symmetric input from column k on. The specification is the elimination of
the permuted matrix: entry k of D is its k-th pivot, and column k of L its k-th complement's column, divided by the
pivot unless that is zero. */
module LDLT {
  import opened LinearAlgebra
  import opened RankOne
  import opened Semidefinite

  datatype SignMatrix = PositiveSemiDef | NegativeSemiDef | ZeroSign | Indefinite

  // ------------------------------------------------------------------------------------- transpositions

  /** A with rows and columns exchanged by the transpositions (0 tr[0]), (1 tr[1]), ... in turn: P A P'. */
  ghost function Permuted(A: Mat, tr: seq<int>): Mat {
    if tr == [] then A else SwapMat(|tr| - 1, tr[|tr| - 1], Permuted(A, tr[..|tr| - 1]))
  }

  ghost predicate Transpositions(tr: seq<int>, n: nat) {
    |tr| <= n && forall k :: 0 <= k < |tr| ==> k <= tr[k] < n
  }

  lemma PermutedNone(A: Mat)
    ensures Permuted(A, []) == A
  {
  }

  lemma PermutedNext(A: Mat, tr: seq<int>, m: int)
    ensures Permuted(A, tr + [m]) == SwapMat(|tr|, m, Permuted(A, tr))
  {
    assert (tr + [m])[..|tr|] == tr;
  }

  lemma {:induction false} PermutedSymmetric(A: Mat, tr: seq<int>)
    requires Symmetric(A)
    ensures Symmetric(Permuted(A, tr))
  {
    if tr != [] {
      PermutedSymmetric(A, tr[..|tr| - 1]);
    }
  }

  ghost predicate Identity(tr: seq<int>) {
    forall k :: 0 <= k < |tr| ==> tr[k] == k
  }

  lemma {:induction false} PermutedIdentity(A: Mat, tr: seq<int>, i: int, j: int)
    requires Identity(tr)
    ensures Permuted(A, tr)(i, j) == A(i, j)
  {
    if tr != [] {
      var k := |tr| - 1;
      PermutedIdentity(A, tr[..k], i, j);
      assert Swap(k, tr[k], i) == i && Swap(k, tr[k], j) == j;
    }
  }

  /** Semidefiniteness is that of the unpermuted matrix. */
  lemma {:induction false} PermutedSemidefinite(A: Mat, tr: seq<int>, n: nat)
    requires Transpositions(tr, n)
    ensures PositiveSemidefinite(Permuted(A, tr), n) <==> PositiveSemidefinite(A, n)
  {
    hide PositiveSemidefinite;
    if tr != [] {
      var k := |tr| - 1;
      PermutedSemidefinite(A, tr[..k], n);
      SemidefiniteSwapped(Permuted(A, tr[..k]), n, k, tr[k]);
    }
  }

  // ----------------------------------------------------------------------------------- the order of the pivots

  /** The first index from k on with the largest diagonal entry in absolute value. */
  ghost function FirstLargest(B: Mat, k: nat, n: nat): (m: nat)
    requires k < n
    ensures k <= m < n
    ensures forall i :: k <= i < n ==> Abs(B(i, i)) <= Abs(B(m, m))
    ensures forall i :: k <= i < m ==> Abs(B(i, i)) < Abs(B(m, m))
  {
    if n == k + 1 then k
    else
      var m := FirstLargest(B, k, n - 1);
      if Abs(B(n - 1, n - 1)) > Abs(B(m, m)) then n - 1 else m
  }

  lemma FirstLargestUnique(B: Mat, k: nat, n: nat, m: nat)
    requires k <= m < n
    requires forall i :: k <= i < n ==> Abs(B(i, i)) <= Abs(B(m, m))
    requires forall i :: k <= i < m ==> Abs(B(i, i)) < Abs(B(m, m))
    ensures m == FirstLargest(B, k, n)
  {
  }

  /** The first k transpositions: each brings the first largest of the remaining diagonal entries to the front. */
  ghost function PivotsTo(A: Mat, n: nat, k: nat): (tr: seq<int>)
    requires k <= n
    ensures |tr| == k && Transpositions(tr, n)
  {
    if k == 0 then []
    else
      var tr := PivotsTo(A, n, k - 1);
      tr + [FirstLargest(Permuted(A, tr), k - 1, n)]
  }

  /** The transpositions of the whole factorization, a function of the input. */
  ghost function PivotOrder(A: Mat, n: nat): (tr: seq<int>)
    ensures |tr| == n && Transpositions(tr, n)
  {
    PivotsTo(A, n, n)
  }

  ghost predicate SameDiagonal(A: Mat, B: Mat, n: int) {
    forall i :: 0 <= i < n ==> Abs(A(i, i)) == Abs(B(i, i))
  }

  /** They depend on the sizes of its diagonal entries only. */
  lemma {:induction false} OrderOfDiagonal(A: Mat, B: Mat, n: nat, k: nat)
    requires k <= n && SameDiagonal(A, B, n)
    ensures PivotsTo(A, n, k) == PivotsTo(B, n, k)
    ensures SameDiagonal(Permuted(A, PivotsTo(A, n, k)), Permuted(B, PivotsTo(A, n, k)), n)
    decreases k
  {
    hide Permuted, FirstLargest;
    if k == 0 {
      PermutedNone(A);
      PermutedNone(B);
    } else {
      OrderOfDiagonal(A, B, n, k - 1);
      var tr := PivotsTo(A, n, k - 1);
      var C, D := Permuted(A, tr), Permuted(B, tr);
      var m := FirstLargest(C, k - 1, n);
      FirstLargestUnique(D, k - 1, n, m);
      PermutedNext(A, tr, m);
      PermutedNext(B, tr, m);
      var C', D' := SwapMat(k - 1, m, C), SwapMat(k - 1, m, D);
      forall i | 0 <= i < n ensures Abs(C'(i, i)) == Abs(D'(i, i)) {
        var i' := Swap(k - 1, m, i);
        assert Abs(C(i', i')) == Abs(D(i', i'));
      }
    }
  }

  /** With a zero diagonal nothing is exchanged. */
  lemma {:induction false} ZeroDiagonalOrder(A: Mat, n: nat, k: nat)
    requires k <= n && forall i :: 0 <= i < n ==> A(i, i) == 0.0
    ensures Identity(PivotsTo(A, n, k))
    decreases k
  {
    hide Permuted;
    if k > 0 {
      ZeroDiagonalOrder(A, n, k - 1);
      var tr := PivotsTo(A, n, k - 1);
      var B := Permuted(A, tr);
      forall i | 0 <= i < n ensures B(i, i) == 0.0 {
        PermutedIdentity(A, tr, i, i);
      }
      FirstLargestUnique(B, k - 1, n, k - 1);
    }
  }

  // ------------------------------------------------------------------------------------------ the factors

  /** s / d, and s itself when d is zero. */
  ghost function OverPivot(s: real, d: real): real {
    if d == 0.0 then s else s / d
  }

  /** Column p of L below its diagonal. */
  ghost function Lower(B: Mat): Mat {
    (i, p) => if p < 0 then 0.0 else OverPivot(Schur(B, p, i, p), Pivot(B, p))
  }

  /** The unit lower triangular factor. */
  ghost function UnitFactor(B: Mat): Mat {
    (i, p) => if i < p then 0.0 else if i == p then 1.0 else Lower(B)(i, p)
  }

  ghost function Diag(B: Mat): Vec {
    p => if p < 0 then 0.0 else Pivot(B, p)
  }

  lemma OverPivotProduct(a: real, b: real, d: real)
    ensures Quot(Prod(a, b), d) == Term(OverPivot(a, d), d, OverPivot(b, d))
  {
    var x, y := OverPivot(a, d), OverPivot(b, d);
    TermIs(x, d, y);
    if d != 0.0 {
      assert a == x * d && b == y * d;
      calc {
        a * b;
        (x * d) * (y * d);
        (d * (x * y)) * d;
      }
      DivideBoth(d * (x * y), d, Prod(a, b));
    }
  }

  /** Left-looking elimination: the products over the first k columns are what k elimination steps subtract, zero
      pivots included. */
  lemma {:induction false} LeftLookingUnit(B: Mat, k: nat, i: int, j: int)
    ensures Schur(B, k, i, j) == B(i, j) - Weighted(Lower(B), Diag(B), i, j, 0, k)
    decreases k
  {
    hide Weighted, Quot, Term, OverPivot, Prod;
    if k == 0 {
      WeightedNone(Lower(B), Diag(B), i, j, 0);
    } else {
      LeftLookingUnit(B, k - 1, i, j);
      OverPivotProduct(Schur(B, k - 1, i, k - 1), Schur(B, k - 1, j, k - 1), Pivot(B, k - 1));
      WeightedLast(Lower(B), Diag(B), i, j, 0, k - 1);
    }
  }

  /** L D L' == B on the lower triangle of the first n indices. */
  ghost predicate Reconstructs(B: Mat, n: nat) {
    forall i: int, c: int :: 0 <= c <= i < n ==> Weighted(UnitFactor(B), Diag(B), i, c, 0, c + 1) == B(i, c)
  }

  lemma ReconstructedEntry(B: Mat, i: int, c: nat)
    requires c <= i
    ensures Weighted(UnitFactor(B), Diag(B), i, c, 0, c + 1) == B(i, c)
       <==> (c < i && Pivot(B, c) == 0.0 ==> Schur(B, c, i, c) == 0.0)
  {
    hide Weighted, Schur, Term;
    WeightedEq(UnitFactor(B), Diag(B), Lower(B), Diag(B), i, c, 0, c);
    LeftLookingUnit(B, c, i, c);
    WeightedLast(UnitFactor(B), Diag(B), i, c, 0, c);
    OverPivotBack(Schur(B, c, i, c), Pivot(B, c));
    TermUnit(UnitFactor(B)(i, c), Pivot(B, c));
  }

  lemma TermUnit(a: real, d: real)
    ensures Term(a, d, 1.0) == a * d
  {
  }

  lemma OverPivotBack(s: real, d: real)
    ensures OverPivot(s, d) * d == s <==> (d == 0.0 ==> s == 0.0)
    ensures 1.0 * d == d
  {
  }

  /** L D L' is the permuted matrix exactly when every zero pivot has a zero column below it. */
  lemma ReconstructsIffZeroColumns(B: Mat, n: nat)
    ensures Reconstructs(B, n) <==> ZeroColumns(B, 0, n, n)
  {
    hide Weighted, Schur, Pivot, UnitFactor;
    forall i: int, c: nat | c <= i < n
      ensures Weighted(UnitFactor(B), Diag(B), i, c, 0, c + 1) == B(i, c) <==> (c < i && Pivot(B, c) == 0.0 ==> Schur(B, c, i, c) == 0.0)
    {
      ReconstructedEntry(B, i, c);
    }
    if ZeroColumns(B, 0, n, n) {
      forall i: int, c: int | 0 <= c <= i < n ensures Weighted(UnitFactor(B), Diag(B), i, c, 0, c + 1) == B(i, c) {
        var c': nat := c;
        ReconstructedEntry(B, i, c');
      }
    }
    if Reconstructs(B, n) {
      forall c: nat, i: int | c < i < n && Pivot(B, c) == 0.0 ensures Schur(B, c, i, c) == 0.0 {
        ReconstructedEntry(B, i, c);
      }
    }
  }

  // ----------------------------------------------------------------------------- the state of the main loop

  /** What the lower triangle holds before step k. */
  ghost function Partial(B: Mat, k: int): Mat {
    (i, j) => if j >= k || j < 0 then B(i, j) else if i == j then Pivot(B, j) else Lower(B)(i, j)
  }

  ghost predicate Holds(mat: array2<real>, V: Mat)
    requires mat.Length0 == mat.Length1
    reads mat
  {
    forall i, j :: 0 <= j <= i < mat.Length0 ==> mat[i, j] == V(i, j)
  }

  /** No nonzero pivot comes after a zero pivot. */
  ghost predicate ZerosLast(B: Mat, k: nat) {
    forall a: nat, b: nat :: a < b < k && Pivot(B, a) == 0.0 ==> Pivot(B, b) == 0.0
  }

  ghost predicate Somewhere(B: Mat, k: nat, s: SignMatrix) {
    exists j: nat :: j < k && match s
                              case PositiveSemiDef => Pivot(B, j) > 0.0
                              case NegativeSemiDef => Pivot(B, j) < 0.0
                              case _ => Pivot(B, j) == 0.0
  }

  /** The signs among the first k pivots, as `SignMatrix` encodes them. */
  ghost predicate SignMeans(s: SignMatrix, B: Mat, k: nat) {
    && (Somewhere(B, k, PositiveSemiDef) <==> s == PositiveSemiDef || s == Indefinite)
    && (Somewhere(B, k, NegativeSemiDef) <==> s == NegativeSemiDef || s == Indefinite)
  }

  /** The first k diagonal entries are the largest, in decreasing order of absolute value. */
  ghost predicate SortedDiagonal(B: Mat, k: nat, n: nat) {
    forall a, i :: 0 <= a < k && a <= i < n ==> Abs(B(i, i)) <= Abs(B(a, a))
  }

  ghost predicate Progress(B: Mat, k: nat, n: nat, start: SignMatrix, ret: bool, found: bool, sign: SignMatrix) {
    && (ret <==> ZeroColumns(B, 0, k, n) && ZerosLast(B, k))
    && (found <==> Somewhere(B, k, ZeroSign))
    && (start == ZeroSign ==> SignMeans(sign, B, k))
    && SortedDiagonal(B, k, n)
  }

  /** Exchanging rows and columns from k on keeps the first k pivots and permutes the columns below them. */
  lemma SwapColumn(B: Mat, k: nat, m: nat, j: nat, i: int)
    requires j < k <= m
    ensures Schur(SwapMat(k, m, B), j, i, j) == Schur(B, j, Swap(k, m, i), j)
    ensures Pivot(SwapMat(k, m, B), j) == Pivot(B, j)
  {
    SchurSwapped(B, j, k, m, i, j);
    SchurSwapped(B, j, k, m, j, j);
  }

  lemma SwapPartial(B: Mat, k: nat, m: nat, i: int, j: int)
    requires k <= m && 0 <= j <= i
    ensures SwapMat(k, m, Partial(B, k))(i, j) == Partial(SwapMat(k, m, B), k)(i, j)
  {
    hide Schur, Pivot, OverPivot;
    var r, c, C := Swap(k, m, i), Swap(k, m, j), SwapMat(k, m, B);
    assert C(i, j) == B(r, c) && SwapMat(k, m, Partial(B, k))(i, j) == Partial(B, k)(r, c);
    if j < k {
      SwapColumn(B, k, m, j, i);
      assert c == j && (r == j <==> i == j);
      assert Lower(C)(i, j) == Lower(B)(r, j);
    } else {
      assert c >= k;
    }
  }

  lemma SwapZeroColumns(B: Mat, k: nat, m: nat, n: nat)
    requires k <= m < n && ZeroColumns(B, 0, k, n)
    ensures ZeroColumns(SwapMat(k, m, B), 0, k, n)
  {
    hide Schur, Pivot;
    var C := SwapMat(k, m, B);
    forall j: nat | j < k && Pivot(C, j) == 0.0 ensures ZeroBelow(C, j, n) {
      SwapColumn(B, k, m, j, j);
      forall i | j < i < n ensures Schur(C, j, i, j) == 0.0 {
        SwapColumn(B, k, m, j, i);
      }
    }
  }

  lemma SwapTwice(B: Mat, k: nat, m: nat, n: nat)
    requires k <= m < n && ZeroColumns(SwapMat(k, m, B), 0, k, n)
    ensures ZeroColumns(B, 0, k, n)
  {
    hide Schur, Pivot;
    forall j: nat | j < k && Pivot(B, j) == 0.0 ensures ZeroBelow(B, j, n) {
      SwapColumn(B, k, m, j, j);
      forall i | j < i < n ensures Schur(B, j, i, j) == 0.0 {
        SwapColumn(B, k, m, j, Swap(k, m, i));
      }
    }
  }

  lemma SamePivots(B: Mat, C: Mat, k: nat, s: SignMatrix)
    requires forall j: nat :: j < k ==> Pivot(C, j) == Pivot(B, j)
    ensures Somewhere(C, k, s) <==> Somewhere(B, k, s)
  {
    hide Pivot;
  }

  lemma SwapProgress(B: Mat, k: nat, m: nat, n: nat, start: SignMatrix, ret: bool, found: bool, sign: SignMatrix)
    requires k <= m < n && Progress(B, k, n, start, ret, found, sign)
    ensures Progress(SwapMat(k, m, B), k, n, start, ret, found, sign)
  {
    hide Schur, Pivot, ZeroColumns;
    var C := SwapMat(k, m, B);
    forall j: nat | j < k ensures Pivot(C, j) == Pivot(B, j) {
      SwapColumn(B, k, m, j, j);
    }
    assert ZerosLast(C, k) <==> ZerosLast(B, k);
    SamePivots(B, C, k, ZeroSign);
    SamePivots(B, C, k, PositiveSemiDef);
    SamePivots(B, C, k, NegativeSemiDef);
    assert SortedDiagonal(C, k, n) by {
      forall a, i | 0 <= a < k && a <= i < n ensures Abs(C(i, i)) <= Abs(C(a, a)) {
        var a', i' := Swap(k, m, a), Swap(k, m, i);
        assert C(a, a) == B(a', a') && C(i, i) == B(i', i') && a == a' <= i' < n;
      }
    }
    if ZeroColumns(B, 0, k, n) {
      SwapZeroColumns(B, k, m, n);
    }
    if ZeroColumns(C, 0, k, n) {
      SwapTwice(B, k, m, n);
    }
  }

  lemma NextZeros(B: Mat, k: nat)
    ensures ZerosLast(B, k + 1) <==> ZerosLast(B, k) && (Somewhere(B, k, ZeroSign) ==> Pivot(B, k) == 0.0)
    ensures Somewhere(B, k + 1, ZeroSign) <==> Somewhere(B, k, ZeroSign) || Pivot(B, k) == 0.0
  {
    hide Pivot;
    if Pivot(B, k) == 0.0 {
      var j: nat := k;
      assert j < k + 1 && Pivot(B, j) == 0.0;
    }
  }

  lemma NextZeroColumns(B: Mat, k: nat, n: nat)
    ensures ZeroColumns(B, 0, k + 1, n)
       <==> ZeroColumns(B, 0, k, n) && (Pivot(B, k) == 0.0 ==> ZeroBelow(B, k, n))
  {
    hide Schur, Pivot;
  }

  /** One iteration's bookkeeping. */
  lemma NextProgress(B: Mat, k: nat, n: nat, start: SignMatrix, ret: bool, found: bool, sign: SignMatrix,
                     ret': bool, found': bool, sign': SignMatrix)
    requires k < n && Progress(B, k, n, start, ret, found, sign)
    requires forall i :: k <= i < n ==> Abs(B(i, i)) <= Abs(B(k, k))
    requires ret' <==> ret && (Pivot(B, k) == 0.0 ==> ZeroBelow(B, k, n))
                       && !(found && Pivot(B, k) != 0.0)
    requires found' <==> found || Pivot(B, k) == 0.0
    requires start == ZeroSign && SignMeans(sign, B, k) ==> SignMeans(sign', B, k + 1)
    ensures Progress(B, k + 1, n, start, ret', found', sign')
  {
    hide Schur, Pivot, SignMeans, Somewhere, ZeroColumns, ZerosLast, ZeroBelow;
    NextZeros(B, k);
    NextZeroColumns(B, k, n);
  }

  // --------------------------------------------------------------------------------------- pieces of a step

  /** The first position from k on with the largest diagonal entry in absolute value. */
  method LargestDiagonal(mat: array2<real>, k: nat) returns (m: nat)
    requires k < mat.Length0 == mat.Length1
    ensures k <= m < mat.Length0
    ensures forall i :: k <= i < mat.Length0 ==> Abs(mat[i, i]) <= Abs(mat[m, m])
    ensures forall i :: k <= i < m ==> Abs(mat[i, i]) < Abs(mat[m, m])
  {
    m := k;
    for i := k + 1 to mat.Length0
      invariant k <= m < i
      invariant forall r :: k <= r < i ==> Abs(mat[r, r]) <= Abs(mat[m, m])
      invariant forall r :: k <= r < m ==> Abs(mat[r, r]) < Abs(mat[m, m])
    {
      if Abs(mat[i, i]) > Abs(mat[m, m]) {
        m := i;
      }
    }
  }

  /** mat.row(k).head(k).swap(mat.row(m).head(k)) */
  method SwapRowHeads(mat: array2<real>, k: nat, m: nat)
    requires k < m < mat.Length0 == mat.Length1
    modifies mat
    ensures forall j :: 0 <= j < k ==> mat[k, j] == old(mat[m, j]) && mat[m, j] == old(mat[k, j])
    ensures forall i, j :: 0 <= i < mat.Length0 && 0 <= j < mat.Length0 && !((i == k || i == m) && j < k) ==> mat[i, j] == old(mat[i, j])
  {
    for c := 0 to k
      invariant forall j :: 0 <= j < c ==> mat[k, j] == old(mat[m, j]) && mat[m, j] == old(mat[k, j])
      invariant forall i, j :: 0 <= i < mat.Length0 && 0 <= j < mat.Length0 && !((i == k || i == m) && j < c) ==> mat[i, j] == old(mat[i, j])
    {
      mat[k, c], mat[m, c] := mat[m, c], mat[k, c];
    }
  }

  /** mat.col(k).tail(s).swap(mat.col(m).tail(s)), with s = size - m - 1 */
  method SwapColumnTails(mat: array2<real>, k: nat, m: nat)
    requires k < m < mat.Length0 == mat.Length1
    modifies mat
    ensures forall i :: m < i < mat.Length0 ==> mat[i, k] == old(mat[i, m]) && mat[i, m] == old(mat[i, k])
    ensures forall i, j :: 0 <= i < mat.Length0 && 0 <= j < mat.Length0 && !((j == k || j == m) && i > m) ==> mat[i, j] == old(mat[i, j])
  {
    for r := m + 1 to mat.Length0
      invariant forall i :: m < i < r ==> mat[i, k] == old(mat[i, m]) && mat[i, m] == old(mat[i, k])
      invariant forall i, j :: 0 <= i < mat.Length0 && 0 <= j < mat.Length0 && !((j == k || j == m) && m < i < r) ==> mat[i, j] == old(mat[i, j])
    {
      mat[r, k], mat[r, m] := mat[r, m], mat[r, k];
    }
  }

  /** Column k between k and m against row m between k and m. */
  method SwapMiddle(mat: array2<real>, k: nat, m: nat)
    requires k < m < mat.Length0 == mat.Length1
    modifies mat
    ensures forall i :: k < i < m ==> mat[i, k] == old(mat[m, i]) && mat[m, i] == old(mat[i, k])
    ensures forall i, j :: 0 <= i < mat.Length0 && 0 <= j < mat.Length0 && !(j == k < i < m) && !(i == m && k < j < m) ==> mat[i, j] == old(mat[i, j])
  {
    for r := k + 1 to m
      invariant forall i :: k < i < r ==> mat[i, k] == old(mat[m, i]) && mat[m, i] == old(mat[i, k])
      invariant forall i, j :: 0 <= i < mat.Length0 && 0 <= j < mat.Length0 && !(j == k < i < r) && !(i == m && k < j < r) ==> mat[i, j] == old(mat[i, j])
    {
      var tmp := mat[r, k];
      mat[r, k] := mat[m, r];
      mat[m, r] := tmp;
    }
  }

  /** The symmetric exchange of k and m, touching the lower triangle only. V is what that triangle stands for;
      before column k it is a factor, from there on the lower half of a symmetric matrix. */
  method Transpose(mat: array2<real>, k: nat, m: nat, ghost V: Mat)
    requires k <= m < mat.Length0 == mat.Length1
    requires Holds(mat, V) && forall i, j :: k <= i && k <= j ==> V(i, j) == V(j, i)
    modifies mat
    ensures Holds(mat, SwapMat(k, m, V))
    ensures forall i, j :: 0 <= i < j < mat.Length0 ==> mat[i, j] == old(mat[i, j])
  {
    if k != m {
      SwapRowHeads(mat, k, m);
      SwapColumnTails(mat, k, m);
      mat[k, k], mat[m, m] := mat[m, m], mat[k, k];
      SwapMiddle(mat, k, m);
    }
    forall i, j | 0 <= j <= i < mat.Length0 ensures mat[i, j] == SwapMat(k, m, V)(i, j) {
      assert SwapMat(k, m, V)(i, j) == V(Swap(k, m, i), Swap(k, m, j));
    }
  }

  /** temp.head(k) = mat.diagonal().head(k).asDiagonal() * A10' */
  method WeighRow(mat: array2<real>, temp: array<real>, k: nat, ghost d: Vec, ghost r: Vec)
    requires k < mat.Length0 == mat.Length1 == temp.Length
    requires forall p :: 0 <= p < k ==> mat[p, p] == d(p) && mat[k, p] == r(p)
    modifies temp
    ensures forall p :: 0 <= p < k ==> temp[p] == Times(d, r)(p)
  {
    hide Prod;
    for c := 0 to k
      invariant forall p :: 0 <= p < c ==> temp[p] == Times(d, r)(p)
    {
      temp[c] := Prod(mat[c, c], mat[k, c]);
    }
  }

  method RowTimes(mat: array2<real>, temp: array<real>, i: nat, k: nat, ghost x: Vec, ghost y: Vec) returns (s: real)
    requires i < mat.Length0 == mat.Length1 == temp.Length && k <= temp.Length
    requires forall p :: 0 <= p < k ==> mat[i, p] == x(p) && temp[p] == y(p)
    ensures s == Dot(x, y, 0, k)
  {
    hide Prod;
    s := 0.0;
    for p := 0 to k
      invariant s == Dot(x, y, 0, p)
    {
      s := s + Prod(mat[i, p], temp[p]);
    }
  }

  lemma PivotDiagonal(B: Mat, k: nat)
    ensures Pivot(B, k) == Schur(B, k, k, k)
  {
  }

  /** mat(k,k) -= A10 * temp.head(k) and A21 -= A20 * temp.head(k) */
  method EliminateColumn(mat: array2<real>, temp: array<real>, k: nat, ghost B: Mat)
    requires k < mat.Length0 == mat.Length1 == temp.Length && Holds(mat, Partial(B, k))
    modifies mat, temp
    ensures mat[k, k] == Pivot(B, k) && forall i :: k <= i < mat.Length0 ==> mat[i, k] == Schur(B, k, i, k)
    ensures forall i, j :: 0 <= i < mat.Length0 && 0 <= j < mat.Length0 && !(j == k <= i) ==> mat[i, j] == old(mat[i, j])
  {
    hide Schur, Pivot, OverPivot, Dot, Prod;
    ghost var L, d := Lower(B), Diag(B);
    if k > 0 {
      WeighRow(mat, temp, k, d, Row(L, k));
      for i := k to mat.Length0
        modifies mat
        invariant forall r :: k <= r < i ==> mat[r, k] == B(r, k) - Weighted(L, d, r, k, 0, k)
        invariant forall r, j :: 0 <= r < mat.Length0 && 0 <= j < mat.Length0 && !(j == k <= r < i) ==> mat[r, j] == old(mat[r, j])
      {
        var s := RowTimes(mat, temp, i, k, Row(L, i), Times(d, Row(L, k)));
        mat[i, k] := mat[i, k] - s;
      }
    } else {
      forall i ensures Weighted(L, d, i, k, 0, 0) == 0.0 {
        WeightedNone(L, d, i, k, 0);
      }
    }
    forall i | k <= i < mat.Length0 ensures mat[i, k] == Schur(B, k, i, k) {
      LeftLookingUnit(B, k, i, k);
    }
    PivotDiagonal(B, k);
  }

  /** A21 /= realAkk, or the check that A21 is zero. */
  method ScaleColumn(mat: array2<real>, k: nat) returns (allZero: bool)
    requires k < mat.Length0 == mat.Length1
    modifies mat
    ensures forall i :: k < i < mat.Length0 ==> mat[i, k] == OverPivot(old(mat[i, k]), mat[k, k])
    ensures mat[k, k] == 0.0 ==> (allZero <==> forall i :: k < i < mat.Length0 ==> old(mat[i, k]) == 0.0)
    ensures forall i, j :: 0 <= i < mat.Length0 && 0 <= j < mat.Length0 && !(j == k < i) ==> mat[i, j] == old(mat[i, j])
  {
    allZero := true;
    if mat[k, k] != 0.0 {
      for i := k + 1 to mat.Length0
        invariant forall r :: k < r < i ==> mat[r, k] == OverPivot(old(mat[r, k]), mat[k, k])
        invariant forall r, j :: 0 <= r < mat.Length0 && 0 <= j < mat.Length0 && !(j == k < r < i) ==> mat[r, j] == old(mat[r, j])
      {
        mat[i, k] := mat[i, k] / mat[k, k];
      }
    } else {
      allZero := ColumnIsZero(mat, k);
    }
  }

  /** (mat.col(k).tail(size-k-1).array() == 0).all() */
  method ColumnIsZero(mat: array2<real>, k: nat) returns (zero: bool)
    requires k < mat.Length0 == mat.Length1
    ensures zero <==> forall i :: k < i < mat.Length0 ==> mat[i, k] == 0.0
  {
    zero := true;
    for i := k + 1 to mat.Length0
      invariant zero <==> forall r :: k < r < i ==> mat[r, k] == 0.0
    {
      zero := zero && mat[i, k] == 0.0;
    }
  }

  /** The sign machine. */
  method NextSign(sign: SignMatrix, realAkk: real, ghost B: Mat, ghost k: nat) returns (next: SignMatrix)
    requires realAkk == Pivot(B, k)
    ensures SignMeans(sign, B, k) ==> SignMeans(next, B, k + 1)
  {
    hide Schur, Pivot;
    next := sign;
    if sign == PositiveSemiDef {
      if realAkk < 0.0 {
        next := Indefinite;
      }
    } else if sign == NegativeSemiDef {
      if realAkk > 0.0 {
        next := Indefinite;
      }
    } else if sign == ZeroSign {
      if realAkk > 0.0 {
        next := PositiveSemiDef;
      } else if realAkk < 0.0 {
        next := NegativeSemiDef;
      }
    }
    SomewhereNext(B, k, PositiveSemiDef);
    SomewhereNext(B, k, NegativeSemiDef);
  }

  lemma SomewhereNext(B: Mat, k: nat, s: SignMatrix)
    requires s.PositiveSemiDef? || s.NegativeSemiDef?
    ensures Somewhere(B, k + 1, s) <==> Somewhere(B, k, s) || (if s.PositiveSemiDef? then Pivot(B, k) > 0.0 else Pivot(B, k) < 0.0)
  {
    hide Pivot;
    if if s.PositiveSemiDef? then Pivot(B, k) > 0.0 else Pivot(B, k) < 0.0 {
      var j: nat := k;
      assert j < k + 1;
    }
  }

  // ----------------------------------------------------------------------------------------- the algorithm

  /** What `unblocked` promises of the permuted matrix B. */
  ghost predicate Factored(B: Mat, n: nat, start: SignMatrix, ret: bool, sign: SignMatrix) {
    && SortedDiagonal(B, n, n)
    && (ret <==> ZeroColumns(B, 0, n, n) && ZerosLast(B, n))
    && (start == ZeroSign ==> SignMeans(sign, B, n))
  }

  lemma {:induction false} ZeroDiagonalSchur(B: Mat, n: nat, k: nat, i: int, j: int)
    requires k <= n && forall p :: 0 <= p < n ==> B(p, p) == 0.0
    ensures Schur(B, k, i, j) == B(i, j)
  {
    hide Prod;
    if k > 0 {
      ZeroDiagonalSchur(B, n, k - 1, i, j);
      ZeroDiagonalSchur(B, n, k - 1, k - 1, k - 1);
    }
  }

  /** With a zero diagonal every pivot is zero and the triangle never changes. */
  lemma ZeroDiagonal(A: Mat, tr: seq<int>, n: nat, start: SignMatrix, ret: bool)
    requires Identity(tr) && forall p :: 0 <= p < n ==> A(p, p) == 0.0
    requires ret <==> forall i, j :: 0 <= j < i < n ==> A(i, j) == 0.0
    ensures Factored(Permuted(A, tr), n, start, ret, ZeroSign)
    ensures forall i, j :: 0 <= j <= i < n ==> Partial(Permuted(A, tr), n)(i, j) == A(i, j)
  {
    hide Schur, Permuted;
    var B := Permuted(A, tr);
    forall i, j ensures B(i, j) == A(i, j) {
      PermutedIdentity(A, tr, i, j);
    }
    forall k: nat, i: int, j: int | k < n ensures Schur(B, k, i, j) == A(i, j) {
      ZeroDiagonalSchur(B, n, k, i, j);
    }
    forall k: nat | k < n ensures Pivot(B, k) == 0.0 {
      assert Schur(B, k, k, k) == A(k, k);
    }
    if ZeroColumns(B, 0, n, n) {
      forall i, j | 0 <= j < i < n ensures A(i, j) == 0.0 {
        var j': nat := j;
        assert Pivot(B, j') == 0.0;
        assert Schur(B, j', i, j') == A(i, j);
      }
    }
  }

  /** Filling the transpositions and checking whether the matrix is zero. */
  method ZeroDiagonalExit(mat: array2<real>, transpositions: array<int>) returns (ret: bool)
    requires mat.Length0 == mat.Length1 == transpositions.Length
    modifies transpositions
    ensures Identity(transpositions[..]) && Transpositions(transpositions[..], mat.Length0)
    ensures ret <==> forall i, j :: 0 <= j < i < mat.Length0 ==> mat[i, j] == 0.0
  {
    ret := true;
    for j := 0 to mat.Length0
      modifies transpositions
      invariant forall p :: 0 <= p < j ==> transpositions[p] == p
      invariant ret <==> forall i, c :: 0 <= c < j && c < i < mat.Length0 ==> mat[i, c] == 0.0
    {
      transpositions[j] := j;
      var zero := ColumnIsZero(mat, j);
      ret := ret && zero;
    }
  }

  /** The size <= 1 exit. */
  method SmallExit(mat: array2<real>, transpositions: array<int>, ghost A: Mat, ghost start: SignMatrix) returns (sign: SignMatrix)
    requires mat.Length0 == mat.Length1 == transpositions.Length <= 1 && Holds(mat, A)
    modifies transpositions
    ensures transpositions[..] == PivotOrder(A, mat.Length0) && Holds(mat, Partial(Permuted(A, transpositions[..]), mat.Length0))
    ensures Factored(Permuted(A, transpositions[..]), mat.Length0, start, true, sign)
  {
    hide Permuted, PivotOrder, PivotsTo, Factored, SignMeans, Partial, Pivot, Schur;
    var size := mat.Length0;
    for j := 0 to size
      modifies transpositions
      invariant forall p :: 0 <= p < j ==> transpositions[p] == p
    {
      transpositions[j] := j;
    }
    sign := ZeroSign;
    ghost var B := Permuted(A, transpositions[..]);
    SmallOrder(A, transpositions[..], size);
    NoSigns(B);
    if size == 1 {
      sign := NextSign(sign, mat[0, 0], B, 0);
    }
    SmallFactored(B, size, start, sign);
  }

  lemma SmallOrder(A: Mat, tr: seq<int>, n: nat)
    requires |tr| == n <= 1 && Identity(tr)
    ensures tr == PivotOrder(A, n)
    ensures n == 1 ==> Pivot(Permuted(A, tr), 0) == A(0, 0) == Partial(Permuted(A, tr), n)(0, 0)
  {
    if n == 1 {
      PermutedIdentity(A, tr, 0, 0);
      assert PivotsTo(A, 1, 0) == [];
    }
  }

  lemma NoSigns(B: Mat)
    ensures SignMeans(ZeroSign, B, 0)
  {
  }

  lemma SmallFactored(B: Mat, n: nat, start: SignMatrix, sign: SignMatrix)
    requires n <= 1 && SignMeans(sign, B, n)
    ensures Factored(B, n, start, true, sign)
  {
    hide Schur, Pivot, SignMeans;
  }

  /** Choosing the pivot of step k and exchanging it to the front. */
  method Exchange(mat: array2<real>, transpositions: array<int>, k: nat, ghost A: Mat, ghost ts: seq<int>) returns (m: nat)
    requires k < mat.Length0 == mat.Length1 == transpositions.Length && Symmetric(A)
    requires transpositions[..k] == ts == PivotsTo(A, mat.Length0, k) && Holds(mat, Partial(Permuted(A, ts), k))
    modifies mat, transpositions
    ensures k <= m < mat.Length0 && transpositions[..k + 1] == ts + [m] == PivotsTo(A, mat.Length0, k + 1)
    ensures Holds(mat, Partial(Permuted(A, ts + [m]), k))
    ensures var B := Permuted(A, ts + [m]);
            (forall i :: k <= i < mat.Length0 ==> Abs(B(i, i)) <= Abs(B(k, k))) && (m != k ==> B(k, k) != 0.0)
    ensures forall i, j :: 0 <= i < j < mat.Length0 ==> mat[i, j] == old(mat[i, j])
  {
    hide Schur, Pivot, OverPivot, Permuted;
    ghost var B := Permuted(A, ts);
    PermutedSymmetric(A, ts);
    m := LargestDiagonal(mat, k);
    forall i | k <= i < mat.Length0 ensures mat[i, i] == B(i, i) {
      assert mat[i, i] == Partial(B, k)(i, i);
    }
    LargestFirst(B, k, m, mat.Length0);
    FirstLargestUnique(B, k, mat.Length0, m);
    transpositions[k] := m;
    Transpose(mat, k, m, Partial(B, k));
    PermutedNext(A, ts, m);
    forall i, j | 0 <= j <= i < mat.Length0 ensures mat[i, j] == Partial(SwapMat(k, m, B), k)(i, j) {
      SwapPartial(B, k, m, i, j);
    }
  }

  lemma LargestFirst(B: Mat, k: nat, m: nat, n: nat)
    requires k <= m < n
    requires forall i :: k <= i < n ==> Abs(B(i, i)) <= Abs(B(m, m))
    requires forall i :: k <= i < m ==> Abs(B(i, i)) < Abs(B(m, m))
    ensures var C := SwapMat(k, m, B);
            (forall i :: k <= i < n ==> Abs(C(i, i)) <= Abs(C(k, k))) && (m != k ==> C(k, k) != 0.0)
  {
    var C := SwapMat(k, m, B);
    forall i ensures C(i, i) == B(Swap(k, m, i), Swap(k, m, i)) {
    }
    assert C(k, k) == B(m, m) && (m != k ==> Abs(B(k, k)) < Abs(B(m, m)));
  }

  /** Elimination and scaling of column k. */
  method FinishColumn(mat: array2<real>, k: nat, ghost B: Mat) returns (allZero: bool)
    requires k < mat.Length0 == mat.Length1
    requires forall i, j :: 0 <= j <= i < mat.Length0 ==> mat[i, j] == if j == k then Schur(B, k, i, k) else Partial(B, k)(i, j)
    modifies mat
    ensures Holds(mat, Partial(B, k + 1))
    ensures Pivot(B, k) == 0.0 ==> (allZero <==> ZeroBelow(B, k, mat.Length0))
    ensures forall i, j :: 0 <= i < j < mat.Length0 ==> mat[i, j] == old(mat[i, j])
  {
    hide Quot, OverPivot;
    assert mat[k, k] == Pivot(B, k) && forall i :: k < i < mat.Length0 ==> mat[i, k] == Schur(B, k, i, k);
    allZero := ScaleColumn(mat, k);
    forall i | k < i < mat.Length0 ensures mat[i, k] == Partial(B, k + 1)(i, k) {
      assert Lower(B)(i, k) == OverPivot(Schur(B, k, i, k), Pivot(B, k));
    }
  }

  /** The rest of an iteration: scaling or the zero check, and the three flags. */
  method Advance(mat: array2<real>, k: nat, ghost B: Mat, ghost start: SignMatrix, ret: bool, found: bool, sign: SignMatrix)
      returns (ret': bool, found': bool, sign': SignMatrix)
    requires k < mat.Length0 == mat.Length1
    requires forall i, j :: 0 <= j <= i < mat.Length0 ==> mat[i, j] == if j == k then Schur(B, k, i, k) else Partial(B, k)(i, j)
    requires mat[k, k] == Pivot(B, k) && Progress(B, k, mat.Length0, start, ret, found, sign)
    requires forall i :: k <= i < mat.Length0 ==> Abs(B(i, i)) <= Abs(B(k, k))
    modifies mat
    ensures Holds(mat, Partial(B, k + 1)) && Progress(B, k + 1, mat.Length0, start, ret', found', sign')
    ensures forall i, j :: 0 <= i < j < mat.Length0 ==> mat[i, j] == old(mat[i, j])
  {
    hide Schur, Pivot, Partial, Progress, SignMeans, ZeroBelow;
    var realAkk := mat[k, k];
    var allZero := FinishColumn(mat, k, B);
    ret' := ret && (realAkk == 0.0 ==> allZero);
    found' := found;
    if found && realAkk != 0.0 {
      ret' := false;
    } else if realAkk == 0.0 {
      found' := true;
    }
    sign' := NextSign(sign, realAkk, B, k);
    NextProgress(B, k, mat.Length0, start, ret, found, sign, ret', found', sign');
  }

  /** The exit at k == 0: m is the position of the largest diagonal entry, which is zero. */
  method FirstPivotZero(mat: array2<real>, transpositions: array<int>, ghost m: nat, ghost A: Mat, ghost start: SignMatrix) returns (ret: bool)
    requires m < mat.Length0 == mat.Length1 == transpositions.Length && Pivot(Permuted(A, [m]), 0) == 0.0
    requires forall i :: 0 <= i < mat.Length0 ==> Abs(Permuted(A, [m])(i, i)) <= Abs(Permuted(A, [m])(0, 0))
    requires m != 0 ==> Permuted(A, [m])(0, 0) != 0.0
    requires forall i, j :: 0 <= j <= i < mat.Length0 ==> mat[i, j] == if j == 0 then Schur(Permuted(A, [m]), 0, i, 0) else Partial(Permuted(A, [m]), 0)(i, j)
    modifies transpositions
    ensures transpositions[..] == PivotOrder(A, mat.Length0)
    ensures Holds(mat, Partial(Permuted(A, transpositions[..]), mat.Length0))
    ensures Factored(Permuted(A, transpositions[..]), mat.Length0, start, ret, ZeroSign)
  {
    hide Schur, Pivot, Permuted, Factored, Partial;
    ZeroFirst(A, m, mat.Length0);
    assert Holds(mat, A);
    ret := ZeroDiagonalExit(mat, transpositions);
    ZeroDiagonalOrder(A, mat.Length0, mat.Length0);
    assert transpositions[..] == PivotOrder(A, mat.Length0);
    ZeroDiagonal(A, transpositions[..], mat.Length0, start, ret);
  }

  /** `ldlt_inplace<Lower>::unblocked`. The transpositions, and so the factors and the result, are determined by the
      input. */
  method Unblocked(mat: array2<real>, transpositions: array<int>, temp: array<real>, start: SignMatrix, ghost A: Mat)
      returns (ret: bool, sign: SignMatrix)
    requires mat.Length0 == mat.Length1 == transpositions.Length == temp.Length
    requires Symmetric(A) && Holds(mat, A)
    modifies mat, transpositions, temp
    ensures transpositions[..] == PivotOrder(A, mat.Length0)
    ensures Holds(mat, Partial(Permuted(A, transpositions[..]), mat.Length0))
    ensures Factored(Permuted(A, transpositions[..]), mat.Length0, start, ret, sign)
    ensures forall i, j :: 0 <= i < j < mat.Length0 ==> mat[i, j] == old(mat[i, j])
  {
    hide Schur, Pivot, OverPivot, Permuted, PivotsTo, PivotOrder, Transpositions, Progress, SignMeans, Somewhere, ZeroColumns, ZerosLast, SortedDiagonal;
    var size, found := mat.Length0, false;
    ret, sign := true, start;
    if size <= 1 {
      sign := SmallExit(mat, transpositions, A, start);
      return;
    }
    ghost var ts: seq<int> := [];
    NoProgress(A, size, start);
    NoPivots(A, size);
    for k := 0 to size
      invariant transpositions[..k] == ts == PivotsTo(A, size, k)
      invariant Holds(mat, Partial(Permuted(A, ts), k))
      invariant Progress(Permuted(A, ts), k, size, start, ret, found, sign)
      invariant k == 0 ==> ts == []
      invariant forall i, j :: 0 <= i < j < size ==> mat[i, j] == old(mat[i, j])
    {
      var m := Exchange(mat, transpositions, k, A, ts);
      PermutedNext(A, ts, m);
      SwapProgress(Permuted(A, ts), k, m, size, start, ret, found, sign);
      ts := ts + [m];
      ghost var B := Permuted(A, ts);
      EliminateColumn(mat, temp, k, B);
      var realAkk := mat[k, k];
      if k == 0 && realAkk == 0.0 {
        assert ts == [m];
        ret := FirstPivotZero(mat, transpositions, m, A, start);
        return ret, ZeroSign;
      }
      ret, found, sign := Advance(mat, k, B, start, ret, found, sign);
    }
    assert transpositions[..] == ts;
    AllProgress(Permuted(A, ts), size, start, ret, found, sign);
  }

  /** When the first pivot is zero, the whole diagonal is, and nothing was exchanged. */
  lemma ZeroFirst(A: Mat, m: nat, n: nat)
    requires m < n && Pivot(Permuted(A, [m]), 0) == 0.0
    requires forall i :: 0 <= i < n ==> Abs(Permuted(A, [m])(i, i)) <= Abs(Permuted(A, [m])(0, 0))
    requires m != 0 ==> Permuted(A, [m])(0, 0) != 0.0
    ensures forall p :: 0 <= p < n ==> A(p, p) == 0.0
    ensures forall i, j :: Partial(Permuted(A, [m]), 0)(i, j) == A(i, j) && Schur(Permuted(A, [m]), 0, i, j) == A(i, j)
  {
    var B := Permuted(A, [m]);
    PermutedNext(A, [], m);
    assert [] + [m] == [m];
    forall i, j ensures B(i, j) == A(i, j) {
      assert Swap(0, 0, i) == i && Swap(0, 0, j) == j;
    }
  }

  lemma NoPivots(A: Mat, n: nat)
    ensures PivotsTo(A, n, 0) == [] && PivotsTo(A, n, n) == PivotOrder(A, n)
  {
  }

  lemma NoProgress(A: Mat, n: nat, start: SignMatrix)
    ensures Permuted(A, []) == A && Transpositions([], n) && Progress(A, 0, n, start, true, false, start)
    ensures forall i, j :: Partial(A, 0)(i, j) == A(i, j)
  {
  }

  lemma AllProgress(B: Mat, n: nat, start: SignMatrix, ret: bool, found: bool, sign: SignMatrix)
    requires Progress(B, n, n, start, ret, found, sign)
    ensures Factored(B, n, start, ret, sign)
  {
    hide Schur, Pivot;
  }
}
