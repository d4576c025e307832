/** Expression evaluators of Core/CoreEvaluators.h: two-dimensional access, flat access, and the computed flags.

An expression is a tree of plain matrices, transposes, coefficient-wise operations, blocks, reverses, replicates and
diagonals, with the compile-time dimensions and storage orders the flags are computed from. Storage is a total
function from element offsets. */
module Evaluators {
  import opened Grids
  import opened Integers

  /** A dimension as the type knows it. */
  datatype Dim = Fixed(n: nat) | Dynamic

  datatype Expr<!T> =
    | Plain(data: int -> T, rows: nat, cols: nat, rowsCT: Dim, colsCT: Dim, maxRowsCT: Dim, maxColsCT: Dim, rowMajor: bool, packet: bool)
    | Transpose(arg: Expr<T>)
    | Unary(op: T -> T, opPacket: bool, arg: Expr<T>)
    | Binary(op2: (T, T) -> T, opPacket: bool, lhs: Expr<T>, rhs: Expr<T>)
    | Block(arg: Expr<T>, startRow: nat, startCol: nat, rows: nat, cols: nat, rowsCT: Dim, colsCT: Dim, innerPanel: bool, unitStride: bool)
    | Reverse(arg: Expr<T>, reverseRow: bool, reverseCol: bool)
    | Replicate(arg: Expr<T>, rowFactor: nat, colFactor: nat, rowFactorCT: Dim, colFactorCT: Dim)
    | Diagonal(arg: Expr<T>, index: int, fixedIndex: bool)

  // --------------------------------------------------------------------------------------------- dimensions

  /** The length of the d-th diagonal. */
  function DiagonalLength(rows: int, cols: int, d: int): int {
    if d < 0 then Min(cols, rows + d) else Min(rows, cols - d)
  }

  function Rows<T>(e: Expr<T>): int {
    match e
    case Plain(_, rows, _, _, _, _, _, _, _) => rows
    case Transpose(arg) => Cols(arg)
    case Unary(_, _, arg) => Rows(arg)
    case Binary(_, _, lhs, _) => Rows(lhs)
    case Block(_, _, _, rows, _, _, _, _, _) => rows
    case Reverse(arg, _, _) => Rows(arg)
    case Replicate(arg, f, _, _, _) => Rows(arg) * f
    case Diagonal(arg, d, _) => DiagonalLength(Rows(arg), Cols(arg), d)
  }

  function Cols<T>(e: Expr<T>): int {
    match e
    case Plain(_, _, cols, _, _, _, _, _, _) => cols
    case Transpose(arg) => Rows(arg)
    case Unary(_, _, arg) => Cols(arg)
    case Binary(_, _, lhs, _) => Cols(lhs)
    case Block(_, _, _, _, cols, _, _, _, _) => cols
    case Reverse(arg, _, _) => Cols(arg)
    case Replicate(arg, _, f, _, _) => Cols(arg) * f
    case Diagonal(_, _, _) => 1
  }

  function Times(a: Dim, b: Dim): Dim {
    if a.Fixed? && b.Fixed? then Fixed(a.n * b.n) else Dynamic
  }

  /** The same for dimensions as the type knows them. */
  function DiagonalDim(rows: Dim, cols: Dim, d: int): Dim {
    if rows.Fixed? && cols.Fixed? then Fixed(Max(Min(rows.n - Max(-d, 0), cols.n - Max(d, 0)), 0)) else Dynamic
  }

  /** RowsAtCompileTime and ColsAtCompileTime */
  function RowsCT<T>(e: Expr<T>): Dim {
    match e
    case Plain(_, _, _, r, _, _, _, _, _) => r
    case Transpose(arg) => ColsCT(arg)
    case Unary(_, _, arg) => RowsCT(arg)
    case Binary(_, _, lhs, _) => RowsCT(lhs)
    case Block(arg, _, _, _, _, r, _, _, _) => if RowsCT(arg) == Fixed(0) then Fixed(0) else r
    case Reverse(arg, _, _) => RowsCT(arg)
    case Replicate(arg, _, _, f, _) => Times(f, RowsCT(arg))
    case Diagonal(arg, d, fixedIndex) => if fixedIndex then DiagonalDim(RowsCT(arg), ColsCT(arg), d) else Dynamic
  }

  function ColsCT<T>(e: Expr<T>): Dim {
    match e
    case Plain(_, _, _, _, c, _, _, _, _) => c
    case Transpose(arg) => RowsCT(arg)
    case Unary(_, _, arg) => ColsCT(arg)
    case Binary(_, _, lhs, _) => ColsCT(lhs)
    case Block(arg, _, _, _, _, _, c, _, _) => if ColsCT(arg) == Fixed(0) then Fixed(0) else c
    case Reverse(arg, _, _) => ColsCT(arg)
    case Replicate(arg, _, _, _, f) => Times(f, ColsCT(arg))
    case Diagonal(_, _, _) => Fixed(1)
  }

  /** MaxRowsAtCompileTime and MaxColsAtCompileTime */
  function MaxRowsCT<T>(e: Expr<T>): Dim {
    match e
    case Plain(_, _, _, _, _, m, _, _, _) => m
    case Transpose(arg) => MaxColsCT(arg)
    case Unary(_, _, arg) => MaxRowsCT(arg)
    case Binary(_, _, lhs, _) => MaxRowsCT(lhs)
    case Block(arg, _, _, _, _, r, _, _, _) => if r == Fixed(0) then Fixed(0) else if RowsCT(e).Fixed? then RowsCT(e) else MaxRowsCT(arg)
    case Reverse(arg, _, _) => MaxRowsCT(arg)
    case Replicate(_, _, _, _, _) => RowsCT(e)
    case Diagonal(arg, d, fixedIndex) => DiagonalDim(MaxRowsCT(arg), MaxColsCT(arg), if fixedIndex then d else 0)
  }

  function MaxColsCT<T>(e: Expr<T>): Dim {
    match e
    case Plain(_, _, _, _, _, _, m, _, _) => m
    case Transpose(arg) => MaxRowsCT(arg)
    case Unary(_, _, arg) => MaxColsCT(arg)
    case Binary(_, _, lhs, _) => MaxColsCT(lhs)
    case Block(arg, _, _, _, _, _, c, _, _) => if c == Fixed(0) then Fixed(0) else if ColsCT(e).Fixed? then ColsCT(e) else MaxColsCT(arg)
    case Reverse(arg, _, _) => MaxColsCT(arg)
    case Replicate(_, _, _, _, _) => ColsCT(e)
    case Diagonal(_, _, _) => Fixed(1)
  }

  predicate VectorCT<T>(e: Expr<T>) {
    RowsCT(e) == Fixed(1) || ColsCT(e) == Fixed(1)
  }

  /** The storage order of a vector follows its direction; otherwise that of the argument is kept. */
  function VectorOrder(maxRows: Dim, maxCols: Dim, otherwise: bool): bool {
    if maxRows == Fixed(1) && maxCols != Fixed(1) then true
    else if maxCols == Fixed(1) && maxRows != Fixed(1) then false
    else otherwise
  }

  // -------------------------------------------------------------------------------------------------- flags

  /** The bits of Flags that matter here. */
  datatype Flags = Flags(rowMajor: bool, linear: bool, packet: bool, direct: bool)

  function FlagsOf<T>(e: Expr<T>): Flags {
    match e
    case Plain(_, _, _, _, _, _, _, rowMajor, packet) => Flags(rowMajor, true, packet, true)
    case Transpose(arg) => FlagsOf(arg).(rowMajor := !FlagsOf(arg).rowMajor)
    case Unary(_, p, arg) => var a := FlagsOf(arg); Flags(a.rowMajor, a.linear, a.packet && p, false)
    case Binary(_, p, lhs, rhs) =>
      var a, b := FlagsOf(lhs), FlagsOf(rhs);
      var agree := a.rowMajor == b.rowMajor;
      Flags(a.rowMajor, a.linear && b.linear && agree, a.packet && b.packet && p && agree, false)
    case Block(arg, _, _, _, _, _, _, innerPanel, unitStride) =>
      var a := FlagsOf(arg);
      var order := VectorOrder(MaxRowsCT(e), MaxColsCT(e), a.rowMajor);
      Flags(order, VectorCT(e) || (innerPanel && a.linear), a.packet && (unitStride || order == a.rowMajor), a.direct)
    case Reverse(arg, rr, rc) =>
      var a := FlagsOf(arg);
      var linear := (rr && rc && a.packet) || (rr && ColsCT(e) == Fixed(1)) || (rc && RowsCT(e) == Fixed(1));
      Flags(a.rowMajor, a.linear && linear, a.packet, false)
    case Replicate(arg, _, _, _, _) =>
      var a := FlagsOf(arg);
      Flags(VectorOrder(MaxRowsCT(e), MaxColsCT(e), a.rowMajor), a.linear && VectorCT(e), false, false)
    case Diagonal(arg, _, _) => Flags(false, true, false, FlagsOf(arg).direct)
  }

  predicate RowMajor<T>(e: Expr<T>) {
    FlagsOf(e).rowMajor
  }

  predicate Linear<T>(e: Expr<T>) {
    FlagsOf(e).linear
  }

  predicate Direct<T>(e: Expr<T>) {
    FlagsOf(e).direct
  }

  // -------------------------------------------------------------------------------------------- direct access

  function InnerSize<T>(e: Expr<T>): int {
    if VectorCT(e) then Rows(e) * Cols(e) else if RowMajor(e) then Cols(e) else Rows(e)
  }

  function Storage<T>(e: Expr<T>): int -> T
    requires Direct(e)
  {
    match e
    case Plain(data, _, _, _, _, _, _, _, _) => data
    case Transpose(arg) => Storage(arg)
    case Block(arg, _, _, _, _, _, _, _, _) => Storage(arg)
    case Diagonal(arg, _, _) => Storage(arg)
  }

  function InnerStride<T>(e: Expr<T>): int
    requires Direct(e)
  {
    match e
    case Plain(_, _, _, _, _, _, _, _, _) => 1
    case Transpose(arg) => InnerStride(arg)
    case Block(arg, _, _, _, _, _, _, _, _) => if RowMajor(e) == RowMajor(arg) then InnerStride(arg) else OuterStride(arg)
    case Diagonal(arg, _, _) => OuterStride(arg) + 1
  }

  function OuterStride<T>(e: Expr<T>): int
    requires Direct(e)
  {
    match e
    case Plain(_, _, _, _, _, _, _, _, _) => InnerSize(e)
    case Transpose(arg) => OuterStride(arg)
    case Block(arg, _, _, _, _, _, _, _, _) => if RowMajor(e) == RowMajor(arg) then OuterStride(arg) else InnerStride(arg)
    case Diagonal(_, _, _) => 0
  }

  function RowStride<T>(e: Expr<T>): int
    requires Direct(e)
  {
    if RowMajor(e) then OuterStride(e) else InnerStride(e)
  }

  function ColStride<T>(e: Expr<T>): int
    requires Direct(e)
  {
    if RowMajor(e) then InnerStride(e) else OuterStride(e)
  }

  /** data(), as an offset into the storage */
  function Offset<T>(e: Expr<T>): int
    requires Direct(e)
  {
    match e
    case Plain(_, _, _, _, _, _, _, _, _) => 0
    case Transpose(arg) => Offset(arg)
    case Block(arg, r, c, _, _, _, _, _, _) => Offset(arg) + r * RowStride(arg) + c * ColStride(arg)
    case Diagonal(arg, d, _) => Offset(arg) + Max(-d, 0) * RowStride(arg) + Max(d, 0) * ColStride(arg)
  }

  // --------------------------------------------------------------------------------------------- coefficients

  /** coeff(row, col) */
  function Coeff<T>(e: Expr<T>, row: int, col: int): T {
    match e
    case Plain(data, rows, cols, _, _, _, _, rowMajor, _) =>
      var outerStride := if VectorCT(e) then 0 else InnerSize(e);
      if rowMajor then data(row * outerStride + col) else data(row + col * outerStride)
    case Transpose(arg) => Coeff(arg, col, row)
    case Unary(op, _, arg) => op(Coeff(arg, row, col))
    case Binary(op, _, lhs, rhs) => op(Coeff(lhs, row, col), Coeff(rhs, row, col))
    case Block(arg, startRow, startCol, _, _, _, _, _, _) =>
      if Direct(arg) then Storage(e)(Offset(e) + col * ColStride(e) + row * RowStride(e))
      else Coeff(arg, startRow + row, startCol + col)
    case Reverse(arg, rr, rc) => Coeff(arg, if rr then Rows(arg) - row - 1 else row, if rc then Cols(arg) - col - 1 else col)
    case Replicate(arg, _, _, rf, cf) =>
      var actualRow := if RowsCT(e) == Fixed(1) then 0 else if rf == Fixed(1) then row else Mod(row, Rows(arg));
      var actualCol := if ColsCT(e) == Fixed(1) then 0 else if cf == Fixed(1) then col else Mod(col, Cols(arg));
      Coeff(arg, actualRow, actualCol)
    case Diagonal(arg, d, _) => Coeff(arg, row + Max(-d, 0), row + Max(d, 0))
  }

  /** The remainder, for a positive divisor. */
  function Mod(a: int, b: int): int {
    if b > 0 then a % b else a
  }

  /** Whether a block without direct access hands flat access on to its argument. */
  predicate ForwardLinear<T>(e: Expr<T>)
    requires e.Block?
  {
    (e.innerPanel || RowMajor(e) == RowMajor(e.arg)) && Linear(e.arg)
  }

  /** coeff(index), for expressions whose flags allow it */
  function Flat<T>(e: Expr<T>, index: int): T
    requires Linear(e)
  {
    match e
    case Plain(data, _, _, _, _, _, _, _, _) => data(index)
    case Transpose(arg) => Flat(arg, index)
    case Unary(op, _, arg) => op(Flat(arg, index))
    case Binary(op, _, lhs, rhs) => op(Flat(lhs, index), Flat(rhs, index))
    case Block(arg, startRow, startCol, _, _, _, _, _, _) =>
      if Direct(arg) then Storage(e)(Offset(e) + index * InnerStride(e))
      else if ForwardLinear(e) then
        Flat(arg, (if RowMajor(arg) then startRow * Cols(arg) + startCol else startCol * Rows(arg) + startRow) + index)
      else if RowsCT(e) == Fixed(1) then Coeff(arg, startRow, startCol + index)
      else Coeff(arg, startRow + index, startCol)
    case Reverse(arg, rr, rc) => Flat(arg, (if rr then Rows(arg) else 1) * (if rc then Cols(arg) else 1) - index - 1)
    case Replicate(arg, _, _, rf, cf) =>
      Flat(arg, if RowsCT(e) == Fixed(1) then (if cf == Fixed(1) then index else Mod(index, Cols(arg)))
                else (if rf == Fixed(1) then index else Mod(index, Rows(arg))))
    case Diagonal(arg, d, _) => Coeff(arg, index + Max(-d, 0), index + Max(d, 0))
  }

  // ------------------------------------------------------------------------------------ well-formed expressions

  predicate Matches(d: Dim, n: int) {
    d.Fixed? ==> d.n == n
  }

  predicate Bounds(d: Dim, n: int) {
    d.Fixed? ==> n <= d.n
  }

  /** What the types and the constructors' assertions guarantee. An inner panel is a block of whole rows of a
      row-major expression or of whole columns of a column-major one. */
  predicate WellFormed<T>(e: Expr<T>) {
    match e
    case Plain(_, rows, cols, r, c, mr, mc, rowMajor, _) =>
      Matches(r, rows) && Matches(c, cols) && Bounds(mr, rows) && Bounds(mc, cols)
      && (r.Fixed? ==> mr == r) && (c.Fixed? ==> mc == c) && rowMajor == VectorOrder(mr, mc, rowMajor)
    case Transpose(arg) => WellFormed(arg)
    case Unary(_, _, arg) => WellFormed(arg)
    case Binary(_, _, lhs, rhs) => WellFormed(lhs) && WellFormed(rhs) && Rows(lhs) == Rows(rhs) && Cols(lhs) == Cols(rhs)
    case Block(arg, sr, sc, rows, cols, r, c, innerPanel, _) =>
      WellFormed(arg) && sr + rows <= Rows(arg) && sc + cols <= Cols(arg) && Matches(r, rows) && Matches(c, cols)
      && (innerPanel ==> if RowMajor(arg) then sc == 0 && cols == Cols(arg) else sr == 0 && rows == Rows(arg))
    case Reverse(arg, _, _) => WellFormed(arg)
    case Replicate(arg, rf, cf, rfCT, cfCT) => WellFormed(arg) && Matches(rfCT, rf) && Matches(cfCT, cf)
    case Diagonal(arg, d, _) => WellFormed(arg) && -Rows(arg) <= d <= Cols(arg)
  }

  /** Compile-time dimensions are right. */
  lemma {:induction false} DimsRight<T>(e: Expr<T>)
    requires WellFormed(e)
    ensures Rows(e) >= 0 && Cols(e) >= 0
    ensures Matches(RowsCT(e), Rows(e)) && Matches(ColsCT(e), Cols(e))
    ensures Bounds(MaxRowsCT(e), Rows(e)) && Bounds(MaxColsCT(e), Cols(e))
  {
    match e
    case Plain(_, _, _, _, _, _, _, _, _) =>
    case Transpose(arg) => DimsRight(arg);
    case Unary(_, _, arg) => DimsRight(arg);
    case Binary(_, _, lhs, rhs) => DimsRight(lhs);
    case Block(arg, _, _, _, _, _, _, _, _) => DimsRight(arg);
    case Reverse(arg, _, _) => DimsRight(arg);
    case Replicate(arg, rf, cf, rfCT, cfCT) =>
      DimsRight(arg);
      TimesRight(rfCT, RowsCT(arg), rf, Rows(arg));
      TimesRight(cfCT, ColsCT(arg), cf, Cols(arg));
    case Diagonal(arg, d, fixedIndex) =>
      DimsRight(arg);
      DiagonalDimRight(RowsCT(arg), ColsCT(arg), Rows(arg), Cols(arg), d);
      DiagonalDimRight(MaxRowsCT(arg), MaxColsCT(arg), Rows(arg), Cols(arg), d);
      DiagonalDimRight(MaxRowsCT(arg), MaxColsCT(arg), Rows(arg), Cols(arg), 0);
  }

  lemma TimesRight(factor: Dim, dim: Dim, f: nat, n: int)
    requires n >= 0 && Matches(factor, f) && Matches(dim, n)
    ensures n * f >= 0 && Matches(Times(factor, dim), n * f) && Bounds(Times(factor, dim), n * f)
  {
    NatProduct(n, f);
    assert f * n == n * f;
  }

  lemma DiagonalDimRight(rowsCT: Dim, colsCT: Dim, rows: int, cols: int, d: int)
    requires rows >= 0 && cols >= 0 && -rows <= d <= cols
    ensures 0 <= DiagonalLength(rows, cols, d) <= DiagonalLength(rows, cols, 0)
    ensures Matches(rowsCT, rows) && Matches(colsCT, cols) ==> Matches(DiagonalDim(rowsCT, colsCT, d), DiagonalLength(rows, cols, d))
    ensures Bounds(rowsCT, rows) && Bounds(colsCT, cols) ==> Bounds(DiagonalDim(rowsCT, colsCT, d), DiagonalLength(rows, cols, d))
  {
  }

  lemma NatProduct(a: int, b: nat)
    requires a >= 0
    ensures a * b >= 0
  {
  }

  // ------------------------------------------------------------------------------ flat access is 2-D access

  /** The position a flat index denotes under the expression's storage order. */
  function FlatRow<T>(e: Expr<T>, index: int): int
    requires Cols(e) > 0 && Rows(e) > 0
  {
    if RowMajor(e) then index / Cols(e) else index % Rows(e)
  }

  function FlatCol<T>(e: Expr<T>, index: int): int
    requires Cols(e) > 0 && Rows(e) > 0
  {
    if RowMajor(e) then index % Cols(e) else index / Rows(e)
  }

  lemma Positive(rows: int, cols: int, index: int)
    requires rows >= 0 && cols >= 0 && 0 <= index < rows * cols
    ensures rows > 0 && cols > 0
  {
  }

  /** The position lies inside the expression, and its own flat index is the index. */
  lemma FlatInside<T>(e: Expr<T>, index: int)
    requires Rows(e) > 0 && Cols(e) > 0 && 0 <= index < Rows(e) * Cols(e)
    ensures 0 <= FlatRow(e, index) < Rows(e) && 0 <= FlatCol(e, index) < Cols(e)
    ensures index == if RowMajor(e) then FlatRow(e, index) * Cols(e) + FlatCol(e, index) else FlatCol(e, index) * Rows(e) + FlatRow(e, index)
  {
    hide Rows, Cols, FlagsOf;
    var rows, cols := Rows(e), Cols(e);
    if RowMajor(e) {
      QuotientInside(index, cols, rows);
    } else {
      SwapFactors(rows, cols);
      QuotientInside(index, rows, cols);
    }
  }

  lemma SwapFactors(a: int, b: int)
    ensures a * b == b * a
  {
  }

  lemma QuotientInside(index: int, n: nat, m: nat)
    requires n > 0 && 0 <= index < m * n
    ensures 0 <= index / n < m && 0 <= index % n < n && index == (index / n) * n + index % n
  {
    var q := DivMod(index, n);
    ModUnique(index, n, q, index % n);
    if q >= m {
      MulOrder(n, m, q);
    }
    if q < 0 {
      MulOrder(n, q, -1);
    }
  }

  /** In one row or one column the flat index is the position, whatever the storage order. */
  lemma FlatVector<T>(e: Expr<T>, index: int)
    requires Rows(e) > 0 && Cols(e) > 0 && 0 <= index < Rows(e) * Cols(e)
    ensures Rows(e) == 1 ==> FlatRow(e, index) == 0 && FlatCol(e, index) == index && index < Cols(e)
    ensures Cols(e) == 1 ==> FlatRow(e, index) == index && FlatCol(e, index) == 0 && index < Rows(e)
  {
    if Rows(e) == 1 {
      ModUnique(index, Cols(e), 0, index);
    }
    if Cols(e) == 1 {
      ModUnique(index, Rows(e), 0, index);
    }
  }

  /** A vector type with the other storage order has at most one coefficient per outer index. */
  lemma VectorFacts<T>(e: Expr<T>)
    requires WellFormed(e)
    ensures RowsCT(e) == Fixed(1) ==> Rows(e) == 1
    ensures ColsCT(e) == Fixed(1) ==> Cols(e) == 1
  {
    DimsRight(e);
  }

  lemma PlainFlat<T>(e: Expr<T>, index: int)
    requires e.Plain? && WellFormed(e) && Rows(e) > 0 && Cols(e) > 0 && 0 <= index < Rows(e) * Cols(e)
    ensures Flat(e, index) == Coeff(e, FlatRow(e, index), FlatCol(e, index))
  {
    FlatInside(e, index);
    FlatVector(e, index);
    if VectorCT(e) {
      VectorFacts(e);
    }
  }

  /** How many rows of a row-major expression, or columns of a column-major one. */
  function OuterCount<T>(e: Expr<T>): int {
    if RowMajor(e) then Rows(e) else Cols(e)
  }

  function InnerCount<T>(e: Expr<T>): int {
    if RowMajor(e) then Cols(e) else Rows(e)
  }

  /** Directly accessible expressions that allow flat access have no gaps between their outer slices. */
  lemma {:induction false} LinearHasNoGaps<T>(e: Expr<T>)
    requires WellFormed(e) && Direct(e) && Linear(e)
    ensures OuterCount(e) <= 1 || OuterStride(e) == InnerCount(e) * InnerStride(e)
  {
    DimsRight(e);
    match e
    case Plain(_, _, _, _, _, _, _, _, _) =>
    case Transpose(arg) => LinearHasNoGaps(arg);
    case Diagonal(arg, _, _) =>
    case Block(arg, _, _, _, _, _, _, innerPanel, _) =>
      DimsRight(arg);
      if !VectorCT(e) && RowMajor(e) == RowMajor(arg) {
        LinearHasNoGaps(arg);
      }
  }

  /** A block with direct access: flat access walks the inner stride. */
  lemma DirectBlockFlat<T>(e: Expr<T>, index: int)
    requires e.Block? && Direct(e.arg) && WellFormed(e) && Linear(e) && Rows(e) > 0 && Cols(e) > 0 && 0 <= index < Rows(e) * Cols(e)
    ensures Flat(e, index) == Coeff(e, FlatRow(e, index), FlatCol(e, index))
  {
    hide WellFormed, RowsCT, ColsCT, MaxRowsCT, MaxColsCT;
    LinearHasNoGaps(e);
    FlatInside(e, index);
    FlatVector(e, index);
    var o, i := if RowMajor(e) then FlatRow(e, index) else FlatCol(e, index), if RowMajor(e) then FlatCol(e, index) else FlatRow(e, index);
    StrideWalk(o, i, InnerCount(e), OuterCount(e), InnerStride(e), OuterStride(e), index);
  }

  lemma StrideWalk(o: int, i: int, inner: int, outer: int, innerStride: int, outerStride: int, index: int)
    requires 0 <= o < outer && index == o * inner + i && (outer <= 1 || outerStride == inner * innerStride)
    ensures o * outerStride + i * innerStride == index * innerStride
  {
    if outer > 1 {
      assert o * (inner * innerStride) == (o * inner) * innerStride;
    }
  }

  /** A block that hands flat access on lies in one outer slice of its argument or covers whole ones. */
  lemma SliceOrPanel<T>(e: Expr<T>)
    requires e.Block? && WellFormed(e) && Linear(e) && ForwardLinear(e) && Rows(e) > 0 && Cols(e) > 0
    ensures RowMajor(e.arg) ==> Rows(e) == 1 || (e.startCol == 0 && Cols(e) == Cols(e.arg) && (RowMajor(e) || Cols(e) == 1))
    ensures !RowMajor(e.arg) ==> Cols(e) == 1 || (e.startRow == 0 && Rows(e) == Rows(e.arg) && (!RowMajor(e) || Rows(e) == 1))
  {
    hide FlagsOf;
    DimsRight(e);
    BlockFlags(e);
  }

  lemma BlockFlags<T>(e: Expr<T>)
    requires e.Block?
    ensures RowMajor(e) == VectorOrder(MaxRowsCT(e), MaxColsCT(e), RowMajor(e.arg))
    ensures Linear(e) <==> VectorCT(e) || (e.innerPanel && Linear(e.arg))
  {
  }

  lemma BlockInside<T>(e: Expr<T>)
    requires e.Block? && WellFormed(e)
    ensures e.startRow + Rows(e) <= Rows(e.arg) && e.startCol + Cols(e) <= Cols(e.arg)
  {
  }

  /** Where a flat index of a block lands in its argument, when flat access is handed on. */
  lemma ForwardedPosition<T>(e: Expr<T>, index: int)
    requires e.Block? && WellFormed(e) && Linear(e) && ForwardLinear(e) && Rows(e) > 0 && Cols(e) > 0 && 0 <= index < Rows(e) * Cols(e)
    ensures Rows(e.arg) > 0 && Cols(e.arg) > 0
    ensures var at := (if RowMajor(e.arg) then e.startRow * Cols(e.arg) + e.startCol else e.startCol * Rows(e.arg) + e.startRow) + index;
            && 0 <= at < Rows(e.arg) * Cols(e.arg)
            && FlatRow(e.arg, at) == e.startRow + FlatRow(e, index) && FlatCol(e.arg, at) == e.startCol + FlatCol(e, index)
  {
    hide RowMajor, Linear, WellFormed, Rows, Cols, ForwardLinear;
    var arg := e.arg;
    BlockInside(e);
    SliceOrPanel(e);
    FlatInside(e, index);
    FlatVector(e, index);
    var r, c := FlatRow(e, index), FlatCol(e, index);
    if RowMajor(arg) {
      ForwardedOrder(e, index, Cols(arg), Rows(arg), e.startCol, e.startRow, c, r);
    } else {
      ForwardedOrder(e, index, Rows(arg), Cols(arg), e.startRow, e.startCol, r, c);
    }
  }

  /** The same with the argument's inner and outer directions named: n and m are its inner and outer size, i0 and o0
      the block's start, i and o the position in the block. */
  lemma ForwardedOrder<T>(e: Expr<T>, index: int, n: int, m: int, i0: int, o0: int, i: int, o: int)
    requires 0 <= i0 && 0 <= i0 + i < n && 0 <= o0 && 0 <= o0 + o < m && 0 <= o
    requires (o == 0 && index == i) || (i0 == 0 && index == o * n + i)
    ensures var at := o0 * n + i0 + index; 0 <= at < m * n && at / n == o0 + o && at % n == i0 + i
  {
    var at := o0 * n + i0 + index;
    Spread(n, o0, o);
    Spread(n, m - 1, 1);
    ModUnique(at, n, o0 + o, i0 + i);
    MulOrder(n, o0 + o, m - 1);
    MulOrder(n, 0, o0 + o);
  }

  lemma Spread(n: int, a: int, b: int)
    ensures n * (a + b) == a * n + b * n && n * a == a * n
  {
  }

  lemma BlockFlat<T>(e: Expr<T>, index: int)
    requires e.Block? && WellFormed(e) && Linear(e) && Rows(e) > 0 && Cols(e) > 0 && 0 <= index < Rows(e) * Cols(e)
    ensures Flat(e, index) == Coeff(e, FlatRow(e, index), FlatCol(e, index))
    decreases e, 0
  {
    hide Rows, Cols, RowsCT, ColsCT, MaxRowsCT, MaxColsCT;
    if Direct(e.arg) {
      DirectBlockFlat(e, index);
    } else if ForwardLinear(e) {
      ForwardedPosition(e, index);
      FlatIsCoeff(e.arg, (if RowMajor(e.arg) then e.startRow * Cols(e.arg) + e.startCol else e.startCol * Rows(e.arg) + e.startRow) + index);
    } else {
      assert VectorCT(e);
      VectorFacts(e);
      FlatVector(e, index);
    }
  }

  /** Counting from the end of the flat order is counting from the end in both directions. */
  lemma ReversedQuotient(n: int, m: int, index: int)
    requires n > 0 && 0 <= index < m * n
    ensures var at := m * n - index - 1; 0 <= at < m * n && at / n == m - index / n - 1 && at % n == n - index % n - 1
  {
    QuotientInside(index, n, m);
    var at := m * n - index - 1;
    var q, r := index / n, index % n;
    assert (m - q - 1) * n == m * n - q * n - n;
    ModUnique(at, n, m - q - 1, n - r - 1);
  }

  lemma ReverseFlat<T>(e: Expr<T>, index: int)
    requires e.Reverse? && WellFormed(e) && Linear(e) && Rows(e) > 0 && Cols(e) > 0 && 0 <= index < Rows(e) * Cols(e)
    ensures Flat(e, index) == Coeff(e, FlatRow(e, index), FlatCol(e, index))
    decreases e, 0
  {
    hide RowsCT, ColsCT, MaxRowsCT, MaxColsCT;
    var arg, rows, cols := e.arg, Rows(e), Cols(e);
    VectorFacts(e);
    FlatVector(e, index);
    if e.reverseRow && e.reverseCol {
      assert rows * cols == cols * rows;
      ReversedQuotient(cols, rows, index);
      ReversedQuotient(rows, cols, index);
      FlatIsCoeff(arg, rows * cols - index - 1);
    } else if e.reverseRow {
      FlatVector(arg, rows - index - 1);
      FlatIsCoeff(arg, rows - index - 1);
    } else {
      FlatVector(arg, cols - index - 1);
      FlatIsCoeff(arg, cols - index - 1);
    }
  }

  /** A replicated vector type replicates a vector type once in the other direction. */
  lemma ReplicatedVector<T>(e: Expr<T>)
    requires e.Replicate? && WellFormed(e)
    ensures RowsCT(e) == Fixed(1) ==> e.rowFactor == 1 && Rows(e.arg) == 1
    ensures ColsCT(e) == Fixed(1) ==> e.colFactor == 1 && Cols(e.arg) == 1
  {
    DimsRight(e.arg);
    if RowsCT(e) == Fixed(1) {
      ProductOne(e.rowFactorCT.n, RowsCT(e.arg).n);
    }
    if ColsCT(e) == Fixed(1) {
      ProductOne(e.colFactorCT.n, ColsCT(e.arg).n);
    }
  }

  lemma ProductOne(a: nat, b: nat)
    requires a * b == 1
    ensures a == 1 && b == 1
  {
    if a == 0 || b == 0 {
      assert false;
    }
    if a > 1 {
      MulOrder(a, 1, b);
    }
  }

  lemma ReplicateFlat<T>(e: Expr<T>, index: int)
    requires e.Replicate? && WellFormed(e) && Linear(e) && Rows(e) > 0 && Cols(e) > 0 && 0 <= index < Rows(e) * Cols(e)
    ensures Flat(e, index) == Coeff(e, FlatRow(e, index), FlatCol(e, index))
    decreases e, 0
  {
    hide MaxRowsCT, MaxColsCT, RowsCT, ColsCT;
    var arg := e.arg;
    DimsRight(arg);
    VectorFacts(e);
    ReplicatedVector(e);
    FlatVector(e, index);
    if RowsCT(e) == Fixed(1) {
      assert Cols(arg) > 0;
      var at := if e.colFactorCT == Fixed(1) then index else index % Cols(arg);
      FlatVector(arg, at);
      FlatIsCoeff(arg, at);
    } else {
      assert Rows(arg) > 0;
      var at := if e.rowFactorCT == Fixed(1) then index else index % Rows(arg);
      FlatVector(arg, at);
      FlatIsCoeff(arg, at);
    }
  }

  lemma TransposeFlat<T>(e: Expr<T>, index: int)
    requires e.Transpose? && WellFormed(e) && Linear(e) && Rows(e) > 0 && Cols(e) > 0 && 0 <= index < Rows(e) * Cols(e)
    ensures Flat(e, index) == Coeff(e, FlatRow(e, index), FlatCol(e, index))
    decreases e, 0
  {
    assert Rows(e) * Cols(e) == Rows(e.arg) * Cols(e.arg);
    FlatIsCoeff(e.arg, index);
  }

  lemma CwiseFlat<T>(e: Expr<T>, index: int)
    requires (e.Unary? || e.Binary?) && WellFormed(e) && Linear(e) && Rows(e) > 0 && Cols(e) > 0 && 0 <= index < Rows(e) * Cols(e)
    ensures Flat(e, index) == Coeff(e, FlatRow(e, index), FlatCol(e, index))
    decreases e, 0
  {
    if e.Unary? {
      FlatIsCoeff(e.arg, index);
    } else {
      FlatIsCoeff(e.lhs, index);
      FlatIsCoeff(e.rhs, index);
    }
  }

  lemma DiagonalFlat<T>(e: Expr<T>, index: int)
    requires e.Diagonal? && Rows(e) > 0 && 0 <= index < Rows(e) * Cols(e)
    ensures Flat(e, index) == Coeff(e, FlatRow(e, index), FlatCol(e, index))
  {
    FlatVector(e, index);
  }

  /** For every expression: whenever the computed flags allow flat access, it reads the coefficient at the position
      the index denotes under the expression's own storage order. */
  lemma {:induction false} FlatIsCoeff<T>(e: Expr<T>, index: int)
    requires WellFormed(e) && Linear(e) && 0 <= index < Rows(e) * Cols(e)
    ensures Rows(e) > 0 && Cols(e) > 0
    ensures Flat(e, index) == Coeff(e, FlatRow(e, index), FlatCol(e, index))
    decreases e, 1
  {
    hide RowsCT, ColsCT, MaxRowsCT, MaxColsCT, Rows, Cols, FlagsOf, WellFormed, Flat, Coeff;
    DimsRight(e);
    Positive(Rows(e), Cols(e), index);
    match e
    case Plain(_, _, _, _, _, _, _, _, _) => PlainFlat(e, index);
    case Transpose(_) => TransposeFlat(e, index);
    case Unary(_, _, _) => CwiseFlat(e, index);
    case Binary(_, _, _, _) => CwiseFlat(e, index);
    case Block(_, _, _, _, _, _, _, _, _) => BlockFlat(e, index);
    case Reverse(_, _, _) => ReverseFlat(e, index);
    case Replicate(_, _, _, _, _) => ReplicateFlat(e, index);
    case Diagonal(_, _, _) => DiagonalFlat(e, index);
  }

  // -------------------------------------------------------------------------- which expressions allow it

  /** Seen through its transposes and coefficient-wise operations, every leaf of the expression allows flat access in
      the given order. */
  predicate Uniform<T>(e: Expr<T>, rowMajor: bool) {
    match e
    case Plain(_, _, _, _, _, _, _, order, _) => order == rowMajor
    case Transpose(arg) => Uniform(arg, !rowMajor)
    case Unary(_, _, arg) => Uniform(arg, rowMajor)
    case Binary(_, _, lhs, rhs) => Uniform(lhs, rowMajor) && Uniform(rhs, rowMajor)
    case _ => Linear(e) && RowMajor(e) == rowMajor
  }

  /** The computed flags allow flat access exactly when all leaves agree on one storage order. Diagonals and blocks
      of a vector type always allow it, and replicates of a vector type and reverses along it lose nothing. */
  lemma {:induction false} LinearIffUniform<T>(e: Expr<T>, rowMajor: bool)
    ensures Linear(e) && RowMajor(e) == rowMajor <==> Uniform(e, rowMajor)
    ensures e.Diagonal? || (e.Block? && VectorCT(e)) ==> Linear(e)
    ensures e.Replicate? && VectorCT(e) ==> (Linear(e) <==> Linear(e.arg))
    ensures e.Reverse? && ((e.reverseRow && ColsCT(e) == Fixed(1)) || (e.reverseCol && RowsCT(e) == Fixed(1))) ==> (Linear(e) <==> Linear(e.arg))
  {
    match e
    case Transpose(arg) => LinearIffUniform(arg, !rowMajor);
    case Unary(_, _, arg) => LinearIffUniform(arg, rowMajor);
    case Binary(_, _, lhs, rhs) =>
      LinearIffUniform(lhs, rowMajor);
      LinearIffUniform(rhs, rowMajor);
    case _ =>
  }

  /** The storage order of an expression that its type bounds to one row or one column follows its direction. */
  lemma {:induction false} VectorsFollowDirection<T>(e: Expr<T>)
    requires WellFormed(e) && (MaxRowsCT(e) == Fixed(1)) != (MaxColsCT(e) == Fixed(1))
    ensures RowMajor(e) <==> MaxRowsCT(e) == Fixed(1)
  {
    match e
    case Transpose(arg) => VectorsFollowDirection(arg);
    case Unary(_, _, arg) => VectorsFollowDirection(arg);
    case Binary(_, _, lhs, _) => VectorsFollowDirection(lhs);
    case Reverse(arg, _, _) => VectorsFollowDirection(arg);
    case _ =>
  }

  // ---------------------------------------------------------------------- direct access is access by evaluators

  /** Where two dimensions are both larger than one, elements of an outer slice are adjacent. */
  lemma {:induction false} InnerStrideOne<T>(e: Expr<T>)
    requires WellFormed(e) && Direct(e) && Rows(e) > 1 && Cols(e) > 1
    ensures InnerStride(e) == 1
  {
    match e
    case Plain(_, _, _, _, _, _, _, _, _) =>
    case Transpose(arg) => InnerStrideOne(arg);
    case Diagonal(arg, _, _) =>
    case Block(arg, _, _, _, _, _, _, _, _) =>
      DimsRight(e);
      InnerStrideOne(arg);
  }

  /** The strides and the offset of a directly accessible expression locate its coefficients: reading a block
      through its argument's storage is reading it through its argument's evaluator. */
  lemma {:induction false} DirectReadsCoeff<T>(e: Expr<T>, row: int, col: int)
    requires WellFormed(e) && Direct(e) && 0 <= row < Rows(e) && 0 <= col < Cols(e)
    ensures Coeff(e, row, col) == Storage(e)(Offset(e) + row * RowStride(e) + col * ColStride(e))
    ensures e.Block? ==> Coeff(e, row, col) == Coeff(e.arg, e.startRow + row, e.startCol + col)
    decreases e, 1
  {
    hide MaxRowsCT, MaxColsCT, RowsCT, ColsCT;
    match e
    case Plain(_, _, _, _, _, _, _, _, _) => PlainReads(e, row, col);
    case Transpose(arg) => DirectReadsCoeff(arg, col, row);
    case Block(_, _, _, _, _, _, _, _, _) => BlockReads(e, row, col);
    case Diagonal(_, _, _) => DiagonalReads(e, row, col);
  }

  lemma BlockReads<T>(e: Expr<T>, row: int, col: int)
    requires e.Block? && WellFormed(e) && Direct(e) && 0 <= row < Rows(e) && 0 <= col < Cols(e)
    ensures Coeff(e, row, col) == Storage(e)(Offset(e) + row * RowStride(e) + col * ColStride(e))
    ensures Coeff(e, row, col) == Coeff(e.arg, e.startRow + row, e.startCol + col)
    decreases e, 0
  {
    hide MaxRowsCT, MaxColsCT, RowsCT, ColsCT;
    DirectReadsCoeff(e.arg, e.startRow + row, e.startCol + col);
    Shift(e.startRow, row, RowStride(e.arg));
    Shift(e.startCol, col, ColStride(e.arg));
  }

  lemma DiagonalReads<T>(e: Expr<T>, row: int, col: int)
    requires e.Diagonal? && WellFormed(e) && Direct(e) && 0 <= row < Rows(e) && 0 <= col < Cols(e)
    ensures Coeff(e, row, col) == Storage(e)(Offset(e) + row * RowStride(e) + col * ColStride(e))
    decreases e, 0
  {
    hide MaxRowsCT, MaxColsCT, RowsCT, ColsCT;
    DirectReadsCoeff(e.arg, row + Max(-e.index, 0), row + Max(e.index, 0));
    Shift(row, Max(-e.index, 0), RowStride(e.arg));
    Shift(row, Max(e.index, 0), ColStride(e.arg));
    DiagonalStep(e, row);
  }

  lemma Shift(a: int, b: int, s: int)
    ensures (a + b) * s == a * s + b * s
  {
  }

  lemma PlainReads<T>(e: Expr<T>, row: int, col: int)
    requires e.Plain? && WellFormed(e) && 0 <= row < Rows(e) && 0 <= col < Cols(e)
    ensures Coeff(e, row, col) == Storage(e)(Offset(e) + row * RowStride(e) + col * ColStride(e))
  {
    if VectorCT(e) {
      VectorFacts(e);
      if Rows(e) == 1 {
        assert row == 0;
      } else {
        assert col == 0;
      }
    }
  }

  /** A step along the diagonal is one row and one column, the code's outer stride plus one. */
  lemma DiagonalStep<T>(e: Expr<T>, row: int)
    requires e.Diagonal? && WellFormed(e) && Direct(e) && 0 <= row < Rows(e)
    ensures row * RowStride(e.arg) + row * ColStride(e.arg) == row * InnerStride(e)
  {
    DimsRight(e.arg);
    if row > 0 {
      InnerStrideOne(e.arg);
      Shift2(row, RowStride(e.arg), ColStride(e.arg));
    }
  }

  lemma Shift2(a: int, s: int, t: int)
    ensures a * s + a * t == a * (s + t)
  {
  }

  // -------------------------------------------------------------------- what two-dimensional access computes

  /** The expression as rows of coefficients. */
  function RowsOf<T>(e: Expr<T>): (m: seq<seq<T>>)
    requires WellFormed(e)
    ensures Grid(m, Rows(e), Cols(e))
    ensures forall r, c :: 0 <= r < Rows(e) && 0 <= c < Cols(e) ==> m[r][c] == Coeff(e, r, c)
  {
    DimsRight(e);
    seq(Rows(e), r requires 0 <= r < Rows(e) => seq(Cols(e), c requires 0 <= c < Cols(e) => Coeff(e, r, c)))
  }

  /** n elements of a storage. */
  function Stored<T>(data: int -> T, n: nat): seq<T> {
    seq(n, i => data(i))
  }

  lemma TransposeRows<T>(e: Expr<T>)
    requires e.Transpose? && WellFormed(e)
    ensures Rows(e) >= 0 && RowsOf(e) == Transposed(RowsOf(e.arg), Rows(e))
  {
    hide WellFormed;
    ArgumentOf(e);
    DimsRight(e);
    SameGrid(RowsOf(e), Transposed(RowsOf(e.arg), Rows(e)), Rows(e), Cols(e));
  }

  lemma ArgumentOf<T>(e: Expr<T>)
    requires WellFormed(e) && !e.Plain? && !e.Binary?
    ensures WellFormed(e.arg)
  {
  }

  lemma UnaryRows<T>(e: Expr<T>)
    requires e.Unary? && WellFormed(e)
    ensures RowsOf(e) == Map(row => Map(e.op, row), RowsOf(e.arg))
  {
    SameGrid(RowsOf(e), Map(row => Map(e.op, row), RowsOf(e.arg)), Rows(e), Cols(e));
  }

  lemma BinaryRows<T>(e: Expr<T>)
    requires e.Binary? && WellFormed(e)
    ensures RowsOf(e) == Zip((a, b) => Zip(e.op2, a, b), RowsOf(e.lhs), RowsOf(e.rhs))
  {
    SameGrid(RowsOf(e), Zip((a, b) => Zip(e.op2, a, b), RowsOf(e.lhs), RowsOf(e.rhs)), Rows(e), Cols(e));
  }

  lemma BlockCoeff<T>(e: Expr<T>, row: int, col: int)
    requires e.Block? && WellFormed(e) && 0 <= row < Rows(e) && 0 <= col < Cols(e)
    ensures Coeff(e, row, col) == Coeff(e.arg, e.startRow + row, e.startCol + col)
  {
    if Direct(e.arg) {
      BlockReads(e, row, col);
    }
  }

  /** A block, read through the strides of its storage or through its argument, is a slice of the rows. */
  lemma BlockRows<T>(e: Expr<T>)
    requires e.Block? && WellFormed(e)
    ensures RowsOf(e) == Map(row => Slice(row, e.startCol, e.cols), Slice(RowsOf(e.arg), e.startRow, e.rows))
  {
    hide Coeff;
    var m := RowsOf(e.arg);
    forall r, c | 0 <= r < Rows(e) && 0 <= c < Cols(e)
      ensures RowsOf(e)[r][c] == m[e.startRow + r][e.startCol + c]
    {
      BlockCoeff(e, r, c);
    }
    SameGrid(RowsOf(e), Map(row => Slice(row, e.startCol, e.cols), Slice(m, e.startRow, e.rows)), Rows(e), Cols(e));
  }

  /** Reversal, in either direction or both, of any expression. */
  lemma ReverseRows<T>(e: Expr<T>)
    requires e.Reverse? && WellFormed(e)
    ensures var m := if e.reverseCol then Map(row => Reversed(row), RowsOf(e.arg)) else RowsOf(e.arg);
            RowsOf(e) == if e.reverseRow then Reversed(m) else m
  {
    hide WellFormed, Coeff, RowsOf, Reversed;
    ArgumentOf(e);
    var m := if e.reverseCol then Map(row => Reversed(row), RowsOf(e.arg)) else RowsOf(e.arg);
    var n := if e.reverseRow then Reversed(m) else m;
    forall r, c | 0 <= r < Rows(e) && 0 <= c < Cols(e) ensures RowsOf(e)[r][c] == n[r][c] {
      ReverseCoeff(e, r, c);
      var k := if e.reverseRow then Rows(e) - 1 - r else r;
      assert n[r] == m[k];
    }
    SameGrid(RowsOf(e), n, Rows(e), Cols(e));
  }

  lemma ReverseCoeff<T>(e: Expr<T>, row: int, col: int)
    requires e.Reverse?
    ensures Coeff(e, row, col)
         == Coeff(e.arg, if e.reverseRow then Rows(e) - 1 - row else row, if e.reverseCol then Cols(e) - 1 - col else col)
  {
  }

  lemma ReplicatedIndex(single: bool, factorCT: Dim, factor: nat, n: int, i: int)
    requires n >= 0 && 0 <= i < n * factor && Matches(factorCT, factor) && (single ==> factor == 1 && n == 1)
    ensures n > 0 && (if single then 0 else if factorCT == Fixed(1) then i else Mod(i, n)) == i % n
  {
    if factor == 1 {
      ModUnique(i, n, 0, i);
    }
  }

  /** The remainder is taken only where the type does not show that it changes nothing. */
  lemma ReplicateCoeff<T>(e: Expr<T>, row: int, col: int)
    requires e.Replicate? && WellFormed(e) && 0 <= row < Rows(e) && 0 <= col < Cols(e)
    ensures Rows(e.arg) > 0 && Cols(e.arg) > 0
    ensures Coeff(e, row, col) == Coeff(e.arg, row % Rows(e.arg), col % Cols(e.arg))
  {
    hide RowsCT, ColsCT, MaxRowsCT, MaxColsCT, Mod, FlagsOf;
    DimsRight(e.arg);
    ReplicatedVector(e);
    ReplicatedIndex(RowsCT(e) == Fixed(1), e.rowFactorCT, e.rowFactor, Rows(e.arg), row);
    ReplicatedIndex(ColsCT(e) == Fixed(1), e.colFactorCT, e.colFactor, Cols(e.arg), col);
  }

  /** A replicate is its argument's rows, each repeated, repeated. */
  lemma ReplicateRows<T>(e: Expr<T>)
    requires e.Replicate? && WellFormed(e)
    ensures RowsOf(e) == Copies(Map(row => Copies(row, e.colFactor), RowsOf(e.arg)), e.rowFactor)
  {
    var m := Map(row => Copies(row, e.colFactor), RowsOf(e.arg));
    var copies := Copies(m, e.rowFactor);
    CopiesLength(m, e.rowFactor);
    forall r | 0 <= r < Rows(e) ensures |copies[r]| == Cols(e) {
      CopiesAt(m, e.rowFactor, r);
      CopiesLength(RowsOf(e.arg)[r % Rows(e.arg)], e.colFactor);
    }
    forall r, c | 0 <= r < Rows(e) && 0 <= c < Cols(e) ensures RowsOf(e)[r][c] == copies[r][c] {
      ReplicateCoeff(e, r, c);
      CopiesAt(m, e.rowFactor, r);
      CopiesAt(RowsOf(e.arg)[r % Rows(e.arg)], e.colFactor, c);
    }
    SameGrid(RowsOf(e), copies, Rows(e), Cols(e));
  }

  /** The d-th diagonal, as a column: the main one without the first d columns, or without the first -d rows. */
  lemma DiagonalRows<T>(e: Expr<T>)
    requires e.Diagonal? && WellFormed(e)
    ensures RowsOf(e) == Map(x => [x], MainDiagonal(Corner(RowsOf(e.arg), e.index)))
  {
    hide WellFormed, MainDiagonal, RowsOf, Coeff, Corner;
    ArgumentOf(e);
    DiagonalInside(e);
    var m, corner := RowsOf(e.arg), Corner(RowsOf(e.arg), e.index);
    var below, right := Max(-e.index, 0), Max(e.index, 0);
    CornerAt(m, Rows(e.arg), Cols(e.arg), e.index);
    MainDiagonalAt(corner, Rows(e.arg) - below, Cols(e.arg) - right);
    var diagonal := Map(x => [x], MainDiagonal(corner));
    forall r, c | 0 <= r < Rows(e) && 0 <= c < 1 ensures RowsOf(e)[r][c] == diagonal[r][c] {
      DiagonalCoeff(e, r);
      assert corner[r][r] == m[r + below][r + right];
    }
    SameGrid(RowsOf(e), diagonal, Rows(e), 1);
  }

  lemma DiagonalInside<T>(e: Expr<T>)
    requires e.Diagonal? && WellFormed(e)
    ensures -Rows(e.arg) <= e.index <= Cols(e.arg) && Cols(e) == 1 && Rows(e.arg) >= 0 && Cols(e.arg) >= 0
    ensures Rows(e) == Min(Rows(e.arg) - Max(-e.index, 0), Cols(e.arg) - Max(e.index, 0))
  {
    DimsRight(e.arg);
  }

  lemma DiagonalCoeff<T>(e: Expr<T>, row: int)
    requires e.Diagonal?
    ensures Coeff(e, row, 0) == Coeff(e.arg, row + Max(-e.index, 0), row + Max(e.index, 0))
  {
  }

  /** The coefficients by flat index, in order. */
  function FlatSequence<T>(e: Expr<T>): seq<T>
    requires WellFormed(e) && Linear(e)
  {
    DimsRight(e);
    NatProduct(Rows(e), Cols(e));
    seq(Rows(e) * Cols(e), i requires 0 <= i < Rows(e) * Cols(e) => Flat(e, i))
  }

  /** The outer slices of an expression in its own storage order: its rows or its columns. */
  function Slices<T>(e: Expr<T>): (m: seq<seq<T>>)
    requires WellFormed(e)
    ensures Grid(m, OuterCount(e), InnerCount(e))
  {
    DimsRight(e);
    if RowMajor(e) then RowsOf(e) else Transposed(RowsOf(e), Cols(e))
  }

  /** Flat access runs through the rows, or the columns, one after another. */
  lemma FlatIsSlices<T>(e: Expr<T>)
    requires WellFormed(e) && Linear(e)
    ensures FlatSequence(e) == Flatten(Slices(e))
  {
    hide WellFormed, Flat, Coeff, FlagsOf, Rows, Cols;
    DimsRight(e);
    NatProduct(Rows(e), Cols(e));
    FlattenLength(Slices(e), OuterCount(e), InnerCount(e));
    SwapFactors(Rows(e), Cols(e));
    forall i | 0 <= i < Rows(e) * Cols(e) ensures FlatSequence(e)[i] == Flatten(Slices(e))[i] {
      FlatIsCoeff(e, i);
      FlatInside(e, i);
      var r, c := FlatRow(e, i), FlatCol(e, i);
      if RowMajor(e) {
        FlattenAt(Slices(e), OuterCount(e), InnerCount(e), r, c);
      } else {
        FlattenAt(Slices(e), OuterCount(e), InnerCount(e), c, r);
      }
    }
  }

  /** The storage of a plain matrix holds its rows, or its columns, one after another. */
  lemma PlainRows<T>(e: Expr<T>)
    requires e.Plain? && WellFormed(e)
    ensures Rows(e) * Cols(e) >= 0 && Flatten(Slices(e)) == Stored(e.data, Rows(e) * Cols(e))
  {
    FlatIsSlices(e);
    NatProduct(Rows(e), Cols(e));
    assert FlatSequence(e) == Stored(e.data, Rows(e) * Cols(e));
  }
}
