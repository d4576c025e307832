/** The dense assignment loops of Core/AssignEvaluator.h.

Every traversal must do what the plain double loop does: apply the assignment functor once to each coefficient of the
destination. Packet stores are modelled as the coefficient stores they stand for, and carry the alignment their store
mode asserts as a precondition. Addresses are in bytes, strides and sizes in scalars. */
module AssignLoop {
  import opened Integers

  // ----------------------------------------------------------------------------- integers as the code sees them

  /** a & b */
  function And(a: nat, b: nat): nat {
    if a == 0 || b == 0 then 0 else 2 * And(a / 2, b / 2) + (a % 2) * (b % 2)
  }

  /** a & ~m */
  function AndNot(a: nat, m: nat): nat {
    if a == 0 then 0 else 2 * AndNot(a / 2, m / 2) + if m % 2 == 1 then 0 else a % 2
  }

  predicate PowerOfTwo(p: nat) {
    p == 1 || (p > 1 && p % 2 == 0 && PowerOfTwo(p / 2))
  }

  /** The C++ remainder: truncates towards zero. */
  function Rem(a: int, b: nat): int
    requires b > 0
  {
    if a >= 0 then a % b else -((-a) % b)
  }

  /** a & (p - 1) is the remainder modulo a power of two. */
  lemma {:induction false} AndMask(a: nat, p: nat)
    requires PowerOfTwo(p)
    ensures And(a, p - 1) == a % p
    decreases a
  {
    if a == 0 || p == 1 {
    } else {
      AndMask(a / 2, p / 2);
      assert (p - 1) / 2 == p / 2 - 1 && (p - 1) % 2 == 1;
      HalveMod(a, p / 2);
    }
  }

  lemma HalveMod(a: nat, q: nat)
    requires q > 0
    ensures a % (2 * q) == 2 * ((a / 2) % q) + a % 2
  {
    var d, r := (a / 2) / q, (a / 2) % q;
    assert a / 2 == d * q + r;
    assert a == (2 * q) * d + (2 * r + a % 2);
    ModUnique(a, 2 * q, d, 2 * r + a % 2);
  }

  /** a & ~(p - 1) rounds down to a multiple of a power of two. */
  lemma {:induction false} AndNotMask(a: nat, p: nat)
    requires PowerOfTwo(p)
    ensures AndNot(a, p - 1) == a - a % p
    decreases a
  {
    if a == 0 {
    } else if p == 1 {
      AndNotMask(a / 2, 1);
    } else {
      AndNotMask(a / 2, p / 2);
      assert (p - 1) / 2 == p / 2 - 1 && (p - 1) % 2 == 1;
      HalveMod(a, p / 2);
    }
  }

  lemma ModShift(a: int, m: nat, k: int)
    requires m > 0
    ensures (a + m * k) % m == a % m
  {
    ModUnique(a + m * k, m, a / m + k, a % m);
  }

  /** stride is a multiple of p plus the truncated remainder. */
  lemma RemSplit(stride: int, p: nat) returns (d: int)
    requires p > 0
    ensures stride == p * d + Rem(stride, p) && Rem(stride, p) < p
  {
    if stride >= 0 {
      d := stride / p;
    } else {
      d := -((-stride) / p);
      Negate(p, (-stride) / p);
    }
  }

  lemma RemBound(stride: int, p: nat)
    requires p > 0
    ensures Rem(stride, p) < p
  {
  }

  lemma Negate(p: int, d: int)
    ensures p * -d == -(p * d)
  {
  }

  /** The step from one row's first aligned position to the next row's undoes the stride, modulo the packet size,
      whatever the sign of the stride. */
  lemma StepUndoesStride(stride: int, p: nat) returns (k: int)
    requires PowerOfTwo(p)
    ensures p - Rem(stride, p) >= 0
    ensures And(p - Rem(stride, p), p - 1) + stride == p * k
  {
    hide And, Rem, PowerOfTwo;
    Positive(p);
    var r := Rem(stride, p);
    var d := RemSplit(stride, p);
    AndMask(p - r, p);
    var q := DivMod(p - r, p);
    k := Collect(p, q, d, r, (p - r) % p, stride);
  }

  lemma Positive(p: nat)
    requires PowerOfTwo(p)
    ensures p > 0
  {
  }

  lemma Collect(p: int, q: int, d: int, r: int, m: int, stride: int) returns (k: int)
    requires p - r == p * q + m && stride == p * d + r
    ensures m + stride == p * k
  {
    k := 1 - q + d;
    assert p * (1 - q + d) == p - p * q + p * d;
  }

  // ------------------------------------------------------------------------------------------- alignment

  /** Of two powers of two the smaller divides the larger. */
  lemma {:induction false} PowersDivide(a: nat, b: nat)
    requires PowerOfTwo(a) && PowerOfTwo(b) && a <= b
    ensures b % a == 0
    decreases b
  {
    if a == 1 {
    } else {
      PowersDivide(a / 2, b / 2);
      var q := DivMod(b / 2, a / 2);
      assert b == a * q;
      ModUnique(b, a, q, 0);
    }
  }

  lemma DividesThrough(x: int, m: nat, d: nat)
    requires m > 0 && d > 0 && x % m == 0 && m % d == 0
    ensures x % d == 0
  {
    var q := DivMod(x, m);
    var r := DivMod(m, d);
    assert x == d * (r * q);
    ModUnique(x, d, r * q, 0);
  }

  lemma MultipleOf(m: nat, k: int)
    requires m > 0
    ensures (m * k) % m == 0
  {
    ModUnique(m * k, m, k, 0);
  }

  lemma SumDivides(x: int, y: int, d: nat)
    requires d > 0 && x % d == 0 && y % d == 0
    ensures (x + y) % d == 0
  {
    var q := DivMod(x, d);
    var r := DivMod(y, d);
    assert x + y == d * (q + r);
    ModUnique(x + y, d, q + r, 0);
  }

  /** `first_aligned`: the index of the first element at a multiple of the alignment. */
  function FirstAligned(alignment: nat, address: nat, scalarSize: nat, size: nat): nat
    requires scalarSize > 0
  {
    var alignmentSize := Scalars(alignment, scalarSize);
    if alignmentSize <= 1 then 0
    else if And(address, scalarSize - 1) != 0 || alignment % scalarSize != 0 then size
    else
      AndBound(Scalars(address, scalarSize), alignmentSize - 1);
      Min(And(alignmentSize - And(Scalars(address, scalarSize), alignmentSize - 1), alignmentSize - 1), size)
  }

  /** A number of bytes in whole scalars. */
  function Scalars(bytes: nat, scalarSize: nat): nat
    requires scalarSize > 0
  {
    bytes / scalarSize
  }

  lemma {:induction false} AndBound(a: nat, b: nat)
    ensures And(a, b) <= b
  {
    if a > 0 && b > 0 {
      AndBound(a / 2, b / 2);
    }
  }

  lemma {:induction false} HalfPower(a: nat, b: nat)
    requires PowerOfTwo(a) && PowerOfTwo(b) && b <= a
    ensures PowerOfTwo(a / b) && a == b * (a / b)
    decreases b
  {
    if b > 1 {
      HalfPower(a / 2, b / 2);
      Doubled(a, b, (a / 2) / (b / 2));
    }
  }

  lemma Doubled(a: nat, b: nat, q: nat)
    requires b > 0 && a % 2 == 0 && b % 2 == 0 && a / 2 == (b / 2) * q
    ensures a / b == q && a == b * q
  {
    var x := b / 2;
    assert b == 2 * x && a == 2 * (x * q);
    assert (2 * x) * q == 2 * (x * q);
    ModUnique(a, b, q, 0);
  }

  /** With an array aligned to a scalar, what `first_aligned` returns below the size is an aligned position, less than
      one alignment from the start and so the first, and it returns the size only when the array is shorter than the
      alignment. */
  lemma FirstAlignedWorks(alignment: nat, address: nat, scalarSize: nat, size: nat)
    requires PowerOfTwo(alignment) && PowerOfTwo(scalarSize) && address % scalarSize == 0
    ensures var f := FirstAligned(alignment, address, scalarSize, size);
            && f <= size
            && (f < size ==> (address + scalarSize * f) % alignment == 0)
            && (f == size > 0 ==> scalarSize * size < alignment)
            && (f > 0 ==> scalarSize * f < alignment)
  {
    hide And, PowerOfTwo;
    Positive(alignment);
    Positive(scalarSize);
    AndMask(address, scalarSize);
    var n := alignment / scalarSize;
    if alignment < scalarSize || alignment == scalarSize {
      SmallAlignment(alignment, scalarSize);
      PowersDivide(alignment, scalarSize);
      DividesThrough(address, scalarSize, alignment);
    } else {
      HalfPower(alignment, scalarSize);
      PowersDivide(scalarSize, alignment);
      LargeAlignment(alignment, scalarSize, n);
      AndMask(address / scalarSize, n);
      var e := address / scalarSize;
      AndMask(n - e % n, n);
      var f := (n - e % n) % n;
      ExactFirst(address, scalarSize, alignment, n, e, f);
      Scale(scalarSize, f, n);
      if size <= f {
        Scale(scalarSize, size, n);
      }
    }
  }

  lemma Scale(s: nat, a: nat, b: nat)
    requires s > 0 && a < b
    ensures s * a < s * b
  {
  }

  lemma SmallAlignment(a: nat, s: nat)
    requires 0 < a <= s
    ensures a / s <= 1
  {
    var q := DivMod(a, s);
    if q >= 2 {
      Scale(s, 1, q);
    }
  }

  lemma LargeAlignment(a: nat, s: nat, n: nat)
    requires 0 < s < a && a == s * n
    ensures n > 1
  {
    if n == 0 || n == 1 {
      assert false;
    }
  }

  lemma ExactFirst(address: nat, s: nat, alignment: nat, n: nat, e: nat, f: nat)
    requires s > 0 && n > 1 && alignment == s * n && address % s == 0 && e == address / s && f == (n - e % n) % n
    ensures f < n <= alignment && (address + s * f) % alignment == 0
  {
    var q := DivMod(e, n);
    var k := if e % n == 0 then q else q + 1;
    if e % n == 0 {
      ModUnique(n, n, 1, 0);
    } else {
      ModUnique(n - e % n, n, 0, n - e % n);
    }
    assert e + f == n * k by {
      assert n * (q + 1) == n * q + n;
    }
    var d := DivMod(address, s);
    ModUnique(address, s, d, 0);
    InBytes(address, s, alignment, n, e, f, k);
    MulAtLeast(n, s);
  }

  lemma InBytes(address: nat, s: nat, alignment: nat, n: nat, e: nat, f: nat, k: int)
    requires alignment == s * n > 0 && address == s * e && e + f == n * k
    ensures (address + s * f) % alignment == 0
  {
    assert address + s * f == s * (e + f);
    assert s * (n * k) == (s * n) * k;
    ModUnique(address + s * f, alignment, k, 0);
  }

  // --------------------------------------------------------------------------------------------- the kernel

  /** `generic_dense_assignment_kernel`: destination, source and functor. The source does not read the
      destination. rowVector and colVector are RowsAtCompileTime == 1 and ColsAtCompileTime == 1. */
  class Kernel<T> {
    const dst: array2<T>
    const src: (int, int) -> T
    const functor: (T, T) -> T
    const rowVector: bool
    const colVector: bool
    const rowMajor: bool
    /** UIntPtr(dst_ptr), sizeof(Scalar) and outerStride() */
    const address: nat
    const scalarSize: nat
    const outerStride: int
    /** The byte addresses of all packet stores so far, in order */
    ghost var stores: seq<int>

    constructor (dst: array2<T>, src: (int, int) -> T, functor: (T, T) -> T, rowVector: bool, colVector: bool, rowMajor: bool,
                 address: nat, scalarSize: nat, outerStride: int)
      requires (rowVector ==> dst.Length0 == 1) && (colVector ==> dst.Length1 == 1) && scalarSize > 0
      ensures this.dst == dst && this.src == src && this.functor == functor
      ensures this.rowVector == rowVector && this.colVector == colVector && this.rowMajor == rowMajor
      ensures this.address == address && this.scalarSize == scalarSize && this.outerStride == outerStride
      ensures Valid() && stores == []
    {
      stores := [];
      this.dst, this.src, this.functor, this.rowVector, this.colVector, this.rowMajor := dst, src, functor, rowVector, colVector, rowMajor;
      this.address, this.scalarSize, this.outerStride := address, scalarSize, outerStride;
    }

    predicate Valid() {
      (rowVector ==> dst.Length0 == 1) && (colVector ==> dst.Length1 == 1) && scalarSize > 0
    }

    function InnerSize(): nat {
      if rowVector || colVector then dst.Length0 * dst.Length1 else if rowMajor then dst.Length1 else dst.Length0
    }

    function OuterSize(): nat {
      if rowVector || colVector then 1 else if rowMajor then dst.Length0 else dst.Length1
    }

    /** rowIndexByOuterInner */
    function RowIndex(outer: int, inner: int): int {
      if rowVector then 0 else if colVector then inner else if rowMajor then outer else inner
    }

    /** colIndexByOuterInner */
    function ColIndex(outer: int, inner: int): int {
      if colVector then 0 else if rowVector then inner else if rowMajor then inner else outer
    }

    /** The outer and inner index of a coefficient. */
    function OuterOf(row: int, col: int): int {
      if rowVector || colVector then 0 else if rowMajor then row else col
    }

    function InnerOf(row: int, col: int): int {
      if rowVector then col else if colVector then row else if rowMajor then col else row
    }

    /** Outer and inner indices number the coefficients one to one. */
    lemma OuterInner(outer: int, inner: int, row: int, col: int)
      requires Valid()
      ensures 0 <= outer < OuterSize() && 0 <= inner < InnerSize() ==>
                0 <= RowIndex(outer, inner) < dst.Length0 && 0 <= ColIndex(outer, inner) < dst.Length1
                && OuterOf(RowIndex(outer, inner), ColIndex(outer, inner)) == outer && InnerOf(RowIndex(outer, inner), ColIndex(outer, inner)) == inner
      ensures 0 <= row < dst.Length0 && 0 <= col < dst.Length1 ==>
                0 <= OuterOf(row, col) < OuterSize() && 0 <= InnerOf(row, col) < InnerSize()
                && RowIndex(OuterOf(row, col), InnerOf(row, col)) == row && ColIndex(OuterOf(row, col), InnerOf(row, col)) == col
    {
      if rowVector || colVector {
        VectorSize();
      }
    }

    lemma VectorSize()
      requires Valid() && (rowVector || colVector)
      ensures rowVector ==> InnerSize() == dst.Length1
      ensures colVector ==> InnerSize() == dst.Length0
    {
    }

    /** The coefficient at (row, col) comes before (outer, inner) in the order of the double loop. */
    predicate Before(row: int, col: int, outer: int, inner: int) {
      OuterOf(row, col) < outer || (OuterOf(row, col) == outer && InnerOf(row, col) < inner)
    }

    /** The destination when exactly the coefficients before (outer, inner) have been assigned, once each. */
    ghost predicate Assigned(before: (int, int) -> T, outer: int, inner: int)
      reads dst
    {
      forall row, col :: 0 <= row < dst.Length0 && 0 <= col < dst.Length1 ==>
        dst[row, col] == if Before(row, col, outer, inner) then functor(before(row, col), src(row, col)) else before(row, col)
    }

    /** The destination when every coefficient has been assigned once. */
    ghost predicate AllAssigned(before: (int, int) -> T)
      reads dst
    {
      forall row, col :: 0 <= row < dst.Length0 && 0 <= col < dst.Length1 ==> dst[row, col] == functor(before(row, col), src(row, col))
    }

    ghost predicate Unassigned(before: (int, int) -> T)
      reads dst
    {
      forall row, col :: 0 <= row < dst.Length0 && 0 <= col < dst.Length1 ==> dst[row, col] == before(row, col)
    }

    /** The byte address of a coefficient. */
    function AddressOf(outer: int, inner: int): int {
      address + scalarSize * (outer * outerStride + inner)
    }

    /** assignCoeffByOuterInner */
    method AssignCoeff(outer: nat, inner: nat, ghost before: (int, int) -> T)
      requires Valid() && outer < OuterSize() && inner < InnerSize() && Assigned(before, outer, inner)
      modifies dst
      ensures Assigned(before, outer, inner + 1)
    {
      OuterInner(outer, inner, 0, 0);
      var row, col := RowIndex(outer, inner), ColIndex(outer, inner);
      dst[row, col] := functor(dst[row, col], src(row, col));
      forall r, c | 0 <= r < dst.Length0 && 0 <= c < dst.Length1
        ensures dst[r, c] == if Before(r, c, outer, inner + 1) then functor(before(r, c), src(r, c)) else before(r, c)
      {
        OuterInner(outer, inner, r, c);
      }
    }

    /** The packet stores from the k-th on went to multiples of the alignment, when that is not 0. */
    ghost predicate AlignedSince(k: nat, alignment: nat)
      reads this
    {
      k <= |stores| && (alignment > 0 ==> forall i :: k <= i < |stores| ==> stores[i] % alignment == 0)
    }

    /** assignPacketByOuterInner: packetSize coefficients from (outer, inner) on, in one store. */
    method AssignPacket(outer: nat, inner: nat, packetSize: nat, ghost before: (int, int) -> T)
      requires Valid() && outer < OuterSize() && inner + packetSize <= InnerSize() && Assigned(before, outer, inner)
      modifies dst, `stores
      ensures Assigned(before, outer, inner + packetSize)
      ensures stores == old(stores) + [AddressOf(outer, inner)]
    {
      hide Assigned;
      stores := stores + [AddressOf(outer, inner)];
      for k := 0 to packetSize
        modifies dst
        invariant Assigned(before, outer, inner + k)
      {
        AssignCoeff(outer, inner + k, before);
      }
    }

    lemma NextOuter(before: (int, int) -> T, outer: int)
      requires Valid() && Assigned(before, outer, InnerSize())
      ensures Assigned(before, outer + 1, 0)
    {
      forall r, c | 0 <= r < dst.Length0 && 0 <= c < dst.Length1 ensures Before(r, c, outer, InnerSize()) <==> Before(r, c, outer + 1, 0) {
        OuterInner(0, 0, r, c);
      }
    }

    lemma Start(before: (int, int) -> T)
      requires Valid() && Unassigned(before)
      ensures Assigned(before, 0, 0)
    {
      forall r, c | 0 <= r < dst.Length0 && 0 <= c < dst.Length1 ensures !Before(r, c, 0, 0) {
        OuterInner(0, 0, r, c);
      }
    }

    lemma Finish(before: (int, int) -> T)
      requires Valid() && Assigned(before, OuterSize(), 0)
      ensures AllAssigned(before)
    {
      forall r, c | 0 <= r < dst.Length0 && 0 <= c < dst.Length1 ensures Before(r, c, OuterSize(), 0) {
        OuterInner(0, 0, r, c);
      }
    }

    /** DefaultTraversal: the plain double loop. */
    method DefaultLoop(ghost before: (int, int) -> T)
      requires Valid() && Unassigned(before)
      modifies dst
      ensures AllAssigned(before)
    {
      hide Assigned, AllAssigned, Unassigned;
      Start(before);
      for outer := 0 to OuterSize()
        invariant Assigned(before, outer, 0)
      {
        for inner := 0 to InnerSize()
          invariant Assigned(before, outer, inner)
        {
          AssignCoeff(outer, inner, before);
        }
        NextOuter(before, outer);
      }
      Finish(before);
    }

    /** The start of the next row's aligned part, as the code computes it. */
    function NextStart(alignedStart: nat, packetSize: nat, alignable: bool): nat
      requires packetSize > 0
    {
      RemBound(outerStride, packetSize);
      var alignedStep := if alignable then And(packetSize - Rem(outerStride, packetSize), packetSize - 1) else 0;
      var next := (alignedStart + alignedStep) % packetSize;
      if InnerSize() < next then InnerSize() else next
    }

    /** Where a row's packets may start: aligned, unless no packet fits into a row at all. */
    predicate RowAligned(outer: int, alignedStart: nat, packetSize: nat, storeAlignment: nat) {
      && alignedStart <= InnerSize()
      && (packetSize <= InnerSize() && storeAlignment > 0 ==> AddressOf(outer, alignedStart) % storeAlignment == 0)
    }

    /** Recomputing the start modulo the packet size keeps it aligned, and the cap at the row's length is only ever
        effective when no packet fits. */
    lemma NextRowAligned(outer: int, alignedStart: nat, packetSize: nat, alignment: nat)
      requires Valid() && PowerOfTwo(packetSize) && alignment > 0 && (packetSize * scalarSize) % alignment == 0
      requires RowAligned(outer, alignedStart, packetSize, alignment)
      ensures RowAligned(outer + 1, NextStart(alignedStart, packetSize, true), packetSize, alignment)
    {
      hide And, Rem, PowerOfTwo;
      Positive(packetSize);
      if packetSize <= InnerSize() {
        var k := StepUndoesStride(outerStride, packetSize);
        var step := And(packetSize - Rem(outerStride, packetSize), packetSize - 1);
        var q := DivMod(alignedStart + step, packetSize);
        var next := (alignedStart + step) % packetSize;
        assert NextStart(alignedStart, packetSize, true) == next;
        AddressStep(outer, alignedStart, next, packetSize, k - q);
        MultipleOf(packetSize * scalarSize, k - q);
        DividesThrough((packetSize * scalarSize) * (k - q), packetSize * scalarSize, alignment);
        SumDivides(AddressOf(outer, alignedStart), (packetSize * scalarSize) * (k - q), alignment);
      }
    }

    lemma AddressStep(outer: int, start: int, next: int, p: int, k: int)
      requires next - start + outerStride == p * k
      ensures AddressOf(outer + 1, next) == AddressOf(outer, start) + (p * scalarSize) * k
    {
      assert (outer + 1) * outerStride == outer * outerStride + outerStride;
      var a, b := outer * outerStride + start, p * k;
      assert (outer + 1) * outerStride + next == a + b;
      assert scalarSize * (a + b) == scalarSize * a + scalarSize * b;
      assert scalarSize * (p * k) == (p * scalarSize) * k;
    }

    lemma PacketStep(outer: int, inner: int, packetSize: nat, alignment: nat)
      requires alignment > 0 && (packetSize * scalarSize) % alignment == 0 && AddressOf(outer, inner) % alignment == 0
      ensures AddressOf(outer, inner + packetSize) % alignment == 0
    {
      var a := outer * outerStride + inner;
      assert scalarSize * (a + packetSize) == scalarSize * a + packetSize * scalarSize;
      SumDivides(AddressOf(outer, inner), packetSize * scalarSize, alignment);
    }

    /** One row of the slice-vectorised loop: coefficients, packets, coefficients. */
    method SliceRow(outer: nat, alignedStart: nat, packetSize: nat, ghost storeAlignment: nat, ghost before: (int, int) -> T)
      requires Valid() && PowerOfTwo(packetSize) && outer < OuterSize() && Assigned(before, outer, 0)
      requires RowAligned(outer, alignedStart, packetSize, storeAlignment)
      requires storeAlignment > 0 ==> (packetSize * scalarSize) % storeAlignment == 0
      modifies dst, `stores
      ensures Assigned(before, outer, InnerSize())
      ensures |stores| == |old(stores)| + PacketCount(InnerSize() - alignedStart, packetSize)
      ensures |old(stores)| <= |stores| && stores[..|old(stores)|] == old(stores) && AlignedSince(|old(stores)|, storeAlignment)
    {
      hide Assigned, And, AndNot, PowerOfTwo, PacketCount;
      Positive(packetSize);
      AndNotMask(InnerSize() - alignedStart, packetSize);
      var alignedEnd := alignedStart + AndNot(InnerSize() - alignedStart, packetSize - 1);
      RoundedDown(InnerSize() - alignedStart, packetSize);
      for inner := 0 to alignedStart
        modifies dst
        invariant Assigned(before, outer, inner)
      {
        AssignCoeff(outer, inner, before);
      }
      var inner := alignedStart;
      ghost var k := 0;
      while inner < alignedEnd
        invariant inner == alignedStart + k * packetSize && |stores| == |old(stores)| + k
        invariant alignedStart <= inner <= alignedEnd && (alignedEnd - inner) % packetSize == 0
        invariant Assigned(before, outer, inner)
        invariant packetSize <= InnerSize() && storeAlignment > 0 ==> AddressOf(outer, inner) % storeAlignment == 0
        invariant |old(stores)| <= |stores| && stores[..|old(stores)|] == old(stores) && AlignedSince(|old(stores)|, storeAlignment)
        decreases alignedEnd - inner
      {
        PacketFits(alignedEnd - inner, packetSize);
        AssignPacket(outer, inner, packetSize, before);
        if storeAlignment > 0 {
          PacketStep(outer, inner, packetSize, storeAlignment);
        }
        OneMoreRow(k, packetSize);
        inner, k := inner + packetSize, k + 1;
      }
      CountIs(InnerSize() - alignedStart, packetSize, k);
      for rest := alignedEnd to InnerSize()
        modifies dst
        invariant Assigned(before, outer, rest)
      {
        AssignCoeff(outer, rest, before);
      }
    }

    /** How many packets fit into n coefficients. */
    function PacketCount(n: int, packetSize: nat): int
      requires packetSize > 0
    {
      n / packetSize
    }

    lemma CountIs(n: nat, packetSize: nat, k: int)
      requires packetSize > 0 && k * packetSize == n - n % packetSize
      ensures k == PacketCount(n, packetSize)
    {
      ModUnique(n, packetSize, k, n % packetSize);
    }

    lemma CountBounds(n: nat, packetSize: nat) returns (q: int)
      requires packetSize > 0
      ensures q == PacketCount(n, packetSize) && packetSize * q <= n < packetSize * (q + 1)
    {
      q := DivMod(n, packetSize);
      ModUnique(n, packetSize, q, n % packetSize);
      assert packetSize * (q + 1) == packetSize * q + packetSize;
    }

    /** Starting less than a packet late costs at most one packet. */
    lemma StartCosts(n: nat, start: nat, packetSize: nat)
      requires packetSize > 0 && start <= n && start < packetSize
      ensures PacketCount(n, packetSize) - 1 <= PacketCount(n - start, packetSize) <= PacketCount(n, packetSize)
    {
      hide PacketCount;
      var q := CountBounds(n, packetSize);
      var r := CountBounds(n - start, packetSize);
      if r > q {
        MulOrder(packetSize, q + 1, r);
      } else if r < q - 1 {
        MulOrder(packetSize, r + 2, q);
        OneMore(packetSize, r + 1);
      }
    }

    lemma OneMore(p: int, q: int)
      ensures p * (q + 1) == p * q + p
    {
    }

    lemma OneMoreRow(outer: int, n: int)
      ensures (outer + 1) * n == outer * n + n
    {
    }

    /** What the promises about types and addresses give: packets are a multiple of the store alignment apart, and
        the first row starts aligned. */
    lemma SliceStart(packetSize: nat, requested: nat, dstAlignment: nat, alignable: bool, start: nat)
      requires Valid() && PowerOfTwo(packetSize) && PowerOfTwo(requested) && PowerOfTwo(scalarSize) && requested <= packetSize * scalarSize
      requires dstAlignment > 0 ==> PowerOfTwo(dstAlignment) && address % dstAlignment == 0
      requires !alignable ==> dstAlignment < scalarSize
      requires dstAlignment >= requested || address % scalarSize == 0
      requires start == if !alignable || dstAlignment >= requested then 0 else FirstAligned(requested, address, scalarSize, InnerSize())
      ensures var storeAlignment := if alignable then requested else dstAlignment;
              (storeAlignment > 0 ==> (packetSize * scalarSize) % storeAlignment == 0) && RowAligned(0, start, packetSize, storeAlignment)
      ensures start < packetSize && start <= InnerSize()
    {
      hide PowerOfTwo, FirstAligned;
      Positive(requested);
      PowerProduct(packetSize, scalarSize);
      assert AddressOf(0, start) == address + scalarSize * start;
      if !alignable {
        if dstAlignment > 0 {
          PowersDivide(dstAlignment, scalarSize);
          ProductDivides(packetSize, scalarSize, dstAlignment);
        }
      } else {
        PowersDivide(requested, packetSize * scalarSize);
        if dstAlignment >= requested {
          PowersDivide(requested, dstAlignment);
          DividesThrough(address, dstAlignment, requested);
        } else {
          FirstAlignedWorks(requested, address, scalarSize, InnerSize());
          StartsEarly(packetSize, requested, InnerSize());
          if start == InnerSize() && packetSize <= InnerSize() {
            MulOrder(scalarSize, packetSize, InnerSize());
          }
        }
      }
    }

    lemma SliceNext(outer: nat, start: nat, packetSize: nat, requested: nat, dstAlignment: nat, alignable: bool)
      requires Valid() && PowerOfTwo(packetSize) && PowerOfTwo(requested) && PowerOfTwo(scalarSize)
      requires dstAlignment > 0 ==> PowerOfTwo(dstAlignment) && address % dstAlignment == 0
      requires !alignable ==> dstAlignment < scalarSize && start == 0
      requires alignable ==> (packetSize * scalarSize) % requested == 0 && RowAligned(outer, start, packetSize, requested)
      ensures var next := NextStart(start, packetSize, alignable);
              RowAligned(outer + 1, next, packetSize, if alignable then requested else dstAlignment) && (!alignable ==> next == 0)
              && next < packetSize && next <= InnerSize()
    {
      hide PowerOfTwo, And, Rem;
      Positive(packetSize);
      Positive(requested);
      if alignable {
        NextRowAligned(outer, start, packetSize, requested);
      } else if dstAlignment > 0 {
        PowersDivide(dstAlignment, scalarSize);
        ProductDivides((outer + 1) * outerStride, scalarSize, dstAlignment);
        assert AddressOf(outer + 1, 0) == address + ((outer + 1) * outerStride) * scalarSize;
        SumDivides(address, ((outer + 1) * outerStride) * scalarSize, dstAlignment);
      }
    }

    /** SliceVectorizedTraversal. dstAlignment is the alignment in bytes that the type of the destination promises,
        0 for none; requestedAlignment is the packet's. When the destination is alignable every packet is stored at
        a multiple of requestedAlignment, otherwise at a multiple of what is promised. Rows are stored as whole packets
        but for a start and an end of less than one packet each: at most one packet less than fits into the row. */
    method SliceVectorizedLoop(packetSize: nat, requestedAlignment: nat, alignedOnScalar: bool, dstAlignment: nat, ghost before: (int, int) -> T)
      requires Valid() && Unassigned(before)
      requires PowerOfTwo(packetSize) && PowerOfTwo(requestedAlignment) && PowerOfTwo(scalarSize) && requestedAlignment <= packetSize * scalarSize
      requires dstAlignment > 0 ==> PowerOfTwo(dstAlignment) && address % dstAlignment == 0
      modifies dst, `stores
      ensures AllAssigned(before)
      ensures AlignedSince(|old(stores)|, if alignedOnScalar || dstAlignment >= scalarSize then requestedAlignment else dstAlignment)
      ensures var packets, perRow := |stores| - |old(stores)|, PacketCount(InnerSize(), packetSize);
              if dstAlignment < requestedAlignment && address % scalarSize != 0 then packets == 0
              else if !alignedOnScalar && dstAlignment < scalarSize then packets == OuterSize() * perRow
              else OuterSize() * (perRow - 1) <= packets <= OuterSize() * perRow
    {
      hide Assigned, AllAssigned, Unassigned, PowerOfTwo, FirstAligned, And, RowAligned, NextStart, PacketCount;
      Positive(packetSize);
      Positive(requestedAlignment);
      var alignable := alignedOnScalar || dstAlignment >= scalarSize;
      var dstIsAligned := dstAlignment >= requestedAlignment;
      if !dstIsAligned && address % scalarSize > 0 {
        DefaultLoop(before);
        return;
      }
      ghost var storeAlignment := if alignable then requestedAlignment else dstAlignment;
      var alignedStart: nat := if !alignable || dstIsAligned then 0 else FirstAligned(requestedAlignment, address, scalarSize, InnerSize());
      SliceStart(packetSize, requestedAlignment, dstAlignment, alignable, alignedStart);
      Start(before);
      ghost var perRow := PacketCount(InnerSize(), packetSize);
      for outer := 0 to OuterSize()
        invariant Assigned(before, outer, 0) && RowAligned(outer, alignedStart, packetSize, storeAlignment)
        invariant !alignable ==> alignedStart == 0 && |stores| - |old(stores)| == outer * perRow
        invariant alignedStart < packetSize && alignedStart <= InnerSize()
        invariant outer * (perRow - 1) <= |stores| - |old(stores)| <= outer * perRow
        invariant |old(stores)| <= |stores| && stores[..|old(stores)|] == old(stores) && AlignedSince(|old(stores)|, storeAlignment)
      {
        ghost var earlier := stores;
        SliceRow(outer, alignedStart, packetSize, storeAlignment, before);
        StillAligned(|old(stores)|, earlier, storeAlignment);
        StartCosts(InnerSize(), alignedStart, packetSize);
        OneMoreRow(outer, perRow);
        OneMoreRow(outer, perRow - 1);
        NextOuter(before, outer);
        SliceNext(outer, alignedStart, packetSize, requestedAlignment, dstAlignment, alignable);
        alignedStart := NextStart(alignedStart, packetSize, alignable);
      }
      Finish(before);
    }

    lemma NoneSince(alignment: nat)
      ensures AlignedSince(|stores|, alignment)
    {
    }

    lemma StillAligned(k: nat, earlier: seq<int>, alignment: nat)
      requires k <= |earlier| <= |stores| && stores[..|earlier|] == earlier && AlignedSince(|earlier|, alignment)
      requires alignment > 0 ==> forall i :: k <= i < |earlier| ==> earlier[i] % alignment == 0
      ensures AlignedSince(k, alignment)
    {
      if alignment > 0 {
        forall i | k <= i < |stores| ensures stores[i] % alignment == 0 {
          if i < |earlier| {
            assert stores[i] == earlier[i];
          }
        }
      }
    }

    // ------------------------------------------------------------------------------- linear traversal

    function Size(): nat {
      dst.Length0 * dst.Length1
    }

    lemma SizeIs()
      requires Valid()
      ensures Size() == OuterSize() * InnerSize()
    {
    }

    /** The first `index` coefficients in the order of the flat index have been assigned. */
    ghost predicate AssignedTo(before: (int, int) -> T, index: nat)
      requires InnerSize() > 0
      reads dst
    {
      Assigned(before, index / InnerSize(), index % InnerSize())
    }

    /** assignCoeff(index) */
    method AssignIndex(index: nat, ghost before: (int, int) -> T)
      requires Valid() && index < Size() && InnerSize() > 0 && AssignedTo(before, index)
      modifies dst
      ensures AssignedTo(before, index + 1)
    {
      hide Assigned;
      SizeIs();
      var outer, inner := index / InnerSize(), index % InnerSize();
      FlatIndex(index, InnerSize(), OuterSize());
      AssignCoeff(outer, inner, before);
      if inner + 1 == InnerSize() {
        NextOuter(before, outer);
      }
    }

    /** assignPacket(index) */
    method AssignPacketIndex(index: nat, packetSize: nat, ghost before: (int, int) -> T)
      requires Valid() && index + packetSize <= Size() && InnerSize() > 0 && AssignedTo(before, index)
      modifies dst, `stores
      ensures AssignedTo(before, index + packetSize)
      ensures stores == old(stores) + [AddressOf(index / InnerSize(), index % InnerSize())]
    {
      hide AssignedTo;
      stores := stores + [AddressOf(index / InnerSize(), index % InnerSize())];
      for k := 0 to packetSize
        modifies dst
        invariant AssignedTo(before, index + k)
      {
        AssignIndex(index + k, before);
      }
    }

    lemma FinishIndex(before: (int, int) -> T)
      requires Valid() && InnerSize() > 0 && AssignedTo(before, Size())
      ensures AllAssigned(before)
    {
      hide Assigned, AllAssigned;
      SizeIs();
      ModUnique(Size(), InnerSize(), OuterSize(), 0);
      Finish(before);
    }

    lemma NothingToDo(before: (int, int) -> T)
      requires Valid() && InnerSize() == 0
      ensures AllAssigned(before)
    {
      if dst.Length0 > 0 && dst.Length1 > 0 {
        OuterInner(0, 0, 0, 0);
      }
    }

    /** Without gaps the address of a coefficient is that of its flat index. */
    lemma FlatAddress(index: nat)
      requires Valid() && InnerSize() > 0 && index < Size() && (OuterSize() <= 1 || outerStride == InnerSize())
      ensures AddressOf(index / InnerSize(), index % InnerSize()) == address + scalarSize * index
    {
      SizeIs();
      FlatIndex(index, InnerSize(), OuterSize());
      var q := DivMod(index, InnerSize());
      ModUnique(index, InnerSize(), q, index % InnerSize());
      RowOffset(q, InnerSize(), index % InnerSize(), outerStride, index);
    }

    lemma RowOffset(q: int, i: int, r: int, stride: int, index: int)
      requires index == i * q + r && (q == 0 || stride == i)
      ensures q * stride + r == index
    {
    }

    /** LinearVectorizedTraversal, for a destination whose coefficients follow each other without gaps. The packets go
        one after the other from the first aligned position on. When the store mode asserts that they are aligned they
        are, except that packets no larger than a scalar are stored at the address given, aligned or not. An address that
        is not a multiple of the scalar's size cannot be aligned and gets no packets; otherwise at most one packet less
        than fits is stored. */
    method LinearVectorizedLoop(packetSize: nat, requestedAlignment: nat, alignedOnScalar: bool, dstAlignment: nat, ghost before: (int, int) -> T)
      requires Valid() && Unassigned(before) && (OuterSize() <= 1 || outerStride == InnerSize())
      requires PowerOfTwo(packetSize) && PowerOfTwo(requestedAlignment) && PowerOfTwo(scalarSize) && requestedAlignment <= packetSize * scalarSize
      requires dstAlignment > 0 ==> PowerOfTwo(dstAlignment) && address % dstAlignment == 0
      modifies dst, `stores
      ensures AllAssigned(before)
      ensures alignedOnScalar || dstAlignment >= requestedAlignment ==>
                (AlignedSince(|old(stores)|, requestedAlignment)
                 <==> scalarSize < requestedAlignment || address % requestedAlignment == 0 || Size() < packetSize)
      ensures var packets := |stores| - |old(stores)|;
              if dstAlignment >= requestedAlignment || requestedAlignment <= scalarSize then packets == PacketCount(Size(), packetSize)
              else if address % scalarSize != 0 then packets == 0
              else PacketCount(Size(), packetSize) - 1 <= packets <= PacketCount(Size(), packetSize)
    {
      hide Assigned, AllAssigned, Unassigned, AssignedTo, PowerOfTwo, FirstAligned, PacketAddress, AlignedSince;
      Positive(packetSize);
      Positive(requestedAlignment);
      var size := Size();
      if InnerSize() == 0 {
        NoCoefficients();
        NothingToDo(before);
        NoneSince(requestedAlignment);
        return;
      }
      var dstIsAligned := dstAlignment >= requestedAlignment;
      var alignedStart := if dstIsAligned then 0 else FirstAligned(requestedAlignment, address, scalarSize, size);
      LinearStart(packetSize, requestedAlignment, dstAlignment, alignedStart, size);
      var count := (size - alignedStart) / packetSize;
      var alignedEnd := alignedStart + count * packetSize;
      PacketsFit(size - alignedStart, packetSize);
      Start(before);
      StartIndex(before);
      for index := 0 to alignedStart
        modifies dst
        invariant AssignedTo(before, index)
      {
        AssignIndex(index, before);
      }
      LinearPackets(alignedStart, count, packetSize, before);
      for index := alignedEnd to size
        modifies dst
        invariant AssignedTo(before, index)
      {
        AssignIndex(index, before);
      }
      FinishIndex(before);
      LinearAlignedIff(|old(stores)|, packetSize, requestedAlignment, dstAlignment, alignedStart, count, size);
      LinearCount(packetSize, requestedAlignment, dstAlignment, alignedStart, size);
    }

    lemma LinearCount(packetSize: nat, requested: nat, dstAlignment: nat, start: nat, size: nat)
      requires Valid() && PowerOfTwo(packetSize) && PowerOfTwo(requested) && PowerOfTwo(scalarSize) && requested <= packetSize * scalarSize
      requires packetSize > 0 && start <= size
      requires start == if dstAlignment >= requested then 0 else FirstAligned(requested, address, scalarSize, size)
      ensures if dstAlignment >= requested || requested <= scalarSize then PacketCount(size - start, packetSize) == PacketCount(size, packetSize)
              else if address % scalarSize != 0 then PacketCount(size - start, packetSize) == 0
              else PacketCount(size, packetSize) - 1 <= PacketCount(size - start, packetSize) <= PacketCount(size, packetSize)
    {
      hide PowerOfTwo, FirstAligned, PacketCount;
      if dstAlignment >= requested {
      } else if requested <= scalarSize {
        AllAligned(requested, address, scalarSize, size);
      } else if address % scalarSize != 0 {
        NeverAligned(requested, address, scalarSize, size);
        NoneFit(packetSize);
      } else {
        StartsEarly(packetSize, requested, size);
        StartCosts(size, start, packetSize);
      }
    }

    lemma NoneFit(packetSize: nat)
      requires packetSize > 0
      ensures PacketCount(0, packetSize) == 0
    {
    }

    lemma StartsEarly(packetSize: nat, requested: nat, size: nat)
      requires Valid() && PowerOfTwo(packetSize) && PowerOfTwo(requested) && PowerOfTwo(scalarSize) && requested <= packetSize * scalarSize
      requires packetSize > 0 && address % scalarSize == 0
      ensures FirstAligned(requested, address, scalarSize, size) < packetSize
    {
      hide PowerOfTwo, FirstAligned;
      FirstAlignedWorks(requested, address, scalarSize, size);
      var start := FirstAligned(requested, address, scalarSize, size);
      if start >= packetSize {
        MulOrder(scalarSize, packetSize, start);
      }
    }

    /** The address of the k-th packet from position start on. */
    function PacketAddress(start: nat, packetSize: nat, k: int): int {
      address + scalarSize * (start + k * packetSize)
    }

    method LinearPackets(alignedStart: nat, count: nat, packetSize: nat, ghost before: (int, int) -> T)
      requires Valid() && InnerSize() > 0 && AssignedTo(before, alignedStart) && packetSize > 0
      requires OuterSize() <= 1 || outerStride == InnerSize()
      requires alignedStart + count * packetSize <= Size()
      modifies dst, `stores
      ensures AssignedTo(before, alignedStart + count * packetSize)
      ensures |stores| == |old(stores)| + count
      ensures forall k :: 0 <= k < count ==> stores[|old(stores)| + k] == PacketAddress(alignedStart, packetSize, k)
    {
      hide AssignedTo;
      var index, k := alignedStart, 0;
      while index < alignedStart + count * packetSize
        invariant 0 <= k <= count && index == alignedStart + k * packetSize
        invariant AssignedTo(before, index)
        invariant |stores| == |old(stores)| + k
        invariant forall m :: 0 <= m < k ==> stores[|old(stores)| + m] == PacketAddress(alignedStart, packetSize, m)
        decreases count - k
      {
        NextPacketFits(k, count, packetSize);
        FlatAddress(index);
        AssignPacketIndex(index, packetSize, before);
        index, k := index + packetSize, k + 1;
      }
      LoopEnd(k, count, packetSize);
    }

    lemma NextPacketFits(k: nat, count: nat, p: nat)
      requires k * p < count * p && k <= count
      ensures k < count && (k + 1) * p == k * p + p <= count * p
    {
      if k < count {
        MulOrder(p, k + 1, count);
      }
    }

    lemma LoopEnd(k: nat, count: nat, p: nat)
      requires k <= count && k * p >= count * p && p > 0
      ensures k == count
    {
      if k < count {
        MulOrder(p, k + 1, count);
      }
    }

    lemma PacketsAligned(start: nat, packetSize: nat, k: int, alignment: nat)
      requires alignment > 0 && (packetSize * scalarSize) % alignment == 0 && (address + scalarSize * start) % alignment == 0
      ensures PacketAddress(start, packetSize, k) % alignment == 0
    {
      assert scalarSize * (start + k * packetSize) == scalarSize * start + k * (packetSize * scalarSize);
      ProductDivides(k, packetSize * scalarSize, alignment);
      SumDivides(address + scalarSize * start, k * (packetSize * scalarSize), alignment);
    }

    lemma LinearAlignedIff(first: nat, packetSize: nat, requested: nat, dstAlignment: nat, start: nat, count: nat, size: nat)
      requires Valid() && PowerOfTwo(packetSize) && PowerOfTwo(requested) && PowerOfTwo(scalarSize) && requested <= packetSize * scalarSize
      requires dstAlignment > 0 ==> PowerOfTwo(dstAlignment) && address % dstAlignment == 0
      requires start == if dstAlignment >= requested then 0 else FirstAligned(requested, address, scalarSize, size)
      requires packetSize > 0 && start <= size && count == (size - start) / packetSize && |stores| == first + count
      requires forall k :: 0 <= k < count ==> stores[first + k] == PacketAddress(start, packetSize, k)
      ensures AlignedSince(first, requested) <==> scalarSize < requested || address % requested == 0 || size < packetSize
    {
      hide PowerOfTwo, FirstAligned, PacketAddress;
      Positive(requested);
      LinearStart(packetSize, requested, dstAlignment, start, size);
      CountPositive(size - start, packetSize);
      if scalarSize < requested || address % requested == 0 || size < packetSize {
        forall i | first <= i < |stores| ensures stores[i] % requested == 0 {
          assert stores[first + (i - first)] == PacketAddress(start, packetSize, i - first);
          PacketsAligned(start, packetSize, i - first, requested);
        }
      } else {
        FirstPacket(start, packetSize);
        assert stores[first + 0] == PacketAddress(start, packetSize, 0);
      }
    }

    lemma FirstPacket(start: nat, packetSize: nat)
      ensures PacketAddress(start, packetSize, 0) == address + scalarSize * start
    {
    }

    lemma NoCoefficients()
      requires Valid() && InnerSize() == 0
      ensures Size() == 0
    {
      SizeIs();
    }

    lemma StartIndex(before: (int, int) -> T)
      requires Valid() && InnerSize() > 0 && Assigned(before, 0, 0)
      ensures AssignedTo(before, 0)
    {
      hide Assigned;
    }

    lemma LinearStart(packetSize: nat, requested: nat, dstAlignment: nat, start: nat, size: nat)
      requires Valid() && PowerOfTwo(packetSize) && PowerOfTwo(requested) && PowerOfTwo(scalarSize) && requested <= packetSize * scalarSize
      requires dstAlignment > 0 ==> PowerOfTwo(dstAlignment) && address % dstAlignment == 0
      requires start == if dstAlignment >= requested then 0 else FirstAligned(requested, address, scalarSize, size)
      ensures start <= size && (packetSize * scalarSize) % requested == 0
      ensures scalarSize < requested || address % requested == 0 ==> start < size ==> (address + scalarSize * start) % requested == 0
      ensures scalarSize >= requested ==> start == 0
      ensures dstAlignment >= requested ==> address % requested == 0
    {
      hide PowerOfTwo, FirstAligned;
      Positive(requested);
      PowerProduct(packetSize, scalarSize);
      PowersDivide(requested, packetSize * scalarSize);
      if dstAlignment >= requested {
        PowersDivide(requested, dstAlignment);
        DividesThrough(address, dstAlignment, requested);
      } else if scalarSize >= requested {
        AllAligned(requested, address, scalarSize, size);
      } else if address % scalarSize == 0 {
        FirstAlignedWorks(requested, address, scalarSize, size);
      } else {
        NeverAligned(requested, address, scalarSize, size);
      }
    }

    /** InnerVectorizedTraversal: rows and stride are whole packets, as the compile-time choice of this loop demands. */
    method InnerVectorizedLoop(packetSize: nat, requestedAlignment: nat, dstAlignment: nat, ghost before: (int, int) -> T)
      requires Valid() && Unassigned(before) && packetSize > 0 && InnerSize() % packetSize == 0 && outerStride % packetSize == 0
      requires PowerOfTwo(packetSize) && PowerOfTwo(requestedAlignment) && PowerOfTwo(scalarSize) && requestedAlignment <= packetSize * scalarSize
      requires dstAlignment > 0 ==> PowerOfTwo(dstAlignment) && address % dstAlignment == 0
      modifies dst, `stores
      ensures AllAssigned(before)
      ensures AlignedSince(|old(stores)|, StoreAlignment(dstAlignment, requestedAlignment))
      ensures |stores| == |old(stores)| + OuterSize() * PacketCount(InnerSize(), packetSize)
    {
      hide Assigned, AllAssigned, Unassigned, PowerOfTwo, PacketCount;
      Positive(requestedAlignment);
      PowerProduct(packetSize, scalarSize);
      PowersDivide(requestedAlignment, packetSize * scalarSize);
      if dstAlignment >= requestedAlignment {
        PowersDivide(requestedAlignment, dstAlignment);
        DividesThrough(address, dstAlignment, requestedAlignment);
      }
      ghost var storeAlignment := StoreAlignment(dstAlignment, requestedAlignment);
      Start(before);
      ghost var perRow := PacketCount(InnerSize(), packetSize);
      for outer := 0 to OuterSize()
        invariant Assigned(before, outer, 0) && AlignedSince(|old(stores)|, storeAlignment)
        invariant |stores| == |old(stores)| + outer * perRow && stores[..|old(stores)|] == old(stores)
      {
        ghost var earlier := stores;
        InnerRow(outer, packetSize, storeAlignment, before);
        StillAligned(|old(stores)|, earlier, storeAlignment);
        OneMoreRow(outer, perRow);
        NextOuter(before, outer);
      }
      Finish(before);
    }

    /** Its inner loop. */
    method InnerRow(outer: nat, packetSize: nat, ghost storeAlignment: nat, ghost before: (int, int) -> T)
      requires Valid() && outer < OuterSize() && Assigned(before, outer, 0)
      requires packetSize > 0 && InnerSize() % packetSize == 0 && outerStride % packetSize == 0
      requires storeAlignment > 0 ==> (packetSize * scalarSize) % storeAlignment == 0 && address % storeAlignment == 0
      modifies dst, `stores
      ensures Assigned(before, outer, InnerSize())
      ensures |stores| == |old(stores)| + PacketCount(InnerSize(), packetSize)
      ensures stores[..|old(stores)|] == old(stores) && AlignedSince(|old(stores)|, storeAlignment)
    {
      hide Assigned;
      var inner := 0;
      ghost var k := 0;
      while inner < InnerSize()
        invariant inner == k * packetSize && |stores| == |old(stores)| + k
        invariant 0 <= inner <= InnerSize() && (InnerSize() - inner) % packetSize == 0
        invariant Assigned(before, outer, inner)
        invariant stores[..|old(stores)|] == old(stores) && AlignedSince(|old(stores)|, storeAlignment)
        decreases InnerSize() - inner
      {
        PacketFits(InnerSize() - inner, packetSize);
        if storeAlignment > 0 {
          WholePackets(outer, inner, packetSize, storeAlignment);
        }
        AssignPacket(outer, inner, packetSize, before);
        OneMoreRow(k, packetSize);
        inner, k := inner + packetSize, k + 1;
      }
      CountIs(InnerSize(), packetSize, k);
    }

    lemma WholePackets(outer: nat, inner: nat, packetSize: nat, alignment: nat)
      requires alignment > 0 && packetSize > 0 && (packetSize * scalarSize) % alignment == 0 && address % alignment == 0
      requires inner <= InnerSize() && InnerSize() % packetSize == 0 && (InnerSize() - inner) % packetSize == 0 && outerStride % packetSize == 0
      ensures AddressOf(outer, inner) % alignment == 0
    {
      var n := DivMod(InnerSize(), packetSize);
      var m := DivMod(InnerSize() - inner, packetSize);
      var d := DivMod(outerStride, packetSize);
      var k := outer * d + (n - m);
      Regroup(outer, d, n, m, packetSize);
      Rearrange(scalarSize, packetSize, k);
      ProductDivides(k, packetSize * scalarSize, alignment);
      SumDivides(address, k * (packetSize * scalarSize), alignment);
    }

    lemma Rearrange(s: int, p: int, k: int)
      ensures s * (p * k) == k * (p * s)
    {
    }

    lemma Regroup(outer: int, d: int, n: int, m: int, p: int)
      ensures outer * (p * d) + (p * n - p * m) == p * (outer * d + (n - m))
    {
    }
  }

  lemma FlatIndex(index: nat, inner: nat, outer: nat)
    requires inner > 0 && index < outer * inner
    ensures index / inner < outer && index % inner < inner
    ensures index % inner + 1 < inner ==> (index + 1) / inner == index / inner && (index + 1) % inner == index % inner + 1
    ensures index % inner + 1 == inner ==> (index + 1) / inner == index / inner + 1 && (index + 1) % inner == 0
  {
    var q := DivMod(index, inner);
    ModUnique(index, inner, q, index % inner);
    if q >= outer {
      MulOrder(inner, outer, q);
    }
    if index % inner + 1 < inner {
      ModUnique(index + 1, inner, q, index % inner + 1);
    } else {
      assert inner * (q + 1) == inner * q + inner;
      ModUnique(index + 1, inner, q + 1, 0);
    }
  }

  lemma Quotient(x: nat, p: nat)
    requires p > 0
    ensures (x / p) * p == x - x % p
  {
  }

  /** An array that is not aligned to a scalar has no aligned position. */
  lemma NeverAligned(alignment: nat, address: nat, scalarSize: nat, size: nat)
    requires PowerOfTwo(alignment) && PowerOfTwo(scalarSize) && address % scalarSize != 0 && alignment > scalarSize
    ensures FirstAligned(alignment, address, scalarSize, size) == size
  {
    hide And, PowerOfTwo;
    Positive(scalarSize);
    AndMask(address, scalarSize);
    HalfPower(alignment, scalarSize);
    LargeAlignment(alignment, scalarSize, alignment / scalarSize);
  }

  /** No packet needs more than the alignment of a scalar: the first element will do. */
  lemma AllAligned(alignment: nat, address: nat, scalarSize: nat, size: nat)
    requires PowerOfTwo(alignment) && PowerOfTwo(scalarSize) && alignment <= scalarSize
    ensures FirstAligned(alignment, address, scalarSize, size) == 0
  {
    Positive(alignment);
    SmallAlignment(alignment, scalarSize);
  }

  /** What a store mode requires of an address: a mode below the packet's own alignment stores unaligned. */
  function StoreAlignment(mode: nat, packetAlignment: nat): nat {
    if mode >= packetAlignment then packetAlignment else 0
  }

  lemma {:induction false} PowerProduct(a: nat, b: nat)
    requires PowerOfTwo(a) && PowerOfTwo(b)
    ensures PowerOfTwo(a * b)
    decreases a
  {
    if a > 1 {
      PowerProduct(a / 2, b);
      DoublePower((a / 2) * b);
      Rebracket(a / 2, b);
      assert a == 2 * (a / 2);
    }
  }

  lemma DoublePower(x: nat)
    requires PowerOfTwo(x)
    ensures PowerOfTwo(2 * x)
  {
    Positive(x);
    assert (2 * x) / 2 == x;
  }

  lemma Rebracket(a: int, b: int)
    ensures 2 * (a * b) == (2 * a) * b
  {
  }

  lemma ProductDivides(k: int, m: int, d: nat)
    requires d > 0 && m % d == 0
    ensures (k * m) % d == 0
  {
    var q := DivMod(m, d);
    assert k * m == d * (q * k);
    ModUnique(k * m, d, q * k, 0);
  }

  lemma RoundedDown(x: nat, p: nat)
    requires p > 0
    ensures 0 <= x - x % p && (x - x % p) % p == 0
  {
    var q := DivMod(x, p);
    ModUnique(x - x % p, p, q, 0);
  }

  lemma PacketsFit(x: nat, p: nat)
    requires p > 0
    ensures 0 <= (x / p) * p <= x
  {
    RoundedDown(x, p);
    Quotient(x, p);
  }

  lemma CountPositive(x: nat, p: nat)
    requires p > 0
    ensures x / p > 0 <==> x >= p
  {
    var q := DivMod(x, p);
    ModUnique(x, p, q, x % p);
    if q >= 1 {
      MulOrder(p, 1, q);
    } else {
      MulOrder(p, q, 0);
    }
  }

  /** A positive multiple of p is at least p, and p less is again a multiple. */
  lemma PacketFits(x: nat, p: nat)
    requires p > 0 && x > 0 && x % p == 0
    ensures x >= p && (x - p) % p == 0
  {
    var q := DivMod(x, p);
    ModShift(x, p, -1);
  }

}
