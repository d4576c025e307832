/** The table-driven CRC-32 of multicast/packet.h against the division it stands for.

Section 8.1.1.6.2 of ITU-T V.42 defines the frame check sequence as the ones complement of the sum of two remainders
modulo the generator polynomial; section 8 of RFC 1952 gives the byte-wise sample code. Registers are reflected: the
lowest bit of a word is the coefficient of the highest power, and the lowest bit of a byte comes first. */
module Crc32 {
  import opened Grids

  // --------------------------------------------------------------------------------------- bitwise division

  /** The generator polynomial without its leading term, reflected. */
  const POLYNOMIAL: bv32 := 0xEDB88320

  /** Multiplication by x modulo the generator. */
  function Shift(r: bv32): bv32 {
    if r & 1 == 1 then (r >> 1) ^ POLYNOMIAL else r >> 1
  }

  function Shift8(r: bv32): bv32 {
    Shift(Shift(Shift(Shift(Shift(Shift(Shift(Shift(r))))))))
  }

  function ShiftMany(r: bv32, n: nat): bv32 {
    if n == 0 then r else Shift(ShiftMany(r, n - 1))
  }

  function BitWord(b: bool): bv32 {
    if b then 1 else 0
  }

  function Xor(a: bv32, b: bv32): bv32 {
    a ^ b
  }

  /** Feeding one message bit. */
  function Feed(r: bv32, b: bool): bv32 {
    Shift(Xor(r, BitWord(b)))
  }

  /** Feeding message bits one at a time. */
  function FeedBits(r: bv32, bits: seq<bool>): bv32 {
    if bits == [] then r else Feed(FeedBits(r, bits[..|bits| - 1]), bits[|bits| - 1])
  }

  function BitsOf(byte: bv8): seq<bool> {
    [byte & 1 != 0, byte & 2 != 0, byte & 4 != 0, byte & 8 != 0, byte & 16 != 0, byte & 32 != 0, byte & 64 != 0, byte & 128 != 0]
  }

  /** The bits of a message in transmission order. */
  function Bits(message: seq<bv8>): seq<bool> {
    if message == [] then [] else Bits(message[..|message| - 1]) + BitsOf(message[|message| - 1])
  }

  /** The checksum by bit-by-bit division: the register starts at the complemented seed and is complemented again. */
  function Crc(message: seq<bv8>, seed: bv32): bv32 {
    Not(FeedBits(Not(seed), Bits(message)))
  }

  function Not(r: bv32): bv32 {
    !r
  }

  // ------------------------------------------------------------------------------------------------ the table

  const ROW_0: seq<bv32> := [
    0x00000000, 0x77073096, 0xee0e612c, 0x990951ba, 0x076dc419, 0x706af48f, 0xe963a535, 0x9e6495a3,
    0x0edb8832, 0x79dcb8a4, 0xe0d5e91e, 0x97d2d988, 0x09b64c2b, 0x7eb17cbd, 0xe7b82d07, 0x90bf1d91
  ]
  const ROW_1: seq<bv32> := [
    0x1db71064, 0x6ab020f2, 0xf3b97148, 0x84be41de, 0x1adad47d, 0x6ddde4eb, 0xf4d4b551, 0x83d385c7,
    0x136c9856, 0x646ba8c0, 0xfd62f97a, 0x8a65c9ec, 0x14015c4f, 0x63066cd9, 0xfa0f3d63, 0x8d080df5
  ]
  const ROW_2: seq<bv32> := [
    0x3b6e20c8, 0x4c69105e, 0xd56041e4, 0xa2677172, 0x3c03e4d1, 0x4b04d447, 0xd20d85fd, 0xa50ab56b,
    0x35b5a8fa, 0x42b2986c, 0xdbbbc9d6, 0xacbcf940, 0x32d86ce3, 0x45df5c75, 0xdcd60dcf, 0xabd13d59
  ]
  const ROW_3: seq<bv32> := [
    0x26d930ac, 0x51de003a, 0xc8d75180, 0xbfd06116, 0x21b4f4b5, 0x56b3c423, 0xcfba9599, 0xb8bda50f,
    0x2802b89e, 0x5f058808, 0xc60cd9b2, 0xb10be924, 0x2f6f7c87, 0x58684c11, 0xc1611dab, 0xb6662d3d
  ]
  const ROW_4: seq<bv32> := [
    0x76dc4190, 0x01db7106, 0x98d220bc, 0xefd5102a, 0x71b18589, 0x06b6b51f, 0x9fbfe4a5, 0xe8b8d433,
    0x7807c9a2, 0x0f00f934, 0x9609a88e, 0xe10e9818, 0x7f6a0dbb, 0x086d3d2d, 0x91646c97, 0xe6635c01
  ]
  const ROW_5: seq<bv32> := [
    0x6b6b51f4, 0x1c6c6162, 0x856530d8, 0xf262004e, 0x6c0695ed, 0x1b01a57b, 0x8208f4c1, 0xf50fc457,
    0x65b0d9c6, 0x12b7e950, 0x8bbeb8ea, 0xfcb9887c, 0x62dd1ddf, 0x15da2d49, 0x8cd37cf3, 0xfbd44c65
  ]
  const ROW_6: seq<bv32> := [
    0x4db26158, 0x3ab551ce, 0xa3bc0074, 0xd4bb30e2, 0x4adfa541, 0x3dd895d7, 0xa4d1c46d, 0xd3d6f4fb,
    0x4369e96a, 0x346ed9fc, 0xad678846, 0xda60b8d0, 0x44042d73, 0x33031de5, 0xaa0a4c5f, 0xdd0d7cc9
  ]
  const ROW_7: seq<bv32> := [
    0x5005713c, 0x270241aa, 0xbe0b1010, 0xc90c2086, 0x5768b525, 0x206f85b3, 0xb966d409, 0xce61e49f,
    0x5edef90e, 0x29d9c998, 0xb0d09822, 0xc7d7a8b4, 0x59b33d17, 0x2eb40d81, 0xb7bd5c3b, 0xc0ba6cad
  ]
  const ROW_8: seq<bv32> := [
    0xedb88320, 0x9abfb3b6, 0x03b6e20c, 0x74b1d29a, 0xead54739, 0x9dd277af, 0x04db2615, 0x73dc1683,
    0xe3630b12, 0x94643b84, 0x0d6d6a3e, 0x7a6a5aa8, 0xe40ecf0b, 0x9309ff9d, 0x0a00ae27, 0x7d079eb1
  ]
  const ROW_9: seq<bv32> := [
    0xf00f9344, 0x8708a3d2, 0x1e01f268, 0x6906c2fe, 0xf762575d, 0x806567cb, 0x196c3671, 0x6e6b06e7,
    0xfed41b76, 0x89d32be0, 0x10da7a5a, 0x67dd4acc, 0xf9b9df6f, 0x8ebeeff9, 0x17b7be43, 0x60b08ed5
  ]
  const ROW_10: seq<bv32> := [
    0xd6d6a3e8, 0xa1d1937e, 0x38d8c2c4, 0x4fdff252, 0xd1bb67f1, 0xa6bc5767, 0x3fb506dd, 0x48b2364b,
    0xd80d2bda, 0xaf0a1b4c, 0x36034af6, 0x41047a60, 0xdf60efc3, 0xa867df55, 0x316e8eef, 0x4669be79
  ]
  const ROW_11: seq<bv32> := [
    0xcb61b38c, 0xbc66831a, 0x256fd2a0, 0x5268e236, 0xcc0c7795, 0xbb0b4703, 0x220216b9, 0x5505262f,
    0xc5ba3bbe, 0xb2bd0b28, 0x2bb45a92, 0x5cb36a04, 0xc2d7ffa7, 0xb5d0cf31, 0x2cd99e8b, 0x5bdeae1d
  ]
  const ROW_12: seq<bv32> := [
    0x9b64c2b0, 0xec63f226, 0x756aa39c, 0x026d930a, 0x9c0906a9, 0xeb0e363f, 0x72076785, 0x05005713,
    0x95bf4a82, 0xe2b87a14, 0x7bb12bae, 0x0cb61b38, 0x92d28e9b, 0xe5d5be0d, 0x7cdcefb7, 0x0bdbdf21
  ]
  const ROW_13: seq<bv32> := [
    0x86d3d2d4, 0xf1d4e242, 0x68ddb3f8, 0x1fda836e, 0x81be16cd, 0xf6b9265b, 0x6fb077e1, 0x18b74777,
    0x88085ae6, 0xff0f6a70, 0x66063bca, 0x11010b5c, 0x8f659eff, 0xf862ae69, 0x616bffd3, 0x166ccf45
  ]
  const ROW_14: seq<bv32> := [
    0xa00ae278, 0xd70dd2ee, 0x4e048354, 0x3903b3c2, 0xa7672661, 0xd06016f7, 0x4969474d, 0x3e6e77db,
    0xaed16a4a, 0xd9d65adc, 0x40df0b66, 0x37d83bf0, 0xa9bcae53, 0xdebb9ec5, 0x47b2cf7f, 0x30b5ffe9
  ]
  const ROW_15: seq<bv32> := [
    0xbdbdf21c, 0xcabac28a, 0x53b39330, 0x24b4a3a6, 0xbad03605, 0xcdd70693, 0x54de5729, 0x23d967bf,
    0xb3667a2e, 0xc4614ab8, 0x5d681b02, 0x2a6f2b94, 0xb40bbe37, 0xc30c8ea1, 0x5a05df1b, 0x2d02ef8d
  ]

  const ROWS: seq<seq<bv32>> := [
    ROW_0, ROW_1, ROW_2, ROW_3, ROW_4, ROW_5, ROW_6, ROW_7,
    ROW_8, ROW_9, ROW_10, ROW_11, ROW_12, ROW_13, ROW_14, ROW_15
  ]

  /** crc32_table, its 256 entries written in rows of 16. */
  const TABLE: seq<bv32> := Flatten(ROWS)

  // ------------------------------------------------------------------------------------- shifting is linear

  lemma ShiftXor(a: bv32, b: bv32)
    ensures (a ^ b) >> 1 == (a >> 1) ^ (b >> 1)
  {
  }

  lemma LowXor(a: bv32, b: bv32)
    ensures (a ^ b) & 1 == (a & 1) ^ (b & 1)
  {
  }

  lemma LowBit(a: bv32)
    ensures a & 1 == 0 || a & 1 == 1
  {
  }

  lemma XorSwap(a: bv32, b: bv32, p: bv32)
    ensures (a ^ b) ^ p == (a ^ p) ^ b
    ensures (a ^ b) ^ p == a ^ (b ^ p)
    ensures (a ^ p) ^ (b ^ p) == a ^ b
  {
  }

  lemma ShiftLinear(a: bv32, b: bv32)
    ensures Shift(Xor(a, b)) == Xor(Shift(a), Shift(b))
  {
    ShiftXor(a, b);
    LowXor(a, b);
    LowBit(a);
    LowBit(b);
    XorSwap(a >> 1, b >> 1, POLYNOMIAL);
    if a & 1 == 1 && b & 1 == 1 {
      assert Shift(a ^ b) == (a ^ b) >> 1;
    }
  }

  lemma {:induction false} ShiftManyLinear(a: bv32, b: bv32, n: nat)
    ensures ShiftMany(Xor(a, b), n) == Xor(ShiftMany(a, n), ShiftMany(b, n))
  {
    hide Shift, Xor;
    if n > 0 {
      ShiftManyLinear(a, b, n - 1);
      ShiftLinear(ShiftMany(a, n - 1), ShiftMany(b, n - 1));
    }
  }

  lemma Shift8IsMany(r: bv32)
    ensures Shift8(r) == ShiftMany(r, 8)
  {
    hide Shift;
    assert ShiftMany(r, 1) == Shift(r);
    assert ShiftMany(r, 2) == Shift(ShiftMany(r, 1));
    assert ShiftMany(r, 3) == Shift(ShiftMany(r, 2));
    assert ShiftMany(r, 4) == Shift(ShiftMany(r, 3));
    assert ShiftMany(r, 5) == Shift(ShiftMany(r, 4));
    assert ShiftMany(r, 6) == Shift(ShiftMany(r, 5));
    assert ShiftMany(r, 7) == Shift(ShiftMany(r, 6));
  }

  lemma Shift8Linear(a: bv32, b: bv32)
    ensures Shift8(Xor(a, b)) == Xor(Shift8(a), Shift8(b))
  {
    hide Shift8, ShiftMany, Xor;
    Shift8IsMany(a);
    Shift8IsMany(b);
    Shift8IsMany(Xor(a, b));
    ShiftManyLinear(a, b, 8);
  }

  // --------------------------------------------------------------------------------- the table's entries

  lemma Row0(j: bv32)
    requires j < 16
    ensures ROW_0[j as int] == Shift8(j)
  {
  }

  /** A row is another one with the first entry of the row added to each entry. */
  predicate IsPlus(row: seq<bv32>, other: seq<bv32>) {
    |row| == |other| == 16 &&
    row[0] == Xor(row[0], other[0]) && row[1] == Xor(row[0], other[1]) &&
    row[2] == Xor(row[0], other[2]) && row[3] == Xor(row[0], other[3]) &&
    row[4] == Xor(row[0], other[4]) && row[5] == Xor(row[0], other[5]) &&
    row[6] == Xor(row[0], other[6]) && row[7] == Xor(row[0], other[7]) &&
    row[8] == Xor(row[0], other[8]) && row[9] == Xor(row[0], other[9]) &&
    row[10] == Xor(row[0], other[10]) && row[11] == Xor(row[0], other[11]) &&
    row[12] == Xor(row[0], other[12]) && row[13] == Xor(row[0], other[13]) &&
    row[14] == Xor(row[0], other[14]) && row[15] == Xor(row[0], other[15])
  }

  lemma RowsTo4()
    ensures IsPlus(ROW_1, ROW_0) && IsPlus(ROW_2, ROW_0) && IsPlus(ROW_3, ROW_0)
  {
  }

  lemma RowsTo8()
    ensures IsPlus(ROW_4, ROW_0) && IsPlus(ROW_5, ROW_0) && IsPlus(ROW_6, ROW_0) && IsPlus(ROW_7, ROW_0)
  {
  }

  lemma RowsTo12()
    ensures IsPlus(ROW_8, ROW_0) && IsPlus(ROW_9, ROW_0) && IsPlus(ROW_10, ROW_0) && IsPlus(ROW_11, ROW_0)
  {
  }

  lemma RowsTo16()
    ensures IsPlus(ROW_12, ROW_0) && IsPlus(ROW_13, ROW_0) && IsPlus(ROW_14, ROW_0) && IsPlus(ROW_15, ROW_0)
  {
  }

  lemma IsPlusEntry(row: seq<bv32>, other: seq<bv32>, j: nat)
    requires j < 16 && IsPlus(row, other)
    ensures |row| == |other| == 16 && row[j] == Xor(row[0], other[j])
  {
    hide Xor;
    assert j == 0 || j == 1 || j == 2 || j == 3 || j == 4 || j == 5 || j == 6 || j == 7 ||
        j == 8 || j == 9 || j == 10 || j == 11 || j == 12 || j == 13 || j == 14 || j == 15;
  }

  lemma RowEntry(r: nat, j: nat)
    requires r < 16 && j < 16
    ensures |ROWS[r]| == 16 && |ROW_0| == 16 && ROWS[r][j] == Xor(ROWS[r][0], ROW_0[j])
  {
    hide Xor, IsPlus;
    RowsTo4();
    RowsTo8();
    RowsTo12();
    RowsTo16();
    assert r == 0 || r == 1 || r == 2 || r == 3 || r == 4 || r == 5 || r == 6 || r == 7 ||
        r == 8 || r == 9 || r == 10 || r == 11 || r == 12 || r == 13 || r == 14 || r == 15;
    if r == 0 {
      Row0(0);
      ZeroXor(ROW_0[j]);
    } else {
      IsPlusEntry(ROWS[r], ROW_0, j);
    }
  }

  lemma ZeroXor(a: bv32)
    ensures Xor(0, a) == a
  {
  }

  lemma RowHead(r: bv32)
    requires r < 16
    ensures ROWS[r as int][0] == Shift8(r << 4)
  {
  }

  /** Splitting an index into its row and its place in the row. */
  lemma SplitIndex(i: bv32)
    requires i < 256
    ensures (i & 15) < 16 && (i >> 4) < 16 && i as int == 16 * ((i >> 4) as int) + (i & 15) as int
    ensures i == Xor((i >> 4) << 4, i & 15)
  {
  }

  lemma RowOfTable(r: nat, j: nat)
    requires r < 16 && j < 16
    ensures |TABLE| == 256 && TABLE[16 * r + j] == ROWS[r][j]
  {
    hide Flatten;
    FlattenLength(ROWS, 16, 16);
    FlattenAt(ROWS, 16, 16, r, j);
  }

  /** Every entry of the table is eight steps of the division. */
  lemma TableEntry(i: bv32)
    requires i < 256
    ensures |TABLE| == 256 && TABLE[i as int] == Shift8(i)
  {
    hide Shift8, Xor, Flatten;
    SplitIndex(i);
    RowHead(i >> 4);
    RowOfTable((i >> 4) as int, (i & 15) as int);
    RowEntry((i >> 4) as int, (i & 15) as int);
    Row0(i & 15);
    Shift8Linear((i >> 4) << 4, i & 15);
  }

  // ------------------------------------------------------------------------------------- words of bits

  /** The n lowest bits. */
  function Mask(n: nat): bv32 {
    if n == 0 then 0 else Xor(1, Double(Mask(n - 1)))
  }

  /** Up to 32 bits as a register value, first bit lowest. */
  function Word(bits: seq<bool>): bv32 {
    if bits == [] then 0 else Xor(BitWord(bits[0]), Double(Word(bits[1..])))
  }

  function Double(w: bv32): bv32 {
    w << 1
  }

  /** w has only its n lowest bits. */
  predicate Fits(w: bv32, n: nat) {
    And(w, Mask(n)) == w
  }

  function And(a: bv32, b: bv32): bv32 {
    a & b
  }

  lemma AndStep(w: bv32, m: bv32, b: bool)
    requires And(w, m) == w
    ensures And(Xor(BitWord(b), Double(w)), Xor(1, Double(m))) == Xor(BitWord(b), Double(w))
  {
  }

  lemma FitsStep(w: bv32, n: nat, b: bool)
    requires Fits(w, n)
    ensures Fits(Xor(BitWord(b), Double(w)), n + 1)
  {
    hide Xor, Double, And, BitWord;
    AndStep(w, Mask(n), b);
  }

  lemma {:induction false} WordFits(bits: seq<bool>)
    ensures Fits(Word(bits), |bits|)
  {
    hide Xor, Double, BitWord, Fits;
    if bits == [] {
      ZeroFits();
    } else {
      WordFits(bits[1..]);
      FitsStep(Word(bits[1..]), |bits| - 1, bits[0]);
    }
  }

  lemma ZeroFits()
    ensures Fits(0, 0)
  {
  }

  lemma {:induction false} MasksNest(n: nat, m: nat)
    requires n <= m
    ensures And(Mask(n), Mask(m)) == Mask(n)
  {
    hide Xor, Double, And;
    if n == 0 {
      AndZero(Mask(m));
    } else {
      MasksNest(n - 1, m - 1);
      AndStep(Mask(n - 1), Mask(m - 1), true);
      assert BitWord(true) == 1;
    }
  }

  lemma AndZero(m: bv32)
    ensures And(0, m) == 0
  {
  }

  lemma DoubleMask(n: nat, m: bv32)
    requires Mask(n) == m
    ensures Mask(n + 1) == (m << 1) | 1
  {
  }

  lemma Mask31()
    ensures Mask(31) == 0x7fffffff
  {
    DoubleMask(0, 0x0); DoubleMask(1, 0x1); DoubleMask(2, 0x3); DoubleMask(3, 0x7);
    DoubleMask(4, 0xf); DoubleMask(5, 0x1f); DoubleMask(6, 0x3f); DoubleMask(7, 0x7f);
    DoubleMask(8, 0xff); DoubleMask(9, 0x1ff); DoubleMask(10, 0x3ff); DoubleMask(11, 0x7ff);
    DoubleMask(12, 0xfff); DoubleMask(13, 0x1fff); DoubleMask(14, 0x3fff); DoubleMask(15, 0x7fff);
    DoubleMask(16, 0xffff); DoubleMask(17, 0x1ffff); DoubleMask(18, 0x3ffff); DoubleMask(19, 0x7ffff);
    DoubleMask(20, 0xfffff); DoubleMask(21, 0x1fffff); DoubleMask(22, 0x3fffff); DoubleMask(23, 0x7fffff);
    DoubleMask(24, 0xffffff); DoubleMask(25, 0x1ffffff); DoubleMask(26, 0x3ffffff); DoubleMask(27, 0x7ffffff);
    DoubleMask(28, 0xfffffff); DoubleMask(29, 0x1fffffff); DoubleMask(30, 0x3fffffff);
  }

  lemma AndBelow(w: bv32, m: bv32, top: bv32)
    requires And(w, m) == w && And(m, top) == m && top == 0x7fffffff
    ensures w < 0x80000000
  {
  }

  lemma FitsBelow(w: bv32, n: nat)
    requires n <= 31 && Fits(w, n)
    ensures w < 0x80000000
  {
    hide And, Mask;
    Mask31();
    MasksNest(n, 31);
    AndBelow(w, Mask(n), Mask(31));
  }

  lemma XorAssociates(a: bv32, b: bv32, c: bv32)
    ensures Xor(Xor(a, b), c) == Xor(a, Xor(b, c))
  {
  }

  lemma XorCommutes(a: bv32, b: bv32)
    ensures Xor(a, b) == Xor(b, a)
  {
  }

  lemma XorSelf(a: bv32, b: bv32)
    ensures Xor(a, a) == 0 && (Xor(a, b) == 0 ==> a == b)
  {
  }

  lemma ShiftDouble(w: bv32)
    requires w < 0x80000000
    ensures Shift(Double(w)) == w
  {
  }

  /** A bit added one place higher before the shift is a bit added after it. */
  lemma Pull(x: bv32, w: bv32)
    requires w < 0x80000000
    ensures Shift(Xor(x, Double(w))) == Xor(Shift(x), w)
  {
    hide Shift, Xor, Double;
    ShiftLinear(x, Double(w));
    ShiftDouble(w);
  }

  lemma {:induction false} ShiftManyFirst(r: bv32, n: nat)
    ensures ShiftMany(Shift(r), n) == ShiftMany(r, n + 1)
  {
    hide Shift;
    if n > 0 {
      ShiftManyFirst(r, n - 1);
    }
  }

  lemma {:induction false} FeedConcat(r: bv32, a: seq<bool>, b: seq<bool>)
    ensures FeedBits(r, a + b) == FeedBits(FeedBits(r, a), b)
    decreases |b|
  {
    hide Feed;
    if b == [] {
      assert a + b == a;
    } else {
      FeedConcat(r, a, b[..|b| - 1]);
      assert (a + b)[..|a + b| - 1] == a + b[..|b| - 1];
    }
  }

  lemma FeedFirst(r: bv32, bits: seq<bool>)
    requires bits != []
    ensures FeedBits(r, bits) == FeedBits(Feed(r, bits[0]), bits[1..])
  {
    hide Feed;
    assert bits == [bits[0]] + bits[1..];
    FeedConcat(r, [bits[0]], bits[1..]);
    assert [bits[0]][..0] == [];
    assert FeedBits(r, []) == r;
  }

  /** Up to 32 bits act as one word added to the register before as many zero bits. */
  lemma {:induction false} FeedIsWord(r: bv32, bits: seq<bool>)
    requires |bits| <= 32
    ensures FeedBits(r, bits) == ShiftMany(Xor(r, Word(bits)), |bits|)
    decreases |bits|
  {
    hide Shift, Xor, Double, Fits, BitWord;
    if bits == [] {
      XorZero(r);
    } else {
      var b, rest := BitWord(bits[0]), bits[1..];
      FeedFirst(r, bits);
      FeedIsWord(Feed(r, bits[0]), rest);
      WordFits(rest);
      FitsBelow(Word(rest), |rest|);
      Pull(Xor(r, b), Word(rest));
      XorAssociates(r, b, Double(Word(rest)));
      ShiftManyFirst(Xor(r, Word(bits)), |rest|);
    }
  }

  lemma XorZero(r: bv32)
    ensures Xor(r, 0) == r
  {
  }

  // ----------------------------------------------------------------------------------- table against division

  lemma WordAt(bits: seq<bool>, k: nat)
    requires k < |bits|
    ensures Word(bits[k..]) == Xor(BitWord(bits[k]), Double(Word(bits[k + 1..])))
  {
    assert bits[k..][1..] == bits[k + 1..];
  }

  lemma ByteWord(byte: bv8)
    ensures Word(BitsOf(byte)) == byte as bv32
  {
    hide Xor, Double, BitWord;
    var w := BitsOf(byte);
    assert w[0..] == w && w[8..] == [];
    WordAt(w, 0);
    WordAt(w, 1);
    WordAt(w, 2);
    WordAt(w, 3);
    WordAt(w, 4);
    WordAt(w, 5);
    WordAt(w, 6);
    WordAt(w, 7);
    SumOfBits(byte, w[0], w[1], w[2], w[3], w[4], w[5], w[6], w[7]);
  }

  lemma SumOfBits(byte: bv8, b0: bool, b1: bool, b2: bool, b3: bool, b4: bool, b5: bool, b6: bool, b7: bool)
    requires BitsOf(byte) == [b0, b1, b2, b3, b4, b5, b6, b7]
    ensures Xor(BitWord(b0), Double(Xor(BitWord(b1), Double(Xor(BitWord(b2), Double(Xor(BitWord(b3), Double(
              Xor(BitWord(b4), Double(Xor(BitWord(b5), Double(Xor(BitWord(b6), Double(Xor(BitWord(b7), Double(0))))))))))))))))
         == byte as bv32
  {
    assert [byte & 1 != 0, byte & 2 != 0, byte & 4 != 0, byte & 8 != 0, byte & 16 != 0, byte & 32 != 0, byte & 64 != 0, byte & 128 != 0]
        == [b0, b1, b2, b3, b4, b5, b6, b7];
    assert b0 == (byte & 1 != 0) && b1 == (byte & 2 != 0) && b2 == (byte & 4 != 0) && b3 == (byte & 8 != 0);
    assert b4 == (byte & 16 != 0) && b5 == (byte & 32 != 0) && b6 == (byte & 64 != 0) && b7 == (byte & 128 != 0);
  }

  lemma HighBytes(x: bv32)
    ensures x == Xor(x & 0xff, x & 0xffffff00) && Shift8(x & 0xffffff00) == x >> 8
  {
  }

  /** The place in the table that a byte selects: (crc32 ^ *buf) & 0xff. */
  function Index(r: bv32, byte: bv8): (k: nat)
    ensures k < 256
  {
    ((r ^ (byte as bv32)) & 0xff) as int
  }

  lemma ByteValue(r: bv32, byte: bv8, entry: bv32)
    requires entry == Shift8((r ^ (byte as bv32)) & 0xff)
    ensures Xor(entry, r >> 8) == FeedBits(r, BitsOf(byte))
  {
    hide Shift8, Xor, BitsOf, FeedBits;
    var x := r ^ (byte as bv32);
    LowByte(r, byte);
    HighBytes(x);
    Shift8Linear(x & 0xff, x & 0xffffff00);
    ByteLength(byte);
    FeedIsWord(r, BitsOf(byte));
    ByteWord(byte);
    Shift8IsMany(x);
  }

  lemma ByteLength(byte: bv8)
    ensures |BitsOf(byte)| == 8
  {
  }

  /** The loop body: one table look-up is eight division steps. */
  lemma ByteStep(r: bv32, byte: bv8)
    ensures |TABLE| == 256 && Xor(TABLE[Index(r, byte)], r >> 8) == FeedBits(r, BitsOf(byte))
  {
    hide Shift8, Xor, Flatten, FeedBits, BitsOf;
    var i := (r ^ (byte as bv32)) & 0xff;
    TableEntry(i);
    ByteValue(r, byte, TABLE[i as int]);
  }

  lemma LowByte(r: bv32, byte: bv8)
    ensures (r ^ (byte as bv32)) & 0xff < 256 && (r ^ (byte as bv32)) >> 8 == r >> 8
    ensures r ^ (byte as bv32) == Xor(r, byte as bv32)
  {
  }

  /** `CalculateCrc32`: the table-driven loop computes the checksum of bit-by-bit division. */
  method CalculateCrc32(buf: array<bv8>, size: nat, seed: bv32) returns (crc32: bv32)
    requires size <= buf.Length
    ensures crc32 == Crc(buf[..size], seed)
    ensures crc32 ^ 0xFFFFFFFF == FeedBits(seed ^ 0xFFFFFFFF, Bits(buf[..size]))
  {
    hide *;
    crc32 := Not(seed);
    var next, left := 0, size;
    FeedNothing(Not(seed));
    while left > 0
      invariant next + left == size && crc32 == FeedBits(Not(seed), Bits(buf[..next]))
    {
      left := left - 1;
      ByteStep(crc32, buf[next]);
      FeedByte(Not(seed), buf[..next + 1]);
      assert buf[..next + 1][..next] == buf[..next];
      crc32 := Xor(TABLE[Index(crc32, buf[next])], crc32 >> 8);
      next := next + 1;
    }
    crc32 := Not(crc32);
    CrcIs(buf[..size], seed);
    CrcComplemented(buf[..size], seed);
  }

  lemma FeedByte(r: bv32, message: seq<bv8>)
    requires message != []
    ensures var n := |message| - 1; FeedBits(r, Bits(message)) == FeedBits(FeedBits(r, Bits(message[..n])), BitsOf(message[n]))
  {
    hide BitsOf, FeedBits;
    FeedConcat(r, Bits(message[..|message| - 1]), BitsOf(message[|message| - 1]));
  }

  lemma CrcIs(message: seq<bv8>, seed: bv32)
    ensures Crc(message, seed) == Not(FeedBits(Not(seed), Bits(message)))
  {
  }

  /** The complement changes every bit. */
  lemma NotIsXor(r: bv32)
    ensures Not(r) == r ^ 0xFFFFFFFF
  {
  }

  lemma CrcComplemented(message: seq<bv8>, seed: bv32)
    ensures Crc(message, seed) ^ 0xFFFFFFFF == FeedBits(seed ^ 0xFFFFFFFF, Bits(message))
  {
    hide *;
    var start := seed ^ 0xFFFFFFFF;
    FromComplement(message, seed, start);
    NotIsXor(FeedBits(start, Bits(message)));
  }

  lemma FromComplement(message: seq<bv8>, seed: bv32, start: bv32)
    requires start == seed ^ 0xFFFFFFFF
    ensures Crc(message, seed) == Not(FeedBits(start, Bits(message)))
  {
    hide *;
    CrcIs(message, seed);
    NotIsXor(seed);
    assert start == Not(seed);
  }

  lemma FeedNothing(r: bv32)
    ensures FeedBits(r, []) == r && Bits([]) == []
  {
  }

  // ------------------------------------------------------------------------------------------------ chaining

  lemma {:induction false} BitsConcat(a: seq<bv8>, b: seq<bv8>)
    ensures Bits(a + b) == Bits(a) + Bits(b)
    decreases |b|
  {
    hide BitsOf;
    if b == [] {
      assert a + b == a;
    } else {
      BitsConcat(a, b[..|b| - 1]);
      assert (a + b)[..|a + b| - 1] == a + b[..|b| - 1];
    }
  }

  /** The checksum of one piece is the seed for the next. */
  lemma Chaining(a: seq<bv8>, b: seq<bv8>, seed: bv32)
    ensures Crc(b, Crc(a, seed)) == Crc(a + b, seed)
  {
    hide FeedBits, Bits, Not;
    BitsConcat(a, b);
    FeedConcat(Not(seed), Bits(a), Bits(b));
    NotNot(FeedBits(Not(seed), Bits(a)));
  }

  lemma NotNot(r: bv32)
    ensures Not(Not(r)) == r
  {
  }

  // --------------------------------------------------------------------------------------- error detection

  lemma ShiftInjective(a: bv32, b: bv32)
    requires Shift(a) == Shift(b)
    ensures a == b
  {
    ShiftLinear(a, b);
    XorSelf(Shift(a), Shift(b));
    ShiftZero(Xor(a, b));
    XorSelf(a, b);
  }

  lemma ShiftZero(c: bv32)
    requires Shift(c) == 0
    ensures c == 0
  {
  }

  lemma {:induction false} ShiftManyInjective(a: bv32, b: bv32, n: nat)
    requires ShiftMany(a, n) == ShiftMany(b, n)
    ensures a == b
  {
    hide Shift;
    if n > 0 {
      ShiftInjective(ShiftMany(a, n - 1), ShiftMany(b, n - 1));
      ShiftManyInjective(a, b, n - 1);
    }
  }

  lemma XorCancels(a: bv32, b: bv32, c: bv32)
    requires Xor(a, c) == Xor(b, c) || Xor(c, a) == Xor(c, b)
    ensures a == b
  {
  }

  /** The register after a stretch of message determines the register before it. */
  lemma {:induction false} FeedInjective(a: bv32, b: bv32, bits: seq<bool>)
    requires FeedBits(a, bits) == FeedBits(b, bits)
    ensures a == b
  {
    hide Shift, Xor;
    if bits != [] {
      var n := |bits| - 1;
      ShiftInjective(Xor(FeedBits(a, bits[..n]), BitWord(bits[n])), Xor(FeedBits(b, bits[..n]), BitWord(bits[n])));
      XorCancels(FeedBits(a, bits[..n]), FeedBits(b, bits[..n]), BitWord(bits[n]));
      FeedInjective(a, b, bits[..n]);
    }
  }

  lemma FirstBit(a: bool, b: bool, v: bv32, w: bv32)
    requires v < 0x80000000 && w < 0x80000000 && Xor(BitWord(a), Double(v)) == Xor(BitWord(b), Double(w))
    ensures a == b && v == w
  {
  }

  lemma {:induction false} WordInjective(a: seq<bool>, b: seq<bool>)
    requires |a| == |b| <= 32 && Word(a) == Word(b)
    ensures a == b
  {
    hide Xor, Double, BitWord, Fits;
    if a != [] {
      WordFits(a[1..]);
      WordFits(b[1..]);
      FitsBelow(Word(a[1..]), |a| - 1);
      FitsBelow(Word(b[1..]), |b| - 1);
      FirstBit(a[0], b[0], Word(a[1..]), Word(b[1..]));
      WordInjective(a[1..], b[1..]);
      assert a == [a[0]] + a[1..] && b == [b[0]] + b[1..];
    }
  }

  /** Up to 32 consecutive bits are determined by the register before and after them. */
  lemma WindowInjective(r: bv32, a: seq<bool>, b: seq<bool>)
    requires |a| == |b| <= 32 && FeedBits(r, a) == FeedBits(r, b)
    ensures a == b
  {
    hide FeedBits, ShiftMany, Xor, Word;
    FeedIsWord(r, a);
    FeedIsWord(r, b);
    ShiftManyInjective(Xor(r, Word(a)), Xor(r, Word(b)), |a|);
    XorCancels(Word(a), Word(b), r);
    WordInjective(a, b);
  }

  lemma ThreeParts(r: bv32, before: seq<bool>, window: seq<bool>, after: seq<bool>)
    ensures FeedBits(r, before + window + after) == FeedBits(FeedBits(FeedBits(r, before), window), after)
  {
    hide FeedBits;
    FeedConcat(r, before + window, after);
    FeedConcat(r, before, window);
  }

  /** Messages that differ, and only inside 32 consecutive bits, have different checksums. */
  lemma BurstDetected(a: seq<bv8>, b: seq<bv8>, seed: bv32, start: nat)
    requires |Bits(a)| == |Bits(b)| && start + 32 <= |Bits(a)|
    requires forall i :: 0 <= i < |Bits(a)| && !(start <= i < start + 32) ==> Bits(a)[i] == Bits(b)[i]
    ensures Crc(a, seed) == Crc(b, seed) <==> Bits(a) == Bits(b)
  {
    hide FeedBits, Bits, Not;
    var x, y := Bits(a), Bits(b);
    var before, after := x[..start], x[start + 32..];
    assert before == y[..start] && after == y[start + 32..];
    var v, w := x[start..start + 32], y[start..start + 32];
    assert x == before + v + after && y == before + w + after;
    ThreeParts(Not(seed), before, v, after);
    ThreeParts(Not(seed), before, w, after);
    var r := FeedBits(Not(seed), before);
    if Crc(a, seed) == Crc(b, seed) {
      NotNot(FeedBits(Not(seed), x));
      NotNot(FeedBits(Not(seed), y));
      FeedInjective(FeedBits(r, v), FeedBits(r, w), after);
      WindowInjective(r, v, w);
    }
  }

  lemma {:induction false} BitsLength(a: seq<bv8>)
    ensures |Bits(a)| == 8 * |a|
  {
    hide BitsOf;
    if a != [] {
      BitsLength(a[..|a| - 1]);
      ByteLength(a[|a| - 1]);
    }
  }

  lemma ByteInjective(a: bv8, b: bv8)
    requires BitsOf(a) == BitsOf(b)
    ensures a == b
  {
    hide Word, BitsOf;
    ByteWord(a);
    ByteWord(b);
    WidenInjective(a, b);
  }

  lemma WidenInjective(a: bv8, b: bv8)
    requires a as bv32 == b as bv32
    ensures a == b
  {
  }

  lemma {:induction false} BitsInjective(a: seq<bv8>, b: seq<bv8>)
    requires |a| == |b| && Bits(a) == Bits(b)
    ensures a == b
  {
    hide BitsOf;
    if a != [] {
      var n := |a| - 1;
      BitsLength(a[..n]);
      BitsLength(b[..n]);
      ByteLength(a[n]);
      ByteLength(b[n]);
      SplitAt(Bits(a[..n]), BitsOf(a[n]), Bits(b[..n]), BitsOf(b[n]));
      BitsInjective(a[..n], b[..n]);
      ByteInjective(a[n], b[n]);
      assert a == a[..n] + [a[n]] && b == b[..n] + [b[n]];
    }
  }

  lemma SplitAt(p: seq<bool>, q: seq<bool>, p': seq<bool>, q': seq<bool>)
    requires |p| == |p'| && |q| == |q'| && p + q == p' + q'
    ensures p == p' && q == q'
  {
    assert p == (p + q)[..|p|] && p' == (p' + q')[..|p|];
    assert q == (p + q)[|p|..] && q' == (p' + q')[|p|..];
  }

  /** Equal-length messages that differ only inside four consecutive bytes have equal checksums only when they are
      equal. */
  lemma FourBytesDetected(before: seq<bv8>, a: seq<bv8>, b: seq<bv8>, after: seq<bv8>, seed: bv32)
    requires |a| == |b| <= 4
    ensures Crc(before + a + after, seed) == Crc(before + b + after, seed) <==> a == b
  {
    hide FeedBits, Bits, Not;
    if Crc(before + a + after, seed) == Crc(before + b + after, seed) {
      BitsThree(before, a, after);
      BitsThree(before, b, after);
      ThreeParts(Not(seed), Bits(before), Bits(a), Bits(after));
      ThreeParts(Not(seed), Bits(before), Bits(b), Bits(after));
      var r := FeedBits(Not(seed), Bits(before));
      NotNot(FeedBits(Not(seed), Bits(before + a + after)));
      NotNot(FeedBits(Not(seed), Bits(before + b + after)));
      FeedInjective(FeedBits(r, Bits(a)), FeedBits(r, Bits(b)), Bits(after));
      BitsLength(a);
      BitsLength(b);
      WindowInjective(r, Bits(a), Bits(b));
      BitsInjective(a, b);
    }
  }

  lemma BitsThree(before: seq<bv8>, a: seq<bv8>, after: seq<bv8>)
    ensures Bits(before + a + after) == Bits(before) + Bits(a) + Bits(after)
  {
    hide Bits;
    BitsConcat(before + a, after);
    BitsConcat(before, a);
  }

  // ------------------------------------------------------------------------ the definition by remainders

  function Zeros(n: nat): seq<bool> {
    seq(n, _ => false)
  }

  function Ones(n: nat): seq<bool> {
    seq(n, _ => true)
  }

  /** The constant polynomial 1, reflected. */
  function Constant(b: bool): bv32 {
    if b then 0x80000000 else 0
  }

  /** The remainder modulo the generator of the polynomial with these coefficients, highest power first, by long
      division: multiply by x, add the next coefficient. */
  function Remainder(bits: seq<bool>): bv32 {
    if bits == [] then 0 else Xor(Shift(Remainder(bits[..|bits| - 1])), Constant(bits[|bits| - 1]))
  }

  lemma {:induction false} RemainderZeros(bits: seq<bool>, n: nat)
    ensures Remainder(bits + Zeros(n)) == ShiftMany(Remainder(bits), n)
  {
    hide Shift, Xor;
    if n == 0 {
      assert bits + Zeros(0) == bits;
    } else {
      RemainderZeros(bits, n - 1);
      assert (bits + Zeros(n))[..|bits| + n - 1] == bits + Zeros(n - 1);
      XorZero(Shift(ShiftMany(Remainder(bits), n - 1)));
    }
  }

  /** The constant 1 takes 31 steps to the top coefficient. */
  lemma ConstantToTop(b: bool)
    ensures ShiftMany(Constant(b), 31) == BitWord(b)
  {
    hide Shift;
    if b {
      Descend(0, 0x80000000); Descend(1, 0x40000000); Descend(2, 0x20000000); Descend(3, 0x10000000);
      Descend(4, 0x8000000); Descend(5, 0x4000000); Descend(6, 0x2000000); Descend(7, 0x1000000);
      Descend(8, 0x800000); Descend(9, 0x400000); Descend(10, 0x200000); Descend(11, 0x100000);
      Descend(12, 0x80000); Descend(13, 0x40000); Descend(14, 0x20000); Descend(15, 0x10000);
      Descend(16, 0x8000); Descend(17, 0x4000); Descend(18, 0x2000); Descend(19, 0x1000);
      Descend(20, 0x800); Descend(21, 0x400); Descend(22, 0x200); Descend(23, 0x100);
      Descend(24, 0x80); Descend(25, 0x40); Descend(26, 0x20); Descend(27, 0x10);
      Descend(28, 0x8); Descend(29, 0x4); Descend(30, 0x2);
    } else {
      ZeroStays(31);
    }
  }

  lemma Descend(n: nat, v: bv32)
    requires ShiftMany(0x80000000, n) == v && v & 1 == 0
    ensures ShiftMany(0x80000000, n + 1) == v >> 1
  {
  }

  lemma {:induction false} ZeroStays(n: nat)
    ensures ShiftMany(0, n) == 0
  {
    if n > 0 {
      ZeroStays(n - 1);
    }
  }

  /** Feeding a message to a zero register multiplies its polynomial by x to the 32nd and takes the remainder. */
  lemma {:induction false} FeedFromZero(bits: seq<bool>)
    ensures FeedBits(0, bits) == ShiftMany(Remainder(bits), 32)
  {
    hide Shift, Xor, BitWord, Constant;
    if bits == [] {
      ZeroStays(32);
    } else {
      var n := |bits| - 1;
      var m, b := Remainder(bits[..n]), bits[n];
      FeedFromZero(bits[..n]);
      ShiftLinear(FeedBits(0, bits[..n]), BitWord(b));
      ShiftManyLinear(Shift(m), Constant(b), 32);
      ShiftManyFirst(m, 32);
      ConstantToTop(b);
      assert ShiftMany(Constant(b), 32) == Shift(ShiftMany(Constant(b), 31));
      assert ShiftMany(m, 33) == Shift(ShiftMany(m, 32));
    }
  }

  /** The contributions of the initial register and of the message add up. */
  lemma {:induction false} FeedSplit(r: bv32, bits: seq<bool>)
    ensures FeedBits(r, bits) == Xor(ShiftMany(r, |bits|), FeedBits(0, bits))
  {
    hide Shift, Xor, BitWord;
    if bits == [] {
      XorZero(r);
    } else {
      var n := |bits| - 1;
      var b := BitWord(bits[n]);
      FeedSplit(r, bits[..n]);
      XorAssociates(ShiftMany(r, n), FeedBits(0, bits[..n]), b);
      ShiftLinear(ShiftMany(r, n), Xor(FeedBits(0, bits[..n]), b));
    }
  }

  lemma OnesStep(n: nat, v: bv32)
    requires Remainder(Ones(n)) == v && v & 1 == 0
    ensures Remainder(Ones(n + 1)) == (v >> 1) ^ 0x80000000
  {
    assert Ones(n + 1)[..n] == Ones(n);
  }

  lemma AllOnes()
    ensures Remainder(Ones(32)) == 0xFFFFFFFF
  {
    assert Ones(0) == [];
    OnesStep(0, 0x0); OnesStep(1, 0x80000000); OnesStep(2, 0xC0000000); OnesStep(3, 0xE0000000);
    OnesStep(4, 0xF0000000); OnesStep(5, 0xF8000000); OnesStep(6, 0xFC000000); OnesStep(7, 0xFE000000);
    OnesStep(8, 0xFF000000); OnesStep(9, 0xFF800000); OnesStep(10, 0xFFC00000); OnesStep(11, 0xFFE00000);
    OnesStep(12, 0xFFF00000); OnesStep(13, 0xFFF80000); OnesStep(14, 0xFFFC0000); OnesStep(15, 0xFFFE0000);
    OnesStep(16, 0xFFFF0000); OnesStep(17, 0xFFFF8000); OnesStep(18, 0xFFFFC000); OnesStep(19, 0xFFFFE000);
    OnesStep(20, 0xFFFFF000); OnesStep(21, 0xFFFFF800); OnesStep(22, 0xFFFFFC00); OnesStep(23, 0xFFFFFE00);
    OnesStep(24, 0xFFFFFF00); OnesStep(25, 0xFFFFFF80); OnesStep(26, 0xFFFFFFC0); OnesStep(27, 0xFFFFFFE0);
    OnesStep(28, 0xFFFFFFF0); OnesStep(29, 0xFFFFFFF8); OnesStep(30, 0xFFFFFFFC); OnesStep(31, 0xFFFFFFFE);
  }

  /** Section 8.1.1.6.2 of ITU-T V.42: with the initial seed 0, the checksum is the ones complement of the sum of
      the remainder of x^k (x^31 + ... + x + 1), where k is the number of message bits, and the remainder of x^32
      times the message. */
  lemma FrameCheckSequence(message: seq<bv8>)
    ensures var bits := Bits(message);
            Crc(message, 0) == Remainder(Ones(32) + Zeros(|bits|)) ^ Remainder(bits + Zeros(32)) ^ 0xFFFFFFFF
  {
    hide FeedBits, Bits, Remainder, Crc;
    AllOnes();
    SeededSequence(message, 0, Ones(32));
  }

  /** The same for every seed, with the polynomial whose remainder is the complemented seed in place of the ones. */
  lemma SeededSequence(message: seq<bv8>, seed: bv32, start: seq<bool>)
    requires Remainder(start) == seed ^ 0xFFFFFFFF
    ensures var bits := Bits(message);
            Crc(message, seed) == Remainder(start + Zeros(|bits|)) ^ Remainder(bits + Zeros(32)) ^ 0xFFFFFFFF
  {
    hide FeedBits, Bits, Remainder, Xor, Crc, ShiftMany;
    var bits := Bits(message);
    CrcComplemented(message, seed);
    RemainderZeros(start, |bits|);
    RemainderZeros(bits, 32);
    FeedSplit(seed ^ 0xFFFFFFFF, bits);
    FeedFromZero(bits);
    XorIs(Remainder(start + Zeros(|bits|)), Remainder(bits + Zeros(32)));
  }

  lemma XorIs(a: bv32, b: bv32)
    ensures Xor(a, b) == a ^ b
  {
  }

  // --------------------------------------------------------------------- `Remainder` is the remainder modulo G

  /** The coefficients of x^32 + x^26 + x^23 + x^22 + x^16 + x^12 + x^11 + x^10 + x^8 + x^7 + x^5 + x^4 + x^2 + x + 1,
      highest first. */
  const GENERATOR: seq<bool> := [
    true, false, false, false, false, false, true, false, false, true, true,
    false, false, false, false, false, true, false, false, false, true, true,
    true, false, true, true, false, true, true, false, true, true, true
  ]

  lemma ByteFeed(r: bv32, byte: bv8, next: bv32)
    requires Shift8(Xor(r, byte as bv32)) == next
    ensures FeedBits(r, BitsOf(byte)) == next
  {
    hide Shift8, Xor, BitsOf, FeedBits;
    ByteLength(byte);
    FeedIsWord(r, BitsOf(byte));
    ByteWord(byte);
    Shift8IsMany(Xor(r, byte as bv32));
  }

  lemma GeneratorBits()
    ensures GENERATOR == [true] + BitsOf(0x20) + BitsOf(0x83) + BitsOf(0xB8) + BitsOf(0xED)
  {
  }

  lemma GeneratorFeeds()
    ensures FeedBits(0, GENERATOR) == 0
  {
    hide FeedBits, BitsOf;
    GeneratorBits();
    FeedConcat(0, [true] + BitsOf(0x20) + BitsOf(0x83) + BitsOf(0xB8), BitsOf(0xED));
    FeedConcat(0, [true] + BitsOf(0x20) + BitsOf(0x83), BitsOf(0xB8));
    FeedConcat(0, [true] + BitsOf(0x20), BitsOf(0x83));
    FeedConcat(0, [true], BitsOf(0x20));
    FeedOne();
    ByteFeed(POLYNOMIAL, 0x20, 0x00EDB883);
    ByteFeed(0x00EDB883, 0x83, 0x0000EDB8);
    ByteFeed(0x0000EDB8, 0xB8, 0x000000ED);
    ByteFeed(0x000000ED, 0xED, 0);
  }

  lemma FeedOne()
    ensures FeedBits(0, [true]) == POLYNOMIAL
  {
    assert [true][..0] == [];
    assert FeedBits(0, []) == 0;
  }

  lemma {:induction false} RemainderLeadingZeros(n: nat, bits: seq<bool>)
    ensures Remainder(Zeros(n) + bits) == Remainder(bits)
  {
    hide Shift, Xor;
    if bits == [] {
      assert Zeros(n) + bits == [] + Zeros(n);
      RemainderZeros([], n);
      ZeroStays(n);
    } else {
      RemainderLeadingZeros(n, bits[..|bits| - 1]);
      assert (Zeros(n) + bits)[..n + |bits| - 1] == Zeros(n) + bits[..|bits| - 1];
    }
  }

  /** Every multiple of the generator by a power of x has remainder 0. */
  lemma GeneratorMultiple(n: nat, m: nat)
    ensures Remainder(Zeros(n) + (GENERATOR + Zeros(m))) == 0
  {
    hide FeedBits, Remainder, ShiftMany;
    GeneratorFeeds();
    FeedFromZero(GENERATOR);
    ZeroStays(32);
    ShiftManyInjective(Remainder(GENERATOR), 0, 32);
    RemainderZeros(GENERATOR, m);
    ZeroStays(m);
    RemainderLeadingZeros(n, GENERATOR + Zeros(m));
  }

  function XorBits(a: seq<bool>, b: seq<bool>): seq<bool>
    requires |a| == |b|
  {
    seq(|a|, i requires 0 <= i < |a| => a[i] != b[i])
  }

  /** Remainders add, so adding multiples of the generator changes nothing. */
  lemma {:induction false} RemainderLinear(a: seq<bool>, b: seq<bool>)
    requires |a| == |b|
    ensures Remainder(XorBits(a, b)) == Xor(Remainder(a), Remainder(b))
  {
    hide Shift, Xor, Constant;
    if a == [] {
      XorZero(0);
    } else {
      var n := |a| - 1;
      RemainderLinear(a[..n], b[..n]);
      assert XorBits(a, b)[..n] == XorBits(a[..n], b[..n]);
      ShiftLinear(Remainder(a[..n]), Remainder(b[..n]));
      ConstantLinear(a[n], b[n]);
      XorShuffle(Shift(Remainder(a[..n])), Shift(Remainder(b[..n])), Constant(a[n]), Constant(b[n]));
    }
  }

  lemma ConstantLinear(a: bool, b: bool)
    ensures Constant(a != b) == Xor(Constant(a), Constant(b))
  {
  }

  lemma XorShuffle(a: bv32, b: bv32, c: bv32, d: bv32)
    ensures Xor(Xor(a, b), Xor(c, d)) == Xor(Xor(a, c), Xor(b, d))
  {
    hide Xor;
    XorAssociates(Xor(a, b), c, d);
    XorAssociates(a, b, c);
    XorCommutes(b, c);
    XorAssociates(a, c, b);
    XorAssociates(Xor(a, c), b, d);
  }

  /** Below degree 32 a polynomial is its own remainder: different ones have different remainders. */
  lemma SmallRemainders(a: seq<bool>, b: seq<bool>)
    requires |a| == |b| <= 32
    ensures Remainder(a) == Remainder(b) <==> a == b
  {
    hide FeedBits, Remainder, ShiftMany;
    FeedFromZero(a);
    FeedFromZero(b);
    if Remainder(a) == Remainder(b) {
      WindowInjective(0, a, b);
    }
  }

  /** Exactly the differences that the generator divides go unnoticed. */
  lemma SameChecksumIff(a: seq<bv8>, b: seq<bv8>, seed: bv32)
    requires |Bits(a)| == |Bits(b)|
    ensures Crc(a, seed) == Crc(b, seed) <==> Remainder(XorBits(Bits(a), Bits(b))) == 0
  {
    hide FeedBits, Bits, Xor, Not, ShiftMany, Remainder;
    var x, y, r := Bits(a), Bits(b), ShiftMany(Not(seed), |Bits(a)|);
    FeedSplit(Not(seed), x);
    FeedSplit(Not(seed), y);
    FeedFromZero(x);
    FeedFromZero(y);
    RemainderLinear(x, y);
    XorSelf(Remainder(x), Remainder(y));
    if Crc(a, seed) == Crc(b, seed) {
      NotNot(FeedBits(Not(seed), x));
      NotNot(FeedBits(Not(seed), y));
      XorCancels(FeedBits(0, x), FeedBits(0, y), r);
      ShiftManyInjective(Remainder(x), Remainder(y), 32);
    }
  }

  // ------------------------------------------------------------------------- zero remainders are multiples of G

  /** b times x to the m-th times the generator. */
  function Shifted(b: bool, m: nat): (p: seq<bool>)
    ensures |p| == m + 33 && p[0] == b
  {
    if b then GENERATOR + Zeros(m) else Zeros(m + 33)
  }

  /** The polynomial q times the generator: the sum of the generator shifted by the powers of x in q. */
  function TimesGenerator(q: seq<bool>): (p: seq<bool>)
    ensures |p| == |q| + 32
  {
    if q == [] then Zeros(32)
    else XorBits(Shifted(q[0], |q| - 1), [false] + TimesGenerator(q[1..]))
  }

  lemma RemainderOfZeros(n: nat)
    ensures Remainder(Zeros(n)) == 0
  {
    hide Shift, Xor;
    assert [] + Zeros(n) == Zeros(n);
    RemainderZeros([], n);
    ZeroStays(n);
  }

  /** Adding a shifted generator and dropping a leading zero do not change the remainder. */
  lemma SameRemainder(b: bool, m: nat, rest: seq<bool>)
    requires |rest| == m + 32
    ensures Remainder(XorBits(Shifted(b, m), [false] + rest)) == Remainder(rest)
  {
    hide Remainder, Xor;
    RemainderOfZeros(m + 33);
    GeneratorMultiple(0, m);
    assert Zeros(0) + (GENERATOR + Zeros(m)) == GENERATOR + Zeros(m);
    RemainderLeadingZeros(1, rest);
    assert Zeros(1) + rest == [false] + rest;
    RemainderLinear(Shifted(b, m), [false] + rest);
    ZeroXor(Remainder(rest));
  }

  lemma {:induction false} MultiplesHaveNoRemainder(q: seq<bool>)
    ensures Remainder(TimesGenerator(q)) == 0
    decreases |q|
  {
    hide Remainder;
    if q == [] {
      RemainderOfZeros(32);
    } else {
      MultiplesHaveNoRemainder(q[1..]);
      SameRemainder(q[0], |q| - 1, TimesGenerator(q[1..]));
    }
  }

  /** One step of long division. */
  lemma DivideOnce(p: seq<bool>) returns (rest: seq<bool>)
    requires |p| >= 33
    ensures |rest| == |p| - 1 && p == XorBits(Shifted(p[0], |p| - 33), [false] + rest)
  {
    hide Shifted;
    var shifted := Shifted(p[0], |p| - 33);
    rest := seq(|p| - 1, i requires 0 <= i < |p| - 1 => p[i + 1] != shifted[i + 1]);
    forall i | 0 <= i < |p| ensures p[i] == XorBits(shifted, [false] + rest)[i] {
      if i > 0 {
        assert rest[i - 1] == (p[i] != shifted[i]);
      }
    }
  }

  /** Long division: the quotient of a polynomial without a remainder. */
  lemma {:induction false} QuotientOf(p: seq<bool>) returns (q: seq<bool>)
    requires |p| >= 32 && Remainder(p) == 0
    ensures |q| == |p| - 32 && TimesGenerator(q) == p
    decreases |p|
  {
    hide Remainder, Shifted, XorBits;
    if |p| == 32 {
      q := [];
      RemainderOfZeros(32);
      SmallRemainders(p, Zeros(32));
    } else {
      var rest := DivideOnce(p);
      SameRemainder(p[0], |p| - 33, rest);
      var q' := QuotientOf(rest);
      q := [p[0]] + q';
      assert q[1..] == q';
    }
  }

  /** A remainder is zero exactly when the polynomial is a multiple of the generator; below degree 32 only the zero
      polynomial is one. */
  lemma NoRemainderIff(p: seq<bool>)
    ensures |p| >= 32 ==> (Remainder(p) == 0 <==> exists q :: TimesGenerator(q) == p)
    ensures |p| < 32 ==> (Remainder(p) == 0 <==> p == Zeros(|p|))
  {
    hide Remainder, TimesGenerator;
    if |p| < 32 {
      RemainderOfZeros(|p|);
      SmallRemainders(p, Zeros(|p|));
    } else if Remainder(p) == 0 {
      var q := QuotientOf(p);
    } else if q :| TimesGenerator(q) == p {
      MultiplesHaveNoRemainder(q);
    }
  }

  // ------------------------------------------------------------------ the checksum without the register

  /** The n lowest bits of a register as coefficients, highest power first. */
  function Coefficients(w: bv32, n: nat): (bits: seq<bool>)
    ensures |bits| == n
  {
    if n == 0 then [] else [w & 1 != 0] + Coefficients(w >> 1, n - 1)
  }

  lemma LowestBit(w: bv32)
    ensures Xor(BitWord(w & 1 != 0), Double(w >> 1)) == w
  {
  }

  lemma FitsHalf(w: bv32, m: bv32)
    requires And(w, Xor(1, Double(m))) == w
    ensures And(w >> 1, m) == w >> 1
  {
  }

  lemma FitsNothing(w: bv32)
    requires Fits(w, 0)
    ensures w == 0
  {
  }

  /** Reading off the coefficients undoes `Word`. */
  lemma {:induction false} WordOfCoefficients(w: bv32, n: nat)
    requires Fits(w, n)
    ensures Word(Coefficients(w, n)) == w
    decreases n
  {
    hide Xor, Double, BitWord, And;
    if n == 0 {
      FitsNothing(w);
    } else {
      FitsHalf(w, Mask(n - 1));
      WordOfCoefficients(w >> 1, n - 1);
      LowestBit(w);
      assert Coefficients(w, n)[1..] == Coefficients(w >> 1, n - 1);
    }
  }

  lemma FullMask(w: bv32)
    ensures Fits(w, 32)
  {
    hide Mask;
    Mask31();
    DoubleMask(31, 0x7fffffff);
  }

  /** A register is the remainder of the polynomial it holds. */
  lemma RemainderOfCoefficients(w: bv32)
    ensures Remainder(Coefficients(w, 32)) == w
  {
    hide Xor, Word, Coefficients, Remainder, FeedBits, ShiftMany, Fits;
    var bits := Coefficients(w, 32);
    FullMask(w);
    WordOfCoefficients(w, 32);
    FeedIsWord(0, bits);
    XorCommutes(0, w);
    XorZero(w);
    FeedFromZero(bits);
    ShiftManyInjective(Remainder(bits), w, 32);
  }

  /** x^k times one register, plus x^32 times the message, plus another register, as polynomials; k is the number of
      message bits. */
  function Balance(message: seq<bv8>, start: bv32, end: bv32): (p: seq<bool>)
    ensures |p| == |Bits(message)| + 32
  {
    var bits := Bits(message);
    XorBits(XorBits(Coefficients(start, 32) + Zeros(|bits|), bits + Zeros(32)), Zeros(|bits|) + Coefficients(end, 32))
  }

  lemma ZerosLength(n: nat)
    ensures |Zeros(n)| == n
  {
  }

  lemma XorLength(a: seq<bool>, b: seq<bool>)
    requires |a| == |b|
    ensures |XorBits(a, b)| == |a|
  {
  }

  lemma BalanceRemainder(message: seq<bv8>, start: bv32, end: bv32)
    ensures Remainder(Balance(message, start, end)) == Xor(FeedBits(start, Bits(message)), end)
  {
    hide Bits, Remainder, Coefficients, XorBits, Xor, Zeros, FeedBits, ShiftMany;
    var bits := Bits(message);
    ZerosLength(|bits|);
    ZerosLength(32);
    RemainderOfCoefficients(start);
    RemainderOfCoefficients(end);
    RemainderZeros(Coefficients(start, 32), |bits|);
    RemainderZeros(bits, 32);
    RemainderLeadingZeros(|bits|, Coefficients(end, 32));
    FeedSplit(start, bits);
    FeedFromZero(bits);
    var a, b, c := Coefficients(start, 32) + Zeros(|bits|), bits + Zeros(32), Zeros(|bits|) + Coefficients(end, 32);
    XorLength(a, b);
    RemainderLinear(a, b);
    RemainderLinear(XorBits(a, b), c);
  }

  lemma FeedIffMultiple(message: seq<bv8>, start: bv32, end: bv32)
    ensures FeedBits(start, Bits(message)) == end <==> exists q :: TimesGenerator(q) == Balance(message, start, end)
  {
    hide Bits, Remainder, TimesGenerator, Xor, FeedBits, Balance;
    BalanceRemainder(message, start, end);
    XorSelf(FeedBits(start, Bits(message)), end);
    NoRemainderIff(Balance(message, start, end));
  }

  /** A checksum is right exactly when its ones complement differs from x^32 times the message plus x^k times the ones
      complement of the seed by a multiple of the generator. */
  lemma ChecksumIff(message: seq<bv8>, seed: bv32, crc: bv32)
    ensures crc == Crc(message, seed) <==>
            exists q :: TimesGenerator(q) == Balance(message, seed ^ 0xFFFFFFFF, crc ^ 0xFFFFFFFF)
  {
    hide *;
    CrcIffFeed(message, seed, crc);
    NotIsXor(seed);
    NotIsXor(crc);
    FeedIffMultiple(message, Not(seed), Not(crc));
  }

  lemma CrcIffFeed(message: seq<bv8>, seed: bv32, crc: bv32)
    ensures crc == Crc(message, seed) <==> FeedBits(Not(seed), Bits(message)) == Not(crc)
  {
    hide *;
    CrcIs(message, seed);
    NotNot(FeedBits(Not(seed), Bits(message)));
    NotNot(crc);
  }

  /** The bound of 32 bits is tight: a burst of 33 bits in the shape of the generator goes unnoticed wherever it
      falls in a message. */
  lemma LongerBurstMissed(a: seq<bv8>, b: seq<bv8>, seed: bv32, n: nat, m: nat)
    requires |Bits(a)| == |Bits(b)| && XorBits(Bits(a), Bits(b)) == Zeros(n) + (GENERATOR + Zeros(m))
    ensures Crc(a, seed) == Crc(b, seed)
  {
    hide Bits, Crc, Remainder;
    GeneratorMultiple(n, m);
    SameChecksumIff(a, b, seed);
  }

  /** For example in five bytes. */
  lemma FiveBytesMissed(seed: bv32)
    ensures Crc([0x41, 0x06, 0x71, 0xDB, 0x01], seed) == Crc([0, 0, 0, 0, 0], seed)
  {
    hide Crc, Bits, BitsOf;
    var a, b: seq<bv8> := [0x41, 0x06, 0x71, 0xDB, 0x01], [0, 0, 0, 0, 0];
    FiveBytes(0x41, 0x06, 0x71, 0xDB, 0x01);
    FiveBytes(0, 0, 0, 0, 0);
    ByteBits();
    assert XorBits(Bits(a), Bits(b)) == Zeros(0) + (GENERATOR + Zeros(7));
    LongerBurstMissed(a, b, seed, 0, 7);
  }

  lemma ByteBits()
    ensures BitsOf(0x41) + BitsOf(0x06) + BitsOf(0x71) + BitsOf(0xDB) + BitsOf(0x01) == GENERATOR + Zeros(7)
    ensures BitsOf(0) == Zeros(8)
  {
  }

  lemma FiveBytes(a: bv8, b: bv8, c: bv8, d: bv8, e: bv8)
    ensures Bits([a, b, c, d, e]) == BitsOf(a) + BitsOf(b) + BitsOf(c) + BitsOf(d) + BitsOf(e)
  {
    hide BitsOf;
    var m := [a, b, c, d, e];
    assert m[..4][..3] == m[..3] && m[..3][..2] == m[..2] && m[..2][..1] == m[..1] && m[..1][..0] == [];
    assert Bits(m[..1]) == BitsOf(a);
    assert Bits(m[..2]) == BitsOf(a) + BitsOf(b);
    assert Bits(m[..3]) == BitsOf(a) + BitsOf(b) + BitsOf(c);
    assert Bits(m[..4]) == BitsOf(a) + BitsOf(b) + BitsOf(c) + BitsOf(d);
  }
}
