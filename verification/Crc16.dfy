/**
 Linear operators on a vector space over GF(2), for any carrier `T` with addition `xor`.
 The CRC proofs are carried out here, away from the bits of a machine word.
 */
module LinearOperators {

  /** `f` applied `n` times. */
  function Iterate<T>(f: T -> T, v: T, n: nat): T
    decreases n
  {
    if n == 0 then v else Iterate(f, f(v), n - 1)
  }

  ghost predicate Linear<T(!new)>(f: T -> T, xor: (T, T) -> T) {
    forall x, y :: f(xor(x, y)) == xor(f(x), f(y))
  }

  /** The laws of addition over GF(2): associative, with unit `zero`. */
  ghost predicate Additive<T(!new)>(xor: (T, T) -> T, zero: T) {
    && (forall x, y, z :: xor(xor(x, y), z) == xor(x, xor(y, z)))
    && (forall x :: xor(x, zero) == x && xor(zero, x) == x)
  }

  lemma {:induction false} IterateLinear<T(!new)>(f: T -> T, xor: (T, T) -> T, x: T, y: T, n: nat)
    requires Linear(f, xor)
    ensures Iterate(f, xor(x, y), n) == xor(Iterate(f, x, n), Iterate(f, y, n))
    decreases n
  {
    if n > 0 { IterateLinear(f, xor, f(x), f(y), n - 1); }
  }

  lemma {:induction false} IterateFixed<T>(f: T -> T, v: T, n: nat)
    requires f(v) == v
    ensures Iterate(f, v, n) == v
    decreases n
  {
    if n > 0 { IterateFixed(f, v, n - 1); }
  }

  lemma {:induction false} IterateCompose<T>(f: T -> T, v: T, m: nat, n: nat)
    ensures Iterate(f, Iterate(f, v, m), n) == Iterate(f, v, m + n)
    decreases m
  {
    if m > 0 { IterateCompose(f, f(v), m - 1, n); }
  }

  /** A register clocked once per input word: the word is added in, then `f` runs `k` times. */
  function Absorb<T>(f: T -> T, xor: (T, T) -> T, k: nat, start: T, input: seq<T>): T
    decreases |input|
  {
    if input == [] then start
    else Absorb(f, xor, k, Iterate(f, xor(start, input[0]), k), input[1..])
  }

  lemma {:induction false} AbsorbAppend<T>(f: T -> T, xor: (T, T) -> T, k: nat, start: T, a: seq<T>, b: seq<T>)
    ensures Absorb(f, xor, k, start, a + b) == Absorb(f, xor, k, Absorb(f, xor, k, start, a), b)
    decreases |a|
  {
    if a == [] {
      assert a + b == b;
    } else {
      assert (a + b)[1..] == a[1..] + b;
      AbsorbAppend(f, xor, k, Iterate(f, xor(start, a[0]), k), a[1..], b);
    }
  }

  /** The register is affine in its start: an offset `x` only adds `x` clocked past the input. */
  lemma {:induction false} AbsorbAffine<T(!new)>(
    f: T -> T, xor: (T, T) -> T, zero: T, k: nat, x: T, y: T, input: seq<T>)
    requires Linear(f, xor) && Additive(xor, zero)
    ensures Absorb(f, xor, k, xor(x, y), input)
         == xor(Iterate(f, x, k * |input|), Absorb(f, xor, k, y, input))
    decreases |input|
  {
    if input != [] {
      var d := input[0];
      assert xor(xor(x, y), d) == xor(x, xor(y, d));
      IterateLinear(f, xor, x, xor(y, d), k);
      AbsorbAffine(f, xor, zero, k, Iterate(f, x, k), Iterate(f, xor(y, d), k), input[1..]);
      IterateCompose(f, x, k, k * |input[1..]|);
      assert k * |input| == k + k * |input[1..]|;
    }
  }
}

/**
 CRC-16/ARC and the hand-written GF(2) matrix exponentiation that joins two partial digests.

 The digest is defined bit by bit (initial value 0, reflected polynomial 0xA001). The combine
 routine works on a 16x16 bit matrix held as 16 column words; a matrix is understood through
 the linear operator it stands for, "feed n zero bits".
 */
module Crc16 {
  import opened Bytes
  import opened LinearOperators

  const CRC16_GF2_DIM: nat := 16
  const CRC16_ARC_REFLECTED_POLY: bv16 := 0xA001

  // ---------------------------------------------------------------- the digest

  function Xor(a: bv16, b: bv16): bv16 { a ^ b }

  /** One register step with a zero input bit. */
  function ShiftBit(c: bv16): bv16 {
    if c & 1 == 1 then (c >> 1) ^ CRC16_ARC_REFLECTED_POLY else c >> 1
  }

  /** `n` register steps with zero input bits. */
  function ShiftBits(c: bv16, n: nat): bv16 { Iterate(ShiftBit, c, n) }

  function Words(data: bytes): seq<bv16> {
    seq(|data|, i requires 0 <= i < |data| => data[i] as bv16)
  }

  /** CRC-16/ARC of `data`: each byte is added in and clocked through eight steps. */
  function Digest(data: bytes): bv16 { Absorb(ShiftBit, Xor, 8, 0, Words(data)) }

  // ---------------------------------------------------------------- bit facts

  lemma ShiftRightXor(x: bv16, y: bv16)
    ensures (x ^ y) >> 1 == (x >> 1) ^ (y >> 1)
  {
  }

  lemma LowBitXor(x: bv16, y: bv16)
    ensures ((x ^ y) & 1 == 1) <==> ((x & 1 == 1) != (y & 1 == 1))
  {
  }

  lemma XorRules(a: bv16, b: bv16, p: bv16)
    ensures (a ^ p) ^ (b ^ p) == a ^ b
    ensures (a ^ p) ^ b == (a ^ b) ^ p
    ensures a ^ (b ^ p) == (a ^ b) ^ p
  {
  }

  lemma SplitLowBit(v: bv16)
    ensures v == (v & 1) ^ ((v >> 1) << 1)
    ensures v & 1 == 0 || v & 1 == 1
  {
  }

  lemma ShiftedMask(v: bv16, h: bv16)
    requires v & h == 0
    ensures (v >> 1) & ((h >> 1) | 0x8000) == 0
  {
  }

  lemma FullMask(v: bv16)
    requires v & 0xFFFF == 0
    ensures v == 0
  {
  }

  lemma XorAssociates(x: bv16, y: bv16, z: bv16)
    ensures Xor(Xor(x, y), z) == Xor(x, Xor(y, z))
  {
  }

  lemma XorUnit(x: bv16)
    ensures Xor(x, 0) == x == Xor(0, x)
  {
  }

  lemma {:induction false} XorAdditive()
    ensures Additive(Xor, 0)
  {
    forall x: bv16, y: bv16, z: bv16
      ensures Xor(Xor(x, y), z) == Xor(x, Xor(y, z))
    {
      XorAssociates(x, y, z);
    }
    forall x: bv16
      ensures Xor(x, 0) == x && Xor(0, x) == x
    {
      XorUnit(x);
    }
  }

  lemma {:induction false} ShiftBitXor(x: bv16, y: bv16)
    ensures ShiftBit(x ^ y) == ShiftBit(x) ^ ShiftBit(y)
  {
    ShiftRightXor(x, y);
    LowBitXor(x, y);
    XorRules(x >> 1, y >> 1, CRC16_ARC_REFLECTED_POLY);
  }

  lemma {:induction false} ShiftBitLinear()
    ensures Linear(ShiftBit, Xor)
  {
    forall x: bv16, y: bv16
      ensures ShiftBit(Xor(x, y)) == Xor(ShiftBit(x), ShiftBit(y))
    {
      ShiftBitXor(x, y);
    }
  }

  /** Feeding `b` after `a` goes on from the digest of `a`. */
  lemma {:induction false} DigestContinues(a: bytes, b: bytes)
    ensures Digest(a + b) == Absorb(ShiftBit, Xor, 8, Digest(a), Words(b))
  {
    hide ShiftBit, Xor;
    assert Words(a + b) == Words(a) + Words(b);
    AbsorbAppend(ShiftBit, Xor, 8, 0, Words(a), Words(b));
  }

  lemma ShiftsAre(c: bv16, n: nat)
    ensures Iterate(ShiftBit, c, n) == ShiftBits(c, n) && ShiftBits(c, 0) == c
  {
  }

  /** What combining must compute: the first digest clocked past the second block, plus the second. */
  lemma {:induction false} DigestAppend(a: bytes, b: bytes)
    ensures Digest(a + b) == Xor(ShiftBits(Digest(a), 8 * |b|), Digest(b))
  {
    DigestContinues(a, b);
    XorAdditive();
    ShiftBitLinear();
    XorUnit(Digest(a));
    ShiftsAre(Digest(a), 8 * |b|);
    hide Additive, Linear, ShiftBit, Xor, Iterate, Absorb, ShiftBits;
    AbsorbAffine(ShiftBit, Xor, 0, 8, Digest(a), 0, Words(b));
  }

  // ---------------------------------------------------------------- matrices

  function Double(v: bv16): bv16 { v << 1 }

  /** The word with only bit `i` set. */
  function Unit(i: nat): bv16 { Iterate(Double, 1, i) }

  /** The bits that are clear in a 16-bit word shifted right `idx` times. */
  function HighMask(idx: nat): bv16 {
    if idx == 0 then 0 else (HighMask(idx - 1) >> 1) | 0x8000
  }

  predicate Fits(v: bv16, idx: nat) { v & HighMask(idx) == 0 }

  lemma FitsZero(v: bv16)
    ensures Fits(v, 0)
  {
  }

  lemma {:induction false} FitsShift(v: bv16, idx: nat)
    requires Fits(v, idx)
    ensures Fits(v >> 1, idx + 1)
  {
    ShiftedMask(v, HighMask(idx));
  }

  lemma {:induction false} HighMaskFull()
    ensures HighMask(16) == 0xFFFF
  {
    assert HighMask(2) == 0xC000 && HighMask(4) == 0xF000;
    assert HighMask(6) == 0xFC00 && HighMask(8) == 0xFF00;
    assert HighMask(10) == 0xFFC0 && HighMask(12) == 0xFFF0;
    assert HighMask(14) == 0xFFFC;
  }

  /** A nonzero word that has been shifted `idx` times still has a column: the index stays in range. */
  lemma {:induction false} FitsIndex(v: bv16, idx: nat)
    requires idx <= CRC16_GF2_DIM && Fits(v, idx) && v != 0
    ensures idx < CRC16_GF2_DIM
  {
    if idx == CRC16_GF2_DIM {
      HighMaskFull();
      FullMask(v);
      assert false;
    }
  }

  function Column(mat: seq<bv16>, v: bv16, idx: nat): bv16
    requires idx < |mat|
  {
    if v & 1 == 1 then mat[idx] else 0
  }

  /** The matrix-vector product over GF(2): the sum of the columns the bits of `v` select. */
  function Times(mat: seq<bv16>, v: bv16, idx: nat): bv16
    requires |mat| == CRC16_GF2_DIM && idx <= CRC16_GF2_DIM && Fits(v, idx)
    decreases CRC16_GF2_DIM - idx
  {
    if v == 0 then 0
    else
      FitsIndex(v, idx);
      FitsShift(v, idx);
      Xor(Column(mat, v, idx), Times(mat, v >> 1, idx + 1))
  }

  /** The columns of `mat` are the images of the unit vectors under `op`. */
  ghost predicate Represents(mat: seq<bv16>, op: bv16 -> bv16) {
    |mat| == CRC16_GF2_DIM
    && forall i :: 0 <= i < CRC16_GF2_DIM ==> mat[i] == op(Unit(i))
  }

  lemma {:induction false} DoubleLinear()
    ensures Linear(Double, Xor)
  {
    forall x: bv16, y: bv16
      ensures Double(Xor(x, y)) == Xor(Double(x), Double(y))
    {
    }
  }

  /** Splitting off the low bit of a word that sits `idx` places up. */
  lemma {:induction false} MoveUpSplit(v: bv16, idx: nat)
    ensures Iterate(Double, v, idx)
         == Xor(if v & 1 == 1 then Unit(idx) else 0, Iterate(Double, v >> 1, idx + 1))
  {
    SplitLowBit(v);
    DoubleLinear();
    IterateLinear(Double, Xor, v & 1, Double(v >> 1), idx);
    IterateFixed(Double, 0, idx);
  }

  lemma {:induction false} LinearZero(op: bv16 -> bv16)
    requires Linear(op, Xor)
    ensures op(0) == 0
  {
    assert Xor(0, 0) == 0;
    assert Xor(op(0), op(0)) == 0;
  }

  lemma ColumnComputes(mat: seq<bv16>, v: bv16, idx: nat, op: bv16 -> bv16)
    requires Represents(mat, op) && idx < CRC16_GF2_DIM && op(0) == 0
    ensures Column(mat, v, idx) == op(if v & 1 == 1 then Unit(idx) else 0)
  {
  }

  lemma TimesUnfolds(mat: seq<bv16>, v: bv16, idx: nat)
    requires |mat| == CRC16_GF2_DIM && idx < CRC16_GF2_DIM && Fits(v, idx) && Fits(v >> 1, idx + 1) && v != 0
    ensures Times(mat, v, idx) == Xor(Column(mat, v, idx), Times(mat, v >> 1, idx + 1))
  {
    hide Fits, Column, Xor;
  }

  lemma {:induction false} LinearAt(op: bv16 -> bv16, x: bv16, y: bv16)
    requires Linear(op, Xor)
    ensures op(Xor(x, y)) == Xor(op(x), op(y))
  {
    hide Xor;
  }

  /** One column on: the low bit selects it, and the rest of the word selects the others. */
  lemma {:induction false} TimesColumn(mat: seq<bv16>, v: bv16, idx: nat, op: bv16 -> bv16)
    requires Represents(mat, op) && Linear(op, Xor) && op(0) == 0
    requires idx < CRC16_GF2_DIM && Fits(v, idx) && Fits(v >> 1, idx + 1) && v != 0
    requires Times(mat, v >> 1, idx + 1) == op(Iterate(Double, v >> 1, idx + 1))
    ensures Times(mat, v, idx) == op(Iterate(Double, v, idx))
  {
    assert |mat| == CRC16_GF2_DIM;
    hide *;
    TimesUnfolds(mat, v, idx);
    ColumnComputes(mat, v, idx, op);
    MoveUpSplit(v, idx);
    LinearAt(op, if v & 1 == 1 then Unit(idx) else 0, Iterate(Double, v >> 1, idx + 1));
  }

  /** A matrix that represents a linear operator computes it on every vector. */
  lemma {:induction false} TimesComputes(mat: seq<bv16>, v: bv16, idx: nat, op: bv16 -> bv16)
    requires Represents(mat, op) && Linear(op, Xor)
    requires idx <= CRC16_GF2_DIM && Fits(v, idx)
    ensures Times(mat, v, idx) == op(Iterate(Double, v, idx))
    decreases CRC16_GF2_DIM - idx
  {
    LinearZero(op);
    if v == 0 {
      IterateFixed(Double, 0, idx);
    } else {
      FitsIndex(v, idx);
      FitsShift(v, idx);
      hide Fits, Times, Iterate, Xor, Represents;
      TimesComputes(mat, v >> 1, idx + 1, op);
      TimesColumn(mat, v, idx, op);
    }
  }

  /** Moving one column from the product still to do into the running sum. */
  lemma {:induction false} TimesStep(mat: seq<bv16>, sum: bv16, rest: bv16, idx: nat, next: bv16)
    requires |mat| == CRC16_GF2_DIM && idx < CRC16_GF2_DIM && rest != 0
    requires Fits(rest, idx) && Fits(rest >> 1, idx + 1)
    requires next == if rest & 1 == 1 then Xor(sum, mat[idx]) else sum
    ensures Xor(next, Times(mat, rest >> 1, idx + 1)) == Xor(sum, Times(mat, rest, idx))
  {
    var tail := Times(mat, rest >> 1, idx + 1);
    if rest & 1 == 1 {
      XorAssociates(sum, mat[idx], tail);
    } else {
      XorUnit(tail);
    }
  }

  method Gf2MatrixTimes(mat: array<bv16>, vec: bv16) returns (sum: bv16)
    requires mat.Length == CRC16_GF2_DIM
    ensures Fits(vec, 0) && sum == Times(mat[..], vec, 0)
  {
    var rest := vec;
    var idx := 0;
    sum := 0;
    FitsZero(vec);
    XorUnit(Times(mat[..], vec, 0));
    while rest > 0
      invariant 0 <= idx <= CRC16_GF2_DIM
      invariant Fits(rest, idx)
      invariant Xor(sum, Times(mat[..], rest, idx)) == Times(mat[..], vec, 0)
      decreases CRC16_GF2_DIM - idx
    {
      FitsIndex(rest, idx);
      FitsShift(rest, idx);
      ghost var before := sum;
      if rest & 1 == 1 {
        sum := Xor(sum, mat[idx]);
      }
      TimesStep(mat[..], before, rest, idx, sum);
      rest := rest >> 1;
      idx := idx + 1;
    }
    XorUnit(sum);
  }

  function ShiftBy(n: nat): bv16 -> bv16 { c => ShiftBits(c, n) }

  lemma {:induction false} ShiftByXor(x: bv16, y: bv16, n: nat)
    ensures ShiftBy(n)(Xor(x, y)) == Xor(ShiftBy(n)(x), ShiftBy(n)(y))
  {
    ShiftBitLinear();
    hide ShiftBit, Xor, Iterate;
    IterateLinear(ShiftBit, Xor, x, y, n);
  }

  lemma {:induction false} ShiftByLinear(n: nat)
    ensures Linear(ShiftBy(n), Xor)
  {
    hide ShiftBy, Xor;
    forall x: bv16, y: bv16 ensures ShiftBy(n)(Xor(x, y)) == Xor(ShiftBy(n)(x), ShiftBy(n)(y)) { ShiftByXor(x, y, n); }
  }

  /** Applying a matrix that stands for `n` zero bits. */
  lemma {:induction false} TimesShifts(mat: seq<bv16>, v: bv16, n: nat)
    requires Represents(mat, ShiftBy(n))
    ensures Fits(v, 0) && Times(mat, v, 0) == ShiftBits(v, n)
  {
    FitsZero(v);
    ShiftByLinear(n);
    TimesComputes(mat, v, 0, ShiftBy(n));
  }

  /** Squaring a matrix composes its operator with itself. */
  method Gf2MatrixSquare(square: array<bv16>, mat: array<bv16>, ghost n: nat)
    requires square.Length == mat.Length == CRC16_GF2_DIM && square != mat
    requires Represents(mat[..], ShiftBy(n))
    modifies square
    ensures Represents(square[..], ShiftBy(2 * n))
  {
    for k := 0 to CRC16_GF2_DIM
      invariant mat[..] == old(mat[..])
      invariant forall i :: 0 <= i < k ==> square[i] == ShiftBy(2 * n)(Unit(i))
    {
      var column := Gf2MatrixTimes(mat, mat[k]);
      TimesShifts(mat[..], mat[k], n);
      IterateCompose(ShiftBit, Unit(k), n, n);
      square[k] := column;
    }
  }

  lemma {:induction false} UnitNext(i: nat)
    ensures Unit(i + 1) == Unit(i) << 1
  {
    IterateCompose(Double, 1, i, 1);
  }

  lemma {:induction false} Units()
    ensures Unit(0) == 1
    ensures forall i :: 1 <= i < CRC16_GF2_DIM ==> ShiftBit(Unit(i)) == Unit(i - 1)
  {
    UnitNext(0); UnitNext(1); UnitNext(2); UnitNext(3); UnitNext(4);
    UnitNext(5); UnitNext(6); UnitNext(7); UnitNext(8); UnitNext(9);
    UnitNext(10); UnitNext(11); UnitNext(12); UnitNext(13); UnitNext(14);
    assert Unit(1) == 2 && Unit(2) == 4 && Unit(3) == 8 && Unit(4) == 0x10 && Unit(5) == 0x20;
    assert Unit(6) == 0x40 && Unit(7) == 0x80 && Unit(8) == 0x100 && Unit(9) == 0x200;
    assert Unit(10) == 0x400 && Unit(11) == 0x800 && Unit(12) == 0x1000 && Unit(13) == 0x2000;
    assert Unit(14) == 0x4000 && Unit(15) == 0x8000;
  }

  /** The matrix the code starts from is the operator for one zero bit. */
  lemma {:induction false} InitialMatrix(mat: seq<bv16>)
    requires |mat| == CRC16_GF2_DIM
    requires mat[0] == CRC16_ARC_REFLECTED_POLY
    requires forall i :: 1 <= i < CRC16_GF2_DIM ==> mat[i] == Unit(i - 1)
    ensures Represents(mat, ShiftBy(1))
  {
    Units();
    forall i | 0 <= i < CRC16_GF2_DIM
      ensures mat[i] == ShiftBy(1)(Unit(i))
    {
      assert ShiftBits(Unit(i), 1) == Iterate(ShiftBit, ShiftBit(Unit(i)), 0) == ShiftBit(Unit(i));
    }
  }

  /** One binary-exponentiation step: bit 0 of `len` taken with weight `w`, the rest doubled. */
  lemma {:induction false} BinaryStep(crc: bv16, len: nat, w: nat, next: bv16)
    requires next == if len % 2 == 1 then ShiftBits(crc, w) else crc
    ensures ShiftBits(next, (len / 2) * (2 * w)) == ShiftBits(crc, len * w)
  {
    var half := len / 2;
    assert len == 2 * half + len % 2;
    assert len * w == half * (2 * w) + (len % 2) * w;
    if len % 2 == 1 {
      IterateCompose(ShiftBit, crc, w, half * (2 * w));
    }
  }

  function NextUnit(row: bv16, ghost i: nat): (next: bv16)
    requires row == Unit(i)
    ensures next == Unit(i + 1)
  {
    UnitNext(i);
    row << 1
  }

  /** Column 0 is the polynomial, column i the unit vector below it. */
  method FillOneBitMatrix(odd: array<bv16>)
    requires odd.Length == CRC16_GF2_DIM
    modifies odd
    ensures Represents(odd[..], ShiftBy(1))
  {
    var row: bv16 := 1;
    odd[0] := CRC16_ARC_REFLECTED_POLY;
    for i := 1 to CRC16_GF2_DIM
      invariant odd[0] == CRC16_ARC_REFLECTED_POLY
      invariant row == Unit(i - 1)
      invariant forall j :: 1 <= j < i ==> odd[j] == Unit(j - 1)
    {
      odd[i] := row;
      row := NextUnit(row, i - 1);
    }
    InitialMatrix(odd[..]);
  }

  /** One half of the ping-pong loop: square the matrix, and apply it when the length bit is set. */
  method SquareAndApply(square: array<bv16>, mat: array<bv16>, crc: bv16, len: nat, ghost k: nat)
    returns (next: bv16)
    requires square.Length == mat.Length == CRC16_GF2_DIM && square != mat
    requires Represents(mat[..], ShiftBy(k))
    modifies square
    ensures Represents(square[..], ShiftBy(2 * k))
    ensures ShiftBits(next, (len / 2) * (2 * (2 * k))) == ShiftBits(crc, len * (2 * k))
  {
    Gf2MatrixSquare(square, mat, k);
    next := crc;
    if len % 2 == 1 {
      TimesShifts(square[..], crc, 2 * k);
      next := Gf2MatrixTimes(square, crc);
    }
    BinaryStep(crc, len, 2 * k, next);
  }

  method Crc16ArcCombine(crc1: bv16, crc2: bv16, len2: u64) returns (combined: bv16)
    ensures combined == if len2 == 0 then crc1 else Xor(ShiftBits(crc1, 8 * len2), crc2)
  {
    hide Represents, ShiftBits, Xor;
    var even := new bv16[CRC16_GF2_DIM](_ => 0);
    var odd := new bv16[CRC16_GF2_DIM](_ => 0);
    if len2 == 0 {
      return crc1;
    }
    FillOneBitMatrix(odd);
    Gf2MatrixSquare(even, odd, 1);
    Gf2MatrixSquare(odd, even, 2);

    var crc := crc1;
    var len: nat := len2;
    ghost var k: nat := 4;
    while true
      invariant even != odd && even.Length == odd.Length == CRC16_GF2_DIM
      invariant fresh(even) && fresh(odd)
      invariant 0 < len
      invariant Represents(odd[..], ShiftBy(k))
      invariant ShiftBits(crc, len * (2 * k)) == ShiftBits(crc1, 8 * len2)
      decreases len
    {
      crc := SquareAndApply(even, odd, crc, len, k);
      len, k := len / 2, 2 * k;
      if len == 0 { break; }

      crc := SquareAndApply(odd, even, crc, len, k);
      len, k := len / 2, 2 * k;
      if len == 0 { break; }
    }
    ShiftsAre(crc, 0);
    return Xor(crc, crc2);
  }

  /** Combining the digests of two blocks gives the digest of their concatenation. */
  method CombineDigests(a: bytes, b: bytes) returns (combined: bv16)
    requires |b| <= U64_MAX
    ensures combined == Digest(a + b)
  {
    combined := Crc16ArcCombine(Digest(a), Digest(b), |b|);
    DigestAppend(a, b);
    if b == [] { assert a + b == a; }
  }
}
