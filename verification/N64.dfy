/** Nintendo 64 byte orders, the word-wise reorder, and the boot-code CRC pair. */
module N64 {
  import opened Bytes

  datatype ByteOrder = BigEndian | LittleEndian | ByteSwapped

  const ALL_ORDERS: seq<ByteOrder> := [BigEndian, LittleEndian, ByteSwapped]

  type word = w: bytes | |w| == 4 witness [0, 0, 0, 0]

  function Magic(o: ByteOrder): word {
    match o
    case BigEndian => [0x80, 0x37, 0x12, 0x40]
    case LittleEndian => [0x40, 0x12, 0x37, 0x80]
    case ByteSwapped => [0x37, 0x80, 0x40, 0x12]
  }

  function Detect(prefix: bytes): Option<ByteOrder> {
    if |prefix| < 4 then None
    else if prefix[..4] == Magic(BigEndian) then Some(BigEndian)
    else if prefix[..4] == Magic(LittleEndian) then Some(LittleEndian)
    else if prefix[..4] == Magic(ByteSwapped) then Some(ByteSwapped)
    else None
  }

  /** Converts one word between `o` and big-endian. */
  function TransformWord(o: ByteOrder, w: word): word {
    match o
    case BigEndian => w
    case LittleEndian => [w[3], w[2], w[1], w[0]]
    case ByteSwapped => [w[1], w[0], w[3], w[2]]
  }

  lemma TransformInvolution(o: ByteOrder, w: word)
    ensures TransformWord(o, TransformWord(o, w)) == w
  {
  }

  function FromBigEndian(w: word): u32 { ((w[0] as int * 256 + w[1]) * 256 + w[2]) * 256 + w[3] }

  function ToBigEndian(v: u32): word {
    var v1 := v / 256;
    var v2 := v1 / 256;
    [v2 / 256, v2 % 256, v1 % 256, v % 256]
  }

  lemma BigEndianRoundTrip(v: u32)
    ensures FromBigEndian(ToBigEndian(v)) == v
  {
  }

  function WordNormalized(o: ByteOrder, w: word): u32 { FromBigEndian(TransformWord(o, w)) }

  function WordOriginalOrder(o: ByteOrder, v: u32): word { TransformWord(o, ToBigEndian(v)) }

  lemma {:induction false} NormalizedOriginal(o: ByteOrder, v: u32)
    ensures WordNormalized(o, WordOriginalOrder(o, v)) == v
  {
    TransformInvolution(o, ToBigEndian(v));
    BigEndianRoundTrip(v);
  }

  // ---------------------------------------------------------------- reordering

  function ReorderWord(source: ByteOrder, target: ByteOrder, w: word): word {
    TransformWord(target, TransformWord(source, w))
  }

  /** `f` on every whole word of `data`; a partial last word is dropped. */
  function MapWords(f: word -> word, data: bytes): bytes {
    if |data| < 4 then [] else f(data[..4]) + MapWords(f, data[4..])
  }

  lemma {:induction false} MapWordsAppend(f: word -> word, a: bytes, b: bytes)
    requires |a| % 4 == 0
    ensures MapWords(f, a + b) == MapWords(f, a) + MapWords(f, b)
  {
    if a == [] {
      assert a + b == b;
    } else {
      assert (a + b)[..4] == a[..4] && (a + b)[4..] == a[4..] + b;
      MapWordsAppend(f, a[4..], b);
    }
  }

  lemma {:induction false} MapWordsInverse(f: word -> word, g: word -> word, data: bytes)
    requires |data| % 4 == 0 && forall w :: g(f(w)) == w
    ensures MapWords(g, MapWords(f, data)) == data
  {
    if data != [] {
      var head: bytes, tail: bytes := f(data[..4]), MapWords(f, data[4..]);
      MapWordsInverse(f, g, data[4..]);
      assert (head + tail)[..4] == head && (head + tail)[4..] == tail;
      assert data == data[..4] + data[4..];
    }
  }

  /** The image moved from one order to another. */
  function Reorder(source: ByteOrder, target: ByteOrder, data: bytes): bytes {
    MapWords(w => ReorderWord(source, target, w), data)
  }

  lemma {:induction false} MapWordsWhole(f: word -> word, data: bytes)
    ensures MapWords(f, data[..|data| - |data| % 4]) == MapWords(f, data)
  {
    var k := |data| - |data| % 4;
    if |data| >= 4 {
      assert data[..k][..4] == data[..4] && data[..k][4..] == data[4..][..k - 4];
      MapWordsWhole(f, data[4..]);
    }
  }

  lemma {:induction false} ReorderWhole(source: ByteOrder, target: ByteOrder, data: bytes)
    ensures Reorder(source, target, data[..|data| - |data| % 4]) == Reorder(source, target, data)
  {
    MapWordsWhole(w => ReorderWord(source, target, w), data);
  }

  lemma {:induction false} ReorderAppend(source: ByteOrder, target: ByteOrder, a: bytes, b: bytes)
    requires |a| % 4 == 0
    ensures Reorder(source, target, a + b) == Reorder(source, target, a) + Reorder(source, target, b)
    ensures |b| == 4 ==> Reorder(source, target, b) == ReorderWord(source, target, b)
  {
    MapWordsAppend(w => ReorderWord(source, target, w), a, b);
    if |b| == 4 { assert b[..4] == b && b[4..] == []; }
  }

  /** Reordering to `target` and back restores the image. */
  lemma {:induction false} ReorderBack(source: ByteOrder, target: ByteOrder, data: bytes)
    requires |data| % 4 == 0
    ensures Reorder(target, source, Reorder(source, target, data)) == data
  {
    var f := w => ReorderWord(source, target, w);
    var g := w => ReorderWord(target, source, w);
    forall w: word
      ensures g(f(w)) == w
    {
      TransformInvolution(target, TransformWord(source, w));
      TransformInvolution(source, w);
    }
    MapWordsInverse(f, g, data);
  }

  /** The reordered image is an image in the target order. */
  lemma {:induction false} ReorderDetects(source: ByteOrder, target: ByteOrder, data: bytes)
    requires Detect(data) == Some(source)
    ensures Detect(Reorder(source, target, data)) == Some(target)
  {
    var w: word := data[..4];
    assert w == Magic(source);
    assert TransformWord(source, w) == Magic(BigEndian);
    assert TransformWord(target, Magic(BigEndian)) == Magic(target);
    assert Reorder(source, target, data)[..4] == Magic(target);
  }

  // ---------------------------------------------------------------- the CRC pair

  datatype Crc = Crc(t1: u32, t2: u32, t3: u32, t4: u32, t5: u32, t6: u32)

  const SEED: u32 := 0xF8CA_4DDC

  function Power(n: nat): (p: nat)
    ensures p > 0
  {
    if n == 0 then 1 else 2 * Power(n - 1)
  }

  /** The exclusive or of the low `n` bits. */
  function XorBits(a: nat, b: nat, n: nat): (r: nat)
    ensures r < Power(n)
  {
    if n == 0 then 0 else (a % 2 + b % 2) % 2 + 2 * XorBits(a / 2, b / 2, n - 1)
  }

  function Xor(a: u32, b: u32): u32 {
    WordPower();
    XorBits(a, b, 32)
  }

  lemma {:induction false} WordPower()
    ensures Power(31) == 0x8000_0000 && Power(32) == 0x1_0000_0000
  {
    assert Power(8) == 0x100;
    assert Power(16) == 0x1_0000;
    assert Power(24) == 0x100_0000;
  }

  /** A sum that wraps around at 32 bits. */
  function Wrap(n: nat): u32 { n % 0x1_0000_0000 }

  /** The highest bit moves to the lowest place. */
  function RotateOne(d: u32): u32 { (2 * d) % 0x1_0000_0000 + d / 0x8000_0000 }

  function RotateLeft(d: u32, shift: nat): u32 {
    if shift == 0 then d else RotateOne(RotateLeft(d, shift - 1))
  }

  /** One round of the CIC-6102 function. */
  function ConsumeWord(c: Crc, d: u32): Crc {
    var t4 := if Wrap(c.t6 + d) < c.t6 then Wrap(c.t4 + 1) else c.t4;
    var t6 := Wrap(c.t6 + d);
    var rotated := RotateLeft(d, d % 32);
    var t5 := Wrap(c.t5 + rotated);
    var t2 := if c.t2 > d then Xor(c.t2, rotated) else Xor(c.t2, Xor(t6, d));
    Crc(Wrap(c.t1 + Xor(t5, d)), t2, Xor(c.t3, d), t4, t5, t6)
  }

  const SEEDED: Crc := Crc(SEED, SEED, SEED, SEED, SEED, SEED)

  /** One round on the four bytes of a word as they are stored in the file. */
  function Round(o: ByteOrder, c: Crc, w: bytes): Crc {
    if |w| == 4 then ConsumeWord(c, WordNormalized(o, w)) else c
  }

  /** The state after every whole word of `data`. */
  function Rounds(o: ByteOrder, data: bytes): Crc {
    FoldGroups((c, w) => Round(o, c, w), SEEDED, 4, data)
  }

  function CrcPair(c: Crc): (u32, u32) {
    (Xor(Xor(c.t6, c.t4), c.t3), Xor(Xor(c.t5, c.t2), c.t1))
  }
}
