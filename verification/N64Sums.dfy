/** What the six words of the N64 boot-code CRC hold, in sums over the words of the range. */
module N64Sums {
  import opened Bytes
  import opened N64

  const MODULUS: nat := 0x1_0000_0000

  /** What all six words start from. */
  const START: u32 := 0xF8CA_4DDC

  // ---------------------------------------------------------------- the words

  /** The normalised words of `data`; a partial last word is dropped. */
  function WordsOf(o: ByteOrder, data: bytes): seq<u32> {
    if |data| < 4 then [] else [WordNormalized(o, data[..4])] + WordsOf(o, data[4..])
  }

  function StateFrom(c: Crc, ds: seq<u32>): Crc
    decreases |ds|
  {
    if ds == [] then c else StateFrom(ConsumeWord(c, ds[0]), ds[1..])
  }

  lemma {:induction false} FoldIsState(o: ByteOrder, c: Crc, data: bytes)
    ensures FoldGroups((c, w) => Round(o, c, w), c, 4, data) == StateFrom(c, WordsOf(o, data))
    decreases |data|
  {
    hide ConsumeWord;
    if |data| >= 4 {
      FoldIsState(o, ConsumeWord(c, WordNormalized(o, data[..4])), data[4..]);
      assert WordsOf(o, data)[1..] == WordsOf(o, data[4..]);
    }
  }

  lemma {:induction false} StateSnoc(c: Crc, ds: seq<u32>, d: u32)
    ensures StateFrom(c, ds + [d]) == ConsumeWord(StateFrom(c, ds), d)
    decreases |ds|
  {
    hide ConsumeWord;
    if ds == [] {
      assert ds + [d] == [d] && [d][1..] == [];
    } else {
      assert (ds + [d])[1..] == ds[1..] + [d] && (ds + [d])[0] == ds[0];
      StateSnoc(ConsumeWord(c, ds[0]), ds[1..], d);
    }
  }

  // ---------------------------------------------------------------- rotation

  lemma NotNegative(d: nat, p: nat, q: nat)
    requires q > 0
    ensures d * p >= 0 && d / q >= 0
  {
  }

  /** `d` moved up by `s` places within 32 bits, what falls out coming back below. */
  function Rotated(d: u32, s: nat): nat
    requires s <= 32
  {
    NotNegative(d, Power(s), Power(32 - s));
    (d * Power(s)) % MODULUS + d / Power(32 - s)
  }

  lemma {:induction false} PowerSum(a: nat, b: nat)
    ensures Power(a + b) == Power(a) * Power(b)
  {
    if a > 0 {
      PowerSum(a - 1, b);
      assert Power(a + b) == 2 * Power(a - 1 + b);
    }
  }

  /** Over the parts `high` and `low` of a word, of which `low` has `k` bits. */
  lemma {:induction false} RotatedParts(d: u32, s: nat)
    requires s <= 32
    ensures Power(s) * Power(32 - s) == MODULUS
    ensures d / Power(32 - s) < Power(s) && (d % Power(32 - s)) * Power(s) + Power(s) <= MODULUS
    ensures Rotated(d, s) == (d % Power(32 - s)) * Power(s) + d / Power(32 - s)
  {
    WordPower();
    PowerSum(s, 32 - s);
    Parts(d, Power(s), Power(32 - s));
  }

  lemma {:induction false} Parts(d: nat, p: nat, q: nat)
    requires p > 0 && q > 0 && p * q == MODULUS && d < MODULUS
    ensures d / q < p && (d % q) * p + p <= MODULUS
    ensures (d * p) % MODULUS == (d % q) * p
  {
    var (h, l) := (d / q, d % q);
    assert d == h * q + l;
    Below(h, p, q, l);
    assert l * p + p == (l + 1) * p;
    Grows(l + 1, q, p);
    assert d * p == h * MODULUS + l * p by {
      assert (h * q) * p == h * (p * q);
      assert d * p == (h * q) * p + l * p;
    }
    Remainder(h, l * p);
  }

  lemma {:induction false} Below(h: nat, p: nat, q: nat, l: nat)
    requires h * q + l < p * q
    ensures h < p
  {
    if h >= p { Grows(p, h, q); }
  }

  lemma Grows(a: nat, b: nat, c: nat)
    requires a <= b
    ensures a * c <= b * c
  {
  }

  lemma Remainder(h: nat, r: nat)
    requires r < MODULUS
    ensures (h * MODULUS + r) % MODULUS == r
  {
  }

  /** Rotating by one place `s` times is moving by `s` places. */
  lemma {:induction false} RotationClosed(d: u32, s: nat)
    requires s < 32
    ensures RotateLeft(d, s) == Rotated(d, s)
  {
    if s == 0 {
      WordPower();
    } else {
      RotationClosed(d, s - 1);
      RotatedParts(d, s - 1);
      RotatedParts(d, s);
      var (p, q) := (Power(s - 1), Power(32 - s));
      assert Power(32 - (s - 1)) == 2 * q && Power(s) == 2 * p;
      HalfModulus(p, q);
      hide RotateOne, Rotated, Power;
      OneMore(d, p, q, RotateLeft(d, s - 1));
    }
  }

  lemma HalfModulus(p: nat, q: nat)
    requires (2 * p) * q == MODULUS
    ensures p * q == 0x8000_0000
  {
  }

  /** One place more, on the parts. */
  lemma {:induction false} OneMore(d: u32, p: nat, q: nat, r: u32)
    requires p > 0 && q > 0 && p * q == 0x8000_0000
    requires d / (2 * q) < p && r == (d % (2 * q)) * p + d / (2 * q)
    ensures RotateOne(r) == (d % q) * (2 * p) + d / q
  {
    var h, l, l1, l0 := Halves(d, q);
    OneMorePart(p, q, h, l, l1, l0, r);
  }

  lemma {:induction false} OneMorePart(p: nat, q: nat, h: nat, l: nat, l1: nat, l0: nat, r: u32)
    requires p * q == 0x8000_0000 && h < p && l == l1 * q + l0 && l1 < 2 && l0 < q
    requires r == l * p + h
    ensures RotateOne(r) == l0 * (2 * p) + (2 * h + l1)
  {
    Regroup(l, l1, l0, p, q);
    Room(l0, h, p, q);
    Regroup2(l0, p);
    Shifted(r, l * p, l0 * p, h, l1, l0 * (2 * p), 2 * h + l1);
  }

  lemma {:induction false} Shifted(r: u32, low: int, rest: int, h: nat, top: nat, up: int, down: nat)
    requires top < 2 && r == low + h && low == top * 0x8000_0000 + rest && 0 <= rest + h < 0x8000_0000
    requires up == 2 * rest && down == 2 * h + top
    ensures RotateOne(r) == up + down
  {
    TopBit(top, rest + h);
  }

  lemma {:induction false} Halves(d: nat, q: nat) returns (h: nat, l: nat, l1: nat, l0: nat)
    requires q > 0
    ensures h == d / (2 * q) && l == d % (2 * q)
    ensures l == l1 * q + l0 && l1 < 2 && l0 < q
    ensures d / q == 2 * h + l1 && d % q == l0
  {
    h, l := Divided(d, 2 * q);
    l1, l0 := Divided(l, q);
    Below(l1, 2, q, l0);
    Doubled(h, l1, q);
    Quotient(d, q, 2 * h + l1, l0);
  }

  lemma Divided(d: nat, q: nat) returns (h: nat, l: nat)
    requires q > 0
    ensures h == d / q && l == d % q && d == h * q + l && l < q
  {
    h, l := d / q, d % q;
  }

  lemma Doubled(h: nat, l: nat, q: nat)
    ensures (2 * h + l) * q == h * (2 * q) + l * q
  {
  }

  lemma {:induction false} Regroup(l: nat, l1: nat, l0: nat, p: nat, q: nat)
    requires l == l1 * q + l0 && p * q == 0x8000_0000
    ensures l * p == l1 * 0x8000_0000 + l0 * p
  {
    assert l * p == (l1 * q) * p + l0 * p;
    assert (l1 * q) * p == l1 * (p * q);
  }

  lemma Regroup2(l0: nat, p: nat)
    ensures l0 * (2 * p) == 2 * (l0 * p)
  {
  }

  lemma {:induction false} Room(l0: nat, h: nat, p: nat, q: nat)
    requires l0 < q && h < p && p * q == 0x8000_0000
    ensures 0 <= l0 * p + h < 0x8000_0000
  {
    Grows(0, l0, p);
    Grows(l0 + 1, q, p);
    assert (l0 + 1) * p == l0 * p + p;
  }

  lemma {:induction false} Quotient(d: nat, q: nat, h: nat, l: nat)
    requires q > 0 && d == h * q + l && l < q
    ensures d / q == h && d % q == l
  {
    var (h', l') := (d / q, d % q);
    assert d == h' * q + l';
    if h < h' { Grows(h + 1, h', q); }
    if h' < h { Grows(h' + 1, h, q); }
  }

  lemma TopBit(bit: nat, rest: nat)
    requires bit < 2 && rest < 0x8000_0000
    ensures RotateOne(bit * 0x8000_0000 + rest) == 2 * rest + bit
  {
  }

  // ---------------------------------------------------------------- sums over the words

  function Total(ds: seq<u32>): nat {
    if ds == [] then 0 else Total(ds[..|ds| - 1]) + ds[|ds| - 1]
  }

  /** Each word rotated by its own low five bits. */
  function RotatedTotal(ds: seq<u32>): nat {
    if ds == [] then 0 else RotatedTotal(ds[..|ds| - 1]) + Rotated(ds[|ds| - 1], ds[|ds| - 1] % 32)
  }

  /** Each word mixed with the rotated total up to it. */
  function MixedTotal(ds: seq<u32>): nat {
    if ds == [] then 0
    else MixedTotal(ds[..|ds| - 1]) + Xor((START + RotatedTotal(ds)) % MODULUS, ds[|ds| - 1])
  }

  function Folded(ds: seq<u32>): u32 {
    if ds == [] then START else Xor(Folded(ds[..|ds| - 1]), ds[|ds| - 1])
  }

  /** A word below the value so far goes in rotated, any other with the total up to it. */
  function Steered(ds: seq<u32>): u32 {
    if ds == [] then START
    else
      var (so, d) := (Steered(ds[..|ds| - 1]), ds[|ds| - 1]);
      if d < so then Xor(so, Rotated(d, d % 32) % MODULUS) else Xor(so, Xor((START + Total(ds)) % MODULUS, d))
  }

  /** The total of the words and how often it wrapped. */
  ghost predicate HoldsTotal(c: Crc, ds: seq<u32>) {
    c.t6 == (START + Total(ds)) % MODULUS && c.t4 == (START + (START + Total(ds)) / MODULUS) % MODULUS
  }

  ghost predicate HoldsRotated(c: Crc, ds: seq<u32>) {
    c.t5 == (START + RotatedTotal(ds)) % MODULUS && c.t1 == (START + MixedTotal(ds)) % MODULUS
  }

  /** The six words of the state after `ds`. */
  ghost predicate Holds(c: Crc, ds: seq<u32>) {
    HoldsTotal(c, ds) && HoldsRotated(c, ds) && c.t3 == Folded(ds) && c.t2 == Steered(ds)
  }

  lemma WrapAdd(x: nat, y: nat)
    ensures Wrap(x % MODULUS + y) == (x + y) % MODULUS
  {
  }

  /** A sum wraps just when it comes out smaller, and then its quotient grows by one. */
  lemma Carries(x: nat, d: u32)
    ensures Wrap(x % MODULUS + d) < x % MODULUS <==> (x + d) / MODULUS == x / MODULUS + 1
    ensures Wrap(x % MODULUS + d) >= x % MODULUS <==> (x + d) / MODULUS == x / MODULUS
  {
  }

  lemma {:induction false} RotatedWord(d: u32)
    ensures RotateLeft(d, d % 32) == Rotated(d, d % 32) && Rotated(d, d % 32) < MODULUS
  {
    RotationClosed(d, d % 32);
  }

  lemma TotalsSnoc(ds: seq<u32>, d: u32)
    ensures Total(ds + [d]) == Total(ds) + d
    ensures RotatedTotal(ds + [d]) == RotatedTotal(ds) + Rotated(d, d % 32)
    ensures MixedTotal(ds + [d]) == MixedTotal(ds) + Xor((START + RotatedTotal(ds + [d])) % MODULUS, d)
    ensures Folded(ds + [d]) == Xor(Folded(ds), d)
    ensures var so := Steered(ds);
      Steered(ds + [d]) == if d < so then Xor(so, Rotated(d, d % 32) % MODULUS)
                           else Xor(so, Xor((START + Total(ds + [d])) % MODULUS, d))
  {
    var more := ds + [d];
    assert more[..|more| - 1] == ds && more[|more| - 1] == d;
  }

  lemma ConsumeFields(c: Crc, d: u32)
    ensures var (r, n) := (RotateLeft(d, d % 32), ConsumeWord(c, d));
      && n.t6 == Wrap(c.t6 + d) && n.t4 == (if Wrap(c.t6 + d) < c.t6 then Wrap(c.t4 + 1) else c.t4)
      && n.t5 == Wrap(c.t5 + r) && n.t1 == Wrap(c.t1 + Xor(n.t5, d)) && n.t3 == Xor(c.t3, d)
      && n.t2 == (if c.t2 > d then Xor(c.t2, r) else Xor(c.t2, Xor(n.t6, d)))
  {
    hide RotateLeft, Xor, Wrap;
  }

  lemma {:induction false} TotalNext(c: Crc, ds: seq<u32>, d: u32)
    requires HoldsTotal(c, ds)
    ensures HoldsTotal(ConsumeWord(c, d), ds + [d])
  {
    ConsumeFields(c, d);
    TotalsSnoc(ds, d);
    var x := START + Total(ds);
    hide ConsumeWord, RotateLeft, Rotated, Xor, Total, RotatedTotal, MixedTotal, Folded, Steered, Wrap;
    Carries(x, d);
    WrapAdd(x, d);
    WrapAdd(START + x / MODULUS, 1);
  }

  lemma {:induction false} RotatedNext(c: Crc, ds: seq<u32>, d: u32)
    requires HoldsRotated(c, ds)
    ensures HoldsRotated(ConsumeWord(c, d), ds + [d])
  {
    ConsumeFields(c, d);
    TotalsSnoc(ds, d);
    RotatedWord(d);
    hide ConsumeWord, RotateLeft, Rotated, Xor, Total, RotatedTotal, MixedTotal, Folded, Steered, Wrap;
    var r := RotateLeft(d, d % 32);
    WrapAdd(START + RotatedTotal(ds), r);
    WrapAdd(START + MixedTotal(ds), Xor(ConsumeWord(c, d).t5, d));
  }

  lemma SmallRemainder(x: nat)
    requires x < MODULUS
    ensures x % MODULUS == x
  {
  }

  lemma {:induction false} SteeredNext(c: Crc, ds: seq<u32>, d: u32)
    requires c.t2 == Steered(ds) && c.t3 == Folded(ds)
    requires ConsumeWord(c, d).t6 == (START + Total(ds + [d])) % MODULUS
    ensures ConsumeWord(c, d).t2 == Steered(ds + [d]) && ConsumeWord(c, d).t3 == Folded(ds + [d])
  {
    ConsumeFields(c, d);
    TotalsSnoc(ds, d);
    RotatedWord(d);
    hide *;
    SmallRemainder(Rotated(d, d % 32));
  }

  lemma {:induction false} HoldsNext(c: Crc, ds: seq<u32>, d: u32)
    requires Holds(c, ds)
    ensures Holds(ConsumeWord(c, d), ds + [d])
  {
    TotalNext(c, ds, d);
    RotatedNext(c, ds, d);
    hide ConsumeWord, Total, RotatedTotal, MixedTotal, Folded, Steered;
    SteeredNext(c, ds, d);
  }

  /** The state after any words holds their sums. */
  lemma {:induction false} StateHolds(ds: seq<u32>)
    ensures Holds(StateFrom(SEEDED, ds), ds)
  {
    hide ConsumeWord, Holds;
    if ds == [] {
      SeededHolds();
    } else {
      var (front, d) := (ds[..|ds| - 1], ds[|ds| - 1]);
      assert ds == front + [d];
      StateHolds(front);
      StateSnoc(SEEDED, front, d);
      HoldsNext(StateFrom(SEEDED, front), front, d);
    }
  }

  lemma SeededHolds()
    ensures Holds(SEEDED, [])
  {
  }

  // ---------------------------------------------------------------- the pair

  /** The pair in terms of the sums alone. */
  function ClosedPair(ds: seq<u32>): (u32, u32) {
    ( Xor(Xor((START + Total(ds)) % MODULUS, (START + (START + Total(ds)) / MODULUS) % MODULUS), Folded(ds)),
      Xor(Xor((START + RotatedTotal(ds)) % MODULUS, Steered(ds)), (START + MixedTotal(ds)) % MODULUS) )
  }

  /** The pair the rounds come to is that of the sums over the words of the range. */
  lemma {:induction false} PairClosed(o: ByteOrder, data: bytes)
    ensures CrcPair(Rounds(o, data)) == ClosedPair(WordsOf(o, data))
  {
    FoldIsState(o, SEEDED, data);
    StateHolds(WordsOf(o, data));
    hide Xor, ConsumeWord, Total, RotatedTotal, MixedTotal, Folded, Steered;
  }

  function Bit(n: nat, i: nat): nat { if i == 0 then n % 2 else Bit(n / 2, i - 1) }

  /** A bit of the exclusive or is set when it is set in one of the two. */
  lemma {:induction false} XorBit(a: u32, b: u32, i: nat)
    requires i < 32
    ensures Bit(Xor(a, b), i) == (Bit(a, i) + Bit(b, i)) % 2
  {
    WordPower();
    XorBitsBit(a, b, 32, i);
  }

  lemma {:induction false} XorBitsBit(a: nat, b: nat, n: nat, i: nat)
    requires i < n
    ensures Bit(XorBits(a, b, n), i) == (Bit(a, i) + Bit(b, i)) % 2
  {
    var low := (a % 2 + b % 2) % 2;
    var rest := XorBits(a / 2, b / 2, n - 1);
    assert (low + 2 * rest) % 2 == low && (low + 2 * rest) / 2 == rest;
    if i > 0 { XorBitsBit(a / 2, b / 2, n - 1, i - 1); }
  }

  /** A big-endian word is its four bytes, the first the highest. */
  lemma {:induction false} WordAt(data: bytes, i: nat)
    requires 4 * i + 4 <= |data|
    ensures i < |WordsOf(BigEndian, data)|
    ensures WordsOf(BigEndian, data)[i]
         == data[4 * i] as int * 0x100_0000 + data[4 * i + 1] as int * 0x1_0000 + data[4 * i + 2] as int * 0x100
            + data[4 * i + 3]
    decreases i
  {
    if i > 0 {
      WordAt(data[4..], i - 1);
      assert WordsOf(BigEndian, data)[1..] == WordsOf(BigEndian, data[4..]);
    }
  }

  /** The words of an image are those of the image reordered to big-endian. */
  lemma {:induction false} WordsOfReordered(o: ByteOrder, data: bytes)
    ensures WordsOf(o, data) == WordsOf(BigEndian, Reorder(o, BigEndian, data))
    decreases |data|
  {
    if |data| >= 4 {
      var (w, rest) := (ReorderWord(o, BigEndian, data[..4]), Reorder(o, BigEndian, data[4..]));
      var all := Reorder(o, BigEndian, data);
      assert all == w + rest && all[..4] == w && all[4..] == rest;
      WordsOfReordered(o, data[4..]);
    }
  }
}
