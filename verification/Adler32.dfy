/** Adler-32 (section 2.2 of RFC 1950) and the modular combine of two partial digests. */
module Adler32 {
  import opened Bytes

  const ADLER32_MODULO: u64 := 65_521

  /** The two running sums, each reduced modulo 65521. */
  datatype Sums = Sums(a: int, b: int)

  ghost predicate Reduced(s: Sums) { 0 <= s.a < ADLER32_MODULO && 0 <= s.b < ADLER32_MODULO }

  function State(data: bytes): (s: Sums)
    ensures Reduced(s)
  {
    if data == [] then Sums(1, 0)
    else
      var s := State(data[..|data| - 1]);
      var a := (s.a + data[|data| - 1]) % ADLER32_MODULO;
      Sums(a, (s.b + a) % ADLER32_MODULO)
  }

  function Pack(s: Sums): (r: u32)
    requires Reduced(s)
  {
    s.b * 0x1_0000 + s.a
  }

  /** Adler-32 of `data`: the b sum in the high half, the a sum in the low half. */
  function Digest(data: bytes): u32 { Pack(State(data)) }

  // ---------------------------------------------------------------- closed forms

  function Total(data: bytes): nat {
    if data == [] then 0 else Total(data[..|data| - 1]) + data[|data| - 1]
  }

  /** Each byte weighted by the number of positions from it to the end. */
  function Weighted(data: bytes): nat {
    if data == [] then 0 else Weighted(data[..|data| - 1]) + Total(data)
  }

  lemma {:induction false} ClosedForm(data: bytes)
    ensures State(data).a == (1 + Total(data)) % 65_521
    ensures State(data).b == (|data| + Weighted(data)) % 65_521
  {
    if data != [] {
      var front, m := data[..|data| - 1], ADLER32_MODULO as int;
      ClosedForm(front);
      ModuloSum(1 + Total(front), data[|data| - 1], m);
      ModuloSum(|front| + Weighted(front), State(data).a, m);
      ModuloSum(1 + Total(data), |front| + Weighted(front), m);
    }
  }

  lemma {:induction false} TotalsAppend(x: bytes, y: bytes)
    ensures Total(x + y) == Total(x) + Total(y)
    ensures Weighted(x + y) == Weighted(x) + |y| * Total(x) + Weighted(y)
  {
    if y == [] {
      assert x + y == x;
    } else {
      var y' := y[..|y| - 1];
      assert (x + y)[..|x + y| - 1] == x + y';
      TotalsAppend(x, y');
      assert |y| * Total(x) == |y'| * Total(x) + Total(x);
    }
  }

  // ---------------------------------------------------------------- combining

  /** The two 16-bit halves of a digest word. */
  function Unpack(adler: u32): (s: Sums)
    ensures 0 <= s.a < 0x1_0000 && 0 <= s.b < 0x1_0000
  {
    Sums(adler % 0x1_0000, adler / 0x1_0000 % 0x1_0000)
  }

  /** Every intermediate value is a u64; the types make Dafny check that none overflows. */
  function CombineHalves(s: Sums, t: Sums, len2: u64): (r: Sums)
    requires 0 <= s.a < 0x1_0000 && 0 <= s.b < 0x1_0000
    requires 0 <= t.a < 0x1_0000 && 0 <= t.b < 0x1_0000
    ensures Reduced(r)
  {
    var aSum: u64 := s.a + t.a + ADLER32_MODULO - 1;
    var len2Mod: u64 := len2 % ADLER32_MODULO;
    var a1MinusOne: u64 := (s.a + ADLER32_MODULO - 1) % ADLER32_MODULO;
    ProductFits(len2Mod, a1MinusOne);
    var product: u64 := len2Mod * a1MinusOne;
    var bSum: u64 := s.b + t.b + product;
    Sums(aSum % ADLER32_MODULO, bSum % ADLER32_MODULO)
  }

  function Combine(adler1: u32, adler2: u32, len2: u64): u32 {
    if len2 == 0 then adler1 else Pack(CombineHalves(Unpack(adler1), Unpack(adler2), len2))
  }

  lemma {:induction false} ProductFits(x: int, y: int)
    requires 0 <= x < ADLER32_MODULO && 0 <= y < ADLER32_MODULO
    ensures 0 <= x * y <= 65_520 * 65_520
  {
    ProductMonotone(x, 65_520, y);
    ProductMonotone(y, 65_520, 65_520);
  }

  lemma {:induction false} ProductMonotone(x: int, bound: int, y: int)
    requires 0 <= x <= bound && 0 <= y
    ensures 0 <= x * y <= bound * y
  {
    assert bound * y == x * y + (bound - x) * y;
  }

  lemma {:induction false} ModuloMultiple(x: int, k: int, m: int)
    requires m > 0
    ensures (x + m * k) % m == x % m
  {
    var y := x + m * k;
    assert m * (y / m) + y % m == m * (x / m + k) + x % m;
    var d := y / m - x / m - k;
    assert m * d == x % m - y % m;
    assert d == 0;
  }

  lemma {:induction false} ModuloSum(x: int, y: int, m: int)
    requires m > 0
    ensures (x % m + y) % m == (x + y) % m
  {
    ModuloMultiple(x % m + y, x / m, m);
  }

  lemma {:induction false} ModuloProduct(x: int, y: int, m: int)
    requires m > 0
    ensures ((x % m) * (y % m)) % m == (x * y) % m
  {
    var p, q, r, s := x / m, y / m, x % m, y % m;
    assert x == m * p + r && y == m * q + s;
    assert x * y == r * s + m * (p * y + r * q) by {
      assert x * y == (m * p) * y + r * y;
      assert r * y == r * (m * q) + r * s;
    }
    ModuloMultiple(r * s, p * y + r * q, m);
  }

  lemma UnpackPack(s: Sums)
    requires Reduced(s)
    ensures Unpack(Pack(s)) == s
  {
  }

  lemma {:induction false} CombineStates(x: bytes, y: bytes)
    requires 0 < |y| <= U64_MAX
    ensures CombineHalves(State(x), State(y), |y|) == State(x + y)
  {
    ClosedForm(x);
    ClosedForm(y);
    ClosedForm(x + y);
    TotalsAppend(x, y);
    assert |x + y| == |x| + |y|;
    hide State, Total, Weighted, CombineHalves;
    HalvesAre(State(x), State(y), |y|);
    CombineClosedForms(State(x), State(y), State(x + y),
                       |x|, Total(x), Weighted(x), |y|, Total(y), Weighted(y), ADLER32_MODULO);
  }

  lemma HalvesAre(s: Sums, t: Sums, len2: u64)
    requires Reduced(s) && Reduced(t)
    ensures var r := CombineHalves(s, t, len2);
      && r.a == (s.a + t.a + ADLER32_MODULO - 1) % ADLER32_MODULO
      && r.b == (s.b + t.b + (len2 % ADLER32_MODULO) * ((s.a + ADLER32_MODULO - 1) % ADLER32_MODULO)) % ADLER32_MODULO
  {
  }

  lemma {:induction false} CombineClosedForms(s: Sums, t: Sums, u: Sums, n1: nat, t1: nat, w1: nat, n2: nat, t2: nat, w2: nat, m: int)
    requires m > 0
    requires s.a == (1 + t1) % m && s.b == (n1 + w1) % m
    requires t.a == (1 + t2) % m && t.b == (n2 + w2) % m
    requires u.a == (1 + (t1 + t2)) % m && u.b == ((n1 + n2) + (w1 + n2 * t1 + w2)) % m
    ensures (s.a + t.a + m - 1) % m == u.a
    ensures (s.b + t.b + (n2 % m) * ((s.a + m - 1) % m)) % m == u.b
  {
    CombineSums(n1, t1, w1, n2, t2, w2, m);
  }

  /** Combining the digests of two blocks gives the digest of their concatenation. */
  lemma {:induction false} CombineDigests(x: bytes, y: bytes)
    requires |y| <= U64_MAX
    ensures Combine(Digest(x), Digest(y), |y|) == Digest(x + y)
  {
    if y == [] {
      assert x + y == x;
    } else {
      UnpackPack(State(x));
      UnpackPack(State(y));
      CombineStates(x, y);
    }
  }

  /** The arithmetic of combining, over the closed forms and for any modulus. */
  lemma {:induction false} CombineSums(n1: nat, t1: nat, w1: nat, n2: nat, t2: nat, w2: nat, m: int)
    requires m > 0
    ensures ((1 + t1) % m + (1 + t2) % m + m - 1) % m == (1 + t1 + t2) % m
    ensures ((n1 + w1) % m + (n2 + w2) % m + (n2 % m) * (((1 + t1) % m + m - 1) % m)) % m
         == (n1 + n2 + (w1 + n2 * t1 + w2)) % m
  {
    ModuloSum(1 + t1, (1 + t2) % m + m - 1, m);
    ModuloSum(1 + t2, t1 + m, m);
    ModuloMultiple(1 + t1 + t2, 1, m);

    ModuloSum(1 + t1, m - 1, m);
    ModuloMultiple(t1, 1, m);
    ModuloProduct(n2, t1, m);
    var product := (n2 % m) * (t1 % m);
    ModuloSum(n1 + w1, (n2 + w2) % m + product, m);
    ModuloSum(n2 + w2, n1 + w1 + product, m);
    ModuloSum(product, n1 + w1 + n2 + w2, m);
    ModuloSum(n2 * t1, n1 + w1 + n2 + w2, m);
  }
}
