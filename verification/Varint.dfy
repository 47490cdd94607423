/** The canonical variable-length integers of the pack tables, and the cursor that reads them. */
module Varint {
  import opened Bytes

  // ---------------------------------------------------------------- the encoding

  /** Seven bits a byte, least significant first, the high bit set on every byte but the last. */
  function Enc(n: nat): (r: bytes)
    ensures r != []
  {
    if n < 128 then [n] else [n % 128 + 128] + Enc(n / 128)
  }

  method Encode(n: u64) returns (out: bytes)
    ensures out == Enc(n)
  {
    var rest: nat := n;
    out := [];
    while true
      invariant out + Enc(rest) == Enc(n)
      decreases rest
    {
      var b: int := rest % 128;
      ghost var before := rest;
      rest := rest / 128;
      if rest > 0 {
        b := b + 128;
      }
      assert Enc(before) == if rest == 0 then [b] else [b] + Enc(rest);
      out := out + [b];
      if rest == 0 {
        return;
      }
    }
  }

  function Pow128(k: nat): nat {
    if k == 0 then 1 else 128 * Pow128(k - 1)
  }

  // ---------------------------------------------------------------- the decoding

  /** Reads the digits from number `k` on: their value and how many bytes they took. */
  function VarFrom(b: bytes, k: nat): (r: Option<(nat, nat)>)
    ensures r.Some? ==> 0 < r.value.1 <= |b|
    decreases 10 - k
  {
    if k > 9 || b == [] then None
    else
      var x: int := b[0];
      if k == 9 && x > 1 then None
      else if x < 128 then (if k > 0 && x == 0 then None else Some((x, 1)))
      else
        match VarFrom(b[1..], k + 1)
        case None => None
        case Some((r, n)) => Some((x - 128 + 128 * r, n + 1))
  }

  /** Reads one integer off the front of `b`. */
  function Var(b: bytes): Option<(nat, bytes)> {
    match VarFrom(b, 0)
    case None => None
    case Some((v, n)) => Some((v, b[n..]))
  }

  lemma {:induction false} DigitsReadBack(m: nat, rest: bytes, k: nat)
    requires k <= 9 && m < 2 * Pow128(9 - k) && (k > 0 ==> m > 0)
    ensures VarFrom(Enc(m) + rest, k) == Some((m, |Enc(m)|))
    decreases m
  {
    var b := Enc(m) + rest;
    if m >= 128 {
      var q := m / 128;
      assert b[0] == m % 128 + 128 && b[1..] == Enc(q) + rest;
      assert k < 9;
      assert Pow128(9 - k) == 128 * Pow128(9 - (k + 1));
      DigitsReadBack(q, rest, k + 1);
    } else {
      assert b[0] == m;
    }
  }

  lemma {:induction false} TenDigits()
    ensures 2 * Pow128(9) == U64_MAX + 1
  {
    assert Pow128(3) == 0x20_0000;
    assert Pow128(6) == 0x400_0000_0000 by { assert Pow128(4) == 0x1000_0000; }
    assert Pow128(9) == 0x8000_0000_0000_0000 by { assert Pow128(7) == 0x2_0000_0000_0000; }
  }

  /** Every u64 is read back, and nothing more is consumed than was written. */
  lemma {:induction false} VarOfEnc(n: u64, rest: bytes)
    ensures Var(Enc(n) + rest) == Some((n, rest))
  {
    TenDigits();
    DigitsReadBack(n, rest, 0);
    assert (Enc(n) + rest)[|Enc(n)|..] == rest;
  }

  /** The bytes accepted from digit `k` on are the encoding of the value they stand for. */
  lemma {:induction false} AcceptedIsEncoded(b: bytes, k: nat)
    requires k <= 9 && VarFrom(b, k).Some?
    ensures var (m, n) := VarFrom(b, k).value;
      && n == |Enc(m)| && b[..n] == Enc(m)
      && (k > 0 ==> m > 0)
      && m < 2 * Pow128(9 - k)
    decreases 10 - k
  {
    var x: int := b[0];
    if x >= 128 {
      AcceptedIsEncoded(b[1..], k + 1);
      var (r, n) := VarFrom(b[1..], k + 1).value;
      var m := x - 128 + 128 * r;
      assert m / 128 == r && m % 128 == x - 128;
      assert Enc(m) == [x] + Enc(r);
      assert b[..n + 1] == [b[0]] + b[1..][..n];
      assert Pow128(9 - k) == 128 * Pow128(9 - (k + 1));
    } else if k < 9 {
      assert Pow128(9 - k) == 128 * Pow128(8 - k);
      PowPositive(8 - k);
    } else {
      assert Pow128(0) == 1;
    }
  }

  lemma {:induction false} PowPositive(k: nat)
    ensures Pow128(k) >= 1
  {
    if k > 0 { PowPositive(k - 1); }
  }

  /** Only canonical encodings of u64 values are accepted: no overlong and no overflowing form. */
  lemma {:induction false} EncOfVar(b: bytes)
    requires Var(b).Some?
    ensures Var(b).value.0 <= U64_MAX
    ensures b == Enc(Var(b).value.0) + Var(b).value.1
  {
    AcceptedIsEncoded(b, 0);
    TenDigits();
    var n := VarFrom(b, 0).value.1;
    assert b == b[..n] + b[n..];
  }

  // ---------------------------------------------------------------- the other readers

  const MAX_COUNT: nat := 4_000_000

  function ReadU32(b: bytes): Option<(u32, bytes)> {
    var (v, rest) :- Var(b);
    if v < 0x1_0000_0000 then Some((v, rest)) else None
  }

  function ReadCount(b: bytes): Option<(nat, bytes)> {
    var (v, rest) :- Var(b);
    if v <= MAX_COUNT then Some((v, rest)) else None
  }

  function ReadByte(b: bytes): Option<(u8, bytes)> {
    if b == [] then None else Some((b[0], b[1..]))
  }

  function Take(b: bytes, n: nat): Option<(bytes, bytes)> {
    if n <= |b| then Some((b[..n], b[n..])) else None
  }

  lemma {:induction false} U32OfEnc(n: u32, rest: bytes)
    ensures ReadU32(Enc(n) + rest) == Some((n, rest))
  {
    VarOfEnc(n, rest);
  }

  lemma {:induction false} CountOfEnc(n: nat, rest: bytes)
    requires n <= MAX_COUNT
    ensures ReadCount(Enc(n) + rest) == Some((n, rest))
  {
    VarOfEnc(n, rest);
  }

  /** A position in a table. Every read consumes from it or fails. */
  class Cursor {
    const b: bytes
    var p: nat

    ghost predicate Valid()
      reads this
    {
      p <= |b|
    }

    ghost function Rest(): bytes
      reads this
      requires Valid()
    {
      b[p..]
    }

    /** The whole table has been read. */
    predicate Finished()
      reads this
      requires Valid()
      ensures Finished() <==> Rest() == []
    {
      p == |b|
    }

    constructor (b: bytes, p: nat)
      requires p <= |b|
      ensures Valid() && this.b == b && this.p == p
    {
      this.b, this.p := b, p;
    }

    method Byte() returns (x: Option<u8>)
      requires Valid()
      modifies this
      ensures Valid()
      ensures match ReadByte(old(Rest())) case None => x == None case Some((v, rest)) => x == Some(v) && Rest() == rest
    {
      if p == |b| {
        return None;
      }
      x := Some(b[p]);
      p := p + 1;
    }

    method Bytes(n: nat) returns (x: Option<bytes>)
      requires Valid()
      modifies this
      ensures Valid()
      ensures match Take(old(Rest()), n) case None => x == None case Some((v, rest)) => x == Some(v) && Rest() == rest
    {
      if p + n > |b| {
        return None;
      }
      x := Some(b[p..p + n]);
      assert Rest()[..n] == b[p..p + n] && Rest()[n..] == b[p + n..];
      p := p + n;
    }

    /** The digit loop: ten bytes at most, the last holding one bit, and no trailing zero digit. */
    method Variable() returns (x: Option<nat>)
      requires Valid()
      modifies this
      ensures Valid()
      ensures match Var(old(Rest())) case None => x == None case Some((v, rest)) => x == Some(v) && Rest() == rest
    {
      hide VarFrom;
      var start := p;
      var v: nat := 0;
      var k := 0;
      var weight: nat := 1;
      ghost var whole := Rest();
      while k <= 9
        invariant 0 <= k <= 10 && start <= p == start + k <= |b|
        invariant Continues(whole, Rest(), k, v, weight)
        decreases 10 - k
      {
        ReadDigit(whole, Rest(), k, v, weight);
        if p == |b| {
          return None;
        }
        var digit := b[p];
        assert Rest()[0] == digit && Rest()[1..] == b[p + 1..];
        p := p + 1;
        if k == 9 && digit > 1 {
          return None;
        }
        v := AddDigit(v, digit, weight);
        if digit < 128 {
          if p - start > 1 && digit == 0 {
            return None;
          }
          assert whole[k + 1..] == Rest();
          return Some(v);
        }
        k := k + 1;
        weight := 128 * weight;
      }
      ReadDigit(whole, Rest(), k, v, weight);
      return None;
    }

    /** The value with the low seven bits of `x` added at `weight`. */
    static function AddDigit(v: nat, x: u8, weight: nat): nat { v + (x as int) % 128 * weight }

    /** What one turn of the loop learns about the whole from the next byte. */
    static lemma {:induction false} ReadDigit(whole: bytes, rest: bytes, k: nat, v: nat, weight: nat)
      requires Continues(whole, rest, k, v, weight)
      ensures k > 9 || rest == [] ==> VarFrom(whole, 0) == None
      ensures k <= 9 && rest != [] ==>
        (if (k == 9 && rest[0] > 1) || (k > 0 && rest[0] == 0) then VarFrom(whole, 0) == None
         else if rest[0] < 128 then VarFrom(whole, 0) == Some((AddDigit(v, rest[0], weight), k + 1))
         else Continues(whole, rest[1..], k + 1, AddDigit(v, rest[0], weight), 128 * weight))
    {
      if k <= 9 && rest != [] && !(k == 9 && rest[0] > 1) && !(k > 0 && rest[0] == 0) {
        if rest[0] >= 128 {
          NextDigit(whole, rest, k, v, weight, rest[0] as int - 128);
        } else {
          LastDigit(whole, rest, k, v, weight);
        }
      }
    }

    static lemma {:induction false} LastDigit(whole: bytes, rest: bytes, k: nat, v: nat, weight: nat)
      requires Continues(whole, rest, k, v, weight)
      requires k <= 9 && rest != [] && rest[0] < 128 && !(k == 9 && rest[0] > 1) && !(k > 0 && rest[0] == 0)
      ensures VarFrom(whole, 0) == Some((AddDigit(v, rest[0], weight), k + 1))
    {
      var d: nat := rest[0];
      assert d % 128 == d;
      assert weight * d == d * weight;
    }

    static lemma {:induction false} NextDigit(whole: bytes, rest: bytes, k: nat, v: nat, weight: nat, d: nat)
      requires Continues(whole, rest, k, v, weight)
      requires k <= 9 && rest != [] && rest[0] as int == 128 + d && !(k == 9 && rest[0] > 1)
      ensures Continues(whole, rest[1..], k + 1, AddDigit(v, rest[0], weight), 128 * weight)
    {
      assert (128 + d) % 128 == d;
      if VarFrom(rest[1..], k + 1).Some? {
        Regroup(v, d, VarFrom(rest[1..], k + 1).value.0, weight);
      }
    }

    /** What is left to read decides what the whole reads as. */
    ghost static predicate Continues(whole: bytes, rest: bytes, k: nat, v: nat, weight: nat) {
      match VarFrom(rest, k)
      case None => VarFrom(whole, 0) == None
      case Some((r, n)) => VarFrom(whole, 0) == Some((v + weight * r, n + k))
    }

    static lemma Regroup(v: int, d: int, r: int, w: int)
      ensures v + w * (d + 128 * r) == (v + d * w) + (128 * w) * r
    {
    }

    method U32() returns (x: Option<u32>)
      requires Valid()
      modifies this
      ensures Valid()
      ensures match ReadU32(old(Rest())) case None => x == None case Some((v, rest)) => x == Some(v) && Rest() == rest
    {
      var v := Variable();
      if v.None? || v.value >= 0x1_0000_0000 {
        return None;
      }
      return Some(v.value);
    }

    method Count() returns (x: Option<nat>)
      requires Valid()
      modifies this
      ensures Valid()
      ensures match ReadCount(old(Rest())) case None => x == None case Some((v, rest)) => x == Some(v) && Rest() == rest
    {
      var v := Variable();
      if v.None? || v.value > MAX_COUNT {
        return None;
      }
      return v;
    }
  }
}
