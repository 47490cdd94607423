/** Hexadecimal text of digests, and the orders of text and bytes. */
module Hex {
  import opened Bytes
  import opened Order

  const PLUS: u8 := 0x2B

  function Digit(n: nat): u8
    requires n < 16
  {
    if n < 10 then 0x30 + n else 0x57 + n
  }

  /** The lowercase text of `b`, two digits a byte. */
  function Lower(b: bytes): (r: str)
    ensures |r| == 2 * |b|
  {
    if b == [] then [] else [Digit(b[0] / 16), Digit(b[0] % 16)] + Lower(b[1..])
  }

  /** The value of a digit in either case. */
  function DigitValue(c: u8): (r: Option<nat>)
    ensures r.Some? ==> r.value < 16
  {
    if 0x30 <= c <= 0x39 then Some(c - 0x30)
    else if 0x61 <= c <= 0x66 then Some(c - 0x57)
    else if 0x41 <= c <= 0x46 then Some(c - 0x37)
    else None
  }

  /** One or two characters as a number in base 16; a plus sign may stand in front of a digit. */
  function PairValue(p: str): Option<u8>
    requires 1 <= |p| <= 2
  {
    if |p| == 1 then
      var n :- DigitValue(p[0]);
      Some(n)
    else if p[0] == PLUS then
      var n :- DigitValue(p[1]);
      Some(n)
    else
      var high :- DigitValue(p[0]);
      var low :- DigitValue(p[1]);
      Some(16 * high + low)
  }

  /** The text read two characters at a time. */
  function Pairs(s: str): Option<bytes>
    decreases |s|
  {
    if s == [] then Some([])
    else
      var n := if |s| == 1 then 1 else 2;
      var head :- PairValue(s[..n]);
      var tail :- Pairs(s[n..]);
      Some([head] + tail)
  }

  /** The bytes a query's text stands for; an odd number of characters is refused. */
  function ToBytes(s: str): Option<bytes> { if |s| % 2 != 0 then None else Pairs(s) }

  predicate IsLowerDigit(c: u8) { 0x30 <= c <= 0x39 || 0x61 <= c <= 0x66 }

  /** Lowercase hexadecimal text of `width` bytes. */
  predicate IsHexOf(s: str, width: nat) { |s| == 2 * width && forall c :: c in s ==> IsLowerDigit(c) }

  lemma DigitReadsBack(n: nat)
    requires n < 16
    ensures DigitValue(Digit(n)) == Some(n) && IsLowerDigit(Digit(n)) && Digit(n) != PLUS
  {
  }

  lemma LowerDigit(c: u8)
    requires IsLowerDigit(c)
    ensures DigitValue(c).Some? && Digit(DigitValue(c).value) == c && c != PLUS
  {
  }

  /** What `Lower` writes is lowercase hexadecimal and reads back. */
  lemma {:induction false} PairsOfLower(b: bytes)
    ensures Pairs(Lower(b)) == Some(b) && IsHexOf(Lower(b), |b|)
  {
    if b != [] {
      var s := Lower(b);
      DigitReadsBack(b[0] / 16);
      DigitReadsBack(b[0] % 16);
      PairsOfLower(b[1..]);
      assert s[..2] == [Digit(b[0] / 16), Digit(b[0] % 16)] && s[2..] == Lower(b[1..]);
      assert b == [b[0]] + b[1..];
    }
  }

  lemma {:induction false} PairOfDigits(p: str)
    requires |p| == 2 && IsLowerDigit(p[0]) && IsLowerDigit(p[1])
    ensures PairValue(p).Some? && Digit(PairValue(p).value / 16) == p[0] && Digit(PairValue(p).value % 16) == p[1]
  {
    LowerDigit(p[0]);
    LowerDigit(p[1]);
    var (high, low) := (DigitValue(p[0]).value, DigitValue(p[1]).value);
    assert (16 * high + low) / 16 == high && (16 * high + low) % 16 == low;
  }

  /** Lowercase hexadecimal text is what `Lower` writes for the bytes it stands for. */
  lemma {:induction false} LowerOfPairs(s: str, width: nat)
    requires IsHexOf(s, width)
    ensures Pairs(s).Some? && |Pairs(s).value| == width && Lower(Pairs(s).value) == s
    decreases width
  {
    if width > 0 {
      assert s[0] in s && s[1] in s;
      LowerOfPairs(s[2..], width - 1);
      PairOfDigits(s[..2]);
      hide PairValue, Digit, IsLowerDigit;
      var b := Pairs(s).value;
      assert b[1..] == Pairs(s[2..]).value;
      assert s == [s[0], s[1]] + s[2..];
    }
  }

  /** The text of two byte strings of one length is ordered as the bytes are. */
  lemma {:induction false} LowerKeepsOrder(a: bytes, b: bytes)
    requires |a| == |b|
    ensures TextLess(Lower(a), Lower(b)) == TextLess(a, b)
    ensures Lower(a) == Lower(b) <==> a == b
    decreases |a|
  {
    if a != [] {
      LowerKeepsOrder(a[1..], b[1..]);
      var (x, y) := (Lower(a), Lower(b));
      DigitOrder(a[0], b[0]);
      assert x[1..][0] == x[1] && y[1..][0] == y[1];
      assert x[1..][1..] == Lower(a[1..]) && y[1..][1..] == Lower(b[1..]);
      assert a == [a[0]] + a[1..] && b == [b[0]] + b[1..];
      assert x == [x[0], x[1]] + Lower(a[1..]) && y == [y[0], y[1]] + Lower(b[1..]);
      TwoSteps(x, y);
    }
  }

  lemma {:induction false} TwoSteps(x: seq<int>, y: seq<int>)
    requires |x| >= 2 && |y| >= 2
    ensures TextLess(x, y) ==
      (x[0] < y[0] || (x[0] == y[0] && (x[1] < y[1] || (x[1] == y[1] && TextLess(x[1..][1..], y[1..][1..])))))
  {
    assert TextLess(x, y) == (x[0] < y[0] || (x[0] == y[0] && TextLess(x[1..], y[1..])));
  }

  lemma {:induction false} DigitOrder(x: u8, y: u8)
    ensures x < y <==> Digit(x / 16) < Digit(y / 16) || (Digit(x / 16) == Digit(y / 16) && Digit(x % 16) < Digit(y % 16))
    ensures x == y <==> Digit(x / 16) == Digit(y / 16) && Digit(x % 16) == Digit(y % 16)
  {
    assert x == 16 * (x / 16) + x % 16 && y == 16 * (y / 16) + y % 16;
  }
}
