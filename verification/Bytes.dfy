/** Bytes, fixed-width integers, and the sequence facts every other module uses. */
module Bytes {

  type u8 = x: int | 0 <= x < 0x100
  type u16 = x: int | 0 <= x < 0x1_0000
  type u32 = x: int | 0 <= x < 0x1_0000_0000
  type u64 = x: int | 0 <= x < 0x1_0000_0000_0000_0000
  type bytes = seq<u8>

  /** Text, as the bytes of its encoding; it compares byte by byte. */
  type str = bytes

  const U64_MAX: u64 := 0xFFFF_FFFF_FFFF_FFFF

  datatype Option<+T> = None | Some(value: T) {
    predicate IsFailure() { None? }

    function PropagateFailure<U>(): Option<U>
      requires None?
    {
      None
    }

    function Extract(): T
      requires Some?
    {
      value
    }
  }

  function Min(a: nat, b: nat): nat { if a <= b then a else b }

  function Max(a: nat, b: nat): nat { if a <= b then b else a }

  /** The characters of `s` stand at `at`. */
  predicate Spelled(b: bytes, at: nat, s: string) {
    at + |s| <= |b| && forall i :: 0 <= i < |s| ==> b[at + i] == s[i] as int
  }

  /** The bytes spell `s` and nothing else. */
  predicate Spells(b: bytes, s: string) { |b| == |s| && Spelled(b, 0, s) }

  /** The chunks of a stream, joined in order. */
  function Concat<T>(chunks: seq<seq<T>>): seq<T> {
    if chunks == [] then [] else chunks[0] + Concat(chunks[1..])
  }

  lemma {:induction false} ConcatAppend<T>(a: seq<seq<T>>, b: seq<seq<T>>)
    ensures Concat(a + b) == Concat(a) + Concat(b)
  {
    if a == [] {
      assert a + b == b;
    } else {
      assert (a + b)[1..] == a[1..] + b;
      ConcatAppend(a[1..], b);
    }
  }

  lemma {:induction false} ConcatSnoc<T>(a: seq<seq<T>>, last: seq<T>)
    ensures Concat(a + [last]) == Concat(a) + last
  {
    ConcatAppend(a, [last]);
    assert Concat([last]) == last;
  }

  lemma {:induction false} ConcatPrefix<T>(a: seq<seq<T>>, k: nat)
    requires k <= |a|
    ensures Concat(a) == Concat(a[..k]) + Concat(a[k..])
  {
    assert a == a[..k] + a[k..];
    ConcatAppend(a[..k], a[k..]);
  }

  // ---------------------------------------------------------------- fixed-width groups

  /** `f` folded over the whole `n`-byte groups of `data`, in order. */
  function FoldGroups<T>(f: (T, bytes) -> T, acc: T, n: nat, data: bytes): T
    requires 0 < n
    decreases |data|
  {
    if |data| < n then acc else FoldGroups(f, f(acc, data[..n]), n, data[n..])
  }

  /** What is left after the whole groups. */
  function Leftover(n: nat, data: bytes): (r: bytes)
    requires 0 < n
    ensures |r| < n
    decreases |data|
  {
    if |data| < n then data else Leftover(n, data[n..])
  }

  /** One more byte either completes a group or joins the leftover. */
  lemma {:induction false} FoldGroupsSnoc<T>(f: (T, bytes) -> T, acc: T, n: nat, data: bytes, x: u8)
    requires 0 < n
    ensures var p := Leftover(n, data);
      && FoldGroups(f, acc, n, data + [x])
         == (if |p| == n - 1 then f(FoldGroups(f, acc, n, data), p + [x]) else FoldGroups(f, acc, n, data))
      && Leftover(n, data + [x]) == (if |p| == n - 1 then [] else p + [x])
    decreases |data|
  {
    if |data| >= n {
      assert (data + [x])[..n] == data[..n] && (data + [x])[n..] == data[n..] + [x];
      FoldGroupsSnoc(f, f(acc, data[..n]), n, data[n..], x);
    } else if |data| == n - 1 {
      assert (data + [x])[..n] == data + [x] && (data + [x])[n..] == [];
    }
  }
}
