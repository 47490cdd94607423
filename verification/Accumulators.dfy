/** The running sums a header repair needs, fed chunk by chunk and equal to sums over the whole file. */
module Accumulators {
  import opened Bytes
  import N64

  /** The part of `data` that lies in `[start, end)`. */
  function Window(data: bytes, start: nat, end: nat): bytes
    requires start <= end
  {
    data[Min(start, |data|)..Min(end, |data|)]
  }

  lemma WindowSnoc(data: bytes, x: u8, start: nat, end: nat)
    requires start <= end
    ensures Window(data + [x], start, end)
         == if start <= |data| < end then Window(data, start, end) + [x] else Window(data, start, end)
  {
  }

  /** Bytes past the end of the window do not change it. */
  lemma WindowClosed(data: bytes, more: bytes, start: nat, end: nat)
    requires start <= end <= |data|
    ensures Window(data + more, start, end) == Window(data, start, end)
  {
  }

  function AddWord(sum: nat, w: bytes): nat {
    if |w| == 2 then sum + (w[0] as int * 256 + w[1]) else sum
  }

  /** The sum of the big-endian 16-bit words of `w`; an odd last byte is ignored. */
  function WordSum(w: bytes): nat { FoldGroups(AddWord, 0, 2, w) }

  lemma WrappingAdd(x: nat, y: nat)
    ensures (x % 0x1_0000_0000 + y) % 0x1_0000_0000 == (x + y) % 0x1_0000_0000
  {
  }

  /** The Genesis word sum over a range. */
  class SegaAccumulator {
    const start: nat
    const end: nat
    var sum: u32
    var pendingHigh: Option<u8>
    ghost var seen: bytes

    ghost predicate Valid()
      reads this
    {
      start <= end
      && (var w := Window(seen, start, end);
          sum == WordSum(w) % 0x1_0000_0000
          && (match pendingHigh
              case None => Leftover(2, w) == []
              case Some(high) => Leftover(2, w) == [high]))
    }

    constructor (start: nat, end: nat)
      requires start <= end
      ensures Valid() && seen == [] && this.start == start && this.end == end
    {
      this.start, this.end := start, end;
      sum, pendingHigh, seen := 0, None, [];
    }

    method FeedByte(absolute: nat, value: u8)
      requires Valid() && absolute == |seen|
      modifies this
      ensures Valid() && seen == old(seen) + [value]
    {
      ghost var w := Window(seen, start, end);
      WindowSnoc(seen, value, start, end);
      FoldGroupsSnoc(AddWord, 0, 2, w, value);
      seen := seen + [value];
      if absolute < start || absolute >= end {
        return;
      }
      match pendingHigh {
        case Some(high) =>
          pendingHigh := None;
          var word: u16 := high as int * 256 + value;
          WrappingAdd(WordSum(w), word);
          sum := (sum + word) % 0x1_0000_0000;
        case None =>
          pendingHigh := Some(value);
      }
    }

    method Feed(offset: nat, chunk: bytes)
      requires Valid() && offset == |seen|
      modifies this
      ensures Valid() && seen == old(seen) + chunk
    {
      var index := 0;
      while index < |chunk|
        invariant 0 <= index <= |chunk| && Valid()
        invariant seen == old(seen) + chunk[..index]
      {
        FeedByte(offset + index, chunk[index]);
        index := index + 1;
      }
      assert chunk[..index] == chunk;
    }
  }

  // ---------------------------------------------------------------- N64

  /** The N64 boot-code CRC over a range. */
  class N64Accumulator {
    const order: N64.ByteOrder
    const start: nat
    const end: nat
    var word: bytes
    var crc: N64.Crc
    ghost var seen: bytes

    ghost predicate Valid()
      reads this
    {
      start <= end
      && (var w := Window(seen, start, end);
          crc == N64.Rounds(order, w) && word == Leftover(4, w))
    }

    constructor (order: N64.ByteOrder, start: nat, end: nat)
      requires start <= end
      ensures Valid() && seen == [] && this.order == order && this.start == start && this.end == end
    {
      this.order, this.start, this.end := order, start, end;
      word, seen := [], [];
      crc := N64.SEEDED;
    }

    method FeedByte(absolute: nat, value: u8)
      requires Valid() && absolute == |seen|
      modifies this
      ensures Valid() && seen == old(seen) + [value]
    {
      ghost var w := Window(seen, start, end);
      WindowSnoc(seen, value, start, end);
      FoldGroupsSnoc((c, g) => N64.Round(order, c, g), N64.SEEDED, 4, w, value);
      seen := seen + [value];
      if absolute < start || absolute >= end {
        return;
      }
      word := word + [value];
      if |word| == 4 {
        crc := N64.Round(order, crc, word);
        word := [];
      }
    }

    method Feed(offset: nat, chunk: bytes)
      requires Valid() && offset == |seen|
      modifies this
      ensures Valid() && seen == old(seen) + chunk
    {
      hide Window, Leftover, N64.Rounds;
      var index := 0;
      while index < |chunk|
        invariant 0 <= index <= |chunk| && Valid()
        invariant seen == old(seen) + chunk[..index]
      {
        FeedByte(offset + index, chunk[index]);
        index := index + 1;
      }
      assert chunk[..index] == chunk;
    }
  }
}
