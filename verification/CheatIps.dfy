/**
 Cheat writes printed as an IPS or IPS32 patch, and the interpreter that applies such a patch: when the two ways of
 changing a ROM agree.
 */
module CheatIps {
  import opened Bytes

  datatype CheatWrite = CheatWrite(offset: u64, value: u32, width: u8)

  // ---------------------------------------------------------------- big-endian numbers

  function BigEndian(n: nat, width: nat): (r: bytes)
    ensures |r| == width
  {
    if width == 0 then [] else BigEndian(n / 256, width - 1) + [n % 256]
  }

  function FromBigEndian(b: bytes): nat {
    if b == [] then 0 else 256 * FromBigEndian(b[..|b| - 1]) + b[|b| - 1]
  }

  function Limit(width: nat): nat { if width == 0 then 1 else 256 * Limit(width - 1) }

  lemma {:induction false} BigEndianReadsBack(n: nat, width: nat)
    requires n < Limit(width)
    ensures FromBigEndian(BigEndian(n, width)) == n
  {
    if width > 0 {
      var b := BigEndian(n, width);
      BigEndianReadsBack(n / 256, width - 1);
      assert b[..|b| - 1] == BigEndian(n / 256, width - 1);
    }
  }

  function Reversed(b: bytes): (r: bytes)
    ensures |r| == |b|
  {
    if b == [] then [] else Reversed(b[1..]) + [b[0]]
  }

  // ---------------------------------------------------------------- the bytes of a write

  /** The bytes a write puts into the ROM, in the byte order of the system. */
  function WriteBytes(w: CheatWrite, bigEndian: bool): Option<bytes> {
    var all := if bigEndian then BigEndian(w.value, 4) else Reversed(BigEndian(w.value, 4));
    if w.width == 1 then Some([w.value % 256])
    else if w.width == 2 || w.width == 3 then
      var start := if bigEndian then 4 - w.width else 0;
      Some(all[start..start + w.width])
    else if w.width == 4 then Some(all)
    else None
  }

  lemma {:induction false} FourBytes(n: nat)
    ensures BigEndian(n, 4) == [n / 256 / 256 / 256 % 256, n / 256 / 256 % 256, n / 256 % 256, n % 256]
  {
    assert BigEndian(n, 4) == BigEndian(n / 256, 3) + [n % 256];
    assert BigEndian(n / 256, 3) == BigEndian(n / 256 / 256, 2) + [n / 256 % 256];
    assert BigEndian(n / 256 / 256, 2) == BigEndian(n / 256 / 256 / 256, 1) + [n / 256 / 256 % 256];
    assert BigEndian(n / 256 / 256 / 256, 1) == [] + [n / 256 / 256 / 256 % 256];
  }

  /** A width from one to four writes that many low bytes of the value, most or least significant first. */
  lemma {:induction false} WriteBytesMeaning(w: CheatWrite, bigEndian: bool)
    ensures WriteBytes(w, bigEndian).Some? <==> 1 <= w.width <= 4
    ensures 1 <= w.width <= 4 ==>
      WriteBytes(w, bigEndian).value
      == (if bigEndian then BigEndian(w.value, w.width) else Reversed(BigEndian(w.value, w.width)))
  {
    if 1 <= w.width <= 4 {
      FourBytes(w.value);
      LowBytes(w.value, w.width);
      var all := BigEndian(w.value, 4);
      assert all[4 - w.width..] == BigEndian(w.value, w.width);
      ReversedHead(all, 4 - w.width);
      if w.width == 1 {
        assert BigEndian(w.value, 1) == [w.value % 256];
        assert Reversed([w.value % 256]) == [w.value % 256];
      }
    }
  }

  lemma {:induction false} LowBytes(n: nat, width: nat)
    requires 1 <= width <= 4
    ensures BigEndian(n, 4)[4 - width..] == BigEndian(n, width)
  {
    LowBytesFrom(n, width, 4);
  }

  lemma {:induction false} LowBytesFrom(n: nat, width: nat, all: nat)
    requires width <= all
    ensures BigEndian(n, all)[all - width..] == BigEndian(n, width)
    decreases width
  {
    if width > 0 {
      LowBytesFrom(n / 256, width - 1, all - 1);
      var head := BigEndian(n / 256, all - 1);
      assert BigEndian(n, all) == head + [n % 256];
      assert (head + [n % 256])[all - width..] == head[all - width..] + [n % 256];
    }
  }

  /** The first bytes of the reverse are the reverse of the last bytes. */
  lemma {:induction false} ReversedHead(b: bytes, from: nat)
    requires from <= |b|
    ensures Reversed(b)[..|b| - from] == Reversed(b[from..])
    decreases from
  {
    if from > 0 {
      ReversedHead(b[1..], from - 1);
      assert b[1..][from - 1..] == b[from..];
      assert Reversed(b)[..|b| - from] == Reversed(b[1..])[..|b| - from];
    } else {
      assert b[0..] == b && Reversed(b)[..|b|] == Reversed(b);
    }
  }

  // ---------------------------------------------------------------- applying writes directly

  /** `data` laid over `rom`; a byte past the end grows it, zero filled. */
  function Lay(rom: bytes, offset: nat, data: bytes): (r: bytes)
    ensures |r| == Max(|rom|, offset + |data|)
    ensures forall i :: 0 <= i < |r| ==>
      r[i] == if offset <= i < offset + |data| then data[i - offset] else if i < |rom| then rom[i] else 0
  {
    seq(Max(|rom|, offset + |data|), i requires 0 <= i < Max(|rom|, offset + |data|) =>
      if offset <= i < offset + |data| then data[i - offset] else if i < |rom| then rom[i] else 0)
  }

  /** The ROM after the writes in order; none when a width is unsupported or a write ends past the ROM. */
  function Applied(rom: bytes, writes: seq<CheatWrite>, bigEndian: bool): Option<bytes>
    decreases |writes|
  {
    if writes == [] then Some(rom)
    else
      var data :- WriteBytes(writes[0], bigEndian);
      if writes[0].offset + |data| > |rom| then None
      else Applied(Lay(rom, writes[0].offset, data), writes[1..], bigEndian)
  }

  /** Writes into the buffer in place, stopping at the first write that does not fit. */
  method ApplyWrites(rom: array<u8>, bigEndian: bool, writes: seq<CheatWrite>) returns (ok: bool)
    modifies rom
    ensures ok <==> Applied(old(rom[..]), writes, bigEndian).Some?
    ensures ok ==> rom[..] == Applied(old(rom[..]), writes, bigEndian).value
  {
    ghost var whole := Applied(rom[..], writes, bigEndian);
    var i := 0;
    assert writes[0..] == writes;
    while i < |writes|
      invariant 0 <= i <= |writes|
      invariant whole == Applied(rom[..], writes[i..], bigEndian)
    {
      var w := writes[i];
      assert writes[i..][0] == w && writes[i..][1..] == writes[i + 1..];
      var data := WriteBytes(w, bigEndian);
      if data.None? || w.offset + |data.value| > rom.Length {
        return false;
      }
      CopyInto(rom, w.offset, data.value);
      i := i + 1;
    }
    return true;
  }

  method CopyInto(rom: array<u8>, offset: nat, data: bytes)
    requires offset + |data| <= rom.Length
    modifies rom
    ensures rom[..] == Lay(old(rom[..]), offset, data)
  {
    var k := 0;
    while k < |data|
      invariant 0 <= k <= |data|
      invariant forall i :: 0 <= i < rom.Length ==> rom[i] == if offset <= i < offset + k then data[i - offset] else old(rom[i])
    {
      rom[offset + k] := data[k];
      k := k + 1;
    }
  }

  // ---------------------------------------------------------------- the interpreter

  datatype Record = Literal(offset: nat, data: bytes) | Run(offset: nat, count: nat, fill: u8)

  function Data(r: Record): bytes {
    match r
    case Literal(_, data) => data
    case Run(_, count, fill) => seq(count, _ => fill)
  }

  const IPS_MAGIC: bytes := [0x50, 0x41, 0x54, 0x43, 0x48]
  const IPS_EOF: bytes := [0x45, 0x4F, 0x46]
  const IPS32_MAGIC: bytes := [0x49, 0x50, 0x53, 0x33, 0x32]
  const IPS32_EOF: bytes := [0x45, 0x45, 0x4F, 0x46]

  const IPS_EOF_OFFSET: nat := 0x45_4F46
  const IPS32_EOF_OFFSET: nat := 0x4545_4F46

  /** The records up to the first marker at a record start, and what follows the marker. */
  function Records(marker: bytes, b: bytes): Option<(seq<Record>, bytes)>
    requires marker != []
    decreases |b|
  {
    var n := |marker|;
    if |b| < n then None
    else if b[..n] == marker then Some(([], b[n..]))
    else if |b| < n + 2 then None
    else
      var offset, size := FromBigEndian(b[..n]), FromBigEndian(b[n..n + 2]);
      var rest := b[n + 2..];
      if size == 0 then
        if |rest| < 3 || FromBigEndian(rest[..2]) == 0 then None
        else
          var (rs, trailing) :- Records(marker, rest[3..]);
          Some(([Run(offset, FromBigEndian(rest[..2]), rest[2])] + rs, trailing))
      else if |rest| < size then None
      else
        var (rs, trailing) :- Records(marker, rest[size..]);
        Some(([Literal(offset, rest[..size])] + rs, trailing))
  }

  function LayAll(rom: bytes, rs: seq<Record>): bytes
    decreases |rs|
  {
    if rs == [] then rom else LayAll(Lay(rom, rs[0].offset, Data(rs[0])), rs[1..])
  }

  /** The patched ROM: an IPS patch may end in a three-byte length to cut to, an IPS32 patch may not. */
  function Interpret(patch: bytes, rom: bytes): Option<bytes> {
    if |patch| < 5 then None
    else if patch[..5] == IPS_MAGIC then
      var (rs, trailing) :- Records(IPS_EOF, patch[5..]);
      if trailing == [] then Some(LayAll(rom, rs))
      else if |trailing| == 3 then
        var patched := LayAll(rom, rs);
        Some(patched[..Min(|patched|, FromBigEndian(trailing))])
      else None
    else if patch[..5] == IPS32_MAGIC then
      var (rs, trailing) :- Records(IPS32_EOF, patch[5..]);
      if trailing == [] then Some(LayAll(rom, rs)) else None
    else None
  }

  // ---------------------------------------------------------------- the printers

  /** The record of a write: one on the reserved offset starts a byte earlier and repeats the ROM's byte there. */
  function IpsRecord(w: CheatWrite, rom: bytes, bigEndian: bool): Option<Record> {
    var data :- WriteBytes(w, bigEndian);
    if w.offset == IPS_EOF_OFFSET then
      if IPS_EOF_OFFSET - 1 < |rom| then Some(Literal(w.offset - 1, [rom[IPS_EOF_OFFSET - 1]] + data)) else None
    else if w.offset >= 0x100_0000 then None
    else Some(Literal(w.offset, data))
  }

  function Ips32Record(w: CheatWrite, bigEndian: bool): Option<Record> {
    if w.offset >= 0x1_0000_0000 || w.offset == IPS32_EOF_OFFSET then None
    else
      var data :- WriteBytes(w, bigEndian);
      Some(Literal(w.offset, data))
  }

  function IpsRecords(writes: seq<CheatWrite>, rom: bytes, bigEndian: bool): Option<seq<Record>> {
    if writes == [] then Some([])
    else
      var r :- IpsRecord(writes[0], rom, bigEndian);
      var rest :- IpsRecords(writes[1..], rom, bigEndian);
      Some([r] + rest)
  }

  function Ips32Records(writes: seq<CheatWrite>, bigEndian: bool): Option<seq<Record>> {
    if writes == [] then Some([])
    else
      var r :- Ips32Record(writes[0], bigEndian);
      var rest :- Ips32Records(writes[1..], bigEndian);
      Some([r] + rest)
  }

  function Printed(r: Record, width: nat): bytes
    requires r.Literal?
  {
    BigEndian(r.offset, width) + BigEndian(|r.data|, 2) + r.data
  }

  function PrintedAll(rs: seq<Record>, marker: bytes): bytes
    requires forall r :: r in rs ==> r.Literal?
  {
    if rs == [] then marker else assert rs[0] in rs; Printed(rs[0], |marker|) + PrintedAll(rs[1..], marker)
  }

  /** A literal record the interpreter cannot mistake for the end. */
  predicate Printable(r: Record, marker: bytes) {
    r.Literal? && r.offset < Limit(|marker|) && r.offset != FromBigEndian(marker) && 0 < |r.data| < 0x1_0000
  }

  ghost predicate AllPrintable(rs: seq<Record>, marker: bytes) { forall r :: r in rs ==> Printable(r, marker) }

  function Behind(r: Record, rest: Option<(seq<Record>, bytes)>): Option<(seq<Record>, bytes)> {
    match rest
    case None => None
    case Some((rs, trailing)) => Some(([r] + rs, trailing))
  }

  /** A printed record is read as itself, whatever follows it. */
  lemma {:induction false} RecordReadsBack(r: Record, marker: bytes, tail: bytes)
    requires marker != [] && Printable(r, marker)
    ensures Records(marker, Printed(r, |marker|) + tail) == Behind(r, Records(marker, tail))
  {
    var n := |marker|;
    var (at, size) := (BigEndian(r.offset, n), BigEndian(|r.data|, 2));
    BigEndianReadsBack(r.offset, n);
    assert Limit(2) == 0x1_0000 by { assert Limit(1) == 256; }
    BigEndianReadsBack(|r.data|, 2);
    Pieces(at, size, r.data, tail);
    hide BigEndian, FromBigEndian, Limit;
  }

  lemma Pieces(a: bytes, b: bytes, c: bytes, d: bytes)
    ensures var s := (a + b + c) + d;
      && |s| == |a| + |b| + |c| + |d| && s[..|a|] == a && s[|a|..|a| + |b|] == b
      && s[|a| + |b|..][..|c|] == c && s[|a| + |b|..][|c|..] == d
  {
  }

  /** The interpreter reads exactly the printed records and stops at the final marker. */
  lemma {:induction false} PrintedReadsBack(rs: seq<Record>, marker: bytes)
    requires marker != [] && AllPrintable(rs, marker)
    ensures Records(marker, PrintedAll(rs, marker)) == Some((rs, []))
    decreases |rs|
  {
    if rs != [] {
      hide Records, Printable, Printed;
      assert rs[0] in rs;
      PrintedReadsBack(rs[1..], marker);
      RecordReadsBack(rs[0], marker, PrintedAll(rs[1..], marker));
      assert rs == [rs[0]] + rs[1..];
    } else {
      assert marker[..|marker|] == marker && marker[|marker|..] == [];
    }
  }

  lemma {:induction false} IpsPrintable(writes: seq<CheatWrite>, rom: bytes, bigEndian: bool)
    requires IpsRecords(writes, rom, bigEndian).Some?
    ensures AllPrintable(IpsRecords(writes, rom, bigEndian).value, IPS_EOF)
    ensures |IpsRecords(writes, rom, bigEndian).value| == |writes|
  {
    assert FromBigEndian(IPS_EOF) == IPS_EOF_OFFSET by { MarkerValues(); }
    assert Limit(3) == 0x100_0000 by { assert Limit(1) == 256; }
    if writes != [] {
      IpsPrintable(writes[1..], rom, bigEndian);
      WriteBytesMeaning(writes[0], bigEndian);
    }
  }

  lemma {:induction false} Ips32Printable(writes: seq<CheatWrite>, bigEndian: bool)
    requires Ips32Records(writes, bigEndian).Some?
    ensures AllPrintable(Ips32Records(writes, bigEndian).value, IPS32_EOF)
    ensures |Ips32Records(writes, bigEndian).value| == |writes|
  {
    assert FromBigEndian(IPS32_EOF) == IPS32_EOF_OFFSET by { MarkerValues(); }
    assert Limit(4) == 0x1_0000_0000 by { assert Limit(2) == 0x1_0000; }
    if writes != [] {
      Ips32Printable(writes[1..], bigEndian);
      WriteBytesMeaning(writes[0], bigEndian);
    }
  }

  lemma {:induction false} MarkerValues()
    ensures FromBigEndian(IPS_EOF) == IPS_EOF_OFFSET && FromBigEndian(IPS32_EOF) == IPS32_EOF_OFFSET
  {
    assert IPS_EOF[..2] == [0x45, 0x4F] && IPS_EOF[..2][..1] == [0x45] && IPS_EOF[..2][..1][..0] == [];
    assert FromBigEndian([0x45]) == 0x45;
    assert FromBigEndian([0x45, 0x4F]) == 0x454F;
    assert IPS32_EOF[..3] == [0x45, 0x45, 0x4F] && [0x45, 0x45, 0x4F][..2] == [0x45, 0x45] && [0x45, 0x45][..1] == [0x45];
    assert FromBigEndian([0x45, 0x45]) == 0x4545;
    assert FromBigEndian([0x45, 0x45, 0x4F]) == 0x45454F;
  }

  // ---------------------------------------------------------------- the two serializers

  function Patch(magic: bytes, marker: bytes, rs: Option<seq<Record>>): Option<bytes>
    requires rs.Some? ==> forall r :: r in rs.value ==> r.Literal?
  {
    if rs.None? then None else Some(magic + PrintedAll(rs.value, marker))
  }

  function Ips(writes: seq<CheatWrite>, rom: bytes, bigEndian: bool): Option<bytes> {
    LiteralIps(writes, rom, bigEndian);
    Patch(IPS_MAGIC, IPS_EOF, IpsRecords(writes, rom, bigEndian))
  }

  function Ips32(writes: seq<CheatWrite>, bigEndian: bool): Option<bytes> {
    LiteralIps32(writes, bigEndian);
    Patch(IPS32_MAGIC, IPS32_EOF, Ips32Records(writes, bigEndian))
  }

  lemma {:induction false} LiteralIps(writes: seq<CheatWrite>, rom: bytes, bigEndian: bool)
    ensures var rs := IpsRecords(writes, rom, bigEndian); rs.Some? ==> forall r :: r in rs.value ==> r.Literal?
  {
    if writes != [] { LiteralIps(writes[1..], rom, bigEndian); }
  }

  lemma {:induction false} LiteralIps32(writes: seq<CheatWrite>, bigEndian: bool)
    ensures var rs := Ips32Records(writes, bigEndian); rs.Some? ==> forall r :: r in rs.value ==> r.Literal?
  {
    if writes != [] { LiteralIps32(writes[1..], bigEndian); }
  }

  /** IPS32 as soon as one write lies past the 16 MiB an IPS record can address. */
  predicate Wide(writes: seq<CheatWrite>) { exists w :: w in writes && w.offset > 0xFF_FFFF }

  function SerializePatch(writes: seq<CheatWrite>, rom: bytes, bigEndian: bool): Option<bytes> {
    if Wide(writes) then Ips32(writes, bigEndian) else Ips(writes, rom, bigEndian)
  }

  function Appended(out: bytes, marker: bytes, rs: Option<seq<Record>>): Option<bytes>
    requires rs.Some? ==> forall r :: r in rs.value ==> r.Literal?
  {
    if rs.None? then None else Some(out + PrintedAll(rs.value, marker))
  }

  lemma {:induction false} AppendRecord(out: bytes, marker: bytes, r: Record, rs: Option<seq<Record>>, more: Option<seq<Record>>)
    requires r.Literal? && (rs.Some? ==> forall x :: x in rs.value ==> x.Literal?)
    requires more == match rs case None => None case Some(xs) => Some([r] + xs)
    ensures more.Some? ==> forall x :: x in more.value ==> x.Literal?
    ensures Appended(out, marker, more) == Appended(out + Printed(r, |marker|), marker, rs)
  {
    if rs.Some? {
      var tail := PrintedAll(rs.value, marker);
      assert more.value[0] == r && more.value[1..] == rs.value;
      assert out + (Printed(r, |marker|) + tail) == (out + Printed(r, |marker|)) + tail;
    }
  }

  method SerializeIps(writes: seq<CheatWrite>, rom: bytes, bigEndian: bool) returns (patch: Option<bytes>)
    ensures patch == Ips(writes, rom, bigEndian)
  {
    hide PrintedAll, BigEndian, WriteBytes;
    var out := IPS_MAGIC;
    var i := 0;
    assert writes[0..] == writes;
    LiteralIps(writes, rom, bigEndian);
    while i < |writes|
      invariant 0 <= i <= |writes|
      invariant var rs := IpsRecords(writes[i..], rom, bigEndian); rs.Some? ==> forall r :: r in rs.value ==> r.Literal?
      invariant Ips(writes, rom, bigEndian) == Appended(out, IPS_EOF, IpsRecords(writes[i..], rom, bigEndian))
    {
      var w := writes[i];
      assert writes[i..][0] == w && writes[i..][1..] == writes[i + 1..];
      var bytesOfWrite := WriteBytes(w, bigEndian);
      if bytesOfWrite.None? {
        return None;
      }
      var (data, offset) := (bytesOfWrite.value, w.offset);
      if offset == IPS_EOF_OFFSET {
        if offset - 1 >= |rom| {
          return None;
        }
        offset := offset - 1;
        data := [rom[offset]] + data;
      }
      if offset >= 0x100_0000 {
        return None;
      }
      ghost var r := Literal(offset, data);
      LiteralIps(writes[i + 1..], rom, bigEndian);
      AppendRecord(out, IPS_EOF, r, IpsRecords(writes[i + 1..], rom, bigEndian), IpsRecords(writes[i..], rom, bigEndian));
      ghost var before := out;
      out := out + BigEndian(offset, 3);
      out := out + BigEndian(|data|, 2);
      out := out + data;
      assert out == before + (BigEndian(offset, 3) + BigEndian(|data|, 2) + data);
      i := i + 1;
    }
    assert PrintedAll([], IPS_EOF) == IPS_EOF by { NothingPrinted(IPS_EOF); }
    return Some(out + IPS_EOF);
  }

  lemma NothingPrinted(marker: bytes)
    ensures PrintedAll([], marker) == marker
  {
  }

  method SerializeIps32(writes: seq<CheatWrite>, bigEndian: bool) returns (patch: Option<bytes>)
    ensures patch == Ips32(writes, bigEndian)
  {
    hide PrintedAll, BigEndian, WriteBytes;
    var out := IPS32_MAGIC;
    var i := 0;
    assert writes[0..] == writes;
    LiteralIps32(writes, bigEndian);
    while i < |writes|
      invariant 0 <= i <= |writes|
      invariant var rs := Ips32Records(writes[i..], bigEndian); rs.Some? ==> forall r :: r in rs.value ==> r.Literal?
      invariant Ips32(writes, bigEndian) == Appended(out, IPS32_EOF, Ips32Records(writes[i..], bigEndian))
    {
      var w := writes[i];
      assert writes[i..][0] == w && writes[i..][1..] == writes[i + 1..];
      if w.offset >= 0x1_0000_0000 || w.offset == IPS32_EOF_OFFSET {
        return None;
      }
      var data := WriteBytes(w, bigEndian);
      if data.None? {
        return None;
      }
      ghost var r := Literal(w.offset, data.value);
      LiteralIps32(writes[i + 1..], bigEndian);
      AppendRecord(out, IPS32_EOF, r, Ips32Records(writes[i + 1..], bigEndian), Ips32Records(writes[i..], bigEndian));
      ghost var before := out;
      out := out + BigEndian(w.offset, 4);
      out := out + BigEndian(|data.value|, 2);
      out := out + data.value;
      assert out == before + (BigEndian(w.offset, 4) + BigEndian(|data.value|, 2) + data.value);
      i := i + 1;
    }
    assert PrintedAll([], IPS32_EOF) == IPS32_EOF by { NothingPrinted(IPS32_EOF); }
    return Some(out + IPS32_EOF);
  }

  // ---------------------------------------------------------------- printer against interpreter

  /** The byte in front of the reserved offset. */
  const PIVOT: nat := IPS_EOF_OFFSET - 1

  /** The byte the last write that covers the pivot puts there. */
  function LastAtPivot(writes: seq<CheatWrite>, bigEndian: bool): Option<u8> {
    if writes == [] then None
    else
      match LastAtPivot(writes[1..], bigEndian)
      case Some(x) => Some(x)
      case None =>
        var data := WriteBytes(writes[0], bigEndian);
        if data.Some? && writes[0].offset <= PIVOT < writes[0].offset + |data.value| then Some(data.value[PIVOT - writes[0].offset])
        else None
  }

  /** A write on the reserved offset after which no write covers the pivot: its record has the last word there. */
  predicate ShiftLast(writes: seq<CheatWrite>, bigEndian: bool) {
    writes != []
    && (ShiftLast(writes[1..], bigEndian) || (writes[0].offset == IPS_EOF_OFFSET && LastAtPivot(writes[1..], bigEndian).None?))
  }

  /** A shifted record puts the ROM's old byte back over another byte that a write left on the pivot. */
  predicate Clobbers(writes: seq<CheatWrite>, rom: bytes, bigEndian: bool) {
    && PIVOT < |rom| && ShiftLast(writes, bigEndian)
    && LastAtPivot(writes, bigEndian).Some? && LastAtPivot(writes, bigEndian).value != rom[PIVOT]
  }

  ghost predicate SameButPivot(a: bytes, b: bytes) {
    |a| == |b| && forall i :: 0 <= i < |a| && i != PIVOT ==> a[i] == b[i]
  }

  function OrElse(o: Option<u8>, x: u8): u8 { match o case None => x case Some(v) => v }

  lemma {:induction false} StepBytes(w: CheatWrite, a: bytes, b: bytes, rom: bytes, bigEndian: bool)
    requires SameButPivot(a, b) && |a| == |rom| && WriteBytes(w, bigEndian).Some?
    requires w.offset + |WriteBytes(w, bigEndian).value| <= |a| && IpsRecord(w, rom, bigEndian).Some?
    ensures var data := WriteBytes(w, bigEndian).value;
      var r := IpsRecord(w, rom, bigEndian).value;
      var (a', b') := (Lay(a, w.offset, data), Lay(b, r.offset, Data(r)));
      && SameButPivot(a', b') && |a'| == |rom|
      && (PIVOT < |rom| ==>
            && a'[PIVOT] == OrElse(LastAtPivot([w], bigEndian), a[PIVOT])
            && b'[PIVOT] == if w.offset == IPS_EOF_OFFSET then rom[PIVOT] else OrElse(LastAtPivot([w], bigEndian), b[PIVOT]))
  {
    var data := WriteBytes(w, bigEndian).value;
    hide WriteBytes, Lay;
    assert LastAtPivot([w][1..], bigEndian) == None;
    var r := IpsRecord(w, rom, bigEndian).value;
    if w.offset == IPS_EOF_OFFSET {
      assert Data(r) == [rom[PIVOT]] + data;
      assert LastAtPivot([w], bigEndian) == None;
    } else {
      assert r == Literal(w.offset, data);
    }
  }

  /** The two ways differ at most on the pivot, where the last shift or covering write decides. */
  lemma {:induction false} BytesDecided(writes: seq<CheatWrite>, a: bytes, b: bytes, rom: bytes, bigEndian: bool)
    requires SameButPivot(a, b) && |a| == |rom|
    requires Applied(a, writes, bigEndian).Some? && IpsRecords(writes, rom, bigEndian).Some?
    ensures var (d, p) := (Applied(a, writes, bigEndian).value, LayAll(b, IpsRecords(writes, rom, bigEndian).value));
      && SameButPivot(d, p) && |d| == |rom|
      && (PIVOT < |rom| ==>
            && d[PIVOT] == OrElse(LastAtPivot(writes, bigEndian), a[PIVOT])
            && p[PIVOT] == if ShiftLast(writes, bigEndian) then rom[PIVOT] else OrElse(LastAtPivot(writes, bigEndian), b[PIVOT]))
    decreases |writes|
  {
    if writes != [] {
      var (w, rest) := (writes[0], writes[1..]);
      StepBytes(w, a, b, rom, bigEndian);
      var r := IpsRecord(w, rom, bigEndian).value;
      var rs := IpsRecords(writes, rom, bigEndian).value;
      assert rs[0] == r && rs[1..] == IpsRecords(rest, rom, bigEndian).value;
      BytesDecided(rest, Lay(a, w.offset, WriteBytes(w, bigEndian).value), Lay(b, r.offset, Data(r)), rom, bigEndian);
      PivotOfCons(w, rest, bigEndian);
    }
  }

  lemma {:induction false} PivotOfCons(w: CheatWrite, rest: seq<CheatWrite>, bigEndian: bool)
    ensures LastAtPivot([w] + rest, bigEndian)
         == if LastAtPivot(rest, bigEndian).Some? then LastAtPivot(rest, bigEndian) else LastAtPivot([w], bigEndian)
  {
    assert ([w] + rest)[1..] == rest && [w][1..] == [];
  }

  /** An IPS patch gives the directly written ROM exactly when no shifted record clobbers the pivot. */
  lemma {:induction false} IpsAgreesIff(writes: seq<CheatWrite>, rom: bytes, bigEndian: bool)
    requires Applied(rom, writes, bigEndian).Some? && Ips(writes, rom, bigEndian).Some?
    ensures Interpret(Ips(writes, rom, bigEndian).value, rom) == Applied(rom, writes, bigEndian)
       <==> !Clobbers(writes, rom, bigEndian)
  {
    var rs := IpsRecords(writes, rom, bigEndian).value;
    IpsPrintable(writes, rom, bigEndian);
    PrintedReadsBack(rs, IPS_EOF);
    var patch := Ips(writes, rom, bigEndian).value;
    assert patch[..5] == IPS_MAGIC && patch[5..] == PrintedAll(rs, IPS_EOF);
    BytesDecided(writes, rom, rom, rom, bigEndian);
    var (d, p) := (Applied(rom, writes, bigEndian).value, LayAll(rom, rs));
    hide Applied, LayAll, IpsRecords, PrintedAll, Records, LastAtPivot, ShiftLast;
    assert d == p <==> PIVOT >= |rom| || d[PIVOT] == p[PIVOT];
  }

  lemma {:induction false} SameWrites(writes: seq<CheatWrite>, rom: bytes, bigEndian: bool)
    requires Applied(rom, writes, bigEndian).Some? && Ips32Records(writes, bigEndian).Some?
    ensures LayAll(rom, Ips32Records(writes, bigEndian).value) == Applied(rom, writes, bigEndian).value
    decreases |writes|
  {
    if writes != [] {
      var rs := Ips32Records(writes, bigEndian).value;
      assert rs[1..] == Ips32Records(writes[1..], bigEndian).value;
      SameWrites(writes[1..], Lay(rom, writes[0].offset, WriteBytes(writes[0], bigEndian).value), bigEndian);
    }
  }

  /** An IPS32 patch always gives the directly written ROM. */
  lemma {:induction false} Ips32Agrees(writes: seq<CheatWrite>, rom: bytes, bigEndian: bool)
    requires Applied(rom, writes, bigEndian).Some? && Ips32(writes, bigEndian).Some?
    ensures Interpret(Ips32(writes, bigEndian).value, rom) == Applied(rom, writes, bigEndian)
  {
    var rs := Ips32Records(writes, bigEndian).value;
    Ips32Printable(writes, bigEndian);
    PrintedReadsBack(rs, IPS32_EOF);
    var patch := Ips32(writes, bigEndian).value;
    assert patch[..5] == IPS32_MAGIC && patch[5..] == PrintedAll(rs, IPS32_EOF);
    SameWrites(writes, rom, bigEndian);
    hide Applied, LayAll, Ips32Records, PrintedAll, Records;
  }

  /** Writes that can be applied can be printed, unless an IPS32 record cannot address one of them. */
  lemma {:induction false} PrintableWrites(writes: seq<CheatWrite>, rom: bytes, bigEndian: bool)
    requires Applied(rom, writes, bigEndian).Some?
    ensures SerializePatch(writes, rom, bigEndian).Some?
       <==> (Wide(writes) ==> forall w :: w in writes ==> w.offset < 0x1_0000_0000 && w.offset != IPS32_EOF_OFFSET)
  {
    if Wide(writes) {
      Ips32Prints(writes, rom, bigEndian);
    } else {
      IpsPrints(writes, rom, rom, bigEndian);
    }
  }

  lemma {:induction false} Ips32Prints(writes: seq<CheatWrite>, rom: bytes, bigEndian: bool)
    requires Applied(rom, writes, bigEndian).Some?
    ensures Ips32Records(writes, bigEndian).Some?
       <==> forall w :: w in writes ==> w.offset < 0x1_0000_0000 && w.offset != IPS32_EOF_OFFSET
    decreases |writes|
  {
    if writes != [] {
      assert writes[0] in writes;
      Ips32Prints(writes[1..], Lay(rom, writes[0].offset, WriteBytes(writes[0], bigEndian).value), bigEndian);
    }
  }

  lemma {:induction false} IpsPrints(writes: seq<CheatWrite>, a: bytes, rom: bytes, bigEndian: bool)
    requires Applied(a, writes, bigEndian).Some? && |a| == |rom|
    requires forall w :: w in writes ==> w.offset <= 0xFF_FFFF
    ensures IpsRecords(writes, rom, bigEndian).Some?
    decreases |writes|
  {
    if writes != [] {
      assert writes[0] in writes;
      WriteBytesMeaning(writes[0], bigEndian);
      IpsPrints(writes[1..], Lay(a, writes[0].offset, WriteBytes(writes[0], bigEndian).value), rom, bigEndian);
    }
  }

  /** The printed patch against the direct writes, for every list of writes that fits the ROM. */
  lemma {:induction false} PatchAgreesIff(writes: seq<CheatWrite>, rom: bytes, bigEndian: bool)
    requires Applied(rom, writes, bigEndian).Some? && SerializePatch(writes, rom, bigEndian).Some?
    ensures Interpret(SerializePatch(writes, rom, bigEndian).value, rom) == Applied(rom, writes, bigEndian)
       <==> Wide(writes) || !Clobbers(writes, rom, bigEndian)
  {
    hide Interpret, Applied, Clobbers;
    if Wide(writes) {
      Ips32Agrees(writes, rom, bigEndian);
    } else {
      IpsAgreesIff(writes, rom, bigEndian);
    }
  }

  const PIVOT_WRITE: CheatWrite := CheatWrite(PIVOT, 1, 1)
  const RESERVED_WRITE: CheatWrite := CheatWrite(IPS_EOF_OFFSET, 2, 1)

  lemma {:induction false} OneWrite(rom: bytes, w: CheatWrite, rest: seq<CheatWrite>)
    requires w.width == 1 && w.offset < |rom|
    ensures Applied(rom, [w] + rest, false) == Applied(Lay(rom, w.offset, [w.value % 256]), rest, false)
  {
    assert ([w] + rest)[1..] == rest;
    hide Lay;
  }

  lemma {:induction false} TwoWritesApply(rom: bytes)
    requires |rom| > IPS_EOF_OFFSET
    ensures Applied(rom, [PIVOT_WRITE, RESERVED_WRITE], false).Some?
  {
    assert [PIVOT_WRITE, RESERVED_WRITE] == [PIVOT_WRITE] + [RESERVED_WRITE];
    assert [RESERVED_WRITE] == [RESERVED_WRITE] + [];
    var middle := Lay(rom, PIVOT, [1]);
    OneWrite(rom, PIVOT_WRITE, [RESERVED_WRITE]);
    OneWrite(middle, RESERVED_WRITE, []);
  }

  lemma {:induction false} TwoWritesClobber(rom: bytes)
    requires |rom| > IPS_EOF_OFFSET && rom[PIVOT] == 0
    ensures Clobbers([PIVOT_WRITE, RESERVED_WRITE], rom, false)
  {
    var writes := [PIVOT_WRITE, RESERVED_WRITE];
    assert writes[1..] == [RESERVED_WRITE] && [RESERVED_WRITE][1..] == [];
    assert WriteBytes(PIVOT_WRITE, false) == Some([1]) && WriteBytes(RESERVED_WRITE, false) == Some([2]);
    hide WriteBytes;
    assert LastAtPivot([RESERVED_WRITE], false) == None;
    assert LastAtPivot(writes, false) == Some(1);
    assert ShiftLast([RESERVED_WRITE], false);
  }

  /** Two one-byte writes, on the pivot and on the reserved offset: the patch undoes the first one. */
  lemma {:induction false} ShiftUndoesAWrite(rom: bytes)
    requires |rom| > IPS_EOF_OFFSET && rom[PIVOT] == 0
    ensures var writes := [PIVOT_WRITE, RESERVED_WRITE];
      && Applied(rom, writes, false).Some? && SerializePatch(writes, rom, false).Some?
      && Interpret(SerializePatch(writes, rom, false).value, rom) != Applied(rom, writes, false)
  {
    hide Applied, SerializePatch, Interpret, Clobbers;
    TwoWritesApply(rom);
    TwoWritesClobber(rom);
    PrintableWrites([PIVOT_WRITE, RESERVED_WRITE], rom, false);
    PatchAgreesIff([PIVOT_WRITE, RESERVED_WRITE], rom, false);
  }

  // ---------------------------------------------------------------- the patch as bytes

  lemma {:induction false} EndsWithMarker(rs: seq<Record>, marker: bytes)
    requires forall r :: r in rs ==> r.Literal?
    ensures |PrintedAll(rs, marker)| >= |marker|
    ensures PrintedAll(rs, marker)[|PrintedAll(rs, marker)| - |marker|..] == marker
  {
    if rs != [] {
      assert rs[0] in rs;
      var (head, rest) := (Printed(rs[0], |marker|), PrintedAll(rs[1..], marker));
      EndsWithMarker(rs[1..], marker);
      assert (head + rest)[|head + rest| - |marker|..] == rest[|rest| - |marker|..];
    }
  }

  /** It begins with the five characters and ends with the others. */
  predicate Framed(patch: bytes, head: string, foot: string) {
    |patch| >= |head| + |foot| && Spelled(patch, 0, head) && Spelled(patch, |patch| - |foot|, foot)
  }

  lemma {:induction false} PatchIsFramed(head: string, foot: string, magic: bytes, marker: bytes, rs: seq<Record>)
    requires Spells(magic, head) && Spells(marker, foot) && forall r :: r in rs ==> r.Literal?
    ensures Framed(magic + PrintedAll(rs, marker), head, foot)
  {
    EndsWithMarker(rs, marker);
    var body := PrintedAll(rs, marker);
    hide *;
    SpelledAfter([], magic, body, head);
    SpelledAfter(magic + body[..|body| - |marker|], marker, [], foot);
    assert [] + magic + body == magic + body;
    assert magic + body == magic + body[..|body| - |marker|] + marker + [];
  }

  lemma {:induction false} SpelledAfter(before: bytes, text: bytes, after: bytes, chars: string)
    requires Spells(text, chars)
    ensures |text| == |chars| && Spelled(before + text + after, |before|, chars)
  {
    var all := before + text + after;
    forall i | 0 <= i < |chars| ensures all[|before| + i] == chars[i] as int {
      assert all[|before| + i] == text[0 + i];
    }
  }

  lemma {:induction false} MagicsSpelled()
    ensures Spells(IPS_MAGIC, "PATCH") && Spells(IPS_EOF, "EOF") && Spells(IPS32_MAGIC, "IPS32") && Spells(IPS32_EOF, "EEOF")
  {
    assert "PATCH"[0] == 'P' && "PATCH"[1] == 'A' && "PATCH"[2] == 'T' && "PATCH"[3] == 'C' && "PATCH"[4] == 'H';
    assert "IPS32"[0] == 'I' && "IPS32"[1] == 'P' && "IPS32"[2] == 'S' && "IPS32"[3] == '3' && "IPS32"[4] == '2';
    assert "EOF"[0] == 'E' && "EOF"[1] == 'O' && "EOF"[2] == 'F';
    assert "EEOF"[0] == 'E' && "EEOF"[1] == 'E' && "EEOF"[2] == 'O' && "EEOF"[3] == 'F';
  }

  /** The patch is IPS32 when some write lies past 16 MiB, and IPS otherwise. */
  lemma {:induction false} PatchSpelled(writes: seq<CheatWrite>, rom: bytes, bigEndian: bool)
    ensures SerializePatch(writes, rom, bigEndian).Some? ==>
      var patch := SerializePatch(writes, rom, bigEndian).value;
      if exists w :: w in writes && w.offset >= 0x100_0000 then Framed(patch, "IPS32", "EEOF") else Framed(patch, "PATCH", "EOF")
  {
    MagicsSpelled();
    LiteralIps(writes, rom, bigEndian);
    LiteralIps32(writes, bigEndian);
    hide Framed, Spells, Ips32Records, IpsRecords, PrintedAll;
    var (narrow, wide) := (IpsRecords(writes, rom, bigEndian), Ips32Records(writes, bigEndian));
    if narrow.Some? { PatchIsFramed("PATCH", "EOF", IPS_MAGIC, IPS_EOF, narrow.value); }
    if wide.Some? { PatchIsFramed("IPS32", "EEOF", IPS32_MAGIC, IPS32_EOF, wide.value); }
  }

  /** A record of size zero is a run: a count and the byte to repeat. */
  lemma {:induction false} RunReadsBack(offset: nat, count: nat, fill: u8, marker: bytes, tail: bytes)
    requires marker != [] && offset < Limit(|marker|) && offset != FromBigEndian(marker) && 0 < count < 0x1_0000
    ensures Records(marker, BigEndian(offset, |marker|) + [0, 0] + (BigEndian(count, 2) + [fill]) + tail)
         == Behind(Run(offset, count, fill), Records(marker, tail))
  {
    var n := |marker|;
    BigEndianReadsBack(offset, n);
    assert Limit(2) == 0x1_0000 by { assert Limit(1) == 256; }
    BigEndianReadsBack(count, 2);
    assert FromBigEndian([0, 0]) == 0 by { assert FromBigEndian([0]) == 0; }
    var (at, rest) := (BigEndian(offset, n), BigEndian(count, 2) + [fill]);
    Pieces(at, [0, 0], rest, tail);
    assert (rest + tail)[..2] == BigEndian(count, 2) && (rest + tail)[2] == fill && (rest + tail)[3..] == tail;
    assert (at + [0, 0] + rest + tail)[n + 2..] == rest + tail;
    hide BigEndian, FromBigEndian, Limit;
  }

  /** Three bytes behind the end of an IPS patch are a length the result is cut to. */
  lemma {:induction false} CutToLength(rs: seq<Record>, rom: bytes, length: nat)
    requires (forall r :: r in rs ==> r.Literal?) && AllPrintable(rs, IPS_EOF) && length < 0x100_0000
    ensures Interpret(IPS_MAGIC + (PrintedAll(rs, IPS_EOF) + BigEndian(length, 3)), rom)
         == Some(LayAll(rom, rs)[..Min(|LayAll(rom, rs)|, length)])
  {
    assert Limit(3) == 0x100_0000 by { assert Limit(1) == 256; }
    BigEndianReadsBack(length, 3);
    PrintedThenMore(rs, IPS_EOF, BigEndian(length, 3));
    hide Limit, BigEndian, FromBigEndian, PrintedAll, Records, LayAll;
    var patch := IPS_MAGIC + (PrintedAll(rs, IPS_EOF) + BigEndian(length, 3));
    assert patch[..5] == IPS_MAGIC && patch[5..] == PrintedAll(rs, IPS_EOF) + BigEndian(length, 3);
  }

  lemma {:induction false} PrintedThenMore(rs: seq<Record>, marker: bytes, more: bytes)
    requires (forall r :: r in rs ==> r.Literal?) && marker != [] && AllPrintable(rs, marker)
    ensures Records(marker, PrintedAll(rs, marker) + more) == Some((rs, more))
    decreases |rs|
  {
    if rs != [] {
      hide Records, Printable, Printed;
      assert rs[0] in rs;
      var rest := PrintedAll(rs[1..], marker);
      PrintedThenMore(rs[1..], marker, more);
      RecordReadsBack(rs[0], marker, rest + more);
      assert Printed(rs[0], |marker|) + rest + more == Printed(rs[0], |marker|) + (rest + more);
      assert rs == [rs[0]] + rs[1..];
    } else {
      assert (marker + more)[..|marker|] == marker && (marker + more)[|marker|..] == more;
    }
  }
}
