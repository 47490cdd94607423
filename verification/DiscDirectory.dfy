/**
 Discs read by 2048-byte sector: raw sectors de-framed, the ISO 9660 root directory walked, and the platform told from
 what is found.
 */
module DiscDirectory {
  import opened Bytes

  const SECTOR: nat := 2048
  const RAW_SECTOR: nat := 2352
  const CD_SYNC: bytes := [0x00, 0xFF, 0xFF, 0xFF, 0xFF, 0xFF, 0xFF, 0xFF, 0xFF, 0xFF, 0xFF, 0x00]
  const PVD_LBA: nat := 16

  // ---------------------------------------------------------------- sectors

  /** An image with the size of its frames and where the user data begins in each. */
  datatype Disc = Disc(image: bytes, frame: nat, dataOffset: nat)

  function Start(d: Disc, lba: nat): nat { lba * d.frame + d.dataOffset }

  function Sector(d: Disc, lba: nat): bytes {
    var start := Start(d, lba);
    if start >= |d.image| then [] else d.image[start..Min(start + SECTOR, |d.image|)]
  }

  /** `count` sectors from `lba` on, or what there is of them. */
  function ReadSectors(d: Disc, lba: nat, count: nat): bytes
    decreases count
  {
    if count == 0 || Start(d, lba) >= |d.image| then [] else Sector(d, lba) + ReadSectors(d, lba + 1, count - 1)
  }

  method CopySectors(d: Disc, lba: nat, count: nat) returns (out: bytes)
    ensures out == ReadSectors(d, lba, count)
  {
    hide Start, ReadSectors;
    out := [];
    var index := 0;
    while index < count
      invariant 0 <= index <= count
      invariant ReadSectors(d, lba, count) == out + ReadSectors(d, lba + index, count - index)
    {
      NextSectors(d, lba + index, count - index);
      var start := Start(d, lba + index);
      if start >= |d.image| {
        break;
      }
      var end := Min(start + SECTOR, |d.image|);
      out := out + d.image[start..end];
      index := index + 1;
    }
    NextSectors(d, lba + index, count - index);
  }

  lemma {:induction false} NextSectors(d: Disc, lba: nat, count: nat)
    ensures ReadSectors(d, lba, count)
         == if count == 0 || Start(d, lba) >= |d.image| then [] else Sector(d, lba) + ReadSectors(d, lba + 1, count - 1)
  {
    hide Start, Sector;
  }

  /** Raw framing is recognised by the sync pattern, and its data offset by the mode byte. */
  function DiscOf(prefix: bytes): Disc {
    if |prefix| >= 12 && prefix[..12] == CD_SYNC then
      Disc(prefix, RAW_SECTOR, if |prefix| > 15 && prefix[15] == 2 then 24 else 16)
    else Disc(prefix, SECTOR, 0)
  }

  /** An image is raw exactly when it begins with a zero, ten bytes 0xFF and a zero; mode 2 has 8 bytes more before its data. */
  lemma {:induction false} FramingMeans(prefix: bytes)
    ensures var d := DiscOf(prefix);
      && d.image == prefix
      && (d.frame, d.dataOffset) in {(2352, 16), (2352, 24), (2048, 0)}
      && (d.frame == 2352
          <==> |prefix| >= 12 && prefix[0] == 0 && prefix[11] == 0 && forall i :: 1 <= i <= 10 ==> prefix[i] == 0xFF)
      && (d.dataOffset == 24 <==> d.frame == 2352 && |prefix| >= 16 && prefix[15] == 2)
  {
    if |prefix| >= 12 {
      var head := prefix[..12];
      assert forall i :: 0 <= i < 12 ==> head[i] == prefix[i];
      if prefix[0] == 0 && prefix[11] == 0 && forall i :: 1 <= i <= 10 ==> prefix[i] == 0xFF {
        assert head == CD_SYNC;
      } else if head == CD_SYNC {
        assert CD_SYNC[0] == 0 && CD_SYNC[11] == 0 && forall i :: 1 <= i <= 10 ==> CD_SYNC[i] == 0xFF;
      }
    }
  }

  /** How much user data `len` raw bytes hold: that of the whole sectors, and what there is of a cut one. */
  function UserBytes(len: nat, offset: nat): nat {
    var last := len % RAW_SECTOR;
    len / RAW_SECTOR * SECTOR + (if last <= offset then 0 else Min(last - offset, SECTOR))
  }

  /** The user data of `raw`, at `offset` in each of its 2352-byte sectors, are `cooked`; the last sector may be cut. */
  ghost predicate Framed(raw: bytes, cooked: bytes, offset: nat) {
    && offset + SECTOR <= RAW_SECTOR && |cooked| == UserBytes(|raw|, offset)
    && forall k: nat, i: nat :: i < SECTOR && k * SECTOR + i < |cooked| ==> SameByte(raw, cooked, offset, k, i)
  }

  predicate SameByte(raw: bytes, cooked: bytes, offset: nat, k: nat, i: nat) {
    && k * RAW_SECTOR + offset + i < |raw| && k * SECTOR + i < |cooked|
    && raw[k * RAW_SECTOR + offset + i] == cooked[k * SECTOR + i]
  }

  /** Where a sector starts, and how much there is of it, agree. */
  lemma {:induction false} SectorBounds(len: nat, offset: nat, k: nat)
    requires offset + SECTOR <= RAW_SECTOR
    ensures k * RAW_SECTOR + offset >= len <==> k * SECTOR >= UserBytes(len, offset)
    ensures k * RAW_SECTOR + offset < len ==>
      Min(k * RAW_SECTOR + offset + SECTOR, len) - (k * RAW_SECTOR + offset)
      == Min(k * SECTOR + SECTOR, UserBytes(len, offset)) - k * SECTOR
  {
    var n := len / RAW_SECTOR;
    assert len == n * RAW_SECTOR + len % RAW_SECTOR;
  }

  lemma {:induction false} OneSector(raw: bytes, cooked: bytes, offset: nat, k: nat)
    requires Framed(raw, cooked, offset)
    ensures Start(Disc(raw, RAW_SECTOR, offset), k) >= |raw| <==> Start(Disc(cooked, SECTOR, 0), k) >= |cooked|
    ensures Sector(Disc(raw, RAW_SECTOR, offset), k) == Sector(Disc(cooked, SECTOR, 0), k)
  {
    SectorBounds(|raw|, offset, k);
    var (a, b) := (k * RAW_SECTOR + offset, k * SECTOR);
    if a < |raw| {
      var (x, y) := (raw[a..Min(a + SECTOR, |raw|)], cooked[b..Min(b + SECTOR, |cooked|)]);
      hide UserBytes;
      forall i: nat | i < |x| ensures x[i] == y[i] { assert SameByte(raw, cooked, offset, k, i); }
    }
  }

  /** Raw sectors read as their cooked sectors do, wherever and however many are asked for. */
  lemma {:induction false} RawReadsAsCooked(raw: bytes, cooked: bytes, offset: nat, lba: nat, count: nat)
    requires Framed(raw, cooked, offset)
    ensures ReadSectors(Disc(raw, RAW_SECTOR, offset), lba, count) == ReadSectors(Disc(cooked, SECTOR, 0), lba, count)
    decreases count
  {
    if count > 0 {
      hide Start, Sector, Framed;
      OneSector(raw, cooked, offset, lba);
      RawReadsAsCooked(raw, cooked, offset, lba + 1, count - 1);
    }
  }

  // ---------------------------------------------------------------- directory records

  datatype DirEntry = DirEntry(name: bytes, lba: u32, len: u32)

  function Le32(b: bytes, at: nat): u32
    requires at + 4 <= |b|
  {
    b[at] as int + 0x100 * b[at + 1] as int + 0x1_0000 * b[at + 2] as int + 0x100_0000 * b[at + 3] as int
  }

  /** The record at the front of `rest`, if its name lies inside. */
  function EntryAt(rest: bytes): seq<DirEntry>
    requires |rest| >= 33
  {
    var nameLen: nat := rest[32];
    if 33 + nameLen <= |rest| then [DirEntry(rest[33..33 + nameLen], Le32(rest, 2), Le32(rest, 10))] else []
  }

  /** How far into its sector a position is. */
  function Phase(pos: nat): (p: nat)
    ensures p < SECTOR
  {
    pos % SECTOR
  }

  /**
   The records of what is left of an extent, `phase` bytes into a sector. A zero length skips to the next sector; a
   record that runs past the end ends the walk.
   */
  function Walk(rest: bytes, phase: nat): seq<DirEntry>
    requires phase < SECTOR
    decreases |rest|
  {
    if |rest| < 33 then []
    else
      var size: nat := rest[0];
      if size == 0 then (if SECTOR - phase >= |rest| then [] else Walk(rest[SECTOR - phase..], 0))
      else if size > |rest| then []
      else EntryAt(rest) + Walk(rest[size..], Phase(phase + size))
  }

  lemma {:induction false} Phases(pos: nat, size: nat)
    ensures (pos / SECTOR + 1) * SECTOR == pos + (SECTOR - Phase(pos))
    ensures Phase(pos + (SECTOR - Phase(pos))) == 0
    ensures Phase(pos + size) == Phase(Phase(pos) + size)
    ensures pos < SECTOR ==> Phase(pos) == pos
    ensures Phase(SECTOR) == 0
  {
    assert pos == (pos / SECTOR) * SECTOR + pos % SECTOR;
  }

  lemma SmallPhase(pos: nat)
    requires pos <= SECTOR
    ensures Phase(pos) == if pos == SECTOR then 0 else pos
  {
  }

  /** The start of the next sector. */
  function NextSector(pos: nat): (next: nat)
    ensures next == pos + (SECTOR - Phase(pos))
  {
    Phases(pos, 0);
    (pos / SECTOR + 1) * SECTOR
  }

  lemma {:induction false} WalkEnds(rest: bytes, phase: nat)
    requires phase < SECTOR && (|rest| < 33 || rest[0] > |rest|)
    ensures Walk(rest, phase) == []
  {
    hide Phase, EntryAt;
  }

  lemma {:induction false} WalkSkips(rest: bytes, phase: nat)
    requires phase < SECTOR && |rest| >= 33 && rest[0] == 0
    ensures Walk(rest, phase) == if SECTOR - phase >= |rest| then [] else Walk(rest[SECTOR - phase..], 0)
  {
    hide Phase, EntryAt;
  }

  lemma {:induction false} WalkTakes(rest: bytes, phase: nat)
    requires phase < SECTOR && |rest| >= 33 && 0 < rest[0] <= |rest|
    ensures Walk(rest, phase) == EntryAt(rest) + Walk(rest[rest[0]..], Phase(phase + rest[0]))
  {
    hide Phase, EntryAt;
  }

  lemma {:induction false} WalkSteps(buffer: bytes, pos: nat)
    requires pos <= |buffer|
    ensures pos + 33 > |buffer| ==> Walk(buffer[pos..], Phase(pos)) == []
    ensures pos + 33 <= |buffer| ==>
      var size: nat := buffer[pos];
      var next := pos + (SECTOR - Phase(pos));
      && (size == 0 && next >= |buffer| ==> Walk(buffer[pos..], Phase(pos)) == [])
      && (size == 0 && next < |buffer| ==> Walk(buffer[pos..], Phase(pos)) == Walk(buffer[next..], Phase(next)))
      && (size > 0 && pos + size > |buffer| ==> Walk(buffer[pos..], Phase(pos)) == [])
      && (size > 0 && pos + size <= |buffer| ==>
            Walk(buffer[pos..], Phase(pos)) == EntryAt(buffer[pos..]) + Walk(buffer[pos + size..], Phase(pos + size)))
  {
    hide Phase, EntryAt, Walk;
    var rest := buffer[pos..];
    if |rest| < 33 || rest[0] > |rest| {
      WalkEnds(rest, Phase(pos));
    } else if rest[0] == 0 {
      var skip := SECTOR - Phase(pos);
      Phases(pos, 0);
      WalkSkips(rest, Phase(pos));
      if skip < |rest| { assert rest[skip..] == buffer[pos + skip..]; }
    } else {
      var size: nat := rest[0];
      Phases(pos, size);
      WalkTakes(rest, Phase(pos));
      assert rest[size..] == buffer[pos + size..];
    }
  }

  /** The position loop over the extent ends on every buffer and collects what the walk does. */
  method ReadDirectory(buffer: bytes) returns (entries: seq<DirEntry>)
    ensures entries == Walk(buffer, 0)
  {
    hide Walk, Le32, Phase, NextSector, EntryAt;
    entries := [];
    var pos := 0;
    SmallPhase(0);
    assert buffer[0..] == buffer;
    while pos + 33 <= |buffer|
      invariant 0 <= pos <= |buffer|
      invariant Walk(buffer, 0) == entries + Walk(buffer[pos..], Phase(pos))
      decreases |buffer| - pos
    {
      WalkSteps(buffer, pos);
      var size: nat := buffer[pos];
      if size == 0 {
        var next := NextSector(pos);
        if next <= pos || next >= |buffer| {
          return;
        }
        pos := next;
        continue;
      }
      if pos + size > |buffer| {
        return;
      }
      var nameLen: nat := buffer[pos + 32];
      EntryInBuffer(buffer, pos);
      if pos + 33 + nameLen <= |buffer| {
        entries := entries + [DirEntry(buffer[pos + 33..pos + 33 + nameLen], Le32(buffer, pos + 2), Le32(buffer, pos + 10))];
      }
      pos := pos + size;
    }
    WalkSteps(buffer, pos);
  }

  lemma {:induction false} EntryInBuffer(buffer: bytes, pos: nat)
    requires pos + 33 <= |buffer|
    ensures var nameLen: nat := buffer[pos + 32];
      EntryAt(buffer[pos..])
      == if pos + 33 + nameLen > |buffer| then []
         else [DirEntry(buffer[pos + 33..pos + 33 + nameLen], Le32(buffer, pos + 2), Le32(buffer, pos + 10))]
  {
    var rest := buffer[pos..];
    var nameLen: nat := buffer[pos + 32];
    assert rest[32] == nameLen && Le32(rest, 2) == Le32(buffer, pos + 2) && Le32(rest, 10) == Le32(buffer, pos + 10);
    if pos + 33 + nameLen <= |buffer| { assert rest[33..33 + nameLen] == buffer[pos + 33..pos + 33 + nameLen]; }
  }

  // ---------------------------------------------------------------- extents as the standard lays them out

  /**
   A directory record of section 9.1 of ECMA-119: the fields the walker reads, and the bytes between and after them
   that it does not.
   */
  datatype DirRecord = DirRecord(attributes: u8, entry: DirEntry, middle: bytes, tail: bytes)

  function RecordSize(r: DirRecord): nat { 33 + |r.entry.name| + |r.tail| }

  predicate FitsRecord(r: DirRecord) { |r.middle| == 14 && RecordSize(r) <= 255 }

  function LittleEndian32(n: u32): (r: bytes)
    ensures |r| == 4
  {
    [n % 0x100, n / 0x100 % 0x100, n / 0x1_0000 % 0x100, n / 0x100_0000]
  }

  function BigEndian32(n: u32): (r: bytes)
    ensures |r| == 4
  {
    [n / 0x100_0000, n / 0x1_0000 % 0x100, n / 0x100 % 0x100, n % 0x100]
  }

  /** Both numbers are recorded in both byte orders, section 7.3.3 of ECMA-119. */
  function Recorded(r: DirRecord): (b: bytes)
    requires FitsRecord(r)
    ensures |b| == RecordSize(r)
  {
    [RecordSize(r), r.attributes]
    + LittleEndian32(r.entry.lba) + BigEndian32(r.entry.lba) + LittleEndian32(r.entry.len) + BigEndian32(r.entry.len)
    + r.middle + [|r.entry.name|] + r.entry.name + r.tail
  }

  lemma {:induction false} LittleEndianReads(n: u32)
    ensures Le32(LittleEndian32(n), 0) == n
  {
    assert n / 0x100 / 0x100 == n / 0x1_0000 && n / 0x1_0000 / 0x100 == n / 0x100_0000;
  }

  lemma {:induction false} RecordReads(r: DirRecord, tail: bytes)
    requires FitsRecord(r)
    ensures var b := Recorded(r) + tail;
      && |b| >= 33 && b[0] == RecordSize(r) && EntryAt(b) == [r.entry] && b[RecordSize(r)..] == tail
  {
    var b := Recorded(r) + tail;
    var (lba, len) := (LittleEndian32(r.entry.lba), LittleEndian32(r.entry.len));
    LittleEndianReads(r.entry.lba);
    LittleEndianReads(r.entry.len);
    assert b[2..6] == lba && b[10..14] == len;
    assert forall i :: 0 <= i < 4 ==> b[2 + i] == b[2..6][i] && b[10 + i] == b[10..14][i];
    assert b[32] == |r.entry.name|;
    assert b[33..33 + |r.entry.name|] == r.entry.name;
  }

  function RecordedAll(rs: seq<DirRecord>): bytes
    requires forall r :: r in rs ==> FitsRecord(r)
  {
    if rs == [] then [] else assert rs[0] in rs; Recorded(rs[0]) + RecordedAll(rs[1..])
  }

  function Zeros(n: nat): (z: bytes)
    ensures |z| == n && forall i :: 0 <= i < n ==> z[i] == 0
  {
    seq(n, _ => 0)
  }

  /** The records of one sector: none crosses into the next, and the unused rest is zero (section 6.8.1.1). */
  predicate FitsSector(rs: seq<DirRecord>) { (forall r :: r in rs ==> FitsRecord(r)) && |RecordedAll(rs)| <= SECTOR }

  function Extent(sectors: seq<seq<DirRecord>>): (b: bytes)
    requires forall s :: s in sectors ==> FitsSector(s)
    ensures |b| == |sectors| * SECTOR
  {
    if sectors == [] then []
    else
      assert sectors[0] in sectors && FitsSector(sectors[0]);
      (RecordedAll(sectors[0]) + Zeros(SECTOR - |RecordedAll(sectors[0])|)) + Extent(sectors[1..])
  }

  function Entries(rs: seq<DirRecord>): seq<DirEntry> { if rs == [] then [] else [rs[0].entry] + Entries(rs[1..]) }

  function AllEntries(sectors: seq<seq<DirRecord>>): seq<DirEntry> {
    if sectors == [] then [] else Entries(sectors[0]) + AllEntries(sectors[1..])
  }

  /** What follows a sector is nothing or at least one more sector. */
  predicate WholeTail(tail: bytes) { tail == [] || |tail| >= SECTOR }

  lemma {:induction false} WalkPadding(zeros: nat, tail: bytes, phase: nat)
    requires phase + zeros == SECTOR && WholeTail(tail)
    ensures Walk(Zeros(zeros) + tail, Phase(phase)) == Walk(tail, 0)
  {
    SmallPhase(phase);
    hide Phase, EntryAt, Walk, Zeros;
    var z := Zeros(zeros);
    if zeros == 0 {
      assert z + tail == tail;
    } else if |z + tail| < 33 {
      WalkEnds(z + tail, phase);
      WalkEnds(tail, 0);
    } else {
      assert (z + tail)[0] == z[0] == 0;
      WalkSkips(z + tail, phase);
      if tail == [] {
        WalkEnds(tail, 0);
      } else {
        Rest(z, tail);
      }
    }
  }

  lemma Rest(a: bytes, b: bytes)
    ensures (a + b)[|a|..] == b
  {
  }

  lemma {:induction false} WalkTakesEntry(b: bytes, phase: nat, size: nat, entry: DirEntry, rest: bytes)
    requires phase < SECTOR && |b| >= 33 && 0 < b[0] as nat == size <= |b|
    requires EntryAt(b) == [entry] && b[size..] == rest
    ensures Walk(b, phase) == [entry] + Walk(rest, Phase(phase + size))
  {
    hide EntryAt, Phase, Walk;
    WalkTakes(b, phase);
  }

  lemma {:induction false} WalkRecord(r: DirRecord, rest: bytes, phase: nat)
    requires FitsRecord(r) && phase + RecordSize(r) <= SECTOR
    ensures Walk(Recorded(r) + rest, Phase(phase)) == [r.entry] + Walk(rest, Phase(phase + RecordSize(r)))
  {
    SmallPhase(phase);
    RecordReads(r, rest);
    assert 0 < RecordSize(r) <= |Recorded(r) + rest|;
    hide Recorded, EntryAt, Phase, RecordSize, Walk, FitsRecord;
    WalkTakesEntry(Recorded(r) + rest, phase, RecordSize(r), r.entry, rest);
  }

  /** From inside a sector: the records left in it, its zero rest, then the next sectors. */
  lemma {:induction false} WalkSector(rs: seq<DirRecord>, zeros: nat, tail: bytes, phase: nat)
    requires forall r :: r in rs ==> FitsRecord(r)
    requires phase + |RecordedAll(rs)| + zeros == SECTOR && WholeTail(tail)
    ensures Walk(RecordedAll(rs) + Zeros(zeros) + tail, Phase(phase)) == Entries(rs) + Walk(tail, 0)
    decreases |rs|
  {
    hide Walk, Recorded, Zeros, FitsRecord, Phase;
    var z := Zeros(zeros);
    if rs == [] {
      WalkPadding(zeros, tail, phase);
      assert [] + z + tail == z + tail && [] + Walk(tail, 0) == Walk(tail, 0);
    } else {
      var r := rs[0];
      assert r in rs;
      var more := RecordedAll(rs[1..]);
      assert Recorded(r) + more + z + tail == Recorded(r) + (more + z + tail);
      WalkRecord(r, more + z + tail, phase);
      WalkSector(rs[1..], zeros, tail, phase + RecordSize(r));
      assert [r.entry] + (Entries(rs[1..]) + Walk(tail, 0)) == ([r.entry] + Entries(rs[1..])) + Walk(tail, 0);
    }
  }

  /** The walk of an extent laid out by the standard returns exactly its entries, in order. */
  lemma {:induction false} ExtentReadsBack(sectors: seq<seq<DirRecord>>)
    requires forall s :: s in sectors ==> FitsSector(s)
    ensures Walk(Extent(sectors), 0) == AllEntries(sectors)
  {
    if sectors != [] {
      FirstSectorReads(sectors);
      ExtentReadsBack(sectors[1..]);
      hide Walk, Extent, Entries, FitsSector;
    }
  }

  lemma {:induction false} FirstSectorReads(sectors: seq<seq<DirRecord>>)
    requires sectors != [] && forall s :: s in sectors ==> FitsSector(s)
    ensures Walk(Extent(sectors), 0) == Entries(sectors[0]) + Walk(Extent(sectors[1..]), 0)
  {
    var s := sectors[0];
    assert s in sectors && FitsSector(s);
    var tail := Extent(sectors[1..]);
    assert Extent(sectors) == RecordedAll(s) + Zeros(SECTOR - |RecordedAll(s)|) + tail;
    SmallPhase(0);
    hide Walk, Extent, RecordedAll, Zeros, FitsRecord, Entries, Phase, FitsSector;
    WalkSector(s, SECTOR - |RecordedAll(s)|, tail, 0);
  }

  // ---------------------------------------------------------------- platform detection

  datatype Platform = Saturn | Dreamcast | SegaCd | Wii | GameCube | N3ds | Psp | Ps2 | Ps1

  function Text(s: string): (r: bytes)
    ensures |r| == |s|
  {
    seq(|s|, i requires 0 <= i < |s| => s[i] as int % 0x80)
  }

  predicate StartsWith(b: bytes, s: bytes) { |s| <= |b| && b[..|s|] == s }

  predicate HasAt(b: bytes, at: nat, s: bytes) { at + |s| <= |b| && b[at..at + |s|] == s }

  predicate Contains(b: bytes, s: bytes) { exists at: nat :: at <= |b| && HasAt(b, at, s) }

  function FromSector0(s: bytes): Option<Platform> {
    if |s| >= 16 && StartsWith(s[..16], Text("SEGA SEGASATURN")) then Some(Saturn)
    else if |s| >= 16 && StartsWith(s[..16], Text("SEGA SEGAKATANA")) then Some(Dreamcast)
    else if |s| >= 16 && (StartsWith(s[..16], Text("SEGADISCSYSTEM")) || StartsWith(s[..16], Text("SEGABOOTDISC"))) then
      Some(SegaCd)
    else if HasAt(s, 0x18, [0x5D, 0x1C, 0x9E, 0xA3]) then Some(Wii)
    else if HasAt(s, 0x1C, [0xC2, 0x33, 0x9F, 0x3D]) then Some(GameCube)
    else if HasAt(s, 0x100, Text("NCSD")) then Some(N3ds)
    else None
  }

  function Upper(b: bytes): (r: bytes)
    ensures |r| == |b|
  {
    seq(|b|, i requires 0 <= i < |b| => if 0x61 <= b[i] <= 0x7A then b[i] - 0x20 else b[i])
  }

  datatype RootScan = PspFound | Config(lba: nat, len: nat) | Nothing

  /** The first PSP entry decides; otherwise the last SYSTEM.CNF is looked into. */
  function ScanRoot(entries: seq<DirEntry>, found: RootScan): RootScan
    decreases |entries|
  {
    if entries == [] then found
    else
      var e := entries[0];
      var name := Upper(e.name);
      if StartsWith(name, Text("UMD_DATA.BIN")) || name == Text("PSP_GAME") then PspFound
      else ScanRoot(entries[1..], if StartsWith(name, Text("SYSTEM.CNF")) then Config(e.lba, e.len) else found)
  }

  function SectorsFor(len: nat): nat { Max((len + SECTOR - 1) / SECTOR, 1) }

  function FromIso9660(d: Disc): Option<Platform> {
    var pvd := ReadSectors(d, PVD_LBA, 1);
    if |pvd| < 190 || pvd[0] != 1 || pvd[1..6] != Text("CD001") then None
    else
      var root := ReadSectors(d, Le32(pvd, 158), SectorsFor(Le32(pvd, 166)));
      match ScanRoot(Walk(root, 0), Nothing)
      case PspFound => Some(Psp)
      case Nothing => None
      case Config(lba, len) =>
        var data := ReadSectors(d, lba, SectorsFor(len));
        var text := data[..Min(len, |data|)];
        if Contains(text, Text("BOOT2")) then Some(Ps2) else if Contains(text, Text("BOOT")) then Some(Ps1) else None
  }

  function DetectDiscPlatform(d: Disc): Option<Platform> {
    match FromSector0(ReadSectors(d, 0, 1))
    case Some(p) => Some(p)
    case None => FromIso9660(d)
  }

  /** A raw image is recognised as the platform its cooked image is. */
  lemma {:induction false} RawDetectsAsCooked(raw: bytes, cooked: bytes, offset: nat)
    requires Framed(raw, cooked, offset)
    ensures DetectDiscPlatform(Disc(raw, RAW_SECTOR, offset)) == DetectDiscPlatform(Disc(cooked, SECTOR, 0))
  {
    hide ReadSectors, FromSector0, Walk, ScanRoot, Contains, Text, Framed, Le32, SectorsFor;
    var (r, c) := (Disc(raw, RAW_SECTOR, offset), Disc(cooked, SECTOR, 0));
    RawReadsAsCooked(raw, cooked, offset, 0, 1);
    RawReadsAsCooked(raw, cooked, offset, PVD_LBA, 1);
    var pvd := ReadSectors(c, PVD_LBA, 1);
    if |pvd| >= 190 {
      RawReadsAsCooked(raw, cooked, offset, Le32(pvd, 158), SectorsFor(Le32(pvd, 166)));
      var root := ReadSectors(c, Le32(pvd, 158), SectorsFor(Le32(pvd, 166)));
      match ScanRoot(Walk(root, 0), Nothing)
      case Config(lba, len) => RawReadsAsCooked(raw, cooked, offset, lba, SectorsFor(len));
      case _ =>
    }
  }

  // ---------------------------------------------------------------- the prefix detection works on

  const DETECT_PREFIX: nat := 0x20_0000

  function Prefix(image: bytes): bytes { image[..Min(|image|, DETECT_PREFIX)] }

  function ModeOffset(raw: bytes): nat
    requires |raw| > 15
  {
    if raw[15] == 2 then 24 else 16
  }

  lemma {:induction false} UserBytesGrow(a: nat, b: nat, offset: nat)
    requires a <= b && offset + SECTOR <= RAW_SECTOR
    ensures UserBytes(a, offset) <= UserBytes(b, offset)
  {
    assert a == a / RAW_SECTOR * RAW_SECTOR + a % RAW_SECTOR && b == b / RAW_SECTOR * RAW_SECTOR + b % RAW_SECTOR;
  }

  /** Cutting a raw image cuts its cooked one. */
  lemma {:induction false} FramedCut(raw: bytes, cooked: bytes, offset: nat, len: nat)
    requires Framed(raw, cooked, offset) && len <= |raw|
    ensures UserBytes(len, offset) <= |cooked| && Framed(raw[..len], cooked[..UserBytes(len, offset)], offset)
  {
    UserBytesGrow(len, |raw|, offset);
    var (r, c) := (raw[..len], cooked[..UserBytes(len, offset)]);
    forall k: nat, i: nat | i < SECTOR && k * SECTOR + i < |c| ensures SameByte(r, c, offset, k, i) {
      SectorBounds(len, offset, k);
      assert SameByte(raw, cooked, offset, k, i);
    }
  }

  /**
   Sync pattern and mode byte choose the framing. The prefix of a raw image is recognised as its cooked image is, cut to
   the user data the prefix holds: of a long image 891 sectors and the front of one more, where the prefix of the
   cooked image has 1024.
   */
  lemma {:induction false} DetectionIgnoresFraming(raw: bytes, cooked: bytes)
    requires |raw| > 15 && raw[..12] == CD_SYNC && Framed(raw, cooked, ModeOffset(raw))
    ensures var held := UserBytes(Min(|raw|, DETECT_PREFIX), ModeOffset(raw));
      && held <= |cooked| && held <= DETECT_PREFIX
      && DetectDiscPlatform(DiscOf(Prefix(raw))) == DetectDiscPlatform(Disc(cooked[..held], SECTOR, 0))
      && (|raw| <= DETECT_PREFIX ==> cooked[..held] == Prefix(cooked))
      && (|raw| >= DETECT_PREFIX ==> held == 891 * SECTOR + 1520 - ModeOffset(raw))
  {
    hide DetectDiscPlatform, Framed;
    var len := Min(|raw|, DETECT_PREFIX);
    FramedCut(raw, cooked, ModeOffset(raw), len);
    assert Prefix(raw) == raw[..len] && raw[..len][..12] == raw[..12] && raw[..len][15] == raw[15];
    RawDetectsAsCooked(raw[..len], cooked[..UserBytes(len, ModeOffset(raw))], ModeOffset(raw));
    UserBytesBound(len, ModeOffset(raw));
    FramedLength(raw, cooked, ModeOffset(raw));
  }

  lemma FramedLength(raw: bytes, cooked: bytes, offset: nat)
    ensures Framed(raw, cooked, offset) ==> |cooked| == UserBytes(|raw|, offset)
  {
  }

  lemma UserBytesBound(len: nat, offset: nat)
    ensures UserBytes(len, offset) <= len
  {
  }

  /** So a raw image of up to 891 sectors, and its cooked image, are recognised as the same platform. */
  lemma {:induction false} SmallImagesDetectAlike(raw: bytes, cooked: bytes, n: nat)
    requires 0 < n <= 891 && |raw| == n * RAW_SECTOR && raw[..12] == CD_SYNC && Framed(raw, cooked, ModeOffset(raw))
    requires cooked[..12] != CD_SYNC
    ensures |cooked| == n * SECTOR
    ensures DetectDiscPlatform(DiscOf(Prefix(raw))) == DetectDiscPlatform(DiscOf(Prefix(cooked)))
  {
    hide DetectDiscPlatform;
    DetectionIgnoresFraming(raw, cooked);
    assert |raw| / RAW_SECTOR == n && |raw| % RAW_SECTOR == 0;
    assert Prefix(cooked) == cooked;
  }

  /** Keeps the first bytes of a stream and counts all of them. */
  class IdentityPrefix {
    var buf: bytes
    var consumed: u64
    ghost var seen: bytes

    ghost predicate Valid()
      reads this
    {
      buf == seen[..Min(|seen|, DETECT_PREFIX)] && consumed as int == if |seen| > U64_MAX then U64_MAX else |seen|
    }

    constructor ()
      ensures Valid() && seen == []
    {
      buf, consumed, seen := [], 0, [];
    }

    method Push(data: bytes)
      requires Valid()
      modifies this
      ensures Valid() && seen == old(seen) + data
    {
      var total: nat := consumed + |data|;
      consumed := if total > U64_MAX then U64_MAX else total;
      seen := seen + data;
      if |buf| < DETECT_PREFIX {
        var take := Min(DETECT_PREFIX - |buf|, |data|);
        buf := buf + data[..take];
      }
    }
  }
}
