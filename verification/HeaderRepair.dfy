/**
 The internal-header checksum repairs: which profile applies to a header, and the patches the
 repair comes to once the whole file has been seen.
 */
module HeaderRepair {
  import opened Bytes
  import opened Patches
  import opened RomHeaders
  import Accumulators
  import N64
  import N64Sums

  const FIX_HEADER_PREFIX_CAP: nat := 64 * 1024 * 1024
  const N64_CRC_START: nat := 0x1000
  const N64_CRC_END: nat := 0x101000

  datatype GbaRepair = GbaRepair(corrected: u8)
  datatype SegaRepair = SegaRepair(oldChecksum: u16, end: nat)
  datatype N64Repair = N64Repair(order: N64.ByteOrder, oldCrc1: u32, oldCrc2: u32)

  /** The repairs one header calls for. */
  datatype Repairs = Repairs(gba: Option<GbaRepair>, sega: Option<SegaRepair>, n64: Option<N64Repair>)

  datatype Profile = GbaProfile | SegaGenesisProfile | N64Profile

  // ---------------------------------------------------------------- planning

  function SumBytes(data: bytes): nat {
    if data == [] then 0 else data[0] + SumBytes(data[1..])
  }

  /** The complement checksum of the GBA header fields, `0 - sum - 0x19` reduced to a byte. */
  function GbaComplement(header: bytes): u8
    requires |header| >= 0xBE
  {
    (0 - SumBytes(header[0xA0..0xBD]) - 0x19) % 0x100
  }

  function PlanGba(header: bytes, totalLen: nat): Option<GbaRepair> {
    if totalLen < 0xBE || |header| < 0xBE || !HasGbaBootSignature(header) then None
    else if header[0xBD] == GbaComplement(header) then None
    else Some(GbaRepair(GbaComplement(header)))
  }

  function PlanSega(header: bytes, totalLen: nat): Option<SegaRepair> {
    if totalLen <= 0x18F || totalLen < 0x200 || |header| < 0x190 then None
    else if header[0x100..0x104] != SEGA_MAGIC && header[0x101..0x105] != SEGA_MAGIC then None
    else Some(SegaRepair(header[0x18E] as int * 256 + header[0x18F], totalLen))
  }

  /** The reflected CRC-32 register after `data`; the boot-code check compares it with known values. */
  function Crc32Register(crc: bv32, data: bytes): bv32
    decreases |data|
  {
    if data == [] then crc else Crc32Register(Crc32Bits(crc ^ (data[0] as bv32), 8), data[1..])
  }

  function Crc32Bits(crc: bv32, n: nat): bv32
    decreases n
  {
    if n == 0 then crc
    else Crc32Bits(if crc & 1 == 1 then (crc >> 1) ^ 0xEDB8_8320 else crc >> 1, n - 1)
  }

  function Crc32(data: bytes): bv32 { Crc32Register(0xFFFF_FFFF, data) ^ 0xFFFF_FFFF }

  datatype Cic = Cic6101 | Cic6102 | Cic6103 | Cic6105 | Cic6106

  function CicFromBootcodeCrc(crc: bv32): Option<Cic> {
    if crc == 0x6170_A4A1 then Some(Cic6101)
    else if crc == 0x90BB_6CB5 then Some(Cic6102)
    else if crc == 0x0B05_0EE0 then Some(Cic6103)
    else if crc == 0x98BC_2C86 then Some(Cic6105)
    else if crc == 0xACC8_580A then Some(Cic6106)
    else None
  }

  /** The boot chip named by the boot code, read in big-endian order. */
  function DetectCic(header: bytes, order: N64.ByteOrder): Option<Cic> {
    if |header| < 0x1000 then None
    else CicFromBootcodeCrc(Crc32(N64.Reorder(order, N64.BigEndian, header[0x40..0x1000])))
  }

  function PlanN64(header: bytes, totalLen: nat): Option<N64Repair> {
    if totalLen < N64_CRC_END || |header| < 0x18 then None
    else
      match N64.Detect(header)
      case None => None
      case Some(order) =>
        var cic := DetectCic(header, order);
        if cic.Some? && cic.value != Cic6101 && cic.value != Cic6102 then None
        else Some(N64Repair(order, N64.WordNormalized(order, header[0x10..0x14]),
                            N64.WordNormalized(order, header[0x14..0x18])))
  }

  function PlanRepairs(header: bytes, totalLen: nat): Option<Repairs> {
    var r := Repairs(PlanGba(header, totalLen), PlanSega(header, totalLen), PlanN64(header, totalLen));
    if r.gba.None? && r.sega.None? && r.n64.None? then None else Some(r)
  }

  /** Where every repair value is known: the end of the farthest byte any of them depends on. */
  function FlushOffset(r: Repairs): nat {
    Max(Max(if r.gba.Some? then 0xBE else 0, if r.sega.Some? then r.sega.value.end else 0),
        if r.n64.Some? then N64_CRC_END else 0)
  }

  predicate CapExceeded(r: Repairs) { FlushOffset(r) > FIX_HEADER_PREFIX_CAP }

  /** Genesis sums to the end of the file, so it is always finished by a second read. */
  predicate DefersDigest(r: Repairs) { CapExceeded(r) || r.sega.Some? }

  /** Only a Genesis repair is ever deferred, and only one past 64 MiB for its length. */
  lemma DefersMeans(r: Repairs)
    ensures DefersDigest(r) <==> r.sega.Some?
    ensures CapExceeded(r) <==> r.sega.Some? && r.sega.value.end > 0x400_0000
  {
  }

  // ---------------------------------------------------------------- resolving

  function GbaPatches(gba: Option<GbaRepair>): PatchMap {
    match gba case None => [] case Some(g) => [Patch(0xBD, [g.corrected])]
  }

  /** The word sum from 0x200, reduced to 16 bits. */
  function SegaChecksum(r: SegaRepair, data: bytes): u16
    requires r.end >= 0x200
  {
    Accumulators.WordSum(Accumulators.Window(data, 0x200, r.end)) % 0x1_0000
  }

  function BigEndian16(v: u16): bytes { [v / 0x100, v % 0x100] }

  function SegaPatches(sega: Option<SegaRepair>, data: bytes): PatchMap
    requires sega.Some? ==> sega.value.end >= 0x200
  {
    match sega
    case None => []
    case Some(r) =>
      if r.oldChecksum == SegaChecksum(r, data) then [] else [Patch(0x18E, BigEndian16(SegaChecksum(r, data)))]
  }

  function N64Pair(r: N64Repair, data: bytes): (u32, u32) {
    N64.CrcPair(N64.Rounds(r.order, Accumulators.Window(data, N64_CRC_START, N64_CRC_END)))
  }

  function N64PatchesFor(r: N64Repair, pair: (u32, u32)): PatchMap {
    (if r.oldCrc1 == pair.0 then [] else [Patch(0x10, N64.WordOriginalOrder(r.order, pair.0))])
    + (if r.oldCrc2 == pair.1 then [] else [Patch(0x14, N64.WordOriginalOrder(r.order, pair.1))])
  }

  function N64Patches(n64: Option<N64Repair>, data: bytes): PatchMap {
    match n64 case None => [] case Some(r) => N64PatchesFor(r, N64Pair(r, data))
  }

  ghost predicate WellPlanned(r: Repairs) { r.sega.Some? ==> r.sega.value.end >= 0x200 }

  /** Every patch the repairs come to on `data`, in ascending offset order. */
  function Resolve(r: Repairs, data: bytes): PatchMap
    requires WellPlanned(r)
  {
    N64Patches(r.n64, data) + GbaPatches(r.gba) + SegaPatches(r.sega, data)
  }

  /** The profiles reported as repaired, read off the patch map. */
  function RepairedProfiles(r: Repairs, patches: PatchMap): seq<Profile> {
    (if r.gba.Some? then [GbaProfile] else [])
    + (if r.sega.Some? && HasKey(patches, 0x18E) then [SegaGenesisProfile] else [])
    + (if r.n64.Some? && (HasKey(patches, 0x10) || HasKey(patches, 0x14)) then [N64Profile] else [])
  }

  lemma N64PatchesShape(r: N64Repair, pair: (u32, u32))
    ensures Inside(N64PatchesFor(r, pair), 0x10, 0x18) && Ascending(N64PatchesFor(r, pair))
    ensures |N64PatchesFor(r, pair)| <= 2
  {
  }

  /** Which header bytes each profile writes. */
  lemma {:induction false} PatchesShape(r: Repairs, data: bytes)
    requires WellPlanned(r)
    ensures Inside(N64Patches(r.n64, data), 0x10, 0x18) && Ascending(N64Patches(r.n64, data))
    ensures Inside(GbaPatches(r.gba), 0xBD, 0xBE) && |GbaPatches(r.gba)| <= 1
    ensures Inside(SegaPatches(r.sega, data), 0x18E, 0x190) && |SegaPatches(r.sega, data)| <= 1
  {
    if r.n64.Some? { N64PatchesShape(r.n64.value, N64Pair(r.n64.value, data)); }
  }

  lemma FrontOf(ps: PatchMap, lo: nat, hi: nat)
    requires Inside(ps, lo, hi) && forall k :: 0 <= k < |ps| ==> ps[k].data != []
    ensures forall k :: 0 <= k < |ps| ==> lo <= ps[k].offset < hi
  {
  }

  lemma {:induction false} ResolveAscends(r: Repairs, data: bytes)
    requires WellPlanned(r)
    ensures Ascending(Resolve(r, data))
  {
    PatchesShape(r, data);
    var n, g, s := N64Patches(r.n64, data), GbaPatches(r.gba), SegaPatches(r.sega, data);
    FrontOf(n, 0x10, 0x18);
    FrontOf(g, 0xBD, 0xBE);
    FrontOf(s, 0x18E, 0x190);
    hide N64Patches, GbaPatches, SegaPatches, Ascending, Inside;
    AscendingShort(g);
    AscendingShort(s);
    AscendingAppend(n, g, 0x18);
    AscendingAppend(n + g, s, 0xBE);
  }

  lemma InsideAppend(a: PatchMap, b: PatchMap, hi: nat)
    requires Inside(a, 0, hi) && Inside(b, 0, hi)
    ensures Inside(a + b, 0, hi)
  {
  }

  lemma InsideWider(ps: PatchMap, lo: nat, hi: nat, more: nat)
    requires Inside(ps, lo, hi) && (ps == [] || hi <= more)
    ensures Inside(ps, 0, more)
  {
  }

  /** The patches are a map in ascending order, and all lie in the bytes the plan has read. */
  lemma {:induction false} ResolveShape(r: Repairs, data: bytes)
    requires WellPlanned(r)
    ensures Ascending(Resolve(r, data))
    ensures Inside(Resolve(r, data), 0, PatchedExtent(r))
  {
    ResolveAscends(r, data);
    PatchesShape(r, data);
    PatchesPresent(r, data);
    var n, g, s, extent := N64Patches(r.n64, data), GbaPatches(r.gba), SegaPatches(r.sega, data), PatchedExtent(r);
    hide N64Patches, GbaPatches, SegaPatches, Ascending, Inside;
    InsideWider(n, 0x10, 0x18, extent);
    InsideWider(g, 0xBD, 0xBE, extent);
    InsideWider(s, 0x18E, 0x190, extent);
    InsideAppend(n, g, extent);
    InsideAppend(n + g, s, extent);
  }

  lemma AscendingShort(ps: PatchMap)
    requires |ps| <= 1
    ensures Ascending(ps)
  {
  }

  lemma PatchesPresent(r: Repairs, data: bytes)
    requires WellPlanned(r)
    ensures r.n64.None? ==> N64Patches(r.n64, data) == []
    ensures r.gba.None? ==> GbaPatches(r.gba) == []
    ensures r.sega.None? ==> SegaPatches(r.sega, data) == []
  {
  }

  lemma AscendingAppend(a: PatchMap, b: PatchMap, split: nat)
    requires Ascending(a) && Ascending(b)
    requires forall k :: 0 <= k < |a| ==> a[k].offset < split
    requires forall k :: 0 <= k < |b| ==> split <= b[k].offset
    ensures Ascending(a + b)
  {
  }

  /** The end of the farthest byte the repairs can write. */
  function PatchedExtent(r: Repairs): nat {
    if r.sega.Some? then 0x190 else if r.gba.Some? then 0xBE else if r.n64.Some? then 0x18 else 0
  }

  /** Once the flush offset is reached the patches are final. */
  lemma {:induction false} ResolveStable(r: Repairs, data: bytes, more: bytes)
    requires WellPlanned(r) && FlushOffset(r) <= |data|
    ensures Resolve(r, data + more) == Resolve(r, data)
  {
    if r.sega.Some? { Accumulators.WindowClosed(data, more, 0x200, r.sega.value.end); }
    if r.n64.Some? { Accumulators.WindowClosed(data, more, N64_CRC_START, N64_CRC_END); }
  }

  lemma PlanParts(header: bytes, totalLen: nat, r: Repairs)
    requires PlanRepairs(header, totalLen) == Some(r)
    ensures WellPlanned(r)
    ensures r.gba == PlanGba(header, totalLen) && r.sega == PlanSega(header, totalLen) && r.n64 == PlanN64(header, totalLen)
  {
  }

  lemma PlanWellPlanned(header: bytes, totalLen: nat)
    ensures PlanRepairs(header, totalLen).Some? ==>
      var r := PlanRepairs(header, totalLen).value;
      WellPlanned(r) && 0 < FlushOffset(r) <= totalLen && PatchedExtent(r) <= |header|
      && PatchedExtent(r) <= FlushOffset(r)
  {
  }

  // ---------------------------------------------------------------- locality

  lemma {:induction false} PlanGbaLocal(a: bytes, b: bytes, totalLen: nat)
    requires SameWindow(a, b)
    ensures PlanGba(a, totalLen) == PlanGba(b, totalLen)
  {
    SlicesLocal(a, b);
    assert a[0xBD] == a[0xBD..0xBE][0] && b[0xBD] == b[0xBD..0xBE][0];
  }

  lemma {:induction false} PlanSegaLocal(a: bytes, b: bytes, totalLen: nat)
    requires SameWindow(a, b)
    ensures PlanSega(a, totalLen) == PlanSega(b, totalLen)
  {
    SlicesLocal(a, b);
    assert a[0x18E] == a[0x18E..0x190][0] && b[0x18E] == b[0x18E..0x190][0];
    assert a[0x18F] == a[0x18E..0x190][1] && b[0x18F] == b[0x18E..0x190][1];
  }

  lemma {:induction false} N64DetectLocal(a: bytes, b: bytes)
    requires SameWindow(a, b)
    ensures N64.Detect(a) == N64.Detect(b)
  {
    SliceLocal(a, b, 0, 4);
    SameMagic(a, b);
  }

  lemma {:induction false} PlanN64Local(a: bytes, b: bytes, totalLen: nat)
    requires SameWindow(a, b)
    ensures PlanN64(a, totalLen) == PlanN64(b, totalLen)
  {
    N64DetectLocal(a, b);
    SliceLocal(a, b, 0x40, 0x1000);
    SliceLocal(a, b, 0x10, 0x14);
    SliceLocal(a, b, 0x14, 0x18);
  }

  /** No repair plan looks past the scan window. */
  lemma {:induction false} PlanRepairsLocal(a: bytes, b: bytes, totalLen: nat)
    requires SameWindow(a, b)
    ensures PlanRepairs(a, totalLen) == PlanRepairs(b, totalLen)
  {
    PlanGbaLocal(a, b, totalLen);
    PlanSegaLocal(a, b, totalLen);
    PlanN64Local(a, b, totalLen);
  }

  // ---------------------------------------------------------------- a repair is a fixed point

  /** The repaired file, one profile after another. */
  lemma {:induction false} RepairedInStages(data: bytes, r: Repairs)
    requires WellPlanned(r)
    ensures Overlay(data, Resolve(r, data))
         == Overlay(Overlay(Overlay(data, N64Patches(r.n64, data)), GbaPatches(r.gba)), SegaPatches(r.sega, data))
  {
    OverlayConcat(data, N64Patches(r.n64, data) + GbaPatches(r.gba), SegaPatches(r.sega, data));
    OverlayConcat(data, N64Patches(r.n64, data), GbaPatches(r.gba));
  }

  /** A slice no profile writes is the same in the repaired file. */
  lemma {:induction false} RepairKeeps(data: bytes, r: Repairs, from: nat, to: nat)
    requires WellPlanned(r) && from <= to <= |data|
    requires to <= 0x10 || (0x18 <= from && to <= 0xBD) || (0xBE <= from && to <= 0x18E) || 0x190 <= from
    ensures Overlay(data, Resolve(r, data))[from..to] == data[from..to]
  {
    PatchesShape(r, data);
    RepairedInStages(data, r);
    var d1 := Overlay(data, N64Patches(r.n64, data));
    var d2 := Overlay(d1, GbaPatches(r.gba));
    OverlayMisses(data, N64Patches(r.n64, data), 0x10, 0x18, from, to);
    OverlayMisses(d1, GbaPatches(r.gba), 0xBD, 0xBE, from, to);
    OverlayMisses(d2, SegaPatches(r.sega, data), 0x18E, 0x190, from, to);
  }

  /** GBA: the repaired byte agrees with the header fields it covers, so nothing is left to repair. */
  lemma {:induction false} GbaRepairIsFixedPoint(data: bytes, r: Repairs)
    requires WellPlanned(r) && r.gba.Some? && r.gba == PlanGba(data, |data|)
    ensures PlanGba(Overlay(data, Resolve(r, data)), |data|) == None
  {
    RepairKeeps(data, r, 0xA0, 0xBD);
    GbaByteWritten(data, r);
    GbaAgrees(data, Overlay(data, Resolve(r, data)), r.gba.value);
  }

  lemma GbaAgrees(data: bytes, repaired: bytes, r: GbaRepair)
    requires |repaired| == |data| && PlanGba(data, |data|) == Some(r)
    requires repaired[0xA0..0xBD] == data[0xA0..0xBD] && repaired[0xBD] == r.corrected
    ensures PlanGba(repaired, |data|) == None
  {
  }

  lemma {:induction false} GbaByteWritten(data: bytes, r: Repairs)
    requires WellPlanned(r) && r.gba.Some? && |data| >= 0xBE
    ensures Overlay(data, Resolve(r, data))[0xBD] == r.gba.value.corrected
  {
    PatchesShape(r, data);
    RepairedInStages(data, r);
    hide Resolve, N64Patches, SegaPatches;
    var d1 := Overlay(data, N64Patches(r.n64, data));
    var d2 := Overlay(d1, GbaPatches(r.gba));
    assert d2 == Blit(d1, GbaPatches(r.gba)[0]);
    OverlayUntouched(d2, SegaPatches(r.sega, data), 0xBD);
  }

  lemma BigEndian16RoundTrip(v: u16)
    ensures BigEndian16(v)[0] as int * 256 + BigEndian16(v)[1] == v
  {
  }

  /** Genesis: the stored word becomes the sum, and the sum does not depend on the stored word. */
  lemma {:induction false} SegaRepairIsFixedPoint(data: bytes, r: Repairs)
    requires WellPlanned(r) && r.sega.Some? && r.sega == PlanSega(data, |data|)
    ensures var repaired := Overlay(data, Resolve(r, data));
      var again := PlanSega(repaired, |data|);
      again.Some? && SegaPatches(again, repaired) == []
  {
    RepairKeeps(data, r, 0x100, 0x104);
    RepairKeeps(data, r, 0x101, 0x105);
    RepairKeeps(data, r, 0x200, |data|);
    SegaWordWritten(data, r);
  }

  lemma {:induction false} SegaWordWritten(data: bytes, r: Repairs)
    requires r.sega.Some? && r.sega.value.end == |data| >= 0x200
    requires r.sega.value.oldChecksum == data[0x18E] as int * 256 + data[0x18F]
    ensures var repaired := Overlay(data, Resolve(r, data));
      repaired[0x18E] as int * 256 + repaired[0x18F] == SegaChecksum(r.sega.value, data)
  {
    PatchesShape(r, data);
    RepairedInStages(data, r);
    var n, g, s := N64Patches(r.n64, data), GbaPatches(r.gba), SegaPatches(r.sega, data);
    var d1 := Overlay(data, n);
    var d2 := Overlay(d1, g);
    if s == [] {
      OverlayUntouched(data, n, 0x18E);
      OverlayUntouched(data, n, 0x18F);
      OverlayUntouched(d1, g, 0x18E);
      OverlayUntouched(d1, g, 0x18F);
    } else {
      assert Overlay(d2, s) == Blit(d2, s[0]);
      BigEndian16RoundTrip(SegaChecksum(r.sega.value, data));
    }
  }

  /** N64: both stored words become the CRC pair, whatever order the image is in. */
  lemma {:induction false} N64RepairIsFixedPoint(data: bytes, r: Repairs)
    requires WellPlanned(r) && r.n64.Some? && r.n64 == PlanN64(data, |data|)
    ensures var repaired := Overlay(data, Resolve(r, data));
      N64Patches(PlanN64(repaired, |data|), repaired) == []
  {
    var repaired := Overlay(data, Resolve(r, data));
    RepairKeeps(data, r, 0, 4);
    SameMagic(data, repaired);
    RepairKeeps(data, r, N64_CRC_START, N64_CRC_END);
    N64WordsWritten(data, r);
    N64Agrees(data, repaired, r.n64.value);
  }

  lemma {:induction false} N64Agrees(data: bytes, repaired: bytes, r: N64Repair)
    requires |repaired| == |data| && PlanN64(data, |data|) == Some(r)
    requires N64.Detect(repaired) == N64.Detect(data)
    requires repaired[N64_CRC_START..N64_CRC_END] == data[N64_CRC_START..N64_CRC_END]
    requires N64.WordNormalized(r.order, repaired[0x10..0x14]) == N64Pair(r, data).0
    requires N64.WordNormalized(r.order, repaired[0x14..0x18]) == N64Pair(r, data).1
    ensures N64Patches(PlanN64(repaired, |data|), repaired) == []
  {
    assert Accumulators.Window(repaired, N64_CRC_START, N64_CRC_END)
        == Accumulators.Window(data, N64_CRC_START, N64_CRC_END);
    var again := PlanN64(repaired, |data|);
    if again.Some? {
      assert N64Pair(again.value, repaired) == N64Pair(r, data);
    }
  }

  lemma {:induction false} SameMagic(a: bytes, b: bytes)
    requires |a| >= 4 && |b| >= 4 && a[0..4] == b[0..4]
    ensures N64.Detect(a) == N64.Detect(b)
  {
    assert a[..4] == a[0..4] && b[..4] == b[0..4];
  }

  lemma {:induction false} N64WordsWritten(data: bytes, r: Repairs)
    requires WellPlanned(r) && r.n64.Some? && |data| >= 0x18
    requires r.n64.value.oldCrc1 == N64.WordNormalized(r.n64.value.order, data[0x10..0x14])
    requires r.n64.value.oldCrc2 == N64.WordNormalized(r.n64.value.order, data[0x14..0x18])
    ensures var repaired := Overlay(data, Resolve(r, data));
      var (order, pair) := (r.n64.value.order, N64Pair(r.n64.value, data));
      N64.WordNormalized(order, repaired[0x10..0x14]) == pair.0
      && N64.WordNormalized(order, repaired[0x14..0x18]) == pair.1
  {
    PatchesShape(r, data);
    RepairedInStages(data, r);
    var d1 := Overlay(data, N64Patches(r.n64, data));
    var d2 := Overlay(d1, GbaPatches(r.gba));
    OverlayMisses(d1, GbaPatches(r.gba), 0xBD, 0xBE, 0x10, 0x14);
    OverlayMisses(d1, GbaPatches(r.gba), 0xBD, 0xBE, 0x14, 0x18);
    OverlayMisses(d2, SegaPatches(r.sega, data), 0x18E, 0x190, 0x10, 0x14);
    OverlayMisses(d2, SegaPatches(r.sega, data), 0x18E, 0x190, 0x14, 0x18);
    N64PairWritten(data, r.n64.value, N64Pair(r.n64.value, data));
  }

  lemma {:induction false} N64PairWritten(data: bytes, r: N64Repair, pair: (u32, u32))
    requires |data| >= 0x18
    requires r.oldCrc1 == N64.WordNormalized(r.order, data[0x10..0x14])
    requires r.oldCrc2 == N64.WordNormalized(r.order, data[0x14..0x18])
    ensures var d := Overlay(data, N64PatchesFor(r, pair));
      N64.WordNormalized(r.order, d[0x10..0x14]) == pair.0 && N64.WordNormalized(r.order, d[0x14..0x18]) == pair.1
  {
    N64.NormalizedOriginal(r.order, pair.0);
    N64.NormalizedOriginal(r.order, pair.1);
    hide N64.FromBigEndian, N64.ToBigEndian;
    var first := if r.oldCrc1 == pair.0 then [] else [Patch(0x10, N64.WordOriginalOrder(r.order, pair.0))];
    var second := if r.oldCrc2 == pair.1 then [] else [Patch(0x14, N64.WordOriginalOrder(r.order, pair.1))];
    OverlayConcat(data, first, second);
    var d1 := Overlay(data, first);
    OverlayMisses(data, first, 0x10, 0x14, 0x14, 0x18);
    OverlayMisses(d1, second, 0x14, 0x18, 0x10, 0x14);
    if first != [] { BlitWritten(data, first[0]); }
    if second != [] { BlitWritten(d1, second[0]); }
  }

  /** Re-planning any profile that was repaired, on the repaired file, leaves it nothing to patch. */
  lemma {:induction false} RepairIsFixedPoint(data: bytes, r: Repairs)
    requires PlanRepairs(data, |data|) == Some(r)
    ensures WellPlanned(r)
    ensures var repaired := Overlay(data, Resolve(r, data));
      && (r.gba.Some? ==> GbaPatches(PlanGba(repaired, |data|)) == [])
      && (r.sega.Some? ==> SegaPatches(PlanSega(repaired, |data|), repaired) == [])
      && (r.n64.Some? ==> N64Patches(PlanN64(repaired, |data|), repaired) == [])
  {
    hide PlanRepairs, PlanGba, PlanSega, PlanN64, Resolve;
    PlanParts(data, |data|, r);
    if r.gba.Some? { GbaRepairIsFixedPoint(data, r); }
    if r.sega.Some? { SegaRepairIsFixedPoint(data, r); }
    if r.n64.Some? { N64RepairIsFixedPoint(data, r); }
  }

  // ---------------------------------------------------------------- what a repaired header says

  lemma {:induction false} SumSnoc(data: bytes, x: u8)
    ensures SumBytes(data + [x]) == SumBytes(data) + x
  {
    if data == [] {
      assert [x][1..] == [] && data + [x] == [x];
    } else {
      assert (data + [x])[1..] == data[1..] + [x];
      SumSnoc(data[1..], x);
    }
  }

  /** The bytes 0xA0 to 0xBD of a GBA header and 0x19 add up to a multiple of 256. */
  predicate GbaAddsUp(header: bytes)
    requires |header| >= 0xBE
  {
    (SumBytes(header[0xA0..0xBE]) + 0x19) % 0x100 == 0
  }

  lemma {:induction false} GbaComplementAddsUp(header: bytes)
    requires |header| >= 0xBE
    ensures header[0xBD] == GbaComplement(header) <==> GbaAddsUp(header)
  {
    assert header[0xA0..0xBE] == header[0xA0..0xBD] + [header[0xBD]];
    SumSnoc(header[0xA0..0xBD], header[0xBD]);
  }

  /** A GBA header is repaired exactly when it has the boot signature and does not add up. */
  lemma {:induction false} GbaPlannedIff(header: bytes, totalLen: nat)
    ensures PlanGba(header, totalLen).Some?
       <==> totalLen >= 0xBE && |header| >= 0xBE && header[0x04..0xA0] == GBA_NINTENDO_LOGO && header[0xB2] == 0x96
            && !GbaAddsUp(header)
  {
    if |header| >= 0xBE {
      GbaComplementAddsUp(header);
      assert header[0xB2..0xB3] == [header[0xB2]];
      assert header[0xB2..0xB3] == [0x96] <==> header[0xB2] == 0x96;
    }
  }

  lemma {:induction false} GbaRepairedAddsUp(data: bytes, r: Repairs)
    requires WellPlanned(r) && r.gba.Some? && r.gba == PlanGba(data, |data|)
    ensures GbaAddsUp(Overlay(data, Resolve(r, data)))
  {
    var repaired := Overlay(data, Resolve(r, data));
    RepairKeeps(data, r, 0xA0, 0xBD);
    GbaByteWritten(data, r);
    GbaComplementAddsUp(repaired);
  }

  /** The stored Genesis word of the repaired file is the sum of the words from 0x200 on. */
  lemma {:induction false} SegaRepairedHolds(data: bytes, r: Repairs)
    requires WellPlanned(r) && r.sega.Some? && r.sega == PlanSega(data, |data|)
    ensures var repaired := Overlay(data, Resolve(r, data));
      && |data| >= 0x200 && repaired[0x200..] == data[0x200..]
      && repaired[0x18E] as int * 0x100 + repaired[0x18F] == Accumulators.WordSum(data[0x200..]) % 0x1_0000
  {
    SegaWordWritten(data, r);
    RepairKeeps(data, r, 0x200, |data|);
    hide Overlay, Resolve, Accumulators.WordSum;
    assert Accumulators.Window(data, 0x200, |data|) == data[0x200..];
    var repaired := Overlay(data, Resolve(r, data));
    assert repaired[0x200..] == repaired[0x200..|data|];
  }

  /** The two stored N64 words are the pair of the sums over the words of [0x1000, 0x101000). */
  predicate N64AddsUp(order: N64.ByteOrder, file: bytes)
    requires |file| >= 0x10_1000
  {
    (N64.WordNormalized(order, file[0x10..0x14]), N64.WordNormalized(order, file[0x14..0x18]))
      == N64Sums.ClosedPair(N64Sums.WordsOf(order, file[0x1000..0x10_1000]))
  }

  lemma {:induction false} N64RepairedHolds(data: bytes, r: Repairs)
    requires WellPlanned(r) && r.n64.Some? && r.n64 == PlanN64(data, |data|)
    ensures var repaired := Overlay(data, Resolve(r, data));
      && |data| >= 0x10_1000 && repaired[0x1000..0x10_1000] == data[0x1000..0x10_1000]
      && N64AddsUp(r.n64.value.order, repaired)
  {
    N64WordsWritten(data, r);
    RepairKeeps(data, r, 0x1000, 0x10_1000);
    assert Accumulators.Window(data, N64_CRC_START, N64_CRC_END) == data[0x1000..0x10_1000];
    N64Sums.PairClosed(r.n64.value.order, data[0x1000..0x10_1000]);
    hide N64.Rounds, N64.CrcPair, N64Sums.WordsOf, N64Sums.ClosedPair, N64.WordNormalized;
  }

  lemma GbaKeys(gba: Option<GbaRepair>)
    ensures !HasKey(GbaPatches(gba), 0x10) && !HasKey(GbaPatches(gba), 0x14) && !HasKey(GbaPatches(gba), 0x18E)
  {
  }

  lemma {:induction false} SegaKeys(sega: Option<SegaRepair>, data: bytes)
    requires sega.Some? ==> sega.value.end >= 0x200
    ensures !HasKey(SegaPatches(sega, data), 0x10) && !HasKey(SegaPatches(sega, data), 0x14)
    ensures HasKey(SegaPatches(sega, data), 0x18E)
       <==> sega.Some? && sega.value.oldChecksum != SegaChecksum(sega.value, data)
  {
    hide SegaChecksum;
    var ps := SegaPatches(sega, data);
    assert ps != [] ==> ps[0].offset == 0x18E;
  }

  lemma {:induction false} ResolveKeys(r: Repairs, data: bytes, offset: nat)
    requires WellPlanned(r)
    ensures HasKey(Resolve(r, data), offset)
       <==> HasKey(N64Patches(r.n64, data), offset) || HasKey(GbaPatches(r.gba), offset) || HasKey(SegaPatches(r.sega, data), offset)
  {
    hide N64Patches, GbaPatches, SegaPatches, HasKey;
    KeysJoin(N64Patches(r.n64, data) + GbaPatches(r.gba), SegaPatches(r.sega, data), offset);
    KeysJoin(N64Patches(r.n64, data), GbaPatches(r.gba), offset);
  }

  /** The profiles reported are those whose stored checksum is wrong. */
  lemma {:induction false} ProfilesMean(r: Repairs, data: bytes)
    requires WellPlanned(r)
    ensures var ps := RepairedProfiles(r, Resolve(r, data));
      && (GbaProfile in ps <==> r.gba.Some?)
      && (SegaGenesisProfile in ps <==> r.sega.Some? && r.sega.value.oldChecksum != SegaChecksum(r.sega.value, data))
      && (N64Profile in ps <==> r.n64.Some? && (r.n64.value.oldCrc1, r.n64.value.oldCrc2) != N64Pair(r.n64.value, data))
  {
    hide Resolve, N64Patches, GbaPatches, SegaPatches, HasKey, SegaChecksum, N64Pair;
    ResolveKeys(r, data, 0x18E);
    ResolveKeys(r, data, 0x10);
    ResolveKeys(r, data, 0x14);
    GbaKeys(r.gba);
    SegaKeys(r.sega, data);
    N64Keys(r.n64, data);
    NoKeys();
  }

  lemma NoKeys()
    ensures forall offset :: !HasKey([], offset)
  {
  }

  lemma {:induction false} KeysJoin(a: PatchMap, b: PatchMap, offset: nat)
    ensures HasKey(a + b, offset) <==> HasKey(a, offset) || HasKey(b, offset)
  {
    if HasKey(a, offset) {
      var k :| 0 <= k < |a| && a[k].offset == offset;
      assert (a + b)[k].offset == offset;
    }
    if HasKey(b, offset) {
      var k :| 0 <= k < |b| && b[k].offset == offset;
      assert (a + b)[|a| + k].offset == offset;
    }
  }

  lemma {:induction false} N64Keys(n64: Option<N64Repair>, data: bytes)
    ensures !HasKey(N64Patches(n64, data), 0x18E)
    ensures n64.None? ==> N64Patches(n64, data) == []
    ensures n64.Some? ==>
      (HasKey(N64Patches(n64, data), 0x10) <==> n64.value.oldCrc1 != N64Pair(n64.value, data).0)
      && (HasKey(N64Patches(n64, data), 0x14) <==> n64.value.oldCrc2 != N64Pair(n64.value, data).1)
  {
    hide N64Pair, N64.WordOriginalOrder;
    if n64.Some? {
      var (r, pair) := (n64.value, N64Pair(n64.value, data));
      var first := if r.oldCrc1 == pair.0 then [] else [Patch(0x10, N64.WordOriginalOrder(r.order, pair.0))];
      var second := if r.oldCrc2 == pair.1 then [] else [Patch(0x14, N64.WordOriginalOrder(r.order, pair.1))];
      KeysJoin(first, second, 0x10);
      KeysJoin(first, second, 0x14);
      KeysJoin(first, second, 0x18E);
      assert first != [] ==> first[0].offset == 0x10;
      assert second != [] ==> second[0].offset == 0x14;
    }
  }

  // ---------------------------------------------------------------- when a header is repaired at all

  /** A Genesis header says so at 0x100 or 0x101; the whole file behind 0x200 is summed. */
  lemma {:induction false} SegaPlannedIff(header: bytes, totalLen: nat)
    ensures PlanSega(header, totalLen).Some?
       <==> totalLen >= 0x200 && |header| >= 0x190 && (Spelled(header, 0x100, "SEGA") || Spelled(header, 0x101, "SEGA"))
    ensures PlanSega(header, totalLen).Some? ==>
      PlanSega(header, totalLen).value == SegaRepair(header[0x18E] as int * 0x100 + header[0x18F], totalLen)
  {
    if |header| >= 0x190 {
      SegaAt(header, 0x100);
      SegaAt(header, 0x101);
    }
  }

  lemma {:induction false} SegaAt(header: bytes, at: nat)
    requires at + 4 <= |header|
    ensures header[at..at + 4] == SEGA_MAGIC <==> Spelled(header, at, "SEGA")
  {
    var part := header[at..at + 4];
    assert part[0] == header[at + 0] && part[1] == header[at + 1] && part[2] == header[at + 2] && part[3] == header[at + 3];
    assert "SEGA"[0] == 'S' && "SEGA"[1] == 'E' && "SEGA"[2] == 'G' && "SEGA"[3] == 'A';
    assert part == SEGA_MAGIC <==> part[0] == 'S' as int && part[1] == 'E' as int && part[2] == 'G' as int && part[3] == 'A' as int;
  }

  /** The CRC-32 of the boot code in big-endian order. */
  function BootCrc(header: bytes, order: N64.ByteOrder): bv32
    requires |header| >= 0x1000
  {
    Crc32(N64.Reorder(order, N64.BigEndian, header[0x40..0x1000]))
  }

  /** The boot code names one of the chips 6103, 6105 and 6106, whose checksum is another. */
  predicate OtherChip(header: bytes, order: N64.ByteOrder) {
    |header| >= 0x1000 && BootCrc(header, order) in {0x0B05_0EE0, 0x98BC_2C86, 0xACC8_580A}
  }

  /** An N64 header is planned for when the image is long enough, its order is known, and no other chip is named. */
  lemma {:induction false} N64PlannedIff(header: bytes, totalLen: nat)
    ensures PlanN64(header, totalLen).Some?
       <==> totalLen >= 0x10_1000 && |header| >= 0x18 && N64.Detect(header).Some?
            && !OtherChip(header, N64.Detect(header).value)
    ensures PlanN64(header, totalLen).Some? ==>
      var (r, order) := (PlanN64(header, totalLen).value, N64.Detect(header).value);
      && r.order == order && r.oldCrc1 == N64.WordNormalized(order, header[0x10..0x14])
      && r.oldCrc2 == N64.WordNormalized(order, header[0x14..0x18])
  {
    hide Crc32, N64.Reorder, N64.Detect, N64.WordNormalized;
  }
}
