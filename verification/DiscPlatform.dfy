/** Which platform a disc is, said of the bytes of its cooked image and of the entries of its root directory. */
module DiscPlatform {
  import opened Bytes
  import opened DiscDirectory

  // ---------------------------------------------------------------- spelling

  /** The same with letters of either case, `s` being in upper case. */
  predicate SpelledAnyCase(b: bytes, s: string) {
    |s| <= |b| && forall i :: 0 <= i < |s| ==> b[i] == s[i] as int || ('A' <= s[i] <= 'Z' && b[i] == s[i] as int + 32)
  }

  ghost predicate Holds(b: bytes, s: string) { exists at: nat :: Spelled(b, at, s) }

  predicate Plain(s: string) { forall i :: 0 <= i < |s| ==> (s[i] as int < 0x80 && !('a' <= s[i] <= 'z')) }

  lemma {:induction false} SpelledAt(b: bytes, at: nat, s: string)
    requires Plain(s)
    ensures HasAt(b, at, Text(s)) <==> Spelled(b, at, s)
  {
    if at + |s| <= |b| {
      var part := b[at..at + |s|];
      assert forall i :: 0 <= i < |s| ==> part[i] == b[at + i] && Text(s)[i] == s[i] as int;
    }
  }

  lemma {:induction false} SpelledFirst(b: bytes, s: string)
    requires Plain(s)
    ensures StartsWith(b, Text(s)) <==> Spelled(b, 0, s)
  {
    SpelledAt(b, 0, s);
    assert |s| <= |b| ==> b[..|s|] == b[0..0 + |s|];
  }

  lemma {:induction false} SpelledHead(b: bytes, s: string)
    requires Plain(s) && |s| <= 16 <= |b|
    ensures StartsWith(b[..16], Text(s)) <==> Spelled(b, 0, s)
  {
    SpelledFirst(b[..16], s);
  }

  lemma {:induction false} ContainsHolds(b: bytes, s: string)
    requires Plain(s)
    ensures Contains(b, Text(s)) <==> Holds(b, s)
  {
    forall at: nat ensures HasAt(b, at, Text(s)) <==> Spelled(b, at, s) { SpelledAt(b, at, s); }
    if Holds(b, s) {
      var at: nat :| Spelled(b, at, s);
      assert at <= |b| && HasAt(b, at, Text(s));
    }
  }

  lemma {:induction false} UpperSpells(b: bytes, s: string)
    requires Plain(s)
    ensures StartsWith(Upper(b), Text(s)) <==> SpelledAnyCase(b, s)
    ensures Upper(b) == Text(s) <==> |b| == |s| && SpelledAnyCase(b, s)
  {
    var (u, t) := (Upper(b), Text(s));
    if |s| <= |b| {
      assert forall i :: 0 <= i < |s| ==> u[..|s|][i] == u[i];
      forall i | 0 <= i < |s|
        ensures u[i] == t[i] <==> b[i] == s[i] as int || ('A' <= s[i] <= 'Z' && b[i] == s[i] as int + 32)
      {
      }
    }
  }

  // ---------------------------------------------------------------- sectors of a cooked image

  function Cooked(image: bytes): Disc { Disc(image, SECTOR, 0) }

  /** The bytes from `from` up to `to`, as far as the image goes. */
  function Part(image: bytes, from: nat, to: nat): bytes
    requires from <= to
  {
    image[Min(from, |image|)..Min(to, |image|)]
  }

  lemma {:induction false} CookedReads(image: bytes, lba: nat, count: nat)
    ensures ReadSectors(Cooked(image), lba, count) == Part(image, lba * SECTOR, (lba + count) * SECTOR)
    decreases count
  {
    var start := lba * SECTOR;
    if count > 0 && start < |image| {
      CookedReads(image, lba + 1, count - 1);
      assert (lba + 1) * SECTOR == start + SECTOR;
      PartsJoin(image, start, start + SECTOR, (lba + count) * SECTOR);
    }
  }

  lemma PartsJoin(image: bytes, a: nat, b: nat, c: nat)
    requires a <= b <= c
    ensures Part(image, a, b) + Part(image, b, c) == Part(image, a, c)
  {
  }

  // ---------------------------------------------------------------- signatures of the system area

  /** The first sixteen bytes begin with `s`. */
  predicate Head(image: bytes, s: string) { |image| >= 16 && Spelled(image, 0, s) }

  predicate AnyHead(image: bytes) {
    || Head(image, "SEGA SEGASATURN") || Head(image, "SEGA SEGAKATANA")
    || Head(image, "SEGADISCSYSTEM") || Head(image, "SEGABOOTDISC")
  }

  predicate WiiWord(image: bytes) {
    |image| >= 0x1C && image[0x18] == 0x5D && image[0x19] == 0x1C && image[0x1A] == 0x9E && image[0x1B] == 0xA3
  }

  predicate CubeWord(image: bytes) {
    |image| >= 0x20 && image[0x1C] == 0xC2 && image[0x1D] == 0x33 && image[0x1E] == 0x9F && image[0x1F] == 0x3D
  }

  predicate NcsdWord(image: bytes) { Spelled(image, 0x100, "NCSD") }

  predicate Unsigned(image: bytes) {
    !AnyHead(image) && !WiiWord(image) && !CubeWord(image) && !NcsdWord(image)
  }

  lemma {:induction false} HeadsOfSector0(image: bytes, s0: bytes)
    requires s0 == Part(image, 0, SECTOR)
    ensures |s0| >= 16 <==> |image| >= 16
    ensures |s0| >= 16 ==>
      && (StartsWith(s0[..16], Text("SEGA SEGASATURN")) <==> Head(image, "SEGA SEGASATURN"))
      && (StartsWith(s0[..16], Text("SEGA SEGAKATANA")) <==> Head(image, "SEGA SEGAKATANA"))
      && (StartsWith(s0[..16], Text("SEGADISCSYSTEM")) <==> Head(image, "SEGADISCSYSTEM"))
      && (StartsWith(s0[..16], Text("SEGABOOTDISC")) <==> Head(image, "SEGABOOTDISC"))
  {
    hide StartsWith, Text;
    if |image| >= 16 {
      assert s0[..16] == image[..16];
      SpelledHead(image, "SEGA SEGASATURN");
      SpelledHead(image, "SEGA SEGAKATANA");
      SpelledHead(image, "SEGADISCSYSTEM");
      SpelledHead(image, "SEGABOOTDISC");
    }
  }

  lemma {:induction false} FourBytes(image: bytes, s0: bytes, at: nat, word: bytes)
    requires s0 == Part(image, 0, SECTOR) && at + 4 <= SECTOR && |word| == 4
    ensures HasAt(s0, at, word) <==>
      |image| >= at + 4 && image[at] == word[0] && image[at + 1] == word[1] && image[at + 2] == word[2]
      && image[at + 3] == word[3]
  {
    if at + 4 <= |image| {
      var part := s0[at..at + 4];
      assert part[0] == image[at] && part[1] == image[at + 1] && part[2] == image[at + 2] && part[3] == image[at + 3];
    }
  }

  lemma {:induction false} WordsOfSector0(image: bytes, s0: bytes)
    requires s0 == Part(image, 0, SECTOR)
    ensures HasAt(s0, 0x18, [0x5D, 0x1C, 0x9E, 0xA3]) <==> WiiWord(image)
    ensures HasAt(s0, 0x1C, [0xC2, 0x33, 0x9F, 0x3D]) <==> CubeWord(image)
    ensures HasAt(s0, 0x100, Text("NCSD")) <==> NcsdWord(image)
  {
    FourBytes(image, s0, 0x18, [0x5D, 0x1C, 0x9E, 0xA3]);
    FourBytes(image, s0, 0x1C, [0xC2, 0x33, 0x9F, 0x3D]);
    FourBytes(image, s0, 0x100, Text("NCSD"));
    hide HasAt, Part;
  }

  /** What sector 0 says. */
  function SignatureOf(image: bytes): Option<Platform> { FromSector0(ReadSectors(Cooked(image), 0, 1)) }

  /** Which head or magic word gives which platform. */
  lemma {:induction false} SignatureDecides(image: bytes)
    ensures SignatureOf(image) == Some(Saturn) <==> Head(image, "SEGA SEGASATURN")
    ensures SignatureOf(image) == Some(Dreamcast) <==> Head(image, "SEGA SEGAKATANA")
    ensures SignatureOf(image) == Some(SegaCd) <==> Head(image, "SEGADISCSYSTEM") || Head(image, "SEGABOOTDISC")
    ensures SignatureOf(image) == Some(Wii) <==> !AnyHead(image) && WiiWord(image)
    ensures SignatureOf(image) == Some(GameCube) <==> !AnyHead(image) && !WiiWord(image) && CubeWord(image)
    ensures SignatureOf(image) == Some(N3ds) <==> !AnyHead(image) && !WiiWord(image) && !CubeWord(image) && NcsdWord(image)
    ensures SignatureOf(image) == None <==> Unsigned(image)
  {
    CookedReads(image, 0, 1);
    var s0 := ReadSectors(Cooked(image), 0, 1);
    HeadsOfSector0(image, s0);
    WordsOfSector0(image, s0);
    HeadsExclude(image);
    hide ReadSectors, StartsWith, HasAt, Text, Head, WiiWord, CubeWord, NcsdWord, Part;
  }

  lemma {:induction false} HeadsDiffer(image: bytes, s: string, t: string, i: nat)
    requires i < |s| && i < |t| && s[i] != t[i]
    ensures !(Head(image, s) && Head(image, t))
  {
    if Head(image, s) { assert image[0 + i] == s[i] as int; }
  }

  lemma {:induction false} HeadsExclude(image: bytes)
    ensures !(Head(image, "SEGA SEGASATURN") && Head(image, "SEGA SEGAKATANA"))
    ensures !(Head(image, "SEGA SEGASATURN") && Head(image, "SEGADISCSYSTEM"))
    ensures !(Head(image, "SEGA SEGASATURN") && Head(image, "SEGABOOTDISC"))
    ensures !(Head(image, "SEGA SEGAKATANA") && Head(image, "SEGADISCSYSTEM"))
    ensures !(Head(image, "SEGA SEGAKATANA") && Head(image, "SEGABOOTDISC"))
  {
    HeadsDiffer(image, "SEGA SEGASATURN", "SEGA SEGAKATANA", 9);
    HeadsDiffer(image, "SEGA SEGASATURN", "SEGADISCSYSTEM", 4);
    HeadsDiffer(image, "SEGA SEGASATURN", "SEGABOOTDISC", 4);
    HeadsDiffer(image, "SEGA SEGAKATANA", "SEGADISCSYSTEM", 4);
    HeadsDiffer(image, "SEGA SEGAKATANA", "SEGABOOTDISC", 4);
  }

  // ---------------------------------------------------------------- the root directory

  predicate PspName(name: bytes) {
    SpelledAnyCase(name, "UMD_DATA.BIN") || (|name| == 8 && SpelledAnyCase(name, "PSP_GAME"))
  }

  predicate CnfName(name: bytes) { SpelledAnyCase(name, "SYSTEM.CNF") }

  predicate HasPsp(es: seq<DirEntry>) { exists i :: 0 <= i < |es| && PspName(es[i].name) }

  /** `k` is the last configuration entry. */
  predicate LastCnf(es: seq<DirEntry>, k: nat) {
    k < |es| && CnfName(es[k].name) && forall i :: k < i < |es| ==> !CnfName(es[i].name)
  }

  lemma {:induction false} NamesOf(name: bytes)
    ensures StartsWith(Upper(name), Text("UMD_DATA.BIN")) || Upper(name) == Text("PSP_GAME") <==> PspName(name)
    ensures StartsWith(Upper(name), Text("SYSTEM.CNF")) <==> CnfName(name)
  {
    UpperSpells(name, "UMD_DATA.BIN");
    UpperSpells(name, "PSP_GAME");
    UpperSpells(name, "SYSTEM.CNF");
    hide StartsWith, Upper, Text;
  }

  lemma {:induction false} ScanMeans(es: seq<DirEntry>, found: RootScan)
    requires found != PspFound
    ensures ScanRoot(es, found) == PspFound <==> HasPsp(es)
    ensures !HasPsp(es) ==> forall k: nat :: LastCnf(es, k) ==> ScanRoot(es, found) == Config(es[k].lba, es[k].len)
    ensures !HasPsp(es) && (forall i :: 0 <= i < |es| ==> !CnfName(es[i].name)) ==> ScanRoot(es, found) == found
    decreases |es|
  {
    if es != [] {
      var (e, rest) := (es[0], es[1..]);
      NamesOf(e.name);
      hide StartsWith, Upper, Text, PspName, CnfName;
      var next := if CnfName(e.name) then Config(e.lba, e.len) else found;
      ScanMeans(rest, next);
      assert forall i :: 0 <= i < |rest| ==> rest[i] == es[i + 1];
      assert forall i :: 0 < i < |es| ==> es[i] == rest[i - 1];
      assert HasPsp(es) <==> PspName(e.name) || HasPsp(rest);
      if !HasPsp(es) {
        assert ScanRoot(es, found) == ScanRoot(rest, next);
        forall k: nat | LastCnf(es, k) ensures ScanRoot(es, found) == Config(es[k].lba, es[k].len) {
          if k > 0 {
            assert LastCnf(rest, k - 1);
          } else {
            assert forall i :: 0 <= i < |rest| ==> !CnfName(rest[i].name);
          }
        }
      }
    }
  }

  // ---------------------------------------------------------------- the platform of a laid-out image

  /** The number in the four bytes at `at`, the lowest first. */
  function Number(b: bytes, at: nat): nat
    requires at + 4 <= |b|
  {
    b[at] as int + 256 * (b[at + 1] as int + 256 * (b[at + 2] as int + 256 * b[at + 3] as int))
  }

  const PVD: nat := 0x8000

  /** A volume descriptor at sector 16 points at an extent laid out by the standard. */
  ghost predicate LaidOut(image: bytes, sectors: seq<seq<DirRecord>>, lba: nat) {
    && |image| >= PVD + 190 && image[PVD] == 1 && Spelled(image, PVD + 1, "CD001")
    && (forall s :: s in sectors ==> FitsSector(s)) && sectors != []
    && Number(image, PVD + 158) == lba && Number(image, PVD + 166) == |sectors| * SECTOR
    && lba * SECTOR + |sectors| * SECTOR <= |image|
    && image[lba * SECTOR..lba * SECTOR + |sectors| * SECTOR] == Extent(sectors)
  }

  /** The bytes of the file behind an entry, as far as the image goes. */
  function FileOf(image: bytes, e: DirEntry): bytes { Part(image, e.lba * SECTOR, e.lba * SECTOR + e.len) }

  lemma {:induction false} DescriptorReads(image: bytes)
    requires |image| >= PVD + 190
    ensures var pvd := ReadSectors(Cooked(image), PVD_LBA, 1);
      && |pvd| >= 190 && pvd[0] == image[PVD] && (pvd[1..6] == Text("CD001") <==> Spelled(image, PVD + 1, "CD001"))
      && Le32(pvd, 158) == Number(image, PVD + 158) && Le32(pvd, 166) == Number(image, PVD + 166)
  {
    CookedReads(image, PVD_LBA, 1);
    var pvd := ReadSectors(Cooked(image), PVD_LBA, 1);
    assert pvd == image[PVD..Min(PVD + SECTOR, |image|)];
    hide ReadSectors;
    assert forall i :: 0 <= i < 190 ==> pvd[i] == image[PVD + i];
    SpelledAt(image, PVD + 1, "CD001");
    assert pvd[1..6] == image[PVD + 1..PVD + 6];
  }

  lemma SectorsOfExtent(n: nat)
    requires n > 0
    ensures SectorsFor(n * SECTOR) == n
  {
  }

  lemma {:induction false} RootReads(image: bytes, sectors: seq<seq<DirRecord>>, lba: nat)
    requires LaidOut(image, sectors, lba)
    ensures Walk(ReadSectors(Cooked(image), lba, SectorsFor(|sectors| * SECTOR)), 0) == AllEntries(sectors)
  {
    var (n, start) := (|sectors|, lba * SECTOR);
    hide Extent, Spelled, FitsSector, Number, ReadSectors, Walk, AllEntries, SectorsFor;
    SectorsOfExtent(n);
    CookedReads(image, lba, n);
    SplitSectors(lba, n);
    assert Part(image, start, start + n * SECTOR) == image[start..start + n * SECTOR];
    ExtentReadsBack(sectors);
  }

  lemma SplitSectors(lba: nat, n: nat)
    ensures (lba + n) * SECTOR == lba * SECTOR + n * SECTOR
  {
  }

  lemma {:induction false} FileReads(image: bytes, e: DirEntry)
    ensures var data := ReadSectors(Cooked(image), e.lba, SectorsFor(e.len));
      data[..Min(e.len, |data|)] == FileOf(image, e)
  {
    var count := SectorsFor(e.len);
    CookedReads(image, e.lba, count);
    assert count * SECTOR >= e.len;
    assert (e.lba + count) * SECTOR == e.lba * SECTOR + count * SECTOR;
    hide ReadSectors, SectorsFor;
    var data := ReadSectors(Cooked(image), e.lba, count);
    var start := e.lba * SECTOR;
    assert data == image[Min(start, |image|)..Min(start + count * SECTOR, |image|)];
  }

  /** The file with that name on a PlayStation disc. */
  function FromCnf(file: bytes): Option<Platform> {
    if Contains(file, Text("BOOT2")) then Some(Ps2) else if Contains(file, Text("BOOT")) then Some(Ps1) else None
  }

  lemma {:induction false} IsoDecides(image: bytes, sectors: seq<seq<DirRecord>>, lba: nat)
    requires LaidOut(image, sectors, lba)
    ensures FromIso9660(Cooked(image)) ==
      match ScanRoot(AllEntries(sectors), Nothing)
      case PspFound => Some(Psp)
      case Nothing => None
      case Config(at, len) =>
        var data := ReadSectors(Cooked(image), at, SectorsFor(len));
        FromCnf(data[..Min(len, |data|)])
  {
    DescriptorReads(image);
    RootReads(image, sectors, lba);
    hide ReadSectors, Walk, AllEntries, SectorsFor, Contains, Text, Le32, Number, ScanRoot, Extent, Spelled;
  }

  lemma SpelledPrefix(b: bytes, at: nat, s: string, t: string)
    requires Spelled(b, at, s) && t <= s
    ensures Spelled(b, at, t)
  {
  }

  /** The token of a PlayStation 2 contains that of a PlayStation. */
  lemma {:induction false} CnfDecides(file: bytes)
    ensures FromCnf(file) == Some(Ps2) <==> Holds(file, "BOOT2")
    ensures FromCnf(file) == Some(Ps1) <==> Holds(file, "BOOT") && !Holds(file, "BOOT2")
    ensures FromCnf(file) == None <==> !Holds(file, "BOOT")
  {
    ContainsHolds(file, "BOOT2");
    ContainsHolds(file, "BOOT");
    if Holds(file, "BOOT2") {
      var at: nat :| Spelled(file, at, "BOOT2");
      SpelledPrefix(file, at, "BOOT2", "BOOT");
    }
    hide Contains, Text;
  }

  /** A disc with a signature in sector 0 is what the signature says. */
  lemma {:induction false} SignedPlatform(image: bytes)
    ensures var p := DetectDiscPlatform(Cooked(image));
      && (p == Some(Saturn) <==> Head(image, "SEGA SEGASATURN"))
      && (p == Some(Dreamcast) <==> Head(image, "SEGA SEGAKATANA"))
      && (p == Some(SegaCd) <==> Head(image, "SEGADISCSYSTEM") || Head(image, "SEGABOOTDISC"))
      && (p == Some(Wii) <==> !AnyHead(image) && WiiWord(image))
      && (p == Some(GameCube) <==> !AnyHead(image) && !WiiWord(image) && CubeWord(image))
      && (p == Some(N3ds) <==> !AnyHead(image) && !WiiWord(image) && !CubeWord(image) && NcsdWord(image))
  {
    SignatureDecides(image);
    IsoPlatforms(Cooked(image));
    hide FromSector0, FromIso9660, ReadSectors, Head, AnyHead, WiiWord, CubeWord, NcsdWord, Unsigned;
  }

  lemma IsoPlatforms(d: Disc)
    ensures FromIso9660(d) in {None, Some(Psp), Some(Ps1), Some(Ps2)}
  {
    hide ReadSectors, Walk, ScanRoot, Contains, Text, Le32, SectorsFor;
  }

  /**
   A disc without a signature whose root directory is laid out by sections 6.8.1.1 and 9.1 of ECMA-119: a UMD entry makes
   it a PSP disc; without one its last SYSTEM.CNF decides by the boot token in it.
   */
  lemma {:induction false} LaidOutPlatform(image: bytes, sectors: seq<seq<DirRecord>>, lba: nat)
    requires Unsigned(image) && LaidOut(image, sectors, lba)
    ensures var (p, es) := (DetectDiscPlatform(Cooked(image)), AllEntries(sectors));
      && (p == Some(Psp) <==> HasPsp(es))
      && (!HasPsp(es) && (forall i :: 0 <= i < |es| ==> !CnfName(es[i].name)) ==> p == None)
      && (!HasPsp(es) ==> forall k: nat :: LastCnf(es, k) ==> BootDecides(FileOf(image, es[k]), p))
  {
    SignatureDecides(image);
    IsoDecides(image, sectors, lba);
    var es := AllEntries(sectors);
    ScanMeans(es, Nothing);
    IsoPlatforms(Cooked(image));
    hide FromSector0, FromIso9660, ReadSectors, ScanRoot, AllEntries, FileOf, FromCnf, SectorsFor, Head, WiiWord, CubeWord,
         NcsdWord, PspName, CnfName, LaidOut;
    CnfNotPsp();
    if !HasPsp(es) {
      forall k: nat | LastCnf(es, k) ensures BootDecides(FileOf(image, es[k]), DetectDiscPlatform(Cooked(image))) {
        FileReads(image, es[k]);
        CnfDecides(FileOf(image, es[k]));
      }
    }
  }

  lemma CnfNotPsp()
    ensures forall file: bytes :: FromCnf(file) != Some(Psp)
  {
    hide Contains, Text;
  }

  /** What a boot file says of the platform. */
  ghost predicate BootDecides(file: bytes, p: Option<Platform>) {
    && (p == Some(Ps2) <==> Holds(file, "BOOT2"))
    && (p == Some(Ps1) <==> Holds(file, "BOOT") && !Holds(file, "BOOT2"))
    && (p == None <==> !Holds(file, "BOOT"))
  }
}
