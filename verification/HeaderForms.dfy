/** What is stripped from headered files, and which variants a file has, said of the bytes of the file. */
module HeaderForms {
  import opened Bytes
  import opened RomHeaders
  import opened Variants
  import HeaderRepair
  import FixHeader
  import N64
  import Hashers

  // ---------------------------------------------------------------- signatures, spelled out

  /** An Xbox disc keeps its system area. */
  predicate XboxDisc(b: bytes) { Spelled(b, 0x1_0000, "MICROSOFT*XBOX*MEDIA") && Spelled(b, 0x1_07EC, "MICROSOFT*XBOX*MEDIA") }

  predicate Same(magic: bytes, s: string) { |magic| == |s| && forall i :: 0 <= i < |s| ==> magic[i] == s[i] as int }

  lemma {:induction false} SliceSpells(b: bytes, from: nat, s: string, magic: bytes)
    requires Same(magic, s)
    ensures SliceIs(b, from, from + |s|, magic) <==> Spelled(b, from, s)
  {
    if from + |s| <= |b| {
      var part := b[from..from + |s|];
      assert forall i :: 0 <= i < |s| ==> part[i] == b[from + i];
    }
  }

  lemma {:induction false} XboxSpelled(b: bytes)
    ensures HasXisoVolumeDescriptor(b) <==> XboxDisc(b)
  {
    SliceSpells(b, 0x1_0000, "MICROSOFT*XBOX*MEDIA", XISO_VOLUME_MAGIC);
    SliceSpells(b, 0x1_07EC, "MICROSOFT*XBOX*MEDIA", XISO_VOLUME_MAGIC);
  }

  predicate IsA78(b: bytes) { Spelled(b, 1, "ATARI7800") }

  predicate IsLynx(b: bytes) { Spelled(b, 0, "LYNX") }

  predicate IsNes(b: bytes) { |b| >= 4 && Spelled(b, 0, "NES") && b[3] == 0x1A }

  predicate IsFds(b: bytes) { Spelled(b, 0, "FDS") }

  /** A copier's own mark: a Super Wild Card id, a blank header, or either Game Doctor name. */
  predicate IsCopier(b: bytes) {
    || (|b| >= 11 && b[8] == 0xAA && b[9] == 0xBB && b[10] == 0x04)
    || (|b| >= 512 && forall i :: 3 <= i < 512 ==> b[i] == 0)
    || (|b| >= 2 && b[0] == 0 && b[1] == 1 && Spelled(b, 2, "ME DOCTOR SF 3"))
    || Spelled(b, 0, "GAME DOCTOR SF 3")
  }

  predicate IsSmd(b: bytes) { |b| >= 11 && b[8] == 0xAA && b[9] == 0xBB && b[10] == 0x06 }

  lemma {:induction false} FormatsSpelled(b: bytes)
    ensures SignatureMatches(A78, b) <==> IsA78(b)
    ensures SignatureMatches(Lnx, b) <==> IsLynx(b)
    ensures SignatureMatches(Nes, b) <==> IsNes(b)
    ensures SignatureMatches(Fds, b) <==> IsFds(b)
  {
    SliceSpells(b, 1, "ATARI7800", A78_HEADER_MAGIC);
    SliceSpells(b, 0, "LYNX", LNX_HEADER_MAGIC);
    SliceSpells(b, 0, "FDS", FDS_HEADER_MAGIC);
    if |b| >= 4 {
      var part := b[0..4];
      assert part[0] == b[0] && part[1] == b[1] && part[2] == b[2] && part[3] == b[3];
      assert "NES"[0] == 'N' && "NES"[1] == 'E' && "NES"[2] == 'S';
      assert part == INES_HEADER_MAGIC <==> b[0] == 0x4E && b[1] == 0x45 && b[2] == 0x53 && b[3] == 0x1A;
    }
  }

  lemma {:induction false} ThreeBytes(b: bytes, x: u8, y: u8, z: u8)
    ensures SliceIs(b, 8, 11, [x, y, z]) <==> |b| >= 11 && b[8] == x && b[9] == y && b[10] == z
  {
    if |b| >= 11 {
      var part := b[8..11];
      assert part[0] == b[8] && part[1] == b[9] && part[2] == b[10];
    }
  }

  lemma {:induction false} BlankHeader(b: bytes)
    ensures SignatureMatches(SmcZero, b) <==> |b| >= 512 && forall i :: 3 <= i < 512 ==> b[i] == 0
  {
    if |b| >= 512 {
      var part := b[3..512];
      assert forall i :: 3 <= i < 512 ==> b[i] == part[i - 3];
    }
  }

  lemma {:induction false} TwoThen(b: bytes, rest: bytes)
    ensures SliceIs(b, 0, 2 + |rest|, [0, 1] + rest) <==> |b| >= 2 && b[0] == 0 && b[1] == 1 && SliceIs(b, 2, 2 + |rest|, rest)
  {
    if |b| >= 2 + |rest| { assert b[0..2 + |rest|] == [b[0], b[1]] + b[2..2 + |rest|]; }
  }

  lemma {:induction false} GameDoctor(b: bytes)
    ensures SignatureMatches(SmcGameDoctor1, b) <==> |b| >= 2 && b[0] == 0 && b[1] == 1 && Spelled(b, 2, "ME DOCTOR SF 3")
    ensures SignatureMatches(SmcGameDoctor2, b) <==> Spelled(b, 0, "GAME DOCTOR SF 3")
  {
    SliceSpells(b, 0, "GAME DOCTOR SF 3", SMC_GAME_DOCTOR_2_MAGIC);
    SliceSpells(b, 2, "ME DOCTOR SF 3", SMC_GAME_DOCTOR_1_MAGIC[2..]);
    assert SMC_GAME_DOCTOR_1_MAGIC == [0, 1] + SMC_GAME_DOCTOR_1_MAGIC[2..];
    TwoThen(b, SMC_GAME_DOCTOR_1_MAGIC[2..]);
    hide Spelled;
  }

  lemma {:induction false} CopierSpelled(b: bytes)
    ensures IsCopier(b) <==>
      SignatureMatches(SnesCopier, b) || SignatureMatches(SmcZero, b) || SignatureMatches(SmcGameDoctor1, b)
      || SignatureMatches(SmcGameDoctor2, b)
  {
    ThreeBytes(b, 0xAA, 0xBB, 0x04);
    BlankHeader(b);
    GameDoctor(b);
    assert SignatureMatches(SnesCopier, b) == SliceIs(b, 8, 11, SWC_ID_MAGIC);
    hide SignatureMatches, SliceIs, Spelled;
  }

  // ---------------------------------------------------------------- what is stripped

  /** How many bytes stripping removes; none when there is nothing to strip. */
  function Stripped(prefix: bytes, totalLen: nat, extension: Option<string>): Option<nat> {
    var m :- DetectStrippable(prefix, totalLen, extension);
    m.stripped
  }

  lemma {:induction false} FirstOf(hs: seq<Header>, h: Header, prefix: bytes)
    requires hs != [] && hs[0] == h && SignatureMatches(h, prefix)
    ensures FirstMatch(hs, prefix) == Some(h)
  {
  }

  lemma {:induction false} SelectSkips(hs: seq<Header>, n: nat, e: string)
    requires n < |hs| && e in Extensions(hs[n]) && forall i :: 0 <= i < n ==> e !in Extensions(hs[i])
    ensures Select(hs, e, true) != [] && Select(hs, e, true)[0] == hs[n]
    decreases n
  {
    hide Extensions;
    if n > 0 {
      assert hs[1..][n - 1] == hs[n];
      SelectSkips(hs[1..], n - 1, e);
    }
  }

  lemma ExtensionsDiffer(e: string, f: string, i: nat)
    requires i < |e| && i < |f| && e[i] != f[i]
    ensures e != f
  {
  }

  lemma {:induction false} NotBefore()
    ensures ".lnx" !in Extensions(A78) && ".lyx" !in Extensions(A78) && ".nes" !in Extensions(A78) && ".fds" !in Extensions(A78)
    ensures ".nes" !in Extensions(Lnx) && ".fds" !in Extensions(Lnx) && ".fds" !in Extensions(Nes)
  {
    ExtensionsDiffer(".lnx", ".a78", 1);
    ExtensionsDiffer(".lyx", ".a78", 1);
    ExtensionsDiffer(".nes", ".a78", 1);
    ExtensionsDiffer(".fds", ".a78", 1);
    ExtensionsDiffer(".nes", ".lnx", 1);
    ExtensionsDiffer(".nes", ".lyx", 1);
    ExtensionsDiffer(".fds", ".lnx", 1);
    ExtensionsDiffer(".fds", ".lyx", 1);
    ExtensionsDiffer(".fds", ".nes", 1);
  }

  /** The kinds that lead the search when their extension is given. */
  predicate Leads(e: string, h: Header) {
    match h
    case A78 => e == ".a78"
    case Lnx => e == ".lnx" || e == ".lyx"
    case Nes => e == ".nes"
    case Fds => e == ".fds"
    case _ => false
  }

  lemma LeadsAfter(e: string, h: Header, n: nat)
    requires Leads(e, h) && n == if h == A78 then 0 else if h == Lnx then 1 else if h == Nes then 2 else 3
    ensures n < |ALL_HEADERS| && ALL_HEADERS[n] == h && e in Extensions(h)
    ensures forall i :: 0 <= i < n ==> e !in Extensions(ALL_HEADERS[i])
  {
    NotBefore();
    assert e in Extensions(h);
    hide Extensions;
    assert ALL_HEADERS[0] == A78 && ALL_HEADERS[1] == Lnx && ALL_HEADERS[2] == Nes && ALL_HEADERS[3] == Fds;
  }

  lemma CandidatesStart(hs: seq<Header>, e: string)
    requires hs == ALL_HEADERS && Select(hs, e, true) != []
    ensures Candidates(Some(e)) != [] && Candidates(Some(e))[0] == Select(hs, e, true)[0]
  {
    hide Select;
  }

  lemma {:induction false} LeadingKind(e: string, h: Header)
    requires Leads(e, h)
    ensures Candidates(Some(e)) != [] && Candidates(Some(e))[0] == h
  {
    hide *;
    var n := if h == A78 then 0 else if h == Lnx then 1 else if h == Nes then 2 else 3;
    LeadsAfter(e, h, n);
    SelectSkips(ALL_HEADERS, n, e);
    CandidatesStart(ALL_HEADERS, e);
  }

  /** The kinds of file a header can announce, their extension, and its length. */
  predicate Headered(b: bytes, extension: string, length: nat) {
    || (IsA78(b) && extension == ".a78" && length == 128)
    || (IsLynx(b) && extension in {".lnx", ".lyx"} && length == 64)
    || (IsNes(b) && extension == ".nes" && length == 16)
    || (IsFds(b) && extension == ".fds" && length == 16)
  }

  /** A headered file under its own extension loses its header, whatever else it looks like. */
  lemma {:induction false} HeaderedIsStripped(prefix: bytes, totalLen: nat, extension: string, length: nat)
    requires Headered(prefix, extension, length) && !XboxDisc(prefix)
    ensures Stripped(prefix, totalLen, Some(extension)) == Some(length)
  {
    XboxSpelled(prefix);
    FormatsSpelled(prefix);
    var h := if IsA78(prefix) && length == 128 then A78 else if IsLynx(prefix) && length == 64 then Lnx
             else if IsNes(prefix) && extension == ".nes" then Nes else Fds;
    hide IsA78, IsLynx, IsNes, IsFds, SignatureMatches, Candidates, HasXisoVolumeDescriptor, XboxDisc;
    LeadingKind(extension, h);
    FirstOf(Candidates(Some(extension)), h, prefix);
  }

  predicate AnyMark(b: bytes) { IsA78(b) || IsLynx(b) || IsNes(b) || IsFds(b) || IsCopier(b) }

  /** The length of a copier header that shows in the size alone. */
  predicate SizeShows(b: bytes, totalLen: nat, extension: Option<string>) {
    && extension.Some? && totalLen > 512 && !IsSmd(b)
    && ((extension.value in {".smc", ".sfc"} && totalLen % 1024 == 512)
        || (extension.value in {".pce", ".tg16"} && totalLen % 8192 == 512))
  }

  lemma {:induction false} SizeDecides(b: bytes, totalLen: nat, extension: Option<string>)
    ensures DetectSizeBased(b, extension, totalLen).Some? <==> SizeShows(b, totalLen, extension)
    ensures DetectSizeBased(b, extension, totalLen).Some? ==> DetectSizeBased(b, extension, totalLen).value.stripped == Some(512)
  {
    ThreeBytes(b, 0xAA, 0xBB, 0x06);
    hide SliceIs;
    assert DeclaresSmdInterleave(b) <==> IsSmd(b) by { assert SMD_ID_MAGIC == [0xAA, 0xBB, 0x06]; }
    if extension.Some? && extension.value in {".smc", ".sfc"} { SnesIsNotPce(extension.value); }
    hide DeclaresSmdInterleave, IsSmd;
  }

  lemma SnesIsNotPce(e: string)
    requires e in {".smc", ".sfc"}
    ensures e !in {".pce", ".tg16"}
  {
    ExtensionsDiffer(".smc", ".pce", 1);
    ExtensionsDiffer(".smc", ".tg16", 1);
    ExtensionsDiffer(".sfc", ".pce", 1);
    ExtensionsDiffer(".sfc", ".tg16", 1);
  }

  lemma {:induction false} OffsetShows(h: Header, b: bytes)
    requires SignatureMatches(h, b) && DataOffset(h).Some?
    ensures (DataOffset(h) == Some(128) && IsA78(b)) || (DataOffset(h) == Some(64) && IsLynx(b))
         || (DataOffset(h) == Some(16) && (IsNes(b) || IsFds(b))) || (DataOffset(h) == Some(512) && IsCopier(b))
  {
    FormatsSpelled(b);
    CopierSpelled(b);
    assert !SignatureMatches(PceCopier, b);
    hide SignatureMatches, IsA78, IsLynx, IsNes, IsFds, IsCopier;
  }

  /** The format a file shows has a header of that length. */
  predicate ShowsLength(b: bytes, n: nat) {
    || (n == 128 && IsA78(b)) || (n == 64 && IsLynx(b)) || (n == 16 && (IsNes(b) || IsFds(b))) || (n == 512 && IsCopier(b))
  }

  lemma {:induction false} KnownShows(b: bytes, extension: Option<string>)
    ensures var known := DetectKnown(b, extension);
      known.Some? && known.value.stripped.Some? ==> ShowsLength(b, known.value.stripped.value)
  {
    FirstMatchIsMatch(Candidates(extension), b);
    hide SignatureMatches, Candidates, FirstMatch, HasXisoVolumeDescriptor, IsA78, IsLynx, IsNes, IsFds, IsCopier, DataOffset;
    var m := FirstMatch(Candidates(extension), b);
    if m.Some? && DataOffset(m.value).Some? { OffsetShows(m.value, b); }
  }

  /** What is stripped is the header of a format the file shows, or that of a copier. */
  lemma {:induction false} StrippedShows(b: bytes, totalLen: nat, extension: Option<string>)
    ensures Stripped(b, totalLen, extension).Some? ==>
      !XboxDisc(b)
      && (var n := Stripped(b, totalLen, extension).value;
          ShowsLength(b, n) || (n == 512 && SizeShows(b, totalLen, extension)))
  {
    XboxSpelled(b);
    SizeDecides(b, totalLen, extension);
    KnownShows(b, extension);
    hide DetectKnown, DetectSizeBased, HasXisoVolumeDescriptor, XboxDisc, ShowsLength, SizeShows;
  }

  /** A file that shows no format is stripped exactly by its size. */
  lemma {:induction false} UnmarkedBySize(b: bytes, totalLen: nat, extension: Option<string>)
    requires !AnyMark(b) && !XboxDisc(b)
    ensures Stripped(b, totalLen, extension) == if SizeShows(b, totalLen, extension) then Some(512) else None
  {
    XboxSpelled(b);
    SizeDecides(b, totalLen, extension);
    KnownShows(b, extension);
    hide DetectKnown, DetectSizeBased, HasXisoVolumeDescriptor, XboxDisc, SizeShows, IsA78, IsLynx, IsNes, IsFds, IsCopier;
  }

  lemma SpelledInside(b: bytes, n: nat, at: nat, s: string)
    requires at + |s| <= n <= |b|
    ensures Spelled(b[..n], at, s) <==> Spelled(b, at, s)
  {
  }

  /** A stripped header returns on output when it is a format's own, or a copier's with dump metadata in it. */
  lemma {:induction false} RetainedWhen(c: Config, header: bytes)
    ensures PlanRemoval(c, header).Some? ==>
      var r := PlanRemoval(c, header).value;
      && Stripped(header, c.totalLen, c.extension) == Some(r.stripped) && r.stripped <= c.totalLen
      && (r.retainOnOutput <==> r.stripped != 512 || (|header| >= 512 && Spelled(header, 0x1E8, "NSRT")))
  {
    StrippedSizes(header, c.totalLen, c.extension);
    KindsByLength(header, c.totalLen, c.extension);
    var m := DetectStrippable(header, c.totalLen, c.extension);
    if |header| >= 512 {
      SliceSpells(header[..512], 0x1E8, "NSRT", NSRT_METADATA_MAGIC);
      SpelledInside(header, 512, 0x1E8, "NSRT");
    }
    hide DetectStrippable, RetainedOnOutput, SliceIs;
  }

  lemma {:induction false} KindsByLength(header: bytes, totalLen: nat, extension: Option<string>)
    ensures var m := DetectStrippable(header, totalLen, extension);
      m.Some? && m.value.stripped.Some? ==> (RetainedOnOutput(m.value.header) <==> m.value.stripped.value != 512)
  {
    hide SignatureMatches, Candidates, FirstMatch, HasXisoVolumeDescriptor, DeclaresSmdInterleave;
  }

  // ---------------------------------------------------------------- which variants a file has

  predicate IsPbp(b: bytes) { |b| >= 4 && b[0] == 0 && b[1] == 0x50 && b[2] == 0x42 && b[3] == 0x50 }

  lemma {:induction false} PbpSpelled(b: bytes)
    ensures SliceIs(b, 0, 4, PBP_MAGIC) <==> IsPbp(b)
  {
    if |b| >= 4 {
      var part := b[0..4];
      assert part[0] == b[0] && part[1] == b[1] && part[2] == b[2] && part[3] == b[3];
      assert part == PBP_MAGIC <==> IsPbp(b);
    }
  }

  /** The rows of an answer, by id: what each variant needs to be there. */
  ghost predicate RowsFor(c: Config, header: bytes, data: bytes, ids: seq<VariantId>, deferred: bool) {
    && RawId in ids
    && (RemoveHeaderId in ids <==>
          !IsPbp(header) && Stripped(header, c.totalLen, c.extension).Some?
          && Stripped(header, c.totalLen, c.extension).value <= c.totalLen)
    && (forall o: N64.ByteOrder :: OrderId(o) in ids <==> !IsPbp(header) && c.totalLen % 4 == 0 && N64.Detect(header).Some?)
    && (FixHeaderId in ids || deferred <==> !IsPbp(header) && Repairable(header, c.totalLen, data))
    && !(FixHeaderId in ids && deferred)
    && (deferred ==> HeaderRepair.PlanSega(header, c.totalLen).Some?)
    && (FixHeaderId in ids ==> HeaderRepair.PlanSega(header, c.totalLen).None?)
  }

  /** Some header checksum is wrong. */
  ghost predicate Repairable(header: bytes, totalLen: nat, data: bytes) {
    var plan := HeaderRepair.PlanRepairs(header, totalLen);
    plan.Some? && HeaderRepair.WellPlanned(plan.value) && HeaderRepair.Resolve(plan.value, data) != []
  }

  lemma {:induction false} PlanMeans(c: Config, header: bytes)
    ensures var p := PlanFor(c, header);
      && (p.removal.Some? <==> !IsPbp(header) && Stripped(header, c.totalLen, c.extension).Some?
                               && Stripped(header, c.totalLen, c.extension).value <= c.totalLen)
      && (p.order.Some? <==> !IsPbp(header) && c.totalLen % 4 == 0 && N64.Detect(header).Some?)
      && p.repairs == (if IsPbp(header) then None else HeaderRepair.PlanRepairs(header, c.totalLen))
      && (p.repairs.Some? ==> p.repairs.value.sega == HeaderRepair.PlanSega(header, c.totalLen))
  {
    PbpSpelled(header);
    if HeaderRepair.PlanRepairs(header, c.totalLen).Some? {
      HeaderRepair.PlanParts(header, c.totalLen, HeaderRepair.PlanRepairs(header, c.totalLen).value);
    }
    hide DetectStrippable, N64.Detect, HeaderRepair.PlanRepairs, SliceIs, IsPbp, RetainedOnOutput, HasNsrtMetadata;
  }

  lemma {:induction false} AnswerParts(c: Config, data: bytes)
    requires c.algorithms != []
    ensures var p := PlanFor(c, HeaderOf(data));
      && (p.repairs.Some? ==> HeaderRepair.WellPlanned(p.repairs.value))
      && IdsOf(WholeFile(c, data).rows) == IdsBeforeFix(p) + IdsOf(FixRows(FixOutcome(c, p, data))) + IdsAfterFix(p)
      && (WholeFile(c, data).deferred.Some? <==> FixOutcome(c, p, data).Deferred?)
  {
    var p := PlanFor(c, HeaderOf(data));
    PlanWellPlanned(c, HeaderOf(data));
    AnswerIds(c, p, data);
    hide HeaderOf, PlanFor, IdsOf, FixRows, FixOutcome, HeadRows, TailRows;
  }

  lemma {:induction false} IdsListed(p: Plan, fixed: seq<VariantId>, ids: seq<VariantId>)
    requires (fixed == [] || fixed == [FixHeaderId]) && ids == IdsBeforeFix(p) + fixed + IdsAfterFix(p)
    ensures RawId in ids && (RemoveHeaderId in ids <==> p.removal.Some?)
    ensures (forall o: N64.ByteOrder :: OrderId(o) in ids <==> p.order.Some?)
    ensures FixHeaderId in ids <==> fixed == [FixHeaderId]
  {
    OrdersListed(p);
    var before := IdsBeforeFix(p);
    assert RawId in before && (RemoveHeaderId in before <==> p.removal.Some?) && FixHeaderId !in before;
    assert forall o: N64.ByteOrder :: OrderId(o) !in before;
    hide IdsBeforeFix, IdsAfterFix;
    assert forall id :: id in ids <==> id in before || id in fixed || id in IdsAfterFix(p);
  }

  /** Which rows a finished answer has. */
  lemma {:induction false} RowsPresent(c: Config, data: bytes)
    requires c.algorithms != []
    ensures RowsFor(c, HeaderOf(data), data, IdsOf(WholeFile(c, data).rows), WholeFile(c, data).deferred.Some?)
  {
    hide *;
    var header := HeaderOf(data);
    var p := PlanFor(c, header);
    AnswerParts(c, data);
    PlanMeans(c, header);
    FixMeans(c, p, data);
    IdsListed(p, IdsOf(FixRows(FixOutcome(c, p, data))), IdsOf(WholeFile(c, data).rows));
    RowsCombine(c, header, data, p, FixOutcome(c, p, data), IdsOf(WholeFile(c, data).rows), WholeFile(c, data).deferred.Some?);
  }

  lemma {:induction false} RowsCombine(c: Config, header: bytes, data: bytes, p: Plan, o: FixHeader.Outcome, ids: seq<VariantId>, deferred: bool)
    requires p.removal.Some? <==>
      !IsPbp(header) && Stripped(header, c.totalLen, c.extension).Some?
      && Stripped(header, c.totalLen, c.extension).value <= c.totalLen
    requires p.order.Some? <==> !IsPbp(header) && c.totalLen % 4 == 0 && N64.Detect(header).Some?
    requires p.repairs == if IsPbp(header) then None else HeaderRepair.PlanRepairs(header, c.totalLen)
    requires p.repairs.Some? ==> HeaderRepair.WellPlanned(p.repairs.value)
    requires RawId in ids && (RemoveHeaderId in ids <==> p.removal.Some?)
    requires forall o: N64.ByteOrder :: OrderId(o) in ids <==> p.order.Some?
    requires deferred <==> o.Deferred?
    requires !(FixHeaderId in ids && deferred)
    requires p.repairs.Some? ==> p.repairs.value.sega == HeaderRepair.PlanSega(header, c.totalLen)
    requires FixHeaderId in ids || deferred <==> p.repairs.Some? && HeaderRepair.Resolve(p.repairs.value, data) != []
    requires deferred ==> p.repairs.value.sega.Some?
    requires FixHeaderId in ids ==> p.repairs.value.sega.None?
    ensures RowsFor(c, header, data, ids, deferred)
  {
    hide Stripped, IsPbp, N64.Detect, HeaderRepair.PlanRepairs, HeaderRepair.WellPlanned, HeaderRepair.Resolve,
         HeaderRepair.PlanSega;
  }

  lemma {:induction false} OrdersListed(p: Plan)
    ensures forall o: N64.ByteOrder :: OrderId(o) in IdsAfterFix(p) <==> p.order.Some?
    ensures forall id :: id in IdsAfterFix(p) ==> id.OrderId?
  {
    if p.order.Some? {
      forall o: N64.ByteOrder ensures OrderId(o) in IdsAfterFix(p) {
        var i := match o case BigEndian => 0 case LittleEndian => 1 case ByteSwapped => 2;
        assert IdsAfterFix(p)[i] == OrderId(o);
      }
    }
  }

  /** Only a Genesis checksum reaches far enough to be left to a second read. */
  lemma {:induction false} GenesisDefers(r: HeaderRepair.Repairs)
    ensures HeaderRepair.DefersDigest(r) <==> r.sega.Some?
  {
  }

  lemma {:induction false} FixMeans(c: Config, p: Plan, data: bytes)
    requires p.repairs.Some? ==> HeaderRepair.WellPlanned(p.repairs.value)
    ensures var (o, fixed) := (FixOutcome(c, p, data), IdsOf(FixRows(FixOutcome(c, p, data))));
      && (fixed == [] || fixed == [FixHeaderId]) && !(fixed == [FixHeaderId] && o.Deferred?)
      && (fixed == [FixHeaderId] || o.Deferred? <==>
            p.repairs.Some? && HeaderRepair.Resolve(p.repairs.value, data) != [])
      && (o.Deferred? ==> p.repairs.value.sega.Some?)
      && (fixed == [FixHeaderId] ==> p.repairs.value.sega.None?)
  {
    if p.repairs.Some? { GenesisDefers(p.repairs.value); }
    hide HeaderRepair.Resolve, Share, NewHasher, HeaderRepair.RepairedProfiles, HeaderRepair.DefersDigest;
    var o := FixOutcome(c, p, data);
    assert o.Row? ==> IdsOf(FixRows(o)) == [FixHeaderId];
    assert !o.Row? ==> IdsOf(FixRows(o)) == [];
  }

  // ---------------------------------------------------------------- a headered file

  lemma {:induction false} SpelledInHeader(data: bytes, at: nat, s: string)
    requires at + |s| <= PLAN_SCAN_BYTES
    ensures Spelled(HeaderOf(data), at, s) <==> Spelled(data, at, s)
  {
  }

  lemma {:induction false} HeaderedStarts(data: bytes, extension: string, length: nat)
    requires Headered(data, extension, length) && !XboxDisc(data)
    ensures Headered(HeaderOf(data), extension, length) && !XboxDisc(HeaderOf(data)) && !IsPbp(HeaderOf(data))
  {
    SpelledInHeader(data, 0x1_0000, "MICROSOFT*XBOX*MEDIA");
    SpelledInHeader(data, 0x1_07EC, "MICROSOFT*XBOX*MEDIA");
    SpelledInHeader(data, 1, "ATARI7800");
    SpelledInHeader(data, 0, "LYNX");
    SpelledInHeader(data, 0, "NES");
    SpelledInHeader(data, 0, "FDS");
    assert "ATARI7800"[0] == 'A' && "LYNX"[0] == 'L' && "NES"[0] == 'N' && "FDS"[0] == 'F';
    assert IsA78(data) ==> data[1 + 0] == 'A' as int;
    assert IsLynx(data) ==> data[0 + 0] == 'L' as int;
    assert IsNes(data) ==> data[0 + 0] == 'N' as int;
    assert IsFds(data) ==> data[0 + 0] == 'F' as int;
    hide Spelled;
  }

  /** A file of a headered format, under its own extension, has a row hashed over what follows the header. */
  lemma {:induction false} HeaderedFileRow(c: Config, data: bytes, extension: string, length: nat)
    requires Headered(data, extension, length) && !XboxDisc(data) && length <= |data|
    requires c.algorithms != [] && c.totalLen == |data| && c.extension == Some(extension)
    ensures exists i :: 0 <= i < |WholeFile(c, data).rows| && RemovedRow(c, data, length, WholeFile(c, data).rows[i])
  {
    hide *;
    var header := HeaderOf(data);
    HeaderedStarts(data, extension, length);
    HeaderedIsStripped(header, c.totalLen, extension, length);
    RowsPresent(c, data);
    var ids := IdsOf(WholeFile(c, data).rows);
    RemovedListed(c, header, data, ids, WholeFile(c, data).deferred.Some?);
    var i: nat :| i < |ids| && ids[i] == RemoveHeaderId;
    IdsAre(WholeFile(c, data).rows, i);
    RowsAreFull(c, data, i);
    RemovedIsFull(c, data, length, WholeFile(c, data).rows[i]);
  }

  lemma IdsAre(rows: seq<Row>, i: nat)
    ensures |IdsOf(rows)| == |rows| && (i < |rows| ==> IdsOf(rows)[i] == rows[i].id)
  {
  }

  lemma RemovedListed(c: Config, header: bytes, data: bytes, ids: seq<VariantId>, deferred: bool)
    requires RowsFor(c, header, data, ids, deferred) && !IsPbp(header)
    requires Stripped(header, c.totalLen, c.extension).Some? && Stripped(header, c.totalLen, c.extension).value <= c.totalLen
    ensures exists i: nat :: i < |ids| && ids[i] == RemoveHeaderId
  {
    hide Stripped, IsPbp, Repairable, N64.Detect;
  }

  /** A row of all requested algorithms over the file behind its first `length` bytes. */
  predicate RemovedRow(c: Config, data: bytes, length: nat, r: Row) {
    && length <= |data| && r.id == RemoveHeaderId && r.hasher.Some?
    && r.hasher.value.algorithms == c.algorithms && r.hasher.value.fed == data[length..]
  }

  lemma {:induction false} RemovedIsFull(c: Config, data: bytes, length: nat, r: Row)
    requires RowIsFull(c, data, r) && r.id == RemoveHeaderId && length <= |data|
    requires Stripped(HeaderOf(data), c.totalLen, c.extension) == Some(length)
    ensures RemovedRow(c, data, length, r)
  {
    hide CoversRequest, TakesPrecomputed, DetectStrippable, HeaderOf;
  }
}
