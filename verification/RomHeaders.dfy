/** Known removable ROM headers: signatures, the size rules for copier headers, and their precedence. */
module RomHeaders {
  import opened Bytes

  const ROM_HEADER_BYTES: nat := 512
  const ROM_HEADER_SCAN_BYTES: nat := 0x10800
  const SNES_COPIER_HEADER_MODULUS: nat := 1024
  const PCE_COPIER_HEADER_MODULUS: nat := 8192

  const XISO_VOLUME_MAGIC: bytes := [0x4D, 0x49, 0x43, 0x52, 0x4F, 0x53, 0x4F, 0x46, 0x54, 0x2A, 0x58, 0x42, 0x4F, 0x58, 0x2A, 0x4D, 0x45, 0x44, 0x49, 0x41]
  const A78_HEADER_MAGIC: bytes := [0x41, 0x54, 0x41, 0x52, 0x49, 0x37, 0x38, 0x30, 0x30]
  const LNX_HEADER_MAGIC: bytes := [0x4C, 0x59, 0x4E, 0x58]
  const INES_HEADER_MAGIC: bytes := [0x4E, 0x45, 0x53, 0x1A]
  const FDS_HEADER_MAGIC: bytes := [0x46, 0x44, 0x53]
  const SMS_TMR_SEGA_MAGIC: bytes := [0x54, 0x4D, 0x52, 0x20, 0x53, 0x45, 0x47, 0x41]
  const NGP_COPYRIGHT_MAGIC: bytes := [0x43, 0x4F, 0x50, 0x59, 0x52, 0x49, 0x47, 0x48, 0x54, 0x20, 0x42, 0x59, 0x20, 0x53, 0x4E, 0x4B]
  const SEGA_MAGIC: bytes := [0x53, 0x45, 0x47, 0x41]
  const MSX_MAGIC: bytes := [0x41, 0x42]
  const NSRT_METADATA_MAGIC: bytes := [0x4E, 0x53, 0x52, 0x54]
  const GBA_HEADER_MAGIC: bytes := [0x24, 0xFF, 0xAE, 0x51]
  const N64_BIG_ENDIAN_MAGIC: bytes := [0x80, 0x37, 0x12, 0x40]
  const N64_LITTLE_ENDIAN_MAGIC: bytes := [0x40, 0x12, 0x37, 0x80]
  const N64_BYTE_SWAPPED_MAGIC: bytes := [0x37, 0x80, 0x40, 0x12]
  const SWC_ID_MAGIC: bytes := [0xAA, 0xBB, 0x04]
  const SMD_ID_MAGIC: bytes := [0xAA, 0xBB, 0x06]
  const SMC_GAME_DOCTOR_1_MAGIC: bytes := [
    0x00, 0x01, 0x4D, 0x45, 0x20, 0x44, 0x4F, 0x43, 0x54, 0x4F, 0x52, 0x20, 0x53, 0x46, 0x20, 0x33]
  const SMC_GAME_DOCTOR_2_MAGIC: bytes := [0x47, 0x41, 0x4D, 0x45, 0x20, 0x44, 0x4F, 0x43, 0x54, 0x4F, 0x52, 0x20, 0x53, 0x46, 0x20, 0x33]
  const GAME_BOY_NINTENDO_LOGO: bytes := [
    0xCE, 0xED, 0x66, 0x66, 0xCC, 0x0D, 0x00, 0x0B, 0x03, 0x73, 0x00, 0x83, 0x00, 0x0C, 0x00, 0x0D,
    0x00, 0x08, 0x11, 0x1F, 0x88, 0x89, 0x00, 0x0E, 0xDC, 0xCC, 0x6E, 0xE6, 0xDD, 0xDD, 0xD9, 0x99,
    0xBB, 0xBB, 0x67, 0x63, 0x6E, 0x0E, 0xEC, 0xCC, 0xDD, 0xDC, 0x99, 0x9F, 0xBB, 0xB9, 0x33, 0x3E]
  const GBA_NINTENDO_LOGO: bytes := [
    0x24, 0xFF, 0xAE, 0x51, 0x69, 0x9A, 0xA2, 0x21, 0x3D, 0x84, 0x82, 0x0A, 0x84, 0xE4, 0x09, 0xAD,
    0x11, 0x24, 0x8B, 0x98, 0xC0, 0x81, 0x7F, 0x21, 0xA3, 0x52, 0xBE, 0x19, 0x93, 0x09, 0xCE, 0x20,
    0x10, 0x46, 0x4A, 0x4A, 0xF8, 0x27, 0x31, 0xEC, 0x58, 0xC7, 0xE8, 0x33, 0x82, 0xE3, 0xCE, 0xBF,
    0x85, 0xF4, 0xDF, 0x94, 0xCE, 0x4B, 0x09, 0xC1, 0x94, 0x56, 0x8A, 0xC0, 0x13, 0x72, 0xA7, 0xFC,
    0x9F, 0x84, 0x4D, 0x73, 0xA3, 0xCA, 0x9A, 0x61, 0x58, 0x97, 0xA3, 0x27, 0xFC, 0x03, 0x98, 0x76,
    0x23, 0x1D, 0xC7, 0x61, 0x03, 0x04, 0xAE, 0x56, 0xBF, 0x38, 0x84, 0x00, 0x40, 0xA7, 0x0E, 0xFD,
    0xFF, 0x52, 0xFE, 0x03, 0x6F, 0x95, 0x30, 0xF1, 0x97, 0xFB, 0xC0, 0x85, 0x60, 0xD6, 0x80, 0x25,
    0xA9, 0x63, 0xBE, 0x03, 0x01, 0x4E, 0x38, 0xE2, 0xF9, 0xA2, 0x34, 0xFF, 0xBB, 0x3E, 0x03, 0x44,
    0x78, 0x00, 0x90, 0xCB, 0x88, 0x11, 0x3A, 0x94, 0x65, 0xC0, 0x7C, 0x63, 0x87, 0xF0, 0x3C, 0xAF,
    0xD6, 0x25, 0xE4, 0x8B, 0x38, 0x0A, 0xAC, 0x72, 0x21, 0xD4, 0xF8, 0x07]

  datatype Header =
    | A78 | Lnx | Nes | Fds | SnesCopier | PceCopier | SmcZero | SmcGameDoctor1 | SmcGameDoctor2
    | GameBoy | Gba | MegaDrive | SmsTmr | N64Header | Nds | NeoGeoPocket | Msx

  const ALL_HEADERS: seq<Header> := [
    A78, Lnx, Nes, Fds, SnesCopier, PceCopier, SmcZero, SmcGameDoctor1, SmcGameDoctor2,
    GameBoy, Gba, MegaDrive, SmsTmr, N64Header, Nds, NeoGeoPocket, Msx]

  /** A removable header: what it is and how many bytes it adds; `None` for an internal header. */
  datatype HeaderMatch = HeaderMatch(header: Header, stripped: Option<nat>)

  function DataOffset(h: Header): Option<nat> {
    match h
    case A78 => Some(128)
    case Lnx => Some(64)
    case Nes => Some(16)
    case Fds => Some(16)
    case SnesCopier => Some(ROM_HEADER_BYTES)
    case PceCopier => Some(ROM_HEADER_BYTES)
    case SmcZero => Some(ROM_HEADER_BYTES)
    case SmcGameDoctor1 => Some(ROM_HEADER_BYTES)
    case SmcGameDoctor2 => Some(ROM_HEADER_BYTES)
    case _ => None
  }

  function RetainedOnOutput(h: Header): bool {
    !(h.SnesCopier? || h.PceCopier? || h.SmcZero? || h.SmcGameDoctor1? || h.SmcGameDoctor2?)
  }

  /** The extensions, lowercase with the dot, that put `h` first in the search. */
  function Extensions(h: Header): set<string> {
    match h
    case A78 => {".a78"}
    case Lnx => {".lnx", ".lyx"}
    case Nes => {".nes"}
    case Fds => {".fds"}
    case SnesCopier => {".smc", ".sfc", ".swc", ".fig", ".gd3", ".gd7"}
    case PceCopier => {".pce", ".tg16"}
    case SmcZero => {".smc", ".sfc", ".swc", ".fig", ".gd3", ".gd7"}
    case SmcGameDoctor1 => {".smc", ".sfc", ".swc", ".fig", ".gd3", ".gd7"}
    case SmcGameDoctor2 => {".smc", ".sfc", ".swc", ".fig", ".gd3", ".gd7"}
    case GameBoy => {".gb", ".gbc"}
    case Gba => {".gba"}
    case MegaDrive => {".md", ".gen"}
    case SmsTmr => {".sms", ".gg"}
    case N64Header => {".z64", ".n64", ".v64"}
    case Nds => {".nds", ".dsi", ".srl"}
    case NeoGeoPocket => {".ngp", ".ngc"}
    case Msx => {".mx1", ".mx2"}
  }

  // ---------------------------------------------------------------- signatures

  /** The slice `[from, to)` exists and spells `magic`. */
  predicate SliceIs(b: bytes, from: nat, to: nat, magic: bytes)
    requires from <= to
  {
    to <= |b| && b[from..to] == magic
  }

  function AllZero(b: bytes): bool { forall i :: 0 <= i < |b| ==> b[i] == 0 }

  predicate SignatureMatches(h: Header, b: bytes) {
    match h
    case A78 => SliceIs(b, 1, 10, A78_HEADER_MAGIC)
    case Lnx => SliceIs(b, 0, 4, LNX_HEADER_MAGIC)
    case Nes => SliceIs(b, 0, 4, INES_HEADER_MAGIC)
    case Fds => SliceIs(b, 0, 3, FDS_HEADER_MAGIC)
    case SnesCopier => SliceIs(b, 8, 11, SWC_ID_MAGIC)
    case PceCopier => false
    case SmcZero => ROM_HEADER_BYTES <= |b| && AllZero(b[3..ROM_HEADER_BYTES])
    case SmcGameDoctor1 => SliceIs(b, 0, 16, SMC_GAME_DOCTOR_1_MAGIC)
    case SmcGameDoctor2 => SliceIs(b, 0, 16, SMC_GAME_DOCTOR_2_MAGIC)
    case GameBoy => SliceIs(b, 0x104, 0x134, GAME_BOY_NINTENDO_LOGO)
    case Gba => SliceIs(b, 0x04, 0x08, GBA_HEADER_MAGIC)
    case MegaDrive => 0x105 <= |b| && (SliceIs(b, 0x100, 0x104, SEGA_MAGIC) || SliceIs(b, 0x101, 0x105, SEGA_MAGIC))
    case SmsTmr =>
      0x7FF8 <= |b|
      && (SliceIs(b, 0x7FF0, 0x7FF8, SMS_TMR_SEGA_MAGIC) || SliceIs(b, 0x3FF0, 0x3FF8, SMS_TMR_SEGA_MAGIC)
          || SliceIs(b, 0x1FF0, 0x1FF8, SMS_TMR_SEGA_MAGIC))
    case N64Header =>
      SliceIs(b, 0, 4, N64_BIG_ENDIAN_MAGIC) || SliceIs(b, 0, 4, N64_LITTLE_ENDIAN_MAGIC)
      || SliceIs(b, 0, 4, N64_BYTE_SWAPPED_MAGIC)
    case Nds => SliceIs(b, 0xC0, 0xC4, GBA_HEADER_MAGIC)
    case NeoGeoPocket => SliceIs(b, 0, 16, NGP_COPYRIGHT_MAGIC)
    case Msx => SliceIs(b, 0, 2, MSX_MAGIC)
  }

  predicate HasGbaBootSignature(b: bytes) {
    SliceIs(b, 0x04, 0xA0, GBA_NINTENDO_LOGO) && SliceIs(b, 0xB2, 0xB3, [0x96])
  }

  predicate HasNsrtMetadata(b: bytes) { SliceIs(b, 0x1E8, 0x1EC, NSRT_METADATA_MAGIC) }

  predicate DeclaresSmdInterleave(b: bytes) { SliceIs(b, 8, 11, SMD_ID_MAGIC) }

  predicate HasXisoVolumeDescriptor(b: bytes) {
    SliceIs(b, 0x10000, 0x10014, XISO_VOLUME_MAGIC) && SliceIs(b, 0x107EC, 0x10800, XISO_VOLUME_MAGIC)
  }

  // ---------------------------------------------------------------- the search

  function Select(hs: seq<Header>, extension: string, matching: bool): seq<Header> {
    if hs == [] then []
    else (if (extension in Extensions(hs[0])) == matching then [hs[0]] else []) + Select(hs[1..], extension, matching)
  }

  /** Every header kind once, those the extension names first. */
  function Candidates(extension: Option<string>): seq<Header> {
    match extension
    case None => ALL_HEADERS
    case Some(e) => Select(ALL_HEADERS, e, true) + Select(ALL_HEADERS, e, false)
  }

  function FirstMatch(hs: seq<Header>, prefix: bytes): Option<Header> {
    if hs == [] then None
    else if SignatureMatches(hs[0], prefix) then Some(hs[0])
    else FirstMatch(hs[1..], prefix)
  }

  function DetectKnown(prefix: bytes, extension: Option<string>): Option<HeaderMatch> {
    if HasXisoVolumeDescriptor(prefix) then None
    else
      match FirstMatch(Candidates(extension), prefix)
      case None => None
      case Some(h) => Some(HeaderMatch(h, DataOffset(h)))
  }

  function DetectSizeBased(prefix: bytes, extension: Option<string>, totalLen: nat): Option<HeaderMatch> {
    if totalLen <= ROM_HEADER_BYTES || extension.None? then None
    else
      var kind :=
        if extension.value in {".smc", ".sfc"} && totalLen % SNES_COPIER_HEADER_MODULUS == ROM_HEADER_BYTES then
          Some(SnesCopier)
        else if extension.value in {".pce", ".tg16"} && totalLen % PCE_COPIER_HEADER_MODULUS == ROM_HEADER_BYTES then
          Some(PceCopier)
        else None;
      if kind.None? || DeclaresSmdInterleave(prefix) then None
      else Some(HeaderMatch(kind.value, Some(ROM_HEADER_BYTES)))
  }

  /** The header that stripping removes, from a prefix of the file and its total length. */
  function DetectStrippable(prefix: bytes, totalLen: nat, extension: Option<string>): Option<HeaderMatch> {
    if HasXisoVolumeDescriptor(prefix) then None
    else
      var known := DetectKnown(prefix, extension);
      if known.None? || known.value.stripped.None? then DetectSizeBased(prefix, extension, totalLen) else known
  }

  // ---------------------------------------------------------------- locality

  /** `a` and `b` show a detector the same thing: they agree on the scan window and both fill it. */
  ghost predicate SameWindow(a: bytes, b: bytes) {
    |a| >= ROM_HEADER_SCAN_BYTES && |b| >= ROM_HEADER_SCAN_BYTES
    && a[..ROM_HEADER_SCAN_BYTES] == b[..ROM_HEADER_SCAN_BYTES]
  }

  lemma SliceOfTake(b: bytes, n: nat, from: nat, to: nat)
    requires from <= to <= n <= |b|
    ensures b[from..to] == b[..n][from..to]
  {
  }

  lemma {:induction false} SliceLocal(a: bytes, b: bytes, from: nat, to: nat)
    requires SameWindow(a, b) && from <= to <= ROM_HEADER_SCAN_BYTES
    ensures a[from..to] == b[from..to]
  {
    SliceOfTake(a, ROM_HEADER_SCAN_BYTES, from, to);
    SliceOfTake(b, ROM_HEADER_SCAN_BYTES, from, to);
  }

  lemma {:induction false} SlicesLocal(a: bytes, b: bytes)
    requires SameWindow(a, b)
    ensures forall from, to :: 0 <= from <= to <= ROM_HEADER_SCAN_BYTES ==> a[from..to] == b[from..to]
  {
    forall from, to | 0 <= from <= to <= ROM_HEADER_SCAN_BYTES
      ensures a[from..to] == b[from..to]
    {
      SliceLocal(a, b, from, to);
    }
  }

  lemma {:induction false} SignatureLocal(h: Header, a: bytes, b: bytes)
    requires SameWindow(a, b)
    ensures SignatureMatches(h, a) == SignatureMatches(h, b)
  {
    SlicesLocal(a, b);
  }

  lemma {:induction false} FirstMatchLocal(hs: seq<Header>, a: bytes, b: bytes)
    requires SameWindow(a, b)
    ensures FirstMatch(hs, a) == FirstMatch(hs, b)
  {
    if hs != [] {
      SignatureLocal(hs[0], a, b);
      FirstMatchLocal(hs[1..], a, b);
    }
  }

  lemma {:induction false} XisoLocal(a: bytes, b: bytes)
    requires SameWindow(a, b)
    ensures HasXisoVolumeDescriptor(a) == HasXisoVolumeDescriptor(b)
  {
    SlicesLocal(a, b);
  }

  /** Header detection never looks past the scan window. */
  lemma {:induction false} DetectStrippableLocal(a: bytes, b: bytes, totalLen: nat, extension: Option<string>)
    requires SameWindow(a, b)
    ensures DetectStrippable(a, totalLen, extension) == DetectStrippable(b, totalLen, extension)
  {
    XisoLocal(a, b);
    FirstMatchLocal(Candidates(extension), a, b);
    SliceLocal(a, b, 8, 11);
  }

  lemma {:induction false} FirstMatchIsMatch(hs: seq<Header>, prefix: bytes)
    ensures FirstMatch(hs, prefix).Some? ==> SignatureMatches(FirstMatch(hs, prefix).value, prefix)
    ensures FirstMatch(hs, prefix).None? ==> forall h :: h in hs ==> !SignatureMatches(h, prefix)
  {
    if hs != [] { FirstMatchIsMatch(hs[1..], prefix); }
  }

  /** A stripped header is one of four sizes, and a signature-less one is only ever 512 bytes. */
  lemma {:induction false} StrippedSizes(prefix: bytes, totalLen: nat, extension: Option<string>)
    ensures var m := DetectStrippable(prefix, totalLen, extension);
      m.Some? && m.value.stripped.Some? ==>
        m.value.stripped.value in {16, 64, 128, ROM_HEADER_BYTES}
        && (SignatureMatches(m.value.header, prefix) || (m.value.stripped.value == ROM_HEADER_BYTES < totalLen))
  {
    FirstMatchIsMatch(Candidates(extension), prefix);
  }
}
