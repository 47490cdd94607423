/** The games of an identify pack, the keys its tables are ordered by, and what a round trip keeps of a game. */
module PackModel {
  import opened Bytes
  import opened Hex
  import opened Order

  datatype IdentifySource = FromLibretro | FromOpenGood | FromRedump

  datatype Upstream = Libretro | Redump | NoIntro | Tosec | Mame | Fbneo | OpenGood | Unknown

  datatype Role =
    PrimaryPayload | DataTrack | AudioTrack | ArcadeRom | Partition | ContentFile | DiskSide | ChildDisc

  datatype Provenance = Provenance(
    source: str, sourceName: Option<str>, sourceUrl: Option<str>, sourceCommit: Option<str>, license: Option<str>)

  /** What identifies a file: its size, the scope of the digests, and the digests as hexadecimal text. */
  datatype HashKey = HashKey(
    size: u64, scope: str, crc32: Option<str>, md5: Option<str>, sha1: Option<str>, sha256: Option<str>)

  datatype Component = Component(
    role: Role, ordinal: u32, hash: HashKey, filename: Option<str>, required: bool, discriminating: bool,
    track: Option<u32>, session: Option<u32>)

  datatype Game = Game(
    name: str, platform: str, source: IdentifySource, upstream: Upstream, provenance: seq<Provenance>, legacy: bool,
    dumpTags: seq<str>, alternateNames: seq<str>, gameId: Option<str>, region: Option<str>, language: Option<str>,
    disc: Option<u32>, revision: Option<str>, parent: Option<str>, components: seq<Component>)

  datatype Manifest = Manifest(
    format: str, platform: str, source: IdentifySource, profile: str, version: u32, provenance: seq<Provenance>)

  // ---------------------------------------------------------------- codes

  function RoleCode(r: Role): u8 {
    match r
    case PrimaryPayload => 0
    case DataTrack => 1
    case AudioTrack => 2
    case ArcadeRom => 3
    case Partition => 4
    case ContentFile => 5
    case DiskSide => 6
    case ChildDisc => 7
  }

  function RoleOf(code: u8): Option<Role> {
    if code == 0 then Some(PrimaryPayload)
    else if code == 1 then Some(DataTrack)
    else if code == 2 then Some(AudioTrack)
    else if code == 3 then Some(ArcadeRom)
    else if code == 4 then Some(Partition)
    else if code == 5 then Some(ContentFile)
    else if code == 6 then Some(DiskSide)
    else if code == 7 then Some(ChildDisc)
    else None
  }

  /** An unknown upstream is not written. */
  function UpstreamCode(u: Upstream): Option<u8> {
    match u
    case Libretro => Some(0)
    case Redump => Some(1)
    case NoIntro => Some(2)
    case Tosec => Some(3)
    case Mame => Some(4)
    case Fbneo => Some(5)
    case OpenGood => Some(6)
    case Unknown => None
  }

  function UpstreamOf(code: Option<u8>): Option<Upstream> {
    if code == None then Some(Unknown)
    else if code == Some(0) then Some(Libretro)
    else if code == Some(1) then Some(Redump)
    else if code == Some(2) then Some(NoIntro)
    else if code == Some(3) then Some(Tosec)
    else if code == Some(4) then Some(Mame)
    else if code == Some(5) then Some(Fbneo)
    else if code == Some(6) then Some(OpenGood)
    else None
  }

  // ---------------------------------------------------------------- sort keys

  function TextKey(s: str): Key { [s] }

  function IdKey(n: u32): Key { [[n]] }

  function IdsKey(ids: seq<u32>): Key { [ids] }

  /** An absent field comes before every present one. */
  function OptKey(o: Option<str>): seq<int> { match o case None => [] case Some(s) => [0] + s }

  function HashOrder(h: HashKey): Key {
    [[h.size], h.scope, OptKey(h.crc32), OptKey(h.md5), OptKey(h.sha1), OptKey(h.sha256)]
  }

  function GameOrder(g: Game): Key {
    [g.platform, g.name, match g.gameId case None => [] case Some(id) => id]
  }

  lemma {:induction false} OptKeyInjective(a: Option<str>, b: Option<str>)
    requires OptKey(a) == OptKey(b)
    ensures a == b
  {
    if a.Some? && b.Some? {
      assert OptKey(a)[1..] == a.value && OptKey(b)[1..] == b.value;
    }
  }

  lemma {:induction false} HashOrderInjective()
    ensures Injective(HashOrder)
  {
    forall a: HashKey, b: HashKey | HashOrder(a) == HashOrder(b) ensures a == b {
      var (x, y) := (HashOrder(a), HashOrder(b));
      assert x[0] == y[0] && x[1] == y[1] && x[2] == y[2] && x[3] == y[3] && x[4] == y[4] && x[5] == y[5];
      assert x[0][0] == y[0][0];
      OptKeyInjective(a.crc32, b.crc32);
      OptKeyInjective(a.md5, b.md5);
      OptKeyInjective(a.sha1, b.sha1);
      OptKeyInjective(a.sha256, b.sha256);
    }
  }

  lemma {:induction false} SimpleKeysInjective()
    ensures Injective(TextKey) && Injective(IdKey) && Injective(IdsKey)
  {
    forall a: str, b: str | TextKey(a) == TextKey(b) ensures a == b { assert TextKey(a)[0] == TextKey(b)[0]; }
    forall a: u32, b: u32 | IdKey(a) == IdKey(b) ensures a == b { assert IdKey(a)[0][0] == IdKey(b)[0][0]; }
    forall a: seq<u32>, b: seq<u32> | IdsKey(a) == IdsKey(b) ensures a == b { assert IdsKey(a)[0] == IdsKey(b)[0]; }
  }

  lemma {:induction false} SingleNumbers(a: int, b: int)
    ensures TextLess([a], [b]) <==> a < b
    ensures [a] == [b] <==> a == b
  {
    assert [a][1..] == [] && [b][1..] == [];
    assert !Lex(NumLess, [], []);
    assert [a][0] == a && [b][0] == b;
  }

  /** Rows ordered by hash key have their sizes in ascending order. */
  lemma {:induction false} SizesAscend(a: HashKey, b: HashKey)
    requires KeyLess(HashOrder(a), HashOrder(b))
    ensures a.size <= b.size
  {
    SingleNumbers(a.size, b.size);
    assert TextLess([a.size], [b.size]) || [a.size] == [b.size];
  }

  lemma {:induction false} IdKeyOrder(a: u32, b: u32)
    ensures KeyLess(IdKey(a), IdKey(b)) <==> a < b
  {
    SingleNumbers(a, b);
    assert IdKey(a)[1..] == [] && IdKey(b)[1..] == [];
    assert !Lex(TextLess, [], []);
  }

  // ---------------------------------------------------------------- what a round trip returns

  predicate Digest(d: Option<str>, width: nat) { d.Some? ==> IsHexOf(d.value, width) }

  /** Lowercase text of the digest's own width. */
  predicate CanonicalHash(h: HashKey) {
    Digest(h.crc32, 4) && Digest(h.md5, 16) && Digest(h.sha1, 20) && Digest(h.sha256, 32)
  }

  /** The manifest entries a game uses, in manifest order; of equal entries the last one counts. */
  function InManifestOrder(manifest: seq<Provenance>, used: seq<Provenance>): seq<Provenance> {
    if manifest == [] then []
    else
      (if manifest[0] in used && manifest[0] !in manifest[1..] then [manifest[0]] else [])
      + InManifestOrder(manifest[1..], used)
  }

  function Numbered(cs: seq<Component>, from: nat): (r: seq<Component>)
    ensures |r| == |cs|
  {
    if cs == [] then [] else [cs[0].(ordinal := from % 0x1_0000_0000)] + Numbered(cs[1..], from + 1)
  }

  /** Ordinals become positions, and the three name lists come back sorted without repeats. */
  function Normal(manifest: seq<Provenance>, g: Game): Game {
    g.(components := Numbered(g.components, 0),
       dumpTags := OrderedSet(TextKey, g.dumpTags),
       alternateNames := OrderedSet(TextKey, g.alternateNames),
       provenance := InManifestOrder(manifest, g.provenance))
  }

  function NormalAll(manifest: seq<Provenance>, gs: seq<Game>): (r: seq<Game>)
    ensures |r| == |gs|
  {
    if gs == [] then [] else [Normal(manifest, gs[0])] + NormalAll(manifest, gs[1..])
  }
}
