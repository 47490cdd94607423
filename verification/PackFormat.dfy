/**
 The RWFP1 tables as bytes. Every table is written by a `Put` function, which prints a value in
 front of what follows it, and read back by a `Get` function, which takes it off the front again.
 */
module PackFormat {
  import opened Bytes
  import opened Varint

  // ---------------------------------------------------------------- the rows

  /** The digests of a hash row, as raw bytes. */
  datatype Digests = Digests(crc32: Option<bytes>, md5: Option<bytes>, sha1: Option<bytes>, sha256: Option<bytes>)

  datatype ScopeCode = FullFile | TrackFile | OtherScope(id: u32)

  /** A hash row stores its size as the difference from the row before. */
  datatype HashRow = HashRow(delta: u64, scope: ScopeCode, digests: Digests)

  datatype ComponentRow = ComponentRow(
    hash: u32, filename: Option<u32>, track: Option<u32>, session: Option<u32>,
    role: u8, required: bool, discriminating: bool)

  datatype GameRow = GameRow(
    name: u32, gameId: Option<u32>, region: Option<u32>, language: Option<u32>, revision: Option<u32>, parent: Option<u32>,
    components: nat, provenanceSet: u32, tagSet: u32, disc: Option<u32>, upstream: Option<u8>, legacy: bool)

  datatype Sets = Sets(provenance: seq<seq<u32>>, tags: seq<seq<u32>>)

  const MAX_STRING: nat := 4096
  const ROLES: nat := 8
  const UPSTREAMS: nat := 7

  // ---------------------------------------------------------------- combinators

  type Put<!T> = (T, bytes) -> bytes
  type Get<T> = bytes -> Option<(T, bytes)>

  /** `get` reads back `x` as `put` wrote it, whatever follows. */
  ghost predicate ReadsBack<T>(put: Put<T>, get: Get<T>, x: T) {
    forall k: bytes :: get(put(x, k)) == Some((x, k))
  }

  function PutVar(n: nat, k: bytes): bytes { Enc(n) + k }

  function PutList<T>(put: Put<T>, xs: seq<T>, k: bytes): bytes {
    if xs == [] then k else put(xs[0], PutList(put, xs[1..], k))
  }

  function GetList<T>(get: Get<T>, n: nat, b: bytes): Option<(seq<T>, bytes)>
    decreases n
  {
    if n == 0 then Some(([], b))
    else
      var (x, rest) :- get(b);
      var (xs, last) :- GetList(get, n - 1, rest);
      Some(([x] + xs, last))
  }

  lemma {:induction false} ListReadsBack<T(!new)>(put: Put<T>, get: Get<T>, xs: seq<T>, k: bytes)
    requires forall x :: x in xs ==> ReadsBack(put, get, x)
    ensures GetList(get, |xs|, PutList(put, xs, k)) == Some((xs, k))
    decreases |xs|
  {
    if xs != [] {
      assert ReadsBack(put, get, xs[0]);
      ListReadsBack(put, get, xs[1..], k);
      assert xs == [xs[0]] + xs[1..];
    }
  }

  function PutCounted<T>(put: Put<T>, xs: seq<T>, k: bytes): bytes { PutVar(|xs|, PutList(put, xs, k)) }

  function GetCounted<T>(get: Get<T>, b: bytes): Option<(seq<T>, bytes)> {
    var (n, rest) :- ReadCount(b);
    GetList(get, n, rest)
  }

  lemma {:induction false} CountedReadsBack<T(!new)>(put: Put<T>, get: Get<T>, xs: seq<T>, k: bytes)
    requires |xs| <= MAX_COUNT && forall x :: x in xs ==> ReadsBack(put, get, x)
    ensures GetCounted(get, PutCounted(put, xs, k)) == Some((xs, k))
  {
    CountOfEnc(|xs|, PutList(put, xs, k));
    ListReadsBack(put, get, xs, k);
  }

  function PutU32(n: u32, k: bytes): bytes { PutVar(n, k) }

  function GetU32(b: bytes): Option<(u32, bytes)> { ReadU32(b) }

  lemma {:induction false} U32ReadsBack(n: u32)
    ensures ReadsBack(PutU32, GetU32, n)
  {
    forall k: bytes ensures GetU32(PutU32(n, k)) == Some((n, k)) { U32OfEnc(n, k); }
  }

  lemma {:induction false} U32ReadBack(n: u32, k: bytes)
    ensures GetU32(PutU32(n, k)) == Some((n, k))
  {
    U32OfEnc(n, k);
  }

  lemma {:induction false} U32sReadBack(xs: seq<u32>, k: bytes)
    requires |xs| <= MAX_COUNT
    ensures GetCounted(GetU32, PutCounted(PutU32, xs, k)) == Some((xs, k))
  {
    forall x | x in xs ensures ReadsBack(PutU32, GetU32, x) { U32ReadsBack(x); }
    CountedReadsBack(PutU32, GetU32, xs, k);
  }

  function PutU32s(xs: seq<u32>, k: bytes): bytes { PutCounted(PutU32, xs, k) }

  function GetU32s(b: bytes): Option<(seq<u32>, bytes)> { GetCounted(GetU32, b) }

  lemma {:induction false} U32ListsReadBack(xs: seq<seq<u32>>, k: bytes)
    requires |xs| <= MAX_COUNT && forall x :: x in xs ==> |x| <= MAX_COUNT
    ensures GetCounted(GetU32s, PutCounted(PutU32s, xs, k)) == Some((xs, k))
  {
    forall x | x in xs ensures ReadsBack(PutU32s, GetU32s, x) {
      forall k: bytes ensures GetU32s(PutU32s(x, k)) == Some((x, k)) { U32sReadBack(x, k); }
    }
    CountedReadsBack(PutU32s, GetU32s, xs, k);
  }

  /** A table is its four-byte magic, the version byte 1, and a body read to the end. */
  function Table(magic: bytes, body: bytes): bytes { magic + [1] + body }

  function Body(magic: bytes, b: bytes): Option<bytes> {
    if |b| < 5 || b[..4] != magic || b[4] != 1 then None else Some(b[5..])
  }

  function Whole<T>(r: Option<(T, bytes)>): Option<T> {
    var (x, rest) :- r;
    if rest == [] then Some(x) else None
  }

  lemma TableBody(magic: bytes, body: bytes)
    requires |magic| == 4
    ensures Body(magic, Table(magic, body)) == Some(body)
  {
  }

  // ---------------------------------------------------------------- strings

  function PutString(s: str, k: bytes): bytes { PutVar(|s|, s + k) }

  function GetString(b: bytes): Option<(str, bytes)> {
    var (n, rest) :- Var(b);
    if n > MAX_STRING then None else Take(rest, n)
  }

  lemma {:induction false} StringReadsBack(s: str)
    requires |s| <= MAX_STRING
    ensures ReadsBack(PutString, GetString, s)
  {
    forall k: bytes ensures GetString(PutString(s, k)) == Some((s, k)) {
      VarOfEnc(|s|, s + k);
      assert (s + k)[..|s|] == s && (s + k)[|s|..] == k;
    }
  }

  // ---------------------------------------------------------------- hash rows

  /** The byte whose bit `i` is `bits[i]`. */
  function Mask(bits: seq<bool>): nat {
    if bits == [] then 0 else (if bits[0] then 1 else 0) + 2 * Mask(bits[1..])
  }

  predicate HasBit(mask: nat, i: nat) {
    if i == 0 then mask % 2 == 1 else HasBit(mask / 2, i - 1)
  }

  lemma {:induction false} HasBitOfMask(bits: seq<bool>, i: nat)
    requires i < |bits|
    ensures HasBit(Mask(bits), i) == bits[i]
  {
    if i > 0 {
      HasBitOfMask(bits[1..], i - 1);
      assert Mask(bits) / 2 == Mask(bits[1..]);
    }
  }

  function PowerOfTwo(n: nat): nat { if n == 0 then 1 else 2 * PowerOfTwo(n - 1) }

  lemma {:induction false} MaskBound(bits: seq<bool>)
    ensures Mask(bits) < PowerOfTwo(|bits|)
  {
    if bits != [] { MaskBound(bits[1..]); }
  }

  /** Every bit of a mask of at most eight bits, and the range it lies in. */
  lemma {:induction false} MaskReads(bits: seq<bool>)
    requires |bits| <= 8
    ensures Mask(bits) < PowerOfTwo(|bits|) <= 256
    ensures forall i :: 0 <= i < |bits| ==> HasBit(Mask(bits), i) == bits[i]
  {
    MaskBound(bits);
    assert PowerOfTwo(2) == 4 && PowerOfTwo(4) == 16 && PowerOfTwo(6) == 64 && PowerOfTwo(8) == 256;
    forall i | 0 <= i < |bits| ensures HasBit(Mask(bits), i) == bits[i] { HasBitOfMask(bits, i); }
  }

  function DigestBits(d: Digests): seq<bool> { [d.crc32.Some?, d.md5.Some?, d.sha1.Some?, d.sha256.Some?] }

  function DigestMask(d: Digests): (m: u8)
    ensures m < 16
  {
    MaskReads(DigestBits(d));
    assert PowerOfTwo(4) == 16;
    Mask(DigestBits(d))
  }

  function PutDigest(d: Option<bytes>, k: bytes): bytes { if d.Some? then d.value + k else k }

  function GetDigest(present: bool, width: nat, b: bytes): Option<(Option<bytes>, bytes)> {
    if !present then Some((None, b))
    else
      var (d, rest) :- Take(b, width);
      Some((Some(d), rest))
  }

  lemma {:induction false} DigestReadsBack(d: Option<bytes>, width: nat, k: bytes)
    requires d.Some? ==> |d.value| == width
    ensures GetDigest(d.Some?, width, PutDigest(d, k)) == Some((d, k))
  {
    if d.Some? { assert (d.value + k)[..width] == d.value && (d.value + k)[width..] == k; }
  }

  predicate Widths(d: Digests) {
    && (d.crc32.Some? ==> |d.crc32.value| == 4) && (d.md5.Some? ==> |d.md5.value| == 16)
    && (d.sha1.Some? ==> |d.sha1.value| == 20) && (d.sha256.Some? ==> |d.sha256.value| == 32)
  }

  function PutDigests(d: Digests, k: bytes): bytes {
    PutDigest(d.crc32, PutDigest(d.md5, PutDigest(d.sha1, PutDigest(d.sha256, k))))
  }

  function GetDigests(mask: u8, b: bytes): Option<(Digests, bytes)> {
    if mask >= 16 then None
    else
      var (crc32, b1) :- GetDigest(HasBit(mask, 0), 4, b);
      var (md5, b2) :- GetDigest(HasBit(mask, 1), 16, b1);
      var (sha1, b3) :- GetDigest(HasBit(mask, 2), 20, b2);
      var (sha256, b4) :- GetDigest(HasBit(mask, 3), 32, b3);
      Some((Digests(crc32, md5, sha1, sha256), b4))
  }

  lemma {:induction false} DigestsReadBack(d: Digests, k: bytes)
    requires Widths(d)
    ensures GetDigests(DigestMask(d), PutDigests(d, k)) == Some((d, k))
  {
    var mask := DigestMask(d);
    MaskReads(DigestBits(d));
    assert HasBit(mask, 0) == d.crc32.Some? && HasBit(mask, 1) == d.md5.Some?;
    assert HasBit(mask, 2) == d.sha1.Some? && HasBit(mask, 3) == d.sha256.Some?;
    hide Mask, HasBit, GetDigest, PutDigest;
    var k3 := PutDigest(d.sha256, k);
    var k2 := PutDigest(d.sha1, k3);
    var k1 := PutDigest(d.md5, k2);
    DigestReadsBack(d.crc32, 4, k1);
    DigestReadsBack(d.md5, 16, k2);
    DigestReadsBack(d.sha1, 20, k3);
    DigestReadsBack(d.sha256, 32, k);
  }

  function PutScope(s: ScopeCode, k: bytes): bytes {
    match s
    case FullFile => [0] + k
    case TrackFile => [1] + k
    case OtherScope(id) => [255] + PutU32(id, k)
  }

  function GetScope(b: bytes): Option<(ScopeCode, bytes)> {
    var (tag, rest) :- ReadByte(b);
    if tag == 0 then Some((FullFile, rest))
    else if tag == 1 then Some((TrackFile, rest))
    else if tag == 255 then
      var (id, last) :- GetU32(rest);
      Some((OtherScope(id), last))
    else None
  }

  lemma {:induction false} ScopeReadsBack(s: ScopeCode, k: bytes)
    ensures GetScope(PutScope(s, k)) == Some((s, k))
  {
    match s
    case FullFile => assert ([0] + k)[1..] == k;
    case TrackFile => assert ([1] + k)[1..] == k;
    case OtherScope(id) =>
      assert ([255] + PutU32(id, k))[1..] == PutU32(id, k);
      U32OfEnc(id, k);
  }

  function PutHash(h: HashRow, k: bytes): bytes {
    PutVar(h.delta, PutScope(h.scope, [DigestMask(h.digests)] + PutDigests(h.digests, k)))
  }

  function GetHash(b: bytes): Option<(HashRow, bytes)> {
    var (delta, b1) :- Var(b);
    var (scope, b2) :- GetScope(b1);
    var (mask, b3) :- ReadByte(b2);
    var (digests, b4) :- GetDigests(mask, b3);
    if delta > U64_MAX then None else Some((HashRow(delta, scope, digests), b4))
  }

  lemma {:induction false} HashReadsBack(h: HashRow)
    requires Widths(h.digests)
    ensures ReadsBack(PutHash, GetHash, h)
  {
    hide DigestMask, PutDigests, GetDigests, PutScope, GetScope, Enc, Var;
    forall k: bytes ensures GetHash(PutHash(h, k)) == Some((h, k)) {
      var k3 := PutDigests(h.digests, k);
      var k2 := [DigestMask(h.digests)] + k3;
      var k1 := PutScope(h.scope, k2);
      VarOfEnc(h.delta, k1);
      ScopeReadsBack(h.scope, k2);
      assert k2[0] == DigestMask(h.digests) && k2[1..] == k3;
      DigestsReadBack(h.digests, k);
    }
  }

  // ---------------------------------------------------------------- component rows

  function PutOptional(o: Option<u32>, k: bytes): bytes { if o.Some? then PutU32(o.value, k) else k }

  function GetOptional(present: bool, b: bytes): Option<(Option<u32>, bytes)> {
    if !present then Some((None, b))
    else
      var (v, rest) :- GetU32(b);
      Some((Some(v), rest))
  }

  lemma {:induction false} OptionalReadsBack(o: Option<u32>, k: bytes)
    ensures GetOptional(o.Some?, PutOptional(o, k)) == Some((o, k))
  {
    if o.Some? { U32OfEnc(o.value, k); }
  }

  function PutComponent(c: ComponentRow, k: bytes): bytes {
    PutU32(c.hash, [Presence(c)] + PutOptional(c.filename, PutOptional(c.track, PutOptional(c.session,
      [c.role] + ([Flags(c)] + k)))))
  }

  function GetComponent(b: bytes): Option<(ComponentRow, bytes)> {
    var (hash, b1) :- GetU32(b);
    var (presence, b2) :- ReadByte(b1);
    if presence >= 8 then None
    else
      var (filename, b3) :- GetOptional(HasBit(presence, 0), b2);
      var (track, b4) :- GetOptional(HasBit(presence, 1), b3);
      var (session, b5) :- GetOptional(HasBit(presence, 2), b4);
      var (role, b6) :- ReadByte(b5);
      var (flags, b7) :- ReadByte(b6);
      if role >= ROLES || flags >= 4 then None
      else Some((ComponentRow(hash, filename, track, session, role, HasBit(flags, 0), HasBit(flags, 1)), b7))
  }

  lemma {:induction false} ByteReadsBack(x: u8, k: bytes)
    ensures ReadByte([x] + k) == Some((x, k))
  {
    assert ([x] + k)[1..] == k;
  }

  function Presence(c: ComponentRow): (p: u8)
    ensures p < 8
  {
    var bits := [c.filename.Some?, c.track.Some?, c.session.Some?];
    MaskReads(bits);
    assert PowerOfTwo(3) == 8;
    Mask(bits)
  }

  function Flags(c: ComponentRow): (f: u8)
    ensures f < 4
  {
    var bits := [c.required, c.discriminating];
    MaskReads(bits);
    assert PowerOfTwo(2) == 4;
    Mask(bits)
  }

  lemma {:induction false} ComponentBits(c: ComponentRow)
    ensures HasBit(Presence(c), 0) == c.filename.Some? && HasBit(Presence(c), 1) == c.track.Some?
         && HasBit(Presence(c), 2) == c.session.Some?
    ensures HasBit(Flags(c), 0) == c.required && HasBit(Flags(c), 1) == c.discriminating
  {
    MaskReads([c.filename.Some?, c.track.Some?, c.session.Some?]);
    MaskReads([c.required, c.discriminating]);
  }

  lemma {:induction false} ComponentReadsBack(c: ComponentRow)
    requires c.role < ROLES
    ensures ReadsBack(PutComponent, GetComponent, c)
  {
    ComponentBits(c);
    hide Presence, Flags, HasBit, GetOptional, PutOptional, GetU32, PutU32, ReadByte;
    forall k: bytes ensures GetComponent(PutComponent(c, k)) == Some((c, k)) {
      var k6 := [Flags(c)] + k;
      var k5 := [c.role] + k6;
      var k4 := PutOptional(c.session, k5);
      var k3 := PutOptional(c.track, k4);
      var k2 := PutOptional(c.filename, k3);
      U32ReadBack(c.hash, [Presence(c)] + k2);
      ByteReadsBack(Presence(c), k2);
      OptionalReadsBack(c.filename, k3);
      OptionalReadsBack(c.track, k4);
      OptionalReadsBack(c.session, k5);
      ByteReadsBack(c.role, k6);
      ByteReadsBack(Flags(c), k);
    }
  }

  // ---------------------------------------------------------------- game rows

  function GameFlags(g: GameRow): seq<bool> {
    [g.gameId.Some?, g.region.Some?, g.language.Some?, g.revision.Some?, g.parent.Some?, g.disc.Some?, g.upstream.Some?,
     g.legacy]
  }

  function GameBits(g: GameRow): u8 {
    MaskReads(GameFlags(g));
    Mask(GameFlags(g))
  }

  function PutGame(g: GameRow, k: bytes): bytes {
    PutU32(g.name, [GameBits(g)] + PutGameNames(g, PutGameRest(g, k)))
  }

  function PutGameNames(g: GameRow, k: bytes): bytes {
    PutOptional(g.gameId, PutOptional(g.region, PutOptional(g.language, PutOptional(g.revision, PutOptional(g.parent, k)))))
  }

  function PutGameRest(g: GameRow, k: bytes): bytes {
    PutVar(g.components, PutU32(g.provenanceSet, PutU32(g.tagSet, PutOptional(g.disc, PutUpstream(g.upstream, k)))))
  }

  function PutUpstream(u: Option<u8>, k: bytes): bytes { if u.Some? then [u.value] + k else k }

  function GetUpstream(present: bool, b: bytes): Option<(Option<u8>, bytes)> {
    if !present then Some((None, b))
    else
      var (code, rest) :- ReadByte(b);
      if code >= UPSTREAMS then None else Some((Some(code), rest))
  }

  /** The optional string ids of a game row, in bit order. */
  datatype GameNames = GameNames(
    gameId: Option<u32>, region: Option<u32>, language: Option<u32>, revision: Option<u32>, parent: Option<u32>)

  function GetGameNames(bits: u8, b: bytes): Option<(GameNames, bytes)> {
    var (gameId, b1) :- GetOptional(HasBit(bits, 0), b);
    var (region, b2) :- GetOptional(HasBit(bits, 1), b1);
    var (language, b3) :- GetOptional(HasBit(bits, 2), b2);
    var (revision, b4) :- GetOptional(HasBit(bits, 3), b3);
    var (parent, b5) :- GetOptional(HasBit(bits, 4), b4);
    Some((GameNames(gameId, region, language, revision, parent), b5))
  }

  function GetGameRest(name: u32, bits: u8, n: GameNames, b: bytes): Option<(GameRow, bytes)> {
    var (components, b1) :- ReadCount(b);
    var (provenanceSet, b2) :- GetU32(b1);
    var (tagSet, b3) :- GetU32(b2);
    var (disc, b4) :- GetOptional(HasBit(bits, 5), b3);
    var (upstream, b5) :- GetUpstream(HasBit(bits, 6), b4);
    Some((GameRow(name, n.gameId, n.region, n.language, n.revision, n.parent, components, provenanceSet, tagSet, disc,
                  upstream, HasBit(bits, 7)), b5))
  }

  function GetGame(b: bytes): Option<(GameRow, bytes)> {
    var (name, b1) :- GetU32(b);
    var (bits, b2) :- ReadByte(b1);
    var (names, b3) :- GetGameNames(bits, b2);
    GetGameRest(name, bits, names, b3)
  }

  lemma {:induction false} GameBitsRead(g: GameRow)
    ensures var m := GameBits(g);
      && HasBit(m, 0) == g.gameId.Some? && HasBit(m, 1) == g.region.Some? && HasBit(m, 2) == g.language.Some?
      && HasBit(m, 3) == g.revision.Some? && HasBit(m, 4) == g.parent.Some? && HasBit(m, 5) == g.disc.Some?
      && HasBit(m, 6) == g.upstream.Some? && HasBit(m, 7) == g.legacy
  {
    hide HasBit, Mask;
    MaskReads(GameFlags(g));
  }

  lemma {:induction false} GameNamesReadBack(g: GameRow, k: bytes)
    ensures GetGameNames(GameBits(g), PutGameNames(g, k))
         == Some((GameNames(g.gameId, g.region, g.language, g.revision, g.parent), k))
  {
    GameBitsRead(g);
    hide GameBits, HasBit, GetOptional, PutOptional;
    var k4 := PutOptional(g.parent, k);
    var k3 := PutOptional(g.revision, k4);
    var k2 := PutOptional(g.language, k3);
    var k1 := PutOptional(g.region, k2);
    OptionalReadsBack(g.gameId, k1);
    OptionalReadsBack(g.region, k2);
    OptionalReadsBack(g.language, k3);
    OptionalReadsBack(g.revision, k4);
    OptionalReadsBack(g.parent, k);
  }

  lemma {:induction false} UpstreamReadsBack(u: Option<u8>, k: bytes)
    requires u.Some? ==> u.value < UPSTREAMS
    ensures GetUpstream(u.Some?, PutUpstream(u, k)) == Some((u, k))
  {
    if u.Some? { ByteReadsBack(u.value, k); }
  }

  lemma {:induction false} GameRestReadsBack(g: GameRow, k: bytes)
    requires g.components <= MAX_COUNT && (g.upstream.Some? ==> g.upstream.value < UPSTREAMS)
    ensures GetGameRest(g.name, GameBits(g), GameNames(g.gameId, g.region, g.language, g.revision, g.parent), PutGameRest(g, k))
         == Some((g, k))
  {
    GameBitsRead(g);
    hide GameBits, HasBit, GetOptional, PutOptional, GetU32, PutU32, ReadCount, Enc, GetUpstream, PutUpstream;
    var k4 := PutUpstream(g.upstream, k);
    var k3 := PutOptional(g.disc, k4);
    var k2 := PutU32(g.tagSet, k3);
    var k1 := PutU32(g.provenanceSet, k2);
    CountOfEnc(g.components, k1);
    U32ReadBack(g.provenanceSet, k2);
    U32ReadBack(g.tagSet, k3);
    OptionalReadsBack(g.disc, k4);
    UpstreamReadsBack(g.upstream, k);
  }

  lemma {:induction false} GameReadsBack(g: GameRow)
    requires g.components <= MAX_COUNT && (g.upstream.Some? ==> g.upstream.value < UPSTREAMS)
    ensures ReadsBack(PutGame, GetGame, g)
  {
    hide GameBits, GetU32, PutU32, ReadByte, GetGameNames, PutGameNames, GetGameRest, PutGameRest;
    forall k: bytes ensures GetGame(PutGame(g, k)) == Some((g, k)) {
      var k2 := PutGameRest(g, k);
      var k1 := PutGameNames(g, k2);
      U32ReadBack(g.name, [GameBits(g)] + k1);
      ByteReadsBack(GameBits(g), k1);
      GameNamesReadBack(g, k2);
      GameRestReadsBack(g, k);
    }
  }
}
