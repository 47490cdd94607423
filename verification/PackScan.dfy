/** The route index against a scan of the games alone: when a query finds what the scan does. */
module PackScan {
  import opened Bytes
  import opened Varint
  import opened Hex
  import opened PackFormat
  import opened PackModel
  import opened PackHashes
  import opened PackOwners
  import opened PackRoutes
  import opened PackTables
  import opened PackParse
  import opened PackIndex
  import opened PackSound

  // ---------------------------------------------------------------- telling games apart

  /** Some component of some game has the same hash and tells games apart. */
  ghost predicate TellsByHash(pack: Pack, hash: HashKey) {
    exists g: nat, l: nat :: Tells(pack, hash, g, l)
  }

  ghost predicate Tells(pack: Pack, hash: HashKey, g: nat, l: nat) {
    g < |pack.games| && l < |pack.games[g].components|
    && pack.games[g].components[l].hash == hash && pack.games[g].components[l].discriminating
  }

  /** Some component listed in the same row tells games apart. */
  ghost predicate TellsByRow(pack: Pack, c: nat) {
    exists h: nat, d: nat :: InRow(pack, h, c) && InRow(pack, h, d)
      && d < |AllComponents(pack.games)| && AllComponents(pack.games)[d].discriminating
  }

  ghost predicate InRow(pack: Pack, h: nat, c: nat) { h < |pack.owners| && c in pack.owners[h] }

  lemma {:induction false} RoutedMeans(pack: Pack, c: nat)
    requires SoundPack(pack)
    ensures Routed(pack, c) <==> TellsByRow(pack, c)
  {
    var (owners, all) := (pack.owners, AllComponents(pack.games));
    hide AllComponents, Once, Cover, KeysAgree, ExpectedRoutes, SoundPack;
    if Routed(pack, c) {
      var h, i :| 0 <= h < |owners| && 0 <= i < |owners[h]| && owners[h][i] == c && Discriminates(owners, all, h);
      var j :| 0 <= j < |owners[h]| && owners[h][j] < |all| && all[owners[h][j]].discriminating;
      assert InRow(pack, h, c) && InRow(pack, h, owners[h][j]);
    }
    if TellsByRow(pack, c) {
      var h: nat, d: nat :| InRow(pack, h, c) && InRow(pack, h, d) && d < |all| && all[d].discriminating;
      var i :| 0 <= i < |owners[h]| && owners[h][i] == c;
      var j :| 0 <= j < |owners[h]| && owners[h][j] == d;
      assert Discriminates(owners, all, h);
    }
  }

  lemma {:induction false} InRowAgrees(pack: Pack, h: nat, c: nat)
    requires SoundPack(pack) && InRow(pack, h, c)
    ensures h < |pack.hashes| && c < |AllComponents(pack.games)| && pack.hashes[h] in pack.hashes
    ensures AllComponents(pack.games)[c].hash == KeyOf(pack.hashes[h])
  {
    hide AllComponents, Once, Cover, ExpectedRoutes;
    var i :| 0 <= i < |pack.owners[h]| && pack.owners[h][i] == c;
    assert AllComponents(pack.games)[pack.owners[h][i]].hash == KeyOf(pack.hashes[h]);
  }

  /** Components in one row have one hash. */
  lemma {:induction false} RowTellsHash(pack: Pack, g: nat, l: nat)
    requires SoundPack(pack) && IsAt(pack.games, g, l) && TellsByRow(pack, Offset(pack.games, g) + l)
    ensures TellsByHash(pack, pack.games[g].components[l].hash)
  {
    var all := AllComponents(pack.games);
    hide SoundPack, AllComponents, Offset;
    var c := Offset(pack.games, g) + l;
    LocateOffset(pack.games, g, l, 0);
    var h: nat, d: nat :| InRow(pack, h, c) && InRow(pack, h, d) && d < |all| && all[d].discriminating;
    InRowAgrees(pack, h, c);
    InRowAgrees(pack, h, d);
    LocateFinds(pack.games, d, 0);
    var (g2, l2) := Locate(pack.games, d, 0).value;
    assert Tells(pack, pack.games[g].components[l].hash, g2, l2);
  }

  // ---------------------------------------------------------------- places and scan

  /** What a scan of the games looks for: that size and crc32, in a hash that tells games apart. */
  ghost predicate ScanPlace(pack: Pack, crc: bytes, size: u64, p: (nat, nat)) {
    && p.0 < |pack.games| && p.1 < |pack.games[p.0].components|
    && (var hash := pack.games[p.0].components[p.1].hash;
        hash.size == size && size > 0 && hash.crc32 == Some(Lower(crc)) && TellsByHash(pack, hash))
  }

  /** Where a hash tells games apart, so does the row of every component that carries it. */
  ghost predicate Unsplit(pack: Pack) {
    forall g: nat, l: nat :: Told(pack, g, l) ==> TellsByRow(pack, Offset(pack.games, g) + l)
  }

  ghost predicate Told(pack: Pack, g: nat, l: nat) {
    && IsAt(pack.games, g, l) && pack.games[g].components[l].hash.size > 0
    && pack.games[g].components[l].hash.crc32.Some? && TellsByHash(pack, pack.games[g].components[l].hash)
  }

  /** What a query finds the scan finds; the converse needs rows that are not split. */
  lemma {:induction false} PlaceIsScanned(pack: Pack, crc: bytes, size: u64, p: (nat, nat))
    requires SoundPack(pack)
    ensures ExactPlace(pack, crc, size, p) ==> ScanPlace(pack, crc, size, p)
    ensures Unsplit(pack) ==> (ExactPlace(pack, crc, size, p) <==> ScanPlace(pack, crc, size, p))
  {
    hide SoundPack, AllComponents, Lower, TellsByRow, TellsByHash, Routed;
    if IsAt(pack.games, p.0, p.1) {
      RoutedMeans(pack, Offset(pack.games, p.0) + p.1);
      if TellsByRow(pack, Offset(pack.games, p.0) + p.1) { RowTellsHash(pack, p.0, p.1); }
      assert ScanPlace(pack, crc, size, p) ==> Told(pack, p.0, p.1);
    }
  }

  /** The query returns what the scan finds, each once; no crc32, no answer. */
  ghost predicate AnswersScan(pack: Pack, text: str, size: u64) {
    match ToBytes(AsciiLower(text))
    case Some(crc) =>
      if |crc| != 4 then Route(pack, text, size) == None
      else
        Route(pack, text, size).Some?
        && (var out := AllNumbers(Route(pack, text, size).value);
            NoRepeats(out) && forall p: (nat, nat) :: p in out <==> ScanPlace(pack, crc, size, p))
    case None => Route(pack, text, size) == None
  }

  /** Every query returns what a scan of the games finds if and only if the pack is narrow and its rows are not split. */
  lemma {:induction false} RouteIsScanIff(pack: Pack)
    requires SoundPack(pack) && |pack.games| <= 0x1_0000_0000
    ensures (forall text: str, size: u64 :: AnswersScan(pack, text, size)) <==> Narrow(pack) && Unsplit(pack)
  {
    hide *;
    if Narrow(pack) && Unsplit(pack) {
      forall text: str, size: u64 ensures AnswersScan(pack, text, size) { NarrowScans(pack, text, size); }
    }
    if forall text: str, size: u64 :: AnswersScan(pack, text, size) {
      ScansMeanNarrow(pack);
      ScansMeanUnsplit(pack);
    }
  }

  lemma {:induction false} NarrowScans(pack: Pack, text: str, size: u64)
    requires SoundPack(pack) && |pack.games| <= 0x1_0000_0000 && Narrow(pack) && Unsplit(pack)
    ensures AnswersScan(pack, text, size)
  {
    NarrowAnswers(pack, text, size);
    hide SoundPack, ExactPlace, ScanPlace, NoRepeats, InOrder, ToBytes, AsciiLower, Route, Unsplit;
    var raw := ToBytes(AsciiLower(text));
    if raw.Some? && |raw.value| == 4 {
      forall p: (nat, nat) ensures ExactPlace(pack, raw.value, size, p) <==> ScanPlace(pack, raw.value, size, p) {
        PlaceIsScanned(pack, raw.value, size, p);
      }
    }
  }

  lemma {:induction false} ScansMeanNarrow(pack: Pack)
    requires SoundPack(pack) && forall text: str, size: u64 :: AnswersScan(pack, text, size)
    ensures Narrow(pack)
  {
    hide SoundPack, AnswersScan, Routed, ExactPlace, Lower, AsciiLower, ToBytes, Offset;
    forall g: nat, l: nat | Reachable(pack, g, l) ensures l < 0x1_0000 {
      AskedFor(pack, g, l);
      var size := pack.games[g].components[l].hash.size;
      var crc: bytes :| |crc| == 4 && ExactPlace(pack, crc, size, (g, l));
      PlaceIsScanned(pack, crc, size, (g, l));
      TextOfBytes(crc);
      ScannedIsReturned(pack, Lower(crc), crc, size, (g, l));
    }
  }

  lemma {:induction false} ScannedIsReturned(pack: Pack, text: str, crc: bytes, size: u64, p: (nat, nat))
    requires AnswersScan(pack, text, size) && ToBytes(AsciiLower(text)) == Some(crc) && |crc| == 4
    requires ScanPlace(pack, crc, size, p)
    ensures Route(pack, text, size).Some? && p in AllNumbers(Route(pack, text, size).value) && p.1 < 0x1_0000
  {
    hide ScanPlace, Route, NoRepeats, ToBytes, AsciiLower;
    var out := AllNumbers(Route(pack, text, size).value);
    var i :| 0 <= i < |out| && out[i] == p;
  }

  lemma {:induction false} KeyBehind(pack: Pack, g: nat, l: nat)
    requires SoundPack(pack) && IsAt(pack.games, g, l)
    ensures exists h :: h in pack.hashes && pack.games[g].components[l].hash == KeyOf(h) && Widths(h.digests)
  {
    hide SoundPack, InRow, AllComponents, Offset, KeyOf, Widths;
    LocateOffset(pack.games, g, l, 0);
    var c := Offset(pack.games, g) + l;
    var h := RowBehind(pack, c);
    InRowAgrees(pack, h, c);
  }

  lemma {:induction false} RowBehind(pack: Pack, c: nat) returns (h: nat)
    requires SoundPack(pack) && c < |AllComponents(pack.games)|
    ensures InRow(pack, h, c) && forall h :: h in pack.hashes ==> Widths(h.digests)
  {
    hide AllComponents, ExpectedRoutes, KeysAgree, Once, Widths;
    assert Owned(pack.owners, c);
    var row, i :| 0 <= row < |pack.owners| && 0 <= i < |pack.owners[row]| && pack.owners[row][i] == c;
    h := row;
  }

  lemma {:induction false} ScansMeanUnsplit(pack: Pack)
    requires SoundPack(pack) && |pack.games| <= 0x1_0000_0000
    requires Narrow(pack) && forall text: str, size: u64 :: AnswersScan(pack, text, size)
    ensures Unsplit(pack)
  {
    hide SoundPack, AnswersScan, Narrow, TellsByRow, Offset, Lower, AsciiLower, ToBytes, Widths;
    forall g: nat, l: nat | Told(pack, g, l) ensures TellsByRow(pack, Offset(pack.games, g) + l) {
      KeyBehind(pack, g, l);
      var h :| h in pack.hashes && pack.games[g].components[l].hash == KeyOf(h) && Widths(h.digests);
      CrcBehind(h);
      ToldIsListed(pack, g, l, h.digests.crc32.value);
    }
  }

  lemma CrcBehind(h: Hash)
    requires Widths(h.digests) && KeyOf(h).crc32.Some?
    ensures h.digests.crc32.Some? && |h.digests.crc32.value| == 4 && KeyOf(h).crc32 == Some(Lower(h.digests.crc32.value))
  {
  }

  lemma {:induction false} ReturnedIsExact(pack: Pack, text: str, crc: bytes, size: u64, p: (nat, nat))
    requires AnswersExactly(pack, text, size) && ToBytes(AsciiLower(text)) == Some(crc) && |crc| == 4
    ensures Route(pack, text, size).Some?
    ensures p in AllNumbers(Route(pack, text, size).value) ==> ExactPlace(pack, crc, size, p)
  {
    hide ExactPlace, Route, NoRepeats, InOrder, ToBytes, AsciiLower;
  }

  lemma {:induction false} ToldIsListed(pack: Pack, g: nat, l: nat, crc: bytes)
    requires SoundPack(pack) && |pack.games| <= 0x1_0000_0000 && Narrow(pack) && Told(pack, g, l)
    requires |crc| == 4 && pack.games[g].components[l].hash.crc32 == Some(Lower(crc))
    requires AnswersScan(pack, Lower(crc), pack.games[g].components[l].hash.size)
    ensures TellsByRow(pack, Offset(pack.games, g) + l)
  {
    var (text, size) := (Lower(crc), pack.games[g].components[l].hash.size);
    assert ScanPlace(pack, crc, size, (g, l)) by { hide SoundPack, Narrow, AnswersScan; }
    hide *;
    TextOfBytes(crc);
    NarrowAnswers(pack, text, size);
    ScannedIsReturned(pack, text, crc, size, (g, l));
    ReturnedIsExact(pack, text, crc, size, (g, l));
    ExactIsListed(pack, crc, size, g, l);
  }

  lemma {:induction false} ExactIsListed(pack: Pack, crc: bytes, size: u64, g: nat, l: nat)
    requires SoundPack(pack) && ExactPlace(pack, crc, size, (g, l))
    ensures TellsByRow(pack, Offset(pack.games, g) + l)
  {
    hide SoundPack, Routed, TellsByRow, Matches;
    RoutedMeans(pack, Offset(pack.games, g) + l);
  }

  // ---------------------------------------------------------------- where rows are not split

  /** No hash row is written twice. */
  ghost predicate DistinctRows(pack: Pack) { NoRepeats(pack.hashes) }

  lemma {:induction false} DistinctUnsplit(pack: Pack)
    requires SoundPack(pack) && DistinctRows(pack)
    ensures Unsplit(pack)
  {
    hide SoundPack, TellsByRow, Offset, DistinctRows;
    forall g: nat, l: nat | Told(pack, g, l) ensures TellsByRow(pack, Offset(pack.games, g) + l) { ToldByRow(pack, g, l); }
  }

  lemma {:induction false} ListedSomewhere(pack: Pack, c: nat)
    requires SoundPack(pack) && c < |AllComponents(pack.games)|
    ensures exists h: nat :: InRow(pack, h, c)
  {
    assert Owned(pack.owners, c);
    var h, i :| 0 <= h < |pack.owners| && 0 <= i < |pack.owners[h]| && pack.owners[h][i] == c;
    assert InRow(pack, h, c);
  }

  lemma {:induction false} SameRow(pack: Pack, h: nat, h2: nat)
    requires SoundPack(pack) && DistinctRows(pack) && h < |pack.hashes| && h2 < |pack.hashes|
    ensures KeyOf(pack.hashes[h]) == KeyOf(pack.hashes[h2]) ==> h == h2
  {
    assert pack.hashes[h] in pack.hashes && pack.hashes[h2] in pack.hashes;
    assert Widths(pack.hashes[h].digests) && Widths(pack.hashes[h2].digests);
    hide SoundPack, Widths, KeyOf;
    if KeyOf(pack.hashes[h]) == KeyOf(pack.hashes[h2]) { KeyOfInjective(pack.hashes[h], pack.hashes[h2]); }
  }

  lemma {:induction false} ToldByRow(pack: Pack, g: nat, l: nat)
    requires SoundPack(pack) && DistinctRows(pack) && Told(pack, g, l)
    ensures TellsByRow(pack, Offset(pack.games, g) + l)
  {
    hide SoundPack, DistinctRows, AllComponents, KeyOf, Offset, InRow;
    var c := Offset(pack.games, g) + l;
    var hash := pack.games[g].components[l].hash;
    var g2: nat, l2: nat :| Tells(pack, hash, g2, l2);
    var d := Offset(pack.games, g2) + l2;
    LocateOffset(pack.games, g, l, 0);
    LocateOffset(pack.games, g2, l2, 0);
    ListedSomewhere(pack, c);
    ListedSomewhere(pack, d);
    var h: nat :| InRow(pack, h, c);
    var h2: nat :| InRow(pack, h2, d);
    InRowAgrees(pack, h, c);
    InRowAgrees(pack, h2, d);
    SameRow(pack, h, h2);
  }

  /** A pack without a discriminating component answers every query of a crc32 with nothing. */
  lemma {:induction false} NothingTells(pack: Pack, text: str, crc: bytes, size: u64)
    requires SoundPack(pack) && ToBytes(AsciiLower(text)) == Some(crc) && |crc| == 4
    requires forall g: nat, l: nat :: IsAt(pack.games, g, l) ==> !pack.games[g].components[l].discriminating
    ensures Route(pack, text, size) == Some([])
  {
    IndexAgreesWithScan(pack, crc, size);
    hide SoundPack, Places, ToBytes, AsciiLower, NoRepeats, InOrder;
    var places := Places(pack, crc, size).value;
    if places != [] {
      assert places[0] in places;
      PlaceIsScanned(pack, crc, size, places[0]);
      assert false;
    }
    assert TruncatedAll([]) == [];
  }

  /** For every pack the parser accepts. */
  lemma {:induction false} AcceptedScansIff(b: bytes, json: Json)
    ensures Parse(b, json).Some? ==>
      var pack := Parse(b, json).value;
      (forall text: str, size: u64 :: AnswersScan(pack, text, size)) <==> Narrow(pack) && Unsplit(pack)
  {
    hide Parse, SoundPack, AnswersScan, Narrow, Unsplit;
    AcceptedIsSound(b, json);
    AcceptedGameCount(b, json);
    if Parse(b, json).Some? { RouteIsScanIff(Parse(b, json).value); }
  }
}
