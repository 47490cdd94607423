/** The round-trip theorem of the pack format. */
module PackCodec {
  import opened Bytes
  import opened Varint
  import opened Order
  import opened PackFormat
  import opened PackModel
  import opened PackHashes
  import opened PackOwners
  import opened PackRoutes
  import opened PackTables
  import opened PackSizes
  import opened PackParse
  import opened PackBuild
  import opened PackSound
  import opened PackRoundTrip

  /** Every digest is lowercase hexadecimal of its own width. */
  ghost predicate Canonical(games: seq<Game>) {
    forall g, c :: g in games && c in g.components ==> CanonicalHash(c.hash)
  }

  /** The sizes of the tables stay within what the parser reads. */
  ghost predicate WithinLimits(n: Interning, gs: seq<Game>)
    requires CoversAll(n, gs) && FitsIds(n, gs)
  {
    && |n.strings| <= MAX_COUNT && (forall s :: s in n.strings ==> |s| <= MAX_STRING)
    && |n.keys| <= MAX_COUNT && |AllComponents(gs)| <= MAX_COUNT && |gs| <= MAX_COUNT
    && |SetsOf(n, gs).provenance| <= MAX_COUNT && |SetsOf(n, gs).tags| <= MAX_COUNT
    && (forall l :: l in ProvenanceLists(n, gs) ==> |l| <= MAX_COUNT)
  }

  // ---------------------------------------------------------------- what is built is storable

  /** Distinct ids below `limit` are at most `limit` many. */
  lemma {:induction false} AscendingBound(ids: Ids, limit: nat, k: nat)
    requires StrictlyAscending(ids) && k < |ids|
    ensures k <= ids[k]
  {
    if k > 0 { AscendingBound(ids, limit, k - 1); }
  }

  lemma {:induction false} SortedIdsCount(strings: seq<str>, names: seq<str>)
    requires HasAll(strings, names) && |strings| <= MAX_IDS
    ensures |SortedIds(strings, names)| <= |strings|
  {
    SimpleKeysInjective();
    var listed, ids := IdsIn(strings, names), SortedIds(strings, names);
    OrderedSetAscending(IdKey, listed);
    hide OrderedSet, SortedIds, Injective;
    IdsInRange(strings, names, ids);
    forall i, j | 0 <= i < j < |ids| ensures ids[i] < ids[j] {
      assert KeyLess(IdKey(ids[i]), IdKey(ids[j]));
      IdKeyOrder(ids[i], ids[j]);
    }
    if ids != [] { AscendingBound(ids, |strings|, |ids| - 1); }
  }

  lemma {:induction false} NameListsCount(n: Interning, gs: seq<Game>)
    requires Small(n) && CoversAll(n, gs)
    ensures forall l :: l in TagLists(n, gs) ==> |l| <= |n.strings|
    ensures forall l :: l in AlternateLists(n, gs) ==> |l| <= |n.strings|
  {
    hide SortedIds;
    if gs != [] {
      assert gs[0] in gs;
      SortedIdsCount(n.strings, gs[0].dumpTags);
      SortedIdsCount(n.strings, gs[0].alternateNames);
      NameListsCount(n, gs[1..]);
    }
  }

  lemma {:induction false} RowRoles(cs: seq<Component>, strings: seq<str>, keys: seq<HashKey>)
    requires (forall c :: c in cs ==> ComponentInterned(c, strings, keys)) && |strings| <= MAX_IDS && |keys| <= MAX_IDS
    ensures forall r :: r in ComponentRows(cs, strings, keys) ==> r.role < ROLES
  {
    hide ComponentInterned;
    if cs != [] {
      assert cs[0] in cs;
      OneRole(cs[0], strings, keys);
      RowRoles(cs[1..], strings, keys);
    }
  }

  lemma OneRole(c: Component, strings: seq<str>, keys: seq<HashKey>)
    requires ComponentInterned(c, strings, keys) && |strings| <= MAX_IDS && |keys| <= MAX_IDS
    ensures ComponentRowOf(c, strings, keys).role < ROLES
  {
  }

  lemma {:induction false} RowCodes(n: Interning, sets: Sets, gs: seq<Game>)
    requires Small(n) && CoversAll(n, gs) && |sets.provenance| <= MAX_IDS && |sets.tags| <= MAX_IDS && SetsKnown(n, sets, gs)
    requires |AllComponents(gs)| <= MAX_COUNT
    ensures forall r :: r in GameRows(n, sets, gs) ==> GameCodes(r)
  {
    hide SortedIds, SortedProvenance, Covers;
    if gs != [] {
      assert gs[0] in gs;
      OneCode(n, sets, gs[0]);
      RowCodes(n, sets, gs[1..]);
    }
  }

  lemma {:induction false} OneCode(n: Interning, sets: Sets, g: Game)
    requires Small(n) && Covers(n, g) && |sets.provenance| <= MAX_IDS && |sets.tags| <= MAX_IDS
    requires SortedProvenance(n.manifest, g.provenance) in sets.provenance && SortedIds(n.strings, g.dumpTags) in sets.tags
    requires |g.components| <= MAX_COUNT
    ensures GameCodes(GameRowOf(n, sets, g))
  {
    hide SortedIds, SortedProvenance, OptionalId;
  }

  lemma {:induction false} OwnersStorable(hashIds: seq<u32>, hashCount: nat)
    requires |hashIds| <= MAX_COUNT && hashCount <= MAX_COUNT
    ensures forall o :: o in OwnerTable(hashIds, hashCount) ==> StrictlyAscending(o)
    ensures StorableLists(AllDeltas(OwnerTable(hashIds, hashCount)))
  {
    OwnersAscend(hashIds, hashCount);
    var owners := OwnerTable(hashIds, hashCount);
    forall h | 0 <= h < |owners|
      ensures |owners[h]| <= MAX_COUNT && forall i :: 0 <= i < |owners[h]| ==> owners[h][i] < |hashIds|
    {
      assert owners[h] in owners;
      forall i | 0 <= i < |owners[h]| ensures owners[h][i] < |hashIds| { InPositions(hashIds, h, 0, owners[h][i]); }
      if owners[h] != [] { AscendingBound(owners[h], |hashIds|, |owners[h]| - 1); }
    }
    OwnersReadBack(owners, |hashIds|);
  }

  lemma {:induction false} RoutedCount(keys: seq<HashKey>, owners: seq<Ids>, components: seq<Component>, from: nat)
    requires from <= |keys| <= MAX_IDS
    ensures |RoutedFrom(keys, owners, components, from)| <= |keys| - from
    decreases |keys| - from
  {
    if from < |keys| { RoutedCount(keys, owners, components, from + 1); }
  }

  lemma {:induction false} RoutesCount(keys: seq<HashKey>, owners: seq<Ids>, components: seq<Component>)
    requires |keys| <= MAX_IDS
    ensures |Routes(keys, owners, components)| <= |keys|
  {
    RoutedCount(keys, owners, components, 0);
    SortByMembers(TextRouteOrder(keys), RoutedFrom(keys, owners, components, 0));
  }

  lemma {:induction false} SetsStorable(n: Interning, gs: seq<Game>)
    requires CoversAll(n, gs) && FitsIds(n, gs) && WithinLimits(n, gs)
    ensures StorableLists(SetsOf(n, gs).provenance) && StorableLists(SetsOf(n, gs).tags)
    ensures StorableLists(AlternateLists(n, gs))
  {
    NameListsCount(n, gs);
    SetTableItems(ProvenanceLists(n, gs));
    SetTableItems(TagLists(n, gs));
    hide SetTable, ProvenanceLists, TagLists, AlternateLists, Covers, AllComponents;
  }

  lemma {:induction false} BuiltStorable(n: Interning, gs: seq<Game>, hashes: seq<HashRow>, manifest: Manifest)
    requires CoversAll(n, gs) && FitsIds(n, gs) && WithinLimits(n, gs)
    requires |hashes| == |n.keys| && forall h :: h in hashes ==> Widths(h.digests)
    ensures Storable(TablesFor(n, gs, hashes, manifest))
  {
    hide Covers, GameCodes, Widths, StorableLists, ComponentInterned;
    ComponentsCovered(n, gs);
    SetsComplete(n, gs);
    SetsStorable(n, gs);
    var components := AllComponents(gs);
    var rows := ComponentRows(components, n.strings, n.keys);
    RowRoles(components, n.strings, n.keys);
    RowCodes(n, SetsOf(n, gs), gs);
    OwnersStorable(HashIds(rows), |n.keys|);
    RoutesCount(n.keys, OwnersFor(n, components), components);
    hide ComponentRows, GameRows, Routes, OwnersFor, SetsOf, AlternateLists, ProvenanceLists, AllComponents;
  }

  // ---------------------------------------------------------------- what is built resolves

  /** The hash rows are those of canonical keys in order, and the tables are within the limits. */
  ghost predicate Prepared(n: Interning, gs: seq<Game>, hashes: seq<HashRow>, manifest: Manifest)
    requires CoversAll(n, gs) && FitsIds(n, gs)
  {
    && AllCanonical(n.keys) && (forall c :: c in AllComponents(gs) ==> CanonicalHash(c.hash))
    && SizesFrom(n.keys, 0) && ScopesKnown(n.keys, n.strings) && HashRows(n.keys, n.strings, 0) == Some(hashes)
    && Storable(TablesFor(n, gs, hashes, manifest))
  }

  lemma {:induction false} IndexBuilt(n: Interning, gs: seq<Game>, hashes: seq<HashRow>, manifest: Manifest)
    requires CoversAll(n, gs) && FitsIds(n, gs)
    ensures Prepared(n, gs, hashes, manifest) ==>
      ResolveIndex(TablesFor(n, gs, hashes, manifest))
      == Some(Index(Rows(n.keys), Unnumbered(AllComponents(gs)), OwnersOf(n, gs)))
  {
    hide Covers, GameCodes, Widths, StorableLists, ComponentInterned, Storable, CanonicalHash, GameRows, SetsOf, AllComponents,
         SizesFrom, ScopesKnown, WrittenAlternates, AlternateLists, HashRows, ResolveHashes, ComponentRows, ResolveComponents,
         ResolveOwners, Routes, ExpectedRoutes, Rows, Unnumbered, ValidOwners, InRange, AllDeltas, HashIds;
    if !Prepared(n, gs, hashes, manifest) {
      return;
    }
    ComponentsCovered(n, gs);
    SetsComplete(n, gs);
    var components := AllComponents(gs);
    var rows := ComponentRows(components, n.strings, n.keys);
    HashRowsReadBack(n.keys, n.strings, 0);
    ComponentsReadBack(components, n.strings, n.keys);
    UnnumberedAlike(components);
    OwnersBuilt(n, components);
    RoutesReadBack(n.keys, OwnersFor(n, components), components, Unnumbered(components));
    hide OwnersFor, AllAlike, AllCanonical;
  }

  function OwnersOf(n: Interning, gs: seq<Game>): seq<Ids>
    requires CoversAll(n, gs) && FitsIds(n, gs)
  {
    ComponentsCovered(n, gs);
    OwnersFor(n, AllComponents(gs))
  }

  lemma {:induction false} OwnersBuilt(n: Interning, components: seq<Component>)
    requires (forall c :: c in components ==> ComponentInterned(c, n.strings, n.keys)) && Small(n) && |components| <= MAX_IDS
    ensures var owners := OwnersFor(n, components);
      var hashIds := HashIds(ComponentRows(components, n.strings, n.keys));
      && (forall o :: o in owners ==> StrictlyAscending(o))
      && |AllDeltas(owners)| == |n.keys| && ResolveOwners(AllDeltas(owners), |components|) == Some(owners)
      && InRange(owners, hashIds, Rows(n.keys)) && ValidOwners(owners, hashIds, Rows(n.keys))
  {
    var rows := ComponentRows(components, n.strings, n.keys);
    var hashIds := HashIds(rows);
    forall c | 0 <= c < |hashIds| ensures hashIds[c] < |n.keys| { assert components[c].hash in n.keys; }
    OwnerTableValid(hashIds, Rows(n.keys));
    hide ComponentInterned, ComponentRows, Rows, Once, Cover, Agree, OwnerTable;
    OwnersReadBack(OwnersFor(n, components), |components|);
  }

  /** The pack a round trip returns. */
  function Returned(n: Interning, gs: seq<Game>, manifest: Manifest): Pack
    requires CoversAll(n, gs) && FitsIds(n, gs)
  {
    var owners := OwnersOf(n, gs);
    Pack(NormalAll(n.manifest, gs), Rows(n.keys), owners, Routes(n.keys, owners, AllComponents(gs)), manifest)
  }

  lemma {:induction false} ResolveBuilt(n: Interning, gs: seq<Game>, hashes: seq<HashRow>, manifest: Manifest)
    requires CoversAll(n, gs) && FitsIds(n, gs) && Ascending(TextKey, n.strings)
    requires manifest.provenance == n.manifest && manifest.format == FORMAT && manifest.version == VERSION
    requires forall g :: g in gs ==> Belongs(g, manifest)
    ensures Prepared(n, gs, hashes, manifest) ==>
      Resolve(TablesFor(n, gs, hashes, manifest)) == Some(Returned(n, gs, manifest))
  {
    hide Covers, CanonicalHash, Storable, SizesFrom, ScopesKnown, HashRows, ResolveIndex, AllCanonical, Ascending, OwnersOf,
         ComponentRows, AllDeltas, Ascii, Belongs, Indexed;
    if !Prepared(n, gs, hashes, manifest) {
      return;
    }
    IndexBuilt(n, gs, hashes, manifest);
    SetsInTable(n, gs);
    SetsComplete(n, gs);
    AlternatesReadBack(n, gs);
    GamesReadBack(n, SetsOf(n, gs), gs, manifest);
    TableParts(n, gs, hashes, manifest);
    hide TablesFor, SetsOf, InTable, ResolveAlternates, WrittenAlternates, AlternateLists, ResolveGames, GameRows, Routes,
         SetsKnown, Rows, NormalAll, Unnumbered, AllComponents;
  }

  lemma {:induction false} TableParts(n: Interning, gs: seq<Game>, hashes: seq<HashRow>, manifest: Manifest)
    requires CoversAll(n, gs) && FitsIds(n, gs)
    ensures |SetsOf(n, gs).provenance| <= MAX_IDS && |SetsOf(n, gs).tags| <= MAX_IDS && SetsKnown(n, SetsOf(n, gs), gs)
    ensures var t := TablesFor(n, gs, hashes, manifest);
      && t.strings == n.strings && t.manifest == manifest && t.sets == SetsOf(n, gs) && t.games == GameRows(n, SetsOf(n, gs), gs)
      && t.alternates == WrittenAlternates(AlternateLists(n, gs))
      && t.routes == Routes(n.keys, OwnersOf(n, gs), AllComponents(gs))
  {
    SetsComplete(n, gs);
    ComponentsCovered(n, gs);
    hide Covers, SetsOf, SetsKnown, GameRows, WrittenAlternates, AlternateLists, Routes, ComponentInterned, AllComponents,
         ComponentRows, OwnersFor;
  }

  // ---------------------------------------------------------------- the theorem

  lemma {:induction false} CanonicalKeys(games: seq<Game>, gs: seq<Game>)
    requires Canonical(games) && forall g :: g in gs <==> g in games
    ensures AllCanonical(HashTable(gs)) && forall c :: c in AllComponents(gs) ==> CanonicalHash(c.hash)
  {
    hide HashTable, CanonicalHash, AllComponents, OrderedSet;
    HashTableOrdered(gs);
    forall c | c in AllComponents(gs) ensures CanonicalHash(c.hash) { ComponentOfGame(gs, c); }
    forall k | k in HashTable(gs) ensures CanonicalHash(k) {
      var i :| 0 <= i < |Keys(AllComponents(gs))| && Keys(AllComponents(gs))[i] == k;
      assert AllComponents(gs)[i] in AllComponents(gs);
    }
  }

  /** What a pack of these games holds once written and read. */
  datatype Request = Request(
    platform: str, source: IdentifySource, profile: str, provenance: seq<Provenance>, games: seq<Game>)

  function Sorted(q: Request): seq<Game> { SortBy(GameOrder, q.games) }

  function ManifestOf(q: Request): Manifest {
    Manifest(FORMAT, q.platform, q.source, q.profile, VERSION, q.provenance)
  }

  /** The games fit the pack and the parser's limits. */
  ghost predicate Fits(q: Request) {
    var gs := Sorted(q);
    var n := Interned(gs, q.provenance);
    && Accepts(q.platform, q.source, q.provenance, gs) && FitsIds(n, gs)
    && (InternedCovers(q.platform, q.source, q.provenance, gs); WithinLimits(n, gs))
  }

  function Built(q: Request): Option<Tables> { Build(q.platform, q.source, q.profile, q.provenance, q.games) }

  /** The tables are built within the limits, and resolve to the pack the round trip returns. */
  ghost predicate BuildsBack(q: Request) {
    var gs := Sorted(q);
    var n := Interned(gs, q.provenance);
    && Built(q).Some? && Storable(Built(q).value)
    && CoversAll(n, gs) && FitsIds(n, gs) && Resolve(Built(q).value) == Some(Returned(n, gs, ManifestOf(q)))
  }

  lemma {:induction false} BuildGives(q: Request)
    ensures Canonical(q.games) && Fits(q) ==> BuildsBack(q)
  {
    hide StringTable, HashTable, SortBy, AllComponents, Ascii, Covers, HashRows, SizesFrom, ScopesKnown, CanonicalHash, Storable,
         Resolve, TablesFor, Ascending, Widths, Returned, WithinLimits, AllCanonical;
    if !(Canonical(q.games) && Fits(q)) {
      return;
    }
    var (gs, m) := (Sorted(q), ManifestOf(q));
    var n := Interned(gs, q.provenance);
    SortByMembers(GameOrder, q.games);
    CanonicalKeys(q.games, gs);
    HashTableOrdered(gs);
    StringsAscend(gs);
    InternedCovers(q.platform, q.source, q.provenance, gs);
    hide Canonical, FitsIds;
    HashRowsReadBack(n.keys, n.strings, 0);
    var hashes := HashRows(n.keys, n.strings, 0).value;
    BuiltStorable(n, gs, hashes, m);
    ResolveBuilt(n, gs, hashes, m);
  }

  lemma {:induction false} StringsAscend(gs: seq<Game>)
    ensures Ascending(TextKey, StringTable(gs))
  {
    SimpleKeysInjective();
    OrderedSetAscending(TextKey, AllStrings(gs));
  }

  lemma {:induction false} BuiltManifest(q: Request)
    ensures Built(q).Some? ==> Built(q).value.manifest == ManifestOf(q)
  {
    hide Accepts, FitsIds, SortBy, Interned, HashRows, CoversAll, AllComponents, ComponentRows, OwnersFor, SetsOf, GameRows,
         Routes, AllDeltas, WrittenAlternates, AlternateLists, Ascii;
  }

  /** Encoding works, and parsing the bytes gives the sorted games in normal form and the manifest. */
  ghost predicate RoundTrips(q: Request, json: Json) {
    var written := EncodePack(q.platform, q.source, q.profile, q.provenance, q.games, json);
    && written.Some?
    && var read := Parse(written.value, json);
    && read.Some? && read.value.manifest == ManifestOf(q) && read.value.games == NormalAll(q.provenance, Sorted(q))
  }

  /**
   Games with canonical digests that fit the format are encoded, and parsing the bytes gives them back sorted by
   platform, name and id, in normal form, with the manifest.
   */
  lemma {:induction false} RoundTrip(q: Request, json: Json)
    requires Faithful(json) && |json.write(ManifestOf(q))| <= U64_MAX
    ensures Canonical(q.games) && Fits(q) ==> RoundTrips(q, json)
  {
    hide Canonical, Fits, Build, Members, Storable, Resolve, ReadTables, WriteTables, Sorted, NormalAll, Faithful, CoversAll,
         FitsIds, StringTable, HashTable;
    BuildGives(q);
    if Canonical(q.games) && Fits(q) {
      BuiltManifest(q);
      MembersAreShort(Built(q).value, json);
      TablesReadBack(Built(q).value, json);
    }
  }
}
