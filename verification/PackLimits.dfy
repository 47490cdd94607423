/** The round trip fails exactly when a table is larger than the parser reads. */
module PackLimits {
  import opened Bytes
  import opened Varint
  import opened Order
  import opened PackFormat
  import opened PackContainer
  import opened PackModel
  import opened PackHashes
  import opened PackOwners
  import opened PackRoutes
  import opened PackTables
  import opened PackParse
  import opened PackBuild
  import opened PackRoundTrip
  import opened PackCodec

  // ---------------------------------------------------------------- what is refused

  /** `get` gives up on `x` as `put` wrote it, whatever follows. */
  ghost predicate Refuses<T>(put: Put<T>, get: Get<T>, x: T) { forall k: bytes :: get(put(x, k)) == None }

  lemma {:induction false} ListRefuses<T(!new)>(put: Put<T>, get: Get<T>, xs: seq<T>, k: bytes)
    requires forall x :: x in xs ==> ReadsBack(put, get, x) || Refuses(put, get, x)
    requires exists x :: x in xs && Refuses(put, get, x)
    ensures GetList(get, |xs|, PutList(put, xs, k)) == None
    decreases |xs|
  {
    assert xs[0] in xs;
    if !Refuses(put, get, xs[0]) {
      assert xs == [xs[0]] + xs[1..];
      ListRefuses(put, get, xs[1..], k);
    }
  }

  lemma {:induction false} LongCountRefused<T>(put: Put<T>, get: Get<T>, xs: seq<T>, k: bytes)
    requires MAX_COUNT < |xs| <= U64_MAX
    ensures GetCounted(get, PutCounted(put, xs, k)) == None
  {
    VarOfEnc(|xs|, PutList(put, xs, k));
  }

  lemma {:induction false} ItemRefused<T(!new)>(put: Put<T>, get: Get<T>, xs: seq<T>, k: bytes)
    requires |xs| <= MAX_COUNT && forall x :: x in xs ==> ReadsBack(put, get, x) || Refuses(put, get, x)
    requires exists x :: x in xs && Refuses(put, get, x)
    ensures GetCounted(get, PutCounted(put, xs, k)) == None
  {
    CountOfEnc(|xs|, PutList(put, xs, k));
    ListRefuses(put, get, xs, k);
  }

  lemma {:induction false} LongStringRefused(s: str)
    requires MAX_STRING < |s| <= U64_MAX
    ensures Refuses(PutString, GetString, s)
  {
    forall k: bytes ensures GetString(PutString(s, k)) == None { VarOfEnc(|s|, s + k); }
  }

  lemma {:induction false} LongListRefused(ids: Ids)
    requires MAX_COUNT < |ids| <= U64_MAX
    ensures Refuses(PutU32s, GetU32s, ids)
  {
    forall k: bytes ensures GetU32s(PutU32s(ids, k)) == None { LongCountRefused(PutU32, GetU32, ids, k); }
  }

  lemma {:induction false} ShortListReadsBack(ids: Ids)
    requires |ids| <= MAX_COUNT
    ensures ReadsBack(PutU32s, GetU32s, ids)
  {
    forall k: bytes ensures GetU32s(PutU32s(ids, k)) == Some((ids, k)) { U32sReadBack(ids, k); }
  }

  lemma {:induction false} LongGameRefused(g: GameRow)
    requires MAX_COUNT < g.components <= U64_MAX
    ensures Refuses(PutGame, GetGame, g)
  {
    hide GetU32, PutU32, ReadByte, GetGameNames, PutGameNames, GameBits;
    forall k: bytes ensures GetGame(PutGame(g, k)) == None {
      var k2 := PutGameRest(g, k);
      var k1 := PutGameNames(g, k2);
      U32ReadBack(g.name, [GameBits(g)] + k1);
      ByteReadsBack(GameBits(g), k1);
      GameNamesReadBack(g, k2);
      RestRefused(g, GameNames(g.gameId, g.region, g.language, g.revision, g.parent), k);
    }
  }

  lemma {:induction false} RestRefused(g: GameRow, names: GameNames, k: bytes)
    requires MAX_COUNT < g.components <= U64_MAX
    ensures GetGameRest(g.name, GameBits(g), names, PutGameRest(g, k)) == None
  {
    hide GetU32, PutU32, GetOptional, PutOptional, GetUpstream, PutUpstream, GameBits, HasBit;
    VarOfEnc(g.components, PutU32(g.provenanceSet, PutU32(g.tagSet, PutOptional(g.disc, PutUpstream(g.upstream, k)))));
  }

  lemma {:induction false} ListsRefused(lists: seq<Ids>, k: bytes)
    requires !StorableLists(lists) && |lists| <= U64_MAX && forall l :: l in lists ==> |l| <= U64_MAX
    ensures GetLists(PutLists(lists, k)) == None
  {
    if |lists| > MAX_COUNT {
      LongCountRefused(PutU32s, GetU32s, lists, k);
    } else {
      forall l | l in lists ensures ReadsBack(PutU32s, GetU32s, l) || Refuses(PutU32s, GetU32s, l) {
        if |l| <= MAX_COUNT { ShortListReadsBack(l); } else { LongListRefused(l); }
      }
      var l :| l in lists && |l| > MAX_COUNT;
      LongListRefused(l);
      ItemRefused(PutU32s, GetU32s, lists, k);
    }
  }

  // ---------------------------------------------------------------- which tables a member list holds back

  /** Codes and widths are those the writers produce, and every length is a 64-bit number. */
  ghost predicate Written(t: Tables) {
    && (forall h :: h in t.hashes ==> Widths(h.digests)) && (forall c :: c in t.components ==> c.role < ROLES)
    && (forall g :: g in t.games ==> g.components <= U64_MAX && (g.upstream.Some? ==> g.upstream.value < UPSTREAMS))
    && |t.strings| <= U64_MAX && (forall s :: s in t.strings ==> |s| <= U64_MAX)
    && |t.hashes| <= U64_MAX && |t.components| <= U64_MAX && |t.games| <= U64_MAX && |t.routes| <= U64_MAX
    && ListsWritten(t.owners) && ListsWritten(t.sets.provenance) && ListsWritten(t.sets.tags)
    && (t.alternates.Some? ==> ListsWritten(t.alternates.value))
  }

  ghost predicate ListsWritten(lists: seq<Ids>) { |lists| <= U64_MAX && forall l :: l in lists ==> |l| <= U64_MAX }

  lemma {:induction false} TableRefused<T>(magic: str, put: Put<T>, get: Get<T>, x: T)
    requires |magic| == 4 && get(put(x, [])) == None
    ensures GetTable(magic, get, Some(PutTable(magic, put, x))) == None
  {
    TableBody(magic, put(x, []));
  }

  lemma {:induction false} StringsRefused(t: Tables)
    requires Written(t) && !(|t.strings| <= MAX_COUNT && forall s :: s in t.strings ==> |s| <= MAX_STRING)
    ensures GetTable(RWS5, GetStrings, Some(PutTable(RWS5, PutStrings, t.strings))) == None
  {
    if |t.strings| > MAX_COUNT {
      LongCountRefused(PutString, GetString, t.strings, []);
    } else {
      forall s | s in t.strings ensures ReadsBack(PutString, GetString, s) || Refuses(PutString, GetString, s) {
        if |s| <= MAX_STRING { StringReadsBack(s); } else { LongStringRefused(s); }
      }
      var s :| s in t.strings && |s| > MAX_STRING;
      LongStringRefused(s);
      ItemRefused(PutString, GetString, t.strings, []);
    }
    TableRefused(RWS5, PutStrings, GetStrings, t.strings);
  }

  lemma {:induction false} GamesRefused(t: Tables)
    requires Written(t) && !(|t.games| <= MAX_COUNT && forall g :: g in t.games ==> GameCodes(g))
    ensures GetTable(RWG5, GetGames, Some(PutTable(RWG5, PutGames, t.games))) == None
  {
    hide PutGame, GetGame;
    if |t.games| > MAX_COUNT {
      LongCountRefused(PutGame, GetGame, t.games, []);
    } else {
      forall g | g in t.games ensures ReadsBack(PutGame, GetGame, g) || Refuses(PutGame, GetGame, g) {
        if g.components <= MAX_COUNT { PackFormat.GameReadsBack(g); } else { LongGameRefused(g); }
      }
      var g :| g in t.games && !GameCodes(g);
      LongGameRefused(g);
      ItemRefused(PutGame, GetGame, t.games, []);
    }
    TableRefused(RWG5, PutGames, GetGames, t.games);
  }

  lemma {:induction false} ManyRowsRefused(t: Tables)
    requires Written(t)
    ensures |t.hashes| > MAX_COUNT ==> GetTable(RWH5, GetHashes, Some(PutTable(RWH5, PutHashes, t.hashes))) == None
    ensures |t.components| > MAX_COUNT ==>
      GetTable(RWC5, GetComponents, Some(PutTable(RWC5, PutComponents, t.components))) == None
    ensures |t.routes| > MAX_COUNT ==> GetTable(RWR5, GetU32s, Some(PutTable(RWR5, PutU32s, t.routes))) == None
  {
    hide PutHash, GetHash, PutComponent, GetComponent, Ascii;
    if |t.hashes| > MAX_COUNT {
      LongCountRefused(PutHash, GetHash, t.hashes, []);
      TableRefused(RWH5, PutHashes, GetHashes, t.hashes);
    }
    if |t.components| > MAX_COUNT {
      LongCountRefused(PutComponent, GetComponent, t.components, []);
      TableRefused(RWC5, PutComponents, GetComponents, t.components);
    }
    if |t.routes| > MAX_COUNT {
      LongCountRefused(PutU32, GetU32, t.routes, []);
      TableRefused(RWR5, PutU32s, GetU32s, t.routes);
    }
  }

  lemma {:induction false} SetsRefused(s: Sets)
    requires ListsWritten(s.provenance) && ListsWritten(s.tags)
    requires !(StorableLists(s.provenance) && StorableLists(s.tags))
    ensures GetTable(RWX5, GetSets, Some(PutTable(RWX5, PutSets, s))) == None
  {
    if !StorableLists(s.provenance) {
      ListsRefused(s.provenance, PutLists(s.tags, []));
    } else {
      U32ListsReadBack(s.provenance, PutLists(s.tags, []));
      ListsRefused(s.tags, []);
    }
    TableRefused(RWX5, PutSets, GetSets, s);
  }

  lemma {:induction false} ListTableRefused(magic: str, lists: seq<Ids>)
    requires |magic| == 4 && ListsWritten(lists) && !StorableLists(lists)
    ensures GetTable(magic, GetLists, Some(PutTable(magic, PutLists, lists))) == None
  {
    ListsRefused(lists, []);
    TableRefused(magic, PutLists, GetLists, lists);
  }

  /** Some table of a pack that is too large is refused. */
  ghost predicate SomeRefused(t: Tables) {
    || GetTable(RWS5, GetStrings, Some(PutTable(RWS5, PutStrings, t.strings))) == None
    || GetTable(RWH5, GetHashes, Some(PutTable(RWH5, PutHashes, t.hashes))) == None
    || GetTable(RWC5, GetComponents, Some(PutTable(RWC5, PutComponents, t.components))) == None
    || GetTable(RWG5, GetGames, Some(PutTable(RWG5, PutGames, t.games))) == None
    || GetTable(RWO5, GetLists, Some(PutTable(RWO5, PutLists, t.owners))) == None
    || GetTable(RWR5, GetU32s, Some(PutTable(RWR5, PutU32s, t.routes))) == None
    || GetTable(RWX5, GetSets, Some(PutTable(RWX5, PutSets, t.sets))) == None
    || (t.alternates.Some? && GetTable(RWN5, GetLists, Some(PutTable(RWN5, PutLists, t.alternates.value))) == None)
  }

  lemma {:induction false} TooLargeRefused(t: Tables)
    requires Written(t) && !Storable(t)
    ensures SomeRefused(t)
  {
    hide PutTable, GetTable, Ascii, StorableLists, ListsWritten, Widths, GameCodes;
    ManyRowsRefused(t);
    if !(|t.strings| <= MAX_COUNT && forall s :: s in t.strings ==> |s| <= MAX_STRING) { StringsRefused(t); }
    if !(|t.games| <= MAX_COUNT && forall g :: g in t.games ==> GameCodes(g)) { GamesRefused(t); }
    if !StorableLists(t.owners) { ListTableRefused(RWO5, t.owners); }
    if !(StorableLists(t.sets.provenance) && StorableLists(t.sets.tags)) { SetsRefused(t.sets); }
    if t.alternates.Some? && !StorableLists(t.alternates.value) { ListTableRefused(RWN5, t.alternates.value); }
  }

  lemma {:induction false} RefusedTables(read: map<str, bytes>, t: Tables, json: Json)
    ensures Holds(read, t, json) && SomeRefused(t) ==> TablesOf(read, json) == None
  {
    hide PutTable, GetTable, Ascii, Find;
  }

  /** Written tables are read back when they are within the limits of the format, and refused otherwise. */
  lemma {:induction false} TablesReadBackExactly(t: Tables, json: Json)
    requires Written(t) && Faithful(json)
    requires forall m :: m in Members(t, json) ==> |m.1| <= U64_MAX
    ensures ReadTables(WriteTables(t, json), json) == if Storable(t) then Some(t) else None
  {
    hide Storable, PutTable, ReadMembers, WriteMembers, Names, TablesOf, Holds, SomeRefused, DistinctNames, Faithful, Written;
    if Storable(t) {
      TablesReadBack(t, json);
    } else {
      var ms := Members(t, json);
      NamesDiffer(t, json);
      hide Ascii;
      forall i | 0 <= i < |ms| ensures |ms[i].0| < 0x1_0000 && |ms[i].1| <= U64_MAX { assert ms[i] in ms; }
      MembersReadBack(ms);
      var read := ReadMembers(WriteMembers(ms)).value;
      Located(ms, read, t, json);
      TooLargeRefused(t);
      RefusedTables(read, t, json);
    }
  }

  // ---------------------------------------------------------------- the theorem, both ways

  lemma {:induction false} ProvenanceCount(manifest: seq<Provenance>, used: seq<Provenance>)
    requires (forall p :: p in used ==> p in manifest) && |manifest| <= MAX_IDS
    ensures |SortedProvenance(manifest, used)| <= |manifest|
  {
    SimpleKeysInjective();
    var listed, ids := ProvenanceIds(manifest, used), SortedProvenance(manifest, used);
    OrderedSetAscending(IdKey, listed);
    hide OrderedSet, SortedProvenance, Injective;
    forall i | 0 <= i < |ids| ensures ids[i] < |manifest| { assert ids[i] in ids && ids[i] in listed; }
    forall i, j | 0 <= i < j < |ids| ensures ids[i] < ids[j] {
      assert KeyLess(IdKey(ids[i]), IdKey(ids[j]));
      IdKeyOrder(ids[i], ids[j]);
    }
    if ids != [] { AscendingBound(ids, |manifest|, |ids| - 1); }
  }

  lemma {:induction false} ProvenanceListsCount(n: Interning, gs: seq<Game>)
    requires Small(n) && CoversAll(n, gs)
    ensures forall l :: l in ProvenanceLists(n, gs) ==> |l| <= |n.manifest|
  {
    hide SortedProvenance;
    if gs != [] {
      assert gs[0] in gs;
      ProvenanceCount(n.manifest, gs[0].provenance);
      ProvenanceListsCount(n, gs[1..]);
    }
  }

  lemma {:induction false} RowsWritten(n: Interning, sets: Sets, gs: seq<Game>)
    requires Small(n) && CoversAll(n, gs) && |sets.provenance| <= MAX_IDS && |sets.tags| <= MAX_IDS && SetsKnown(n, sets, gs)
    requires |AllComponents(gs)| <= MAX_IDS
    ensures forall r :: r in GameRows(n, sets, gs) ==> r.components <= U64_MAX && (r.upstream.Some? ==> r.upstream.value < UPSTREAMS)
  {
    hide SortedIds, SortedProvenance, Covers;
    if gs != [] {
      assert gs[0] in gs;
      RowWritten(n, sets, gs[0]);
      RowsWritten(n, sets, gs[1..]);
    }
  }

  lemma {:induction false} RowWritten(n: Interning, sets: Sets, g: Game)
    requires Small(n) && Covers(n, g) && |sets.provenance| <= MAX_IDS && |sets.tags| <= MAX_IDS
    requires SortedProvenance(n.manifest, g.provenance) in sets.provenance && SortedIds(n.strings, g.dumpTags) in sets.tags
    requires |g.components| <= MAX_IDS
    ensures var r := GameRowOf(n, sets, g); r.components <= U64_MAX && (r.upstream.Some? ==> r.upstream.value < UPSTREAMS)
  {
    hide SortedIds, SortedProvenance, OptionalId;
  }

  lemma {:induction false} OwnersWritten(hashIds: seq<u32>, hashCount: nat)
    requires |hashIds| <= MAX_IDS && hashCount <= MAX_IDS
    ensures forall o :: o in OwnerTable(hashIds, hashCount) ==> StrictlyAscending(o)
    ensures ListsWritten(AllDeltas(OwnerTable(hashIds, hashCount)))
  {
    OwnersAscend(hashIds, hashCount);
    var owners := OwnerTable(hashIds, hashCount);
    forall h | 0 <= h < |owners|
      ensures |owners[h]| <= MAX_IDS && forall i :: 0 <= i < |owners[h]| ==> owners[h][i] < |hashIds|
    {
      assert owners[h] in owners;
      forall i | 0 <= i < |owners[h]| ensures owners[h][i] < |hashIds| { InPositions(hashIds, h, 0, owners[h][i]); }
      if owners[h] != [] { AscendingBound(owners[h], |hashIds|, |owners[h]| - 1); }
    }
    OwnersReadBack(owners, |hashIds|);
  }

  lemma {:induction false} SetsWritten(n: Interning, gs: seq<Game>)
    requires CoversAll(n, gs) && FitsIds(n, gs)
    ensures ListsWritten(SetsOf(n, gs).provenance) && ListsWritten(SetsOf(n, gs).tags) && ListsWritten(AlternateLists(n, gs))
  {
    NameListsCount(n, gs);
    ProvenanceListsCount(n, gs);
    SetTableItems(ProvenanceLists(n, gs));
    SetTableItems(TagLists(n, gs));
    hide SetTable, ProvenanceLists, TagLists, AlternateLists, Covers, AllComponents;
  }

  lemma {:induction false} BuiltWritten(n: Interning, gs: seq<Game>, hashes: seq<HashRow>, manifest: Manifest)
    requires CoversAll(n, gs) && FitsIds(n, gs) && forall s :: s in n.strings ==> |s| <= U64_MAX
    requires |hashes| == |n.keys| && forall h :: h in hashes ==> Widths(h.digests)
    ensures Written(TablesFor(n, gs, hashes, manifest))
  {
    hide Covers, Widths, ListsWritten, ComponentInterned;
    ComponentsCovered(n, gs);
    SetsComplete(n, gs);
    SetsWritten(n, gs);
    var components := AllComponents(gs);
    var rows := ComponentRows(components, n.strings, n.keys);
    RowRoles(components, n.strings, n.keys);
    RowsWritten(n, SetsOf(n, gs), gs);
    OwnersWritten(HashIds(rows), |n.keys|);
    RoutesCount(n.keys, OwnersFor(n, components), components);
    hide ComponentRows, GameRows, Routes, OwnersFor, SetsOf, AlternateLists, ProvenanceLists, AllComponents;
  }

  /** Tables that can be stored come from games within the limits. */
  lemma {:induction false} StorableMeansWithin(n: Interning, gs: seq<Game>, hashes: seq<HashRow>, manifest: Manifest)
    requires CoversAll(n, gs) && FitsIds(n, gs) && |hashes| == |n.keys|
    ensures Storable(TablesFor(n, gs, hashes, manifest)) ==> WithinLimits(n, gs)
  {
    if !Storable(TablesFor(n, gs, hashes, manifest)) {
      return;
    }
    SetsComplete(n, gs);
    TableParts(n, gs, hashes, manifest);
    ComponentsCovered(n, gs);
    var t := TablesFor(n, gs, hashes, manifest);
    assert t.hashes == hashes && |t.components| == |AllComponents(gs)| && |t.games| == |gs|;
    hide TablesFor, Covers, Widths, GameCodes, GameRows, AllComponents, AlternateLists, WrittenAlternates, Routes;
    assert StorableLists(SetsOf(n, gs).provenance) && StorableLists(SetsOf(n, gs).tags);
    SetTableItems(ProvenanceLists(n, gs));
    hide SetTable, ProvenanceLists, TagLists;
  }

  /** Every member is shorter than 2^64 bytes, as everything in memory is. */
  ghost predicate MembersFit(q: Request, json: Json) {
    Built(q).Some? ==> forall m :: m in Members(Built(q).value, json) ==> |m.1| <= U64_MAX
  }

  lemma {:induction false} ManifestFits(q: Request, json: Json)
    requires Built(q).Some? && MembersFit(q, json)
    ensures |json.write(ManifestOf(q))| <= U64_MAX
  {
    BuiltManifest(q);
    MemberList(Built(q).value, json);
    hide Build, Members;
    assert Members(Built(q).value, json)[7] in Members(Built(q).value, json);
  }

  /** The pack can be encoded at all: games that fit it, ids that fit 32 bits, and lengths that fit 64. */
  ghost predicate Encodable(q: Request, json: Json) {
    var n := Interned(Sorted(q), q.provenance);
    && Canonical(q.games) && Accepts(q.platform, q.source, q.provenance, Sorted(q)) && FitsIds(n, Sorted(q))
    && (forall s :: s in n.strings ==> |s| <= U64_MAX) && MembersFit(q, json)
  }

  lemma {:induction false} BuildWrites(q: Request, json: Json)
    ensures Encodable(q, json) ==>
      Built(q).Some? && Written(Built(q).value) && (Storable(Built(q).value) <==> Fits(q))
  {
    if !Encodable(q, json) {
      return;
    }
    var (gs, m) := (Sorted(q), ManifestOf(q));
    var n := Interned(gs, q.provenance);
    SortByMembers(GameOrder, q.games);
    CanonicalKeys(q.games, gs);
    HashTableOrdered(gs);
    InternedCovers(q.platform, q.source, q.provenance, gs);
    hide Canonical, WithinLimits, StringTable, HashTable, SortBy, AllComponents, Ascii, Covers, HashRows, SizesFrom, ScopesKnown,
         AllCanonical, CanonicalHash, Storable, TablesFor, Widths, FitsIds, Written, Members;
    HashRowsReadBack(n.keys, n.strings, 0);
    var hashes := HashRows(n.keys, n.strings, 0).value;
    BuiltWritten(n, gs, hashes, m);
    if WithinLimits(n, gs) { BuiltStorable(n, gs, hashes, m); }
    StorableMeansWithin(n, gs, hashes, m);
  }

  /** What is encoded is accepted by the parser exactly when the games are within the limits of the format. */
  lemma {:induction false} RoundTripExactly(q: Request, json: Json)
    requires Faithful(json)
    ensures Encodable(q, json) ==> (RoundTrips(q, json) <==> Fits(q)) && (!Fits(q) ==> Refused(q, json))
  {
    hide Sorted, Build, Interned, Fits, Storable, Written, Members, ReadTables, WriteTables, Resolve, Canonical, Accepts,
         FitsIds, RoundTrips, Faithful, MembersFit;
    if Encodable(q, json) {
      BuildWrites(q, json);
      ManifestFits(q, json);
      RoundTrip(q, json);
      if !Fits(q) { RefusedWhole(q, json); }
    }
  }

  /** The pack is written, and parsing it fails. */
  ghost predicate Refused(q: Request, json: Json) {
    var written := EncodePack(q.platform, q.source, q.profile, q.provenance, q.games, json);
    written.Some? && Parse(written.value, json) == None
  }

  lemma {:induction false} RefusedWhole(q: Request, json: Json)
    requires Faithful(json)
    ensures Built(q).Some? && Written(Built(q).value) && !Storable(Built(q).value) && MembersFit(q, json) ==>
      Refused(q, json) && !RoundTrips(q, json)
  {
    hide Build, Storable, Written, Members, ReadTables, WriteTables, Resolve, Faithful;
    if Built(q).Some? {
      var t := Built(q).value;
      if Written(t) && !Storable(t) && MembersFit(q, json) { TablesReadBackExactly(t, json); }
    }
  }

  // ---------------------------------------------------------------- games that fit by their counts

  /** Counts of strings, components and games that a caller can take before encoding. */
  ghost predicate SmallCounts(q: Request) {
    var gs := Sorted(q);
    && Accepts(q.platform, q.source, q.provenance, gs) && |gs| < MAX_COUNT && |q.provenance| <= MAX_COUNT
    && |AllComponents(gs)| <= MAX_COUNT && |AllStrings(gs)| <= MAX_COUNT
    && forall s :: s in AllStrings(gs) ==> |s| <= MAX_STRING
  }

  lemma {:induction false} SmallCountsFit(q: Request)
    requires SmallCounts(q)
    ensures Fits(q)
  {
    var gs := Sorted(q);
    var n := Interned(gs, q.provenance);
    TablesCount(gs);
    TablesHoldAll(gs);
    hide Accepts, AllComponents, AllStrings, StringTable, HashTable, Covers, SetsOf, ProvenanceLists, Sorted, SetsKnown;
    InternedCovers(q.platform, q.source, q.provenance, gs);
    SetsComplete(n, gs);
    ProvenanceListsCount(n, gs);
  }

  lemma {:induction false} TablesCount(gs: seq<Game>)
    ensures |StringTable(gs)| <= |AllStrings(gs)| && |HashTable(gs)| <= |AllComponents(gs)|
  {
    SimpleKeysInjective();
    HashOrderInjective();
    OrderedSetAscending(TextKey, AllStrings(gs));
    OrderedSetAscending(HashOrder, Keys(AllComponents(gs)));
  }
}
