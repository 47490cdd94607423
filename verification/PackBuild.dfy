/** Encoding games: strings and hashes interned in sorted order, and every table written in terms of their positions. */
module PackBuild {
  import opened Bytes
  import opened Order
  import opened PackFormat
  import opened PackModel
  import opened PackHashes
  import opened PackOwners
  import opened PackRoutes
  import opened PackTables
  import opened PackParse

  // ---------------------------------------------------------------- interning

  function Present(o: Option<str>): seq<str> { match o case None => [] case Some(s) => [s] }

  function ComponentStrings(cs: seq<Component>): seq<str> {
    if cs == [] then [] else Present(cs[0].filename) + [cs[0].hash.scope] + ComponentStrings(cs[1..])
  }

  /** Every string of a game but its platform. */
  function GameStrings(g: Game): seq<str> {
    [g.name] + Present(g.gameId) + Present(g.region) + Present(g.language) + Present(g.revision) + Present(g.parent)
    + ComponentStrings(g.components) + g.dumpTags + g.alternateNames
  }

  function AllStrings(gs: seq<Game>): seq<str> {
    if gs == [] then [] else GameStrings(gs[0]) + AllStrings(gs[1..])
  }

  function Keys(cs: seq<Component>): (r: seq<HashKey>)
    ensures |r| == |cs| && forall i :: 0 <= i < |cs| ==> r[i] == cs[i].hash
  {
    seq(|cs|, i requires 0 <= i < |cs| => cs[i].hash)
  }

  function StringTable(gs: seq<Game>): seq<str> { OrderedSet(TextKey, AllStrings(gs)) }

  function HashTable(gs: seq<Game>): seq<HashKey> { OrderedSet(HashOrder, Keys(AllComponents(gs))) }

  predicate Has(table: seq<str>, o: Option<str>) { o.Some? ==> o.value in table }

  predicate HasAll(table: seq<str>, names: seq<str>) { forall s :: s in names ==> s in table }

  /** A component's strings and hash key have ids. */
  predicate ComponentInterned(c: Component, strings: seq<str>, keys: seq<HashKey>) {
    Has(strings, c.filename) && c.hash.scope in strings && c.hash in keys
  }

  predicate GameInterned(g: Game, strings: seq<str>, keys: seq<HashKey>) {
    && g.name in strings && Has(strings, g.gameId) && Has(strings, g.region) && Has(strings, g.language)
    && Has(strings, g.revision) && Has(strings, g.parent) && HasAll(strings, g.dumpTags) && HasAll(strings, g.alternateNames)
    && forall c :: c in g.components ==> ComponentInterned(c, strings, keys)
  }

  // ---------------------------------------------------------------- rows

  function Id<T(==)>(table: seq<T>, x: T): u32
    requires x in table && |table| <= MAX_IDS
  {
    IndexOf(table, x)
  }

  function OptionalId(table: seq<str>, o: Option<str>): Option<u32>
    requires Has(table, o) && |table| <= MAX_IDS
  {
    match o case None => None case Some(s) => Some(Id(table, s))
  }

  function IdsIn<T(==)>(table: seq<T>, names: seq<T>): (r: Ids)
    requires (forall x :: x in names ==> x in table) && |table| <= MAX_IDS
    ensures |r| == |names| && forall i :: 0 <= i < |names| ==> names[i] in table && r[i] == Id(table, names[i])
  {
    if names == [] then [] else assert names[0] in names; [Id(table, names[0])] + IdsIn(table, names[1..])
  }

  /** The ids of the names, sorted, each once. */
  function SortedIds(table: seq<str>, names: seq<str>): Ids
    requires HasAll(table, names) && |table| <= MAX_IDS
  {
    OrderedSet(IdKey, IdsIn(table, names))
  }

  /** The manifest map keeps the last index of equal entries. */
  function LastIndexOf(manifest: seq<Provenance>, p: Provenance): (i: nat)
    requires p in manifest
    ensures i < |manifest| && manifest[i] == p && p !in manifest[i + 1..]
  {
    if p in manifest[1..] then 1 + LastIndexOf(manifest[1..], p) else 0
  }

  function ProvenanceIds(manifest: seq<Provenance>, used: seq<Provenance>): (r: Ids)
    requires (forall p :: p in used ==> p in manifest) && |manifest| <= MAX_IDS
    ensures |r| == |used| && forall i :: 0 <= i < |used| ==> used[i] in manifest && r[i] == LastIndexOf(manifest, used[i])
  {
    if used == [] then [] else assert used[0] in used; [LastIndexOf(manifest, used[0])] + ProvenanceIds(manifest, used[1..])
  }

  function SortedProvenance(manifest: seq<Provenance>, used: seq<Provenance>): Ids
    requires (forall p :: p in used ==> p in manifest) && |manifest| <= MAX_IDS
  {
    OrderedSet(IdKey, ProvenanceIds(manifest, used))
  }

  function ComponentRowOf(c: Component, strings: seq<str>, keys: seq<HashKey>): ComponentRow
    requires ComponentInterned(c, strings, keys) && |strings| <= MAX_IDS && |keys| <= MAX_IDS
  {
    ComponentRow(Id(keys, c.hash), OptionalId(strings, c.filename), c.track, c.session, RoleCode(c.role), c.required,
                 c.discriminating)
  }

  function ComponentRows(cs: seq<Component>, strings: seq<str>, keys: seq<HashKey>): (r: seq<ComponentRow>)
    requires forall c :: c in cs ==> ComponentInterned(c, strings, keys)
    requires |strings| <= MAX_IDS && |keys| <= MAX_IDS
    ensures |r| == |cs|
    ensures forall i :: 0 <= i < |cs| ==> cs[i].hash in keys && r[i].hash == Id(keys, cs[i].hash)
  {
    if cs == [] then []
    else assert cs[0] in cs; [ComponentRowOf(cs[0], strings, keys)] + ComponentRows(cs[1..], strings, keys)
  }

  /** Everything the rows of a game refer to has an id. */
  datatype Interning = Interning(strings: seq<str>, keys: seq<HashKey>, manifest: seq<Provenance>)

  predicate Small(n: Interning) { |n.strings| <= MAX_IDS && |n.keys| <= MAX_IDS && |n.manifest| <= MAX_IDS }

  predicate Covers(n: Interning, g: Game) {
    GameInterned(g, n.strings, n.keys) && forall p :: p in g.provenance ==> p in n.manifest
  }

  predicate CoversAll(n: Interning, gs: seq<Game>) { forall g :: g in gs ==> Covers(n, g) }

  function ProvenanceLists(n: Interning, gs: seq<Game>): (r: seq<Ids>)
    requires Small(n) && CoversAll(n, gs)
    ensures |r| == |gs|
  {
    if gs == [] then []
    else assert gs[0] in gs; [SortedProvenance(n.manifest, gs[0].provenance)] + ProvenanceLists(n, gs[1..])
  }

  function TagLists(n: Interning, gs: seq<Game>): (r: seq<Ids>)
    requires Small(n) && CoversAll(n, gs)
    ensures |r| == |gs|
  {
    if gs == [] then [] else assert gs[0] in gs; [SortedIds(n.strings, gs[0].dumpTags)] + TagLists(n, gs[1..])
  }

  function AlternateLists(n: Interning, gs: seq<Game>): (r: seq<Ids>)
    requires Small(n) && CoversAll(n, gs)
    ensures |r| == |gs|
  {
    if gs == [] then [] else assert gs[0] in gs; [SortedIds(n.strings, gs[0].alternateNames)] + AlternateLists(n, gs[1..])
  }

  /** The distinct sets in order, the empty one always among them. */
  function SetTable(lists: seq<Ids>): seq<Ids> { OrderedSet(IdsKey, [[]] + lists) }

  function GameRowOf(n: Interning, sets: Sets, g: Game): GameRow
    requires Small(n) && Covers(n, g) && |sets.provenance| <= MAX_IDS && |sets.tags| <= MAX_IDS
    requires SortedProvenance(n.manifest, g.provenance) in sets.provenance && SortedIds(n.strings, g.dumpTags) in sets.tags
  {
    GameRow(Id(n.strings, g.name), OptionalId(n.strings, g.gameId), OptionalId(n.strings, g.region),
            OptionalId(n.strings, g.language), OptionalId(n.strings, g.revision), OptionalId(n.strings, g.parent),
            |g.components|, Id(sets.provenance, SortedProvenance(n.manifest, g.provenance)),
            Id(sets.tags, SortedIds(n.strings, g.dumpTags)), g.disc, UpstreamCode(g.upstream), g.legacy)
  }

  /** The sets of every game are in the tables. */
  predicate SetsKnown(n: Interning, sets: Sets, gs: seq<Game>)
    requires Small(n) && CoversAll(n, gs)
  {
    forall g :: g in gs ==>
      SortedProvenance(n.manifest, g.provenance) in sets.provenance && SortedIds(n.strings, g.dumpTags) in sets.tags
  }

  function GameRows(n: Interning, sets: Sets, gs: seq<Game>): (r: seq<GameRow>)
    requires Small(n) && CoversAll(n, gs) && |sets.provenance| <= MAX_IDS && |sets.tags| <= MAX_IDS && SetsKnown(n, sets, gs)
    ensures |r| == |gs|
  {
    if gs == [] then [] else assert gs[0] in gs; [GameRowOf(n, sets, gs[0])] + GameRows(n, sets, gs[1..])
  }

  // ---------------------------------------------------------------- routes

  /** Routes are sorted by the text of the crc32 here, and by its bytes in the parser. */
  function TextRouteKey(k: HashKey, id: u32): Key {
    [match k.crc32 case None => [] case Some(crc) => crc, [k.size], k.scope, [id]]
  }

  function TextRouteOrder(keys: seq<HashKey>): u32 -> Key {
    (id: u32) => if id < |keys| then TextRouteKey(keys[id], id) else [[], [], [], [id]]
  }

  function RoutedFrom(keys: seq<HashKey>, owners: seq<Ids>, components: seq<Component>, from: nat): Ids
    requires from <= |keys| <= MAX_IDS
    decreases |keys| - from
  {
    if from == |keys| then []
    else
      (if keys[from].size > 0 && keys[from].crc32.Some? && Discriminates(owners, components, from) then [from] else [])
      + RoutedFrom(keys, owners, components, from + 1)
  }

  function Routes(keys: seq<HashKey>, owners: seq<Ids>, components: seq<Component>): Ids
    requires |keys| <= MAX_IDS
  {
    SortBy(TextRouteOrder(keys), RoutedFrom(keys, owners, components, 0))
  }

  // ---------------------------------------------------------------- the interning is complete

  lemma {:induction false} InComponentStrings(cs: seq<Component>, c: Component)
    requires c in cs
    ensures c.hash.scope in ComponentStrings(cs) && Has(ComponentStrings(cs), c.filename)
  {
    if c != cs[0] { InComponentStrings(cs[1..], c); }
  }

  lemma {:induction false} InAllStrings(gs: seq<Game>, g: Game)
    requires g in gs
    ensures HasAll(AllStrings(gs), GameStrings(g))
  {
    hide GameStrings;
    if g != gs[0] { InAllStrings(gs[1..], g); }
  }

  lemma {:induction false} InAllComponents(gs: seq<Game>, g: Game, c: Component)
    requires g in gs && c in g.components
    ensures c in AllComponents(gs)
  {
    if g != gs[0] { InAllComponents(gs[1..], g, c); }
  }

  lemma {:induction false} PiecesInterned(g: Game, strings: seq<str>)
    requires HasAll(strings, GameStrings(g))
    ensures g.name in strings && Has(strings, g.gameId) && Has(strings, g.region) && Has(strings, g.language)
         && Has(strings, g.revision) && Has(strings, g.parent)
    ensures HasAll(strings, ComponentStrings(g.components)) && HasAll(strings, g.dumpTags) && HasAll(strings, g.alternateNames)
  {
    hide ComponentStrings;
    var all := GameStrings(g);
    assert all == [g.name] + Present(g.gameId) + Present(g.region) + Present(g.language) + Present(g.revision)
      + Present(g.parent) + ComponentStrings(g.components) + g.dumpTags + g.alternateNames;
    assert g.name in all;
    assert Has(all, g.gameId) && Has(all, g.region) && Has(all, g.language) && Has(all, g.revision) && Has(all, g.parent);
  }

  lemma {:induction false} TablesHoldAll(gs: seq<Game>)
    ensures forall s :: s in StringTable(gs) <==> s in AllStrings(gs)
    ensures forall k :: k in HashTable(gs) <==> k in Keys(AllComponents(gs))
  {
    SimpleKeysInjective();
    HashOrderInjective();
    OrderedSetAscending(TextKey, AllStrings(gs));
    OrderedSetAscending(HashOrder, Keys(AllComponents(gs)));
  }

  lemma {:induction false} TablesIntern(gs: seq<Game>, g: Game)
    requires g in gs
    ensures GameInterned(g, StringTable(gs), HashTable(gs))
  {
    hide StringTable, HashTable, AllStrings, OrderedSet, GameStrings, AllComponents, ComponentStrings;
    TablesHoldAll(gs);
    InAllStrings(gs, g);
    PiecesInterned(g, AllStrings(gs));
    var strings, keys := StringTable(gs), HashTable(gs);
    forall c | c in g.components ensures ComponentInterned(c, strings, keys) {
      InComponentStrings(g.components, c);
      InAllComponents(gs, g, c);
      var i :| 0 <= i < |AllComponents(gs)| && AllComponents(gs)[i] == c;
      assert Keys(AllComponents(gs))[i] == c.hash;
    }
  }

  // ---------------------------------------------------------------- the tables

  /** The pack's platform and source fit every game, and every provenance a game uses is in the manifest. */
  predicate Accepts(platform: str, source: IdentifySource, provenance: seq<Provenance>, gs: seq<Game>) {
    forall g :: g in gs ==> g.platform == platform && g.source == source && forall p :: p in g.provenance ==> p in provenance
  }

  function Interned(gs: seq<Game>, provenance: seq<Provenance>): Interning {
    Interning(StringTable(gs), HashTable(gs), provenance)
  }

  lemma {:induction false} InternedCovers(platform: str, source: IdentifySource, provenance: seq<Provenance>, gs: seq<Game>)
    requires Accepts(platform, source, provenance, gs)
    ensures CoversAll(Interned(gs, provenance), gs)
  {
    hide StringTable, HashTable, GameInterned;
    forall g | g in gs ensures Covers(Interned(gs, provenance), g) { TablesIntern(gs, g); }
  }

  lemma {:induction false} ComponentOfGame(gs: seq<Game>, c: Component)
    requires c in AllComponents(gs)
    ensures exists g :: g in gs && c in g.components
    decreases |gs|
  {
    if c in gs[0].components {
      assert gs[0] in gs;
    } else {
      assert c in AllComponents(gs[1..]);
      ComponentOfGame(gs[1..], c);
      var g :| g in gs[1..] && c in g.components;
      assert g in gs;
    }
  }

  lemma {:induction false} ComponentsCovered(n: Interning, gs: seq<Game>)
    requires CoversAll(n, gs)
    ensures forall c :: c in AllComponents(gs) ==> ComponentInterned(c, n.strings, n.keys)
  {
    hide ComponentInterned, AllComponents;
    forall c | c in AllComponents(gs) ensures ComponentInterned(c, n.strings, n.keys) {
      ComponentOfGame(gs, c);
      var g :| g in gs && c in g.components;
      assert Covers(n, g);
    }
  }

  lemma {:induction false} KeyScopeKnown(gs: seq<Game>, k: HashKey)
    requires k in Keys(AllComponents(gs))
    ensures k.scope in StringTable(gs)
  {
    hide StringTable, AllComponents, HashTable;
    var i :| 0 <= i < |Keys(AllComponents(gs))| && Keys(AllComponents(gs))[i] == k;
    var c := AllComponents(gs)[i];
    ComponentOfGame(gs, c);
    var g :| g in gs && c in g.components;
    TablesIntern(gs, g);
    assert ComponentInterned(c, StringTable(gs), HashTable(gs));
  }

  /** The hash keys are in ascending order and their scopes have ids. */
  lemma {:induction false} HashTableOrdered(gs: seq<Game>)
    ensures SizesFrom(HashTable(gs), 0) && ScopesKnown(HashTable(gs), StringTable(gs))
    ensures forall k :: k in HashTable(gs) <==> k in Keys(AllComponents(gs))
  {
    HashOrderInjective();
    OrderedSetAscending(HashOrder, Keys(AllComponents(gs)));
    var keys := HashTable(gs);
    hide OrderedSet, KeyLess, StringTable, AllComponents, HashOrder, Injective;
    forall i, j | 0 <= i < j < |keys| ensures keys[i].size <= keys[j].size { SizesAscend(keys[i], keys[j]); }
    forall k | k in keys ensures ScopeKnown(k.scope, StringTable(gs)) { KeyScopeKnown(gs, k); }
  }

  lemma {:induction false} ListsMember(n: Interning, gs: seq<Game>, g: Game)
    requires Small(n) && CoversAll(n, gs) && g in gs
    ensures Covers(n, g)
    ensures SortedProvenance(n.manifest, g.provenance) in ProvenanceLists(n, gs)
    ensures SortedIds(n.strings, g.dumpTags) in TagLists(n, gs)
    decreases |gs|
  {
    hide Covers, SortedProvenance, SortedIds;
    assert gs[0] in gs;
    if g != gs[0] {
      assert g in gs[1..];
      ListsMember(n, gs[1..], g);
    }
  }

  function SetsOf(n: Interning, gs: seq<Game>): Sets
    requires Small(n) && CoversAll(n, gs)
  {
    Sets(SetTable(ProvenanceLists(n, gs)), SetTable(TagLists(n, gs)))
  }

  lemma {:induction false} SetTableItems(lists: seq<Ids>)
    ensures |SetTable(lists)| <= |lists| + 1
    ensures forall x :: x in SetTable(lists) <==> x == [] || x in lists
  {
    SimpleKeysInjective();
    OrderedSetAscending(IdsKey, [[]] + lists);
  }

  lemma {:induction false} SetsComplete(n: Interning, gs: seq<Game>)
    requires Small(n) && CoversAll(n, gs)
    ensures |SetsOf(n, gs).provenance| <= |gs| + 1 && |SetsOf(n, gs).tags| <= |gs| + 1
    ensures SetsKnown(n, SetsOf(n, gs), gs)
  {
    SetTableItems(ProvenanceLists(n, gs));
    SetTableItems(TagLists(n, gs));
    hide SetTable, ProvenanceLists, TagLists, SortedProvenance, SortedIds;
    forall g | g in gs
      ensures Covers(n, g) && SortedProvenance(n.manifest, g.provenance) in SetsOf(n, gs).provenance
           && SortedIds(n.strings, g.dumpTags) in SetsOf(n, gs).tags
    {
      ListsMember(n, gs, g);
    }
  }

  /** The alternate names are written only when some game has one. */
  function WrittenAlternates(lists: seq<Ids>): Option<seq<Ids>> {
    if exists l :: l in lists && l != [] then Some(lists) else None
  }

  predicate FitsIds(n: Interning, gs: seq<Game>) { Small(n) && |AllComponents(gs)| <= MAX_IDS && |gs| < MAX_IDS }

  function OwnersFor(n: Interning, components: seq<Component>): seq<Ids>
    requires (forall c :: c in components ==> ComponentInterned(c, n.strings, n.keys)) && Small(n) && |components| <= MAX_IDS
  {
    OwnerTable(HashIds(ComponentRows(components, n.strings, n.keys)), |n.keys|)
  }

  lemma {:induction false} OwnersAscend(hashIds: seq<u32>, hashCount: nat)
    requires |hashIds| <= MAX_IDS
    ensures forall o :: o in OwnerTable(hashIds, hashCount) ==> StrictlyAscending(o)
  {
    var owners := OwnerTable(hashIds, hashCount);
    forall h | 0 <= h < |owners| ensures StrictlyAscending(owners[h]) { PositionsAscend(hashIds, h, 0); }
  }

  /** The tables of sorted games. */
  function TablesFor(n: Interning, gs: seq<Game>, hashes: seq<HashRow>, manifest: Manifest): Tables
    requires CoversAll(n, gs) && FitsIds(n, gs)
  {
    var components := AllComponents(gs);
    ComponentsCovered(n, gs);
    SetsComplete(n, gs);
    var rows := ComponentRows(components, n.strings, n.keys);
    var owners := OwnersFor(n, components);
    OwnersAscend(HashIds(rows), |n.keys|);
    var sets := SetsOf(n, gs);
    Tables(n.strings, hashes, rows, GameRows(n, sets, gs), AllDeltas(owners), Routes(n.keys, owners, components), sets,
           manifest, WrittenAlternates(AlternateLists(n, gs)))
  }

  /** The tables of a pack; none when a game does not fit the pack, an id does not fit 32 bits, or a digest is not hexadecimal. */
  function Build(platform: str, source: IdentifySource, profile: str, provenance: seq<Provenance>, games: seq<Game>)
    : Option<Tables>
  {
    var gs := SortBy(GameOrder, games);
    var n := Interned(gs, provenance);
    if !Accepts(platform, source, provenance, gs) || !FitsIds(n, gs) then None
    else
      InternedCovers(platform, source, provenance, gs);
      HashTableOrdered(gs);
      var hashes :- HashRows(n.keys, n.strings, 0);
      Some(TablesFor(n, gs, hashes, Manifest(FORMAT, platform, source, profile, VERSION, provenance)))
  }

  function EncodePack(platform: str, source: IdentifySource, profile: str, provenance: seq<Provenance>, games: seq<Game>, json: Json)
    : Option<bytes>
  {
    var t :- Build(platform, source, profile, provenance, games);
    Some(WriteTables(t, json))
  }
}
