/** Encoding games and parsing the result gives the games back, sorted and in normal form. */
module PackRoundTrip {
  import opened Bytes
  import opened Hex
  import opened Order
  import opened PackFormat
  import opened PackModel
  import opened PackHashes
  import opened PackOwners
  import opened PackRoutes
  import opened PackTables
  import opened PackParse
  import opened PackBuild
  import opened PackSound

  // ---------------------------------------------------------------- names by id

  /** Looking up the sorted ids of names gives the names sorted: ids are positions in a sorted table. */
  lemma {:induction false} NamesReadBack(strings: seq<str>, names: seq<str>)
    requires Ascending(TextKey, strings) && HasAll(strings, names) && |strings| <= MAX_IDS
    ensures LookupAll(SortedIds(strings, names), strings) == Some(OrderedSet(TextKey, names))
  {
    SimpleKeysInjective();
    var listed, ids := IdsIn(strings, names), SortedIds(strings, names);
    OrderedSetAscending(IdKey, listed);
    OrderedSetAscending(TextKey, names);
    hide OrderedSet, SortedIds, KeyLess, Injective;
    IdsInRange(strings, names, ids);
    LookupAllItems(ids, strings);
    var back := LookupAll(ids, strings).value;
    LookupAscends(ids, strings, back);
    LookupMembers(strings, names, ids, back);
    AscendingUnique(TextKey, back, OrderedSet(TextKey, names));
  }

  lemma {:induction false} IdsInRange(strings: seq<str>, names: seq<str>, ids: Ids)
    requires HasAll(strings, names) && |strings| <= MAX_IDS
    requires forall x :: x in ids <==> x in IdsIn(strings, names)
    ensures forall i :: 0 <= i < |ids| ==> ids[i] < |strings|
  {
    forall i | 0 <= i < |ids| ensures ids[i] < |strings| { assert ids[i] in IdsIn(strings, names); }
  }

  lemma {:induction false} LookupAscends(ids: Ids, strings: seq<str>, back: seq<str>)
    requires Ascending(TextKey, strings) && Ascending(IdKey, ids)
    requires |back| == |ids| && forall i :: 0 <= i < |ids| ==> ids[i] < |strings| && back[i] == strings[ids[i]]
    ensures Ascending(TextKey, back)
  {
    hide KeyLess, TextKey, IdKey;
    forall i, j | 0 <= i < j < |back| ensures KeyLess(TextKey(back[i]), TextKey(back[j])) {
      IdKeyOrder(ids[i], ids[j]);
      assert KeyLess(IdKey(ids[i]), IdKey(ids[j]));
    }
  }

  lemma {:induction false} LookupMembers(strings: seq<str>, names: seq<str>, ids: Ids, back: seq<str>)
    requires HasAll(strings, names) && |strings| <= MAX_IDS
    requires forall x :: x in ids <==> x in IdsIn(strings, names)
    requires |back| == |ids| && forall i :: 0 <= i < |ids| ==> ids[i] < |strings| && back[i] == strings[ids[i]]
    ensures forall x :: x in back <==> x in names
  {
    var listed := IdsIn(strings, names);
    forall x ensures x in back <==> x in names {
      if x in back {
        var i :| 0 <= i < |back| && back[i] == x;
        assert ids[i] in listed;
        var k :| 0 <= k < |listed| && listed[k] == ids[i];
        assert names[k] == x;
      }
      if x in names {
        var k :| 0 <= k < |names| && names[k] == x;
        assert listed[k] in ids;
        var i :| 0 <= i < |ids| && ids[i] == listed[k];
        assert back[i] == x;
      }
    }
  }

  // ---------------------------------------------------------------- provenance by manifest index

  /** The positions of the manifest entries a game uses, of equal entries the last one. */
  function KeptFrom(manifest: seq<Provenance>, used: seq<Provenance>, from: nat): Ids
    requires from <= |manifest| <= MAX_IDS
    decreases |manifest| - from
  {
    if from == |manifest| then []
    else
      (if manifest[from] in used && manifest[from] !in manifest[from + 1..] then [from] else [])
      + KeptFrom(manifest, used, from + 1)
  }

  predicate Kept(manifest: seq<Provenance>, used: seq<Provenance>, i: nat) {
    i < |manifest| && manifest[i] in used && manifest[i] !in manifest[i + 1..]
  }

  lemma {:induction false} KeptExact(manifest: seq<Provenance>, used: seq<Provenance>, from: nat, x: u32)
    requires from <= |manifest| <= MAX_IDS
    ensures x in KeptFrom(manifest, used, from) <==> from <= x && Kept(manifest, used, x)
    decreases |manifest| - from
  {
    if from < |manifest| { KeptExact(manifest, used, from + 1, x); }
  }

  lemma {:induction false} KeptAscends(manifest: seq<Provenance>, used: seq<Provenance>, from: nat)
    requires from <= |manifest| <= MAX_IDS
    ensures Ascending(IdKey, KeptFrom(manifest, used, from))
    decreases |manifest| - from
  {
    hide KeyLess, IdKey;
    if from < |manifest| {
      KeptAscends(manifest, used, from + 1);
      var rest := KeptFrom(manifest, used, from + 1);
      forall j | 0 <= j < |rest| ensures KeyLess(IdKey(from), IdKey(rest[j])) {
        KeptExact(manifest, used, from + 1, rest[j]);
        IdKeyOrder(from, rest[j]);
      }
    }
  }

  lemma {:induction false} KeptLookup(manifest: seq<Provenance>, used: seq<Provenance>, from: nat)
    requires from <= |manifest| <= MAX_IDS
    ensures LookupAll(KeptFrom(manifest, used, from), manifest) == Some(InManifestOrder(manifest[from..], used))
    decreases |manifest| - from
  {
    if from < |manifest| {
      KeptLookup(manifest, used, from + 1);
      var rest := KeptFrom(manifest, used, from + 1);
      assert ([from] + rest)[1..] == rest && [] + rest == rest;
      var tail := InManifestOrder(manifest[from + 1..], used);
      assert [] + tail == tail;
      assert manifest[from..][0] == manifest[from] && manifest[from..][1..] == manifest[from + 1..];
    }
  }

  lemma {:induction false} LastIndexKept(manifest: seq<Provenance>, used: seq<Provenance>, x: u32)
    requires (forall p :: p in used ==> p in manifest) && |manifest| <= MAX_IDS
    ensures x in ProvenanceIds(manifest, used) <==> Kept(manifest, used, x)
  {
    var ids := ProvenanceIds(manifest, used);
    if x in ids {
      var k :| 0 <= k < |ids| && ids[k] == x;
      assert used[k] in used;
    }
    if Kept(manifest, used, x) {
      var k :| 0 <= k < |used| && used[k] == manifest[x];
      LastIndexUnique(manifest, manifest[x], x);
      assert ids[k] == x;
    }
  }

  lemma {:induction false} LastIndexUnique(manifest: seq<Provenance>, p: Provenance, x: nat)
    requires x < |manifest| && manifest[x] == p && p !in manifest[x + 1..]
    ensures LastIndexOf(manifest, p) == x
  {
    if x > 0 {
      assert manifest[1..][x - 1] == p && manifest[1..][x - 1 + 1..] == manifest[x + 1..];
      LastIndexUnique(manifest[1..], p, x - 1);
    }
  }

  lemma {:induction false} ProvenanceReadsBack(manifest: seq<Provenance>, used: seq<Provenance>)
    requires (forall p :: p in used ==> p in manifest) && |manifest| <= MAX_IDS
    ensures LookupAll(SortedProvenance(manifest, used), manifest) == Some(InManifestOrder(manifest, used))
  {
    SimpleKeysInjective();
    var listed, ids, kept := ProvenanceIds(manifest, used), SortedProvenance(manifest, used), KeptFrom(manifest, used, 0);
    OrderedSetAscending(IdKey, listed);
    hide OrderedSet, SortedProvenance, KeyLess, Injective;
    KeptAscends(manifest, used, 0);
    forall x: u32 ensures x in kept <==> x in ids {
      KeptExact(manifest, used, 0, x);
      LastIndexKept(manifest, used, x);
    }
    AscendingUnique(IdKey, ids, kept);
    KeptLookup(manifest, used, 0);
    assert manifest[0..] == manifest;
  }

  // ---------------------------------------------------------------- components

  function Unnumbered(cs: seq<Component>): (r: seq<Component>)
    ensures |r| == |cs|
  {
    if cs == [] then [] else [cs[0].(ordinal := 0)] + Unnumbered(cs[1..])
  }

  lemma {:induction false} UnnumberedAlike(cs: seq<Component>)
    ensures AllAlike(Unnumbered(cs), cs)
    decreases |cs|
  {
    if cs != [] { UnnumberedAlike(cs[1..]); }
  }

  lemma {:induction false} UnnumberedConcat(a: seq<Component>, b: seq<Component>)
    ensures Unnumbered(a + b) == Unnumbered(a) + Unnumbered(b)
  {
    if a == [] {
      assert a + b == b;
    } else {
      assert (a + b)[1..] == a[1..] + b;
      UnnumberedConcat(a[1..], b);
    }
  }

  lemma {:induction false} NumberedUnnumbered(cs: seq<Component>, from: nat)
    ensures Numbered(Unnumbered(cs), from) == Numbered(cs, from)
    decreases |cs|
  {
    if cs != [] { NumberedUnnumbered(cs[1..], from + 1); }
  }

  lemma OptionalReadsBack(strings: seq<str>, o: Option<str>)
    requires Has(strings, o) && |strings| <= MAX_IDS
    ensures LookupOptional(OptionalId(strings, o), strings) == Some(o)
  {
  }

  lemma {:induction false} ComponentReadsBack(c: Component, strings: seq<str>, keys: seq<HashKey>)
    requires ComponentInterned(c, strings, keys) && |strings| <= MAX_IDS && |keys| <= MAX_IDS && CanonicalHash(c.hash)
    ensures ResolveComponent(ComponentRowOf(c, strings, keys), Rows(keys), strings) == Some(c.(ordinal := 0))
  {
    OptionalReadsBack(strings, c.filename);
    KeyReadsBack(c.hash);
    assert Rows(keys)[IndexOf(keys, c.hash)] == RowOf(c.hash);
    assert RoleOf(RoleCode(c.role)) == Some(c.role);
    hide KeyOf, RowOf, OptionalId, LookupOptional, RoleCode, RoleOf;
  }

  lemma {:induction false} ComponentsReadBack(cs: seq<Component>, strings: seq<str>, keys: seq<HashKey>)
    requires forall c :: c in cs ==> ComponentInterned(c, strings, keys) && CanonicalHash(c.hash)
    requires |strings| <= MAX_IDS && |keys| <= MAX_IDS
    ensures ResolveComponents(ComponentRows(cs, strings, keys), Rows(keys), strings) == Some(Unnumbered(cs))
    decreases |cs|
  {
    hide ComponentInterned, CanonicalHash, ResolveComponent, ComponentRowOf;
    if cs != [] {
      assert cs[0] in cs;
      ComponentReadsBack(cs[0], strings, keys);
      ComponentsReadBack(cs[1..], strings, keys);
      var rows := ComponentRows(cs, strings, keys);
      assert rows[1..] == ComponentRows(cs[1..], strings, keys);
    }
  }

  // ---------------------------------------------------------------- routes

  ghost predicate AllCanonical(keys: seq<HashKey>) { forall k :: k in keys ==> CanonicalHash(k) }

  lemma {:induction false} RoutedIsEligible(keys: seq<HashKey>, owners: seq<Ids>, a: seq<Component>, b: seq<Component>, from: nat)
    requires from <= |keys| <= MAX_IDS && AllCanonical(keys) && AllAlike(a, b)
    ensures RoutedFrom(keys, owners, a, from) == EligibleFrom(Rows(keys), owners, b, from)
    decreases |keys| - from
  {
    hide Discriminates, CanonicalHash, RowOf, AllAlike;
    assert |Rows(keys)| == |keys|;
    if from < |keys| {
      assert keys[from] in keys && Rows(keys)[from] == RowOf(keys[from]);
      hide Rows, AllCanonical;
      RowCrc(keys[from]);
      DiscriminatesAlike(owners, a, b, from);
      RoutedIsEligible(keys, owners, a, b, from + 1);
    }
  }

  /** A row's crc32 is the bytes of its key's text. */
  lemma {:induction false} RowCrc(k: HashKey)
    requires CanonicalHash(k)
    ensures var crc := RowOf(k).digests.crc32;
      && crc.Some? == k.crc32.Some? && (crc.Some? ==> |crc.value| == 4 && Lower(crc.value) == k.crc32.value)
    ensures RowOf(k).size == k.size && RowOf(k).scope == k.scope
  {
    KeyReadsBack(k);
  }

  /** On rows that have a crc32, the text order and the byte order of routes agree. */
  lemma {:induction false} RouteOrdersAgree(keys: seq<HashKey>, x: u32, y: u32)
    requires AllCanonical(keys) && x < |keys| && y < |keys| && keys[x].crc32.Some? && keys[y].crc32.Some?
    ensures KeyLess(TextRouteOrder(keys)(x), TextRouteOrder(keys)(y))
         == KeyLess(RouteOrder(Rows(keys))(x), RouteOrder(Rows(keys))(y))
  {
    hide CanonicalHash, KeyLess, RowOf, TextRouteKey, RouteKey;
    assert keys[x] in keys && keys[y] in keys;
    KeyOrdersAgree(keys[x], x, keys[y], y);
  }

  lemma {:induction false} KeyOrdersAgree(k: HashKey, x: u32, l: HashKey, y: u32)
    requires CanonicalHash(k) && CanonicalHash(l) && k.crc32.Some? && l.crc32.Some?
    ensures KeyLess(TextRouteKey(k, x), TextRouteKey(l, y)) == KeyLess(RouteKey(RowOf(k), x), RouteKey(RowOf(l), y))
  {
    RowCrc(k);
    RowCrc(l);
    hide CanonicalHash, RowOf;
    LowerKeepsOrder(RowOf(k).digests.crc32.value, RowOf(l).digests.crc32.value);
    SameTail(TextRouteKey(k, x), TextRouteKey(l, y), RouteKey(RowOf(k), x), RouteKey(RowOf(l), y));
  }

  lemma {:induction false} SameTail(p: Key, q: Key, r: Key, s: Key)
    requires |p| == |q| == |r| == |s| == 4 && p[1..] == r[1..] && q[1..] == s[1..]
    requires TextLess(p[0], q[0]) == TextLess(r[0], s[0]) && (p[0] == q[0] <==> r[0] == s[0])
    ensures KeyLess(p, q) == KeyLess(r, s)
  {
    hide TextLess;
  }

  lemma {:induction false} RoutesReadBack(keys: seq<HashKey>, owners: seq<Ids>, a: seq<Component>, b: seq<Component>)
    requires |keys| <= MAX_IDS && AllCanonical(keys) && AllAlike(a, b)
    ensures Routes(keys, owners, a) == ExpectedRoutes(Rows(keys), owners, b)
  {
    RoutedIsEligible(keys, owners, a, b, 0);
    var ids := RoutedFrom(keys, owners, a, 0);
    var (text, raw) := (TextRouteOrder(keys), RouteOrder(Rows(keys)));
    forall x, y | x in ids && y in ids ensures KeyLess(text(x), text(y)) == KeyLess(raw(x), raw(y)) {
      RoutedHasCrc(keys, owners, a, 0, x);
      RoutedHasCrc(keys, owners, a, 0, y);
      RouteOrdersAgree(keys, x, y);
    }
    SortBySameOrder(text, raw, ids);
  }

  lemma {:induction false} RoutedHasCrc(keys: seq<HashKey>, owners: seq<Ids>, components: seq<Component>, from: nat, x: u32)
    requires from <= |keys| <= MAX_IDS && x in RoutedFrom(keys, owners, components, from)
    ensures x < |keys| && keys[x].crc32.Some?
    decreases |keys| - from
  {
    if x in RoutedFrom(keys, owners, components, from + 1) { RoutedHasCrc(keys, owners, components, from + 1, x); }
  }

  // ---------------------------------------------------------------- games

  ghost predicate Belongs(g: Game, manifest: Manifest) { g.platform == manifest.platform && g.source == manifest.source }

  lemma UpstreamCodeReadsBack(u: Upstream)
    ensures UpstreamOf(UpstreamCode(u)) == Some(u)
  {
  }

  lemma {:induction false} OptionalNamesReadBack(strings: seq<str>, keys: seq<HashKey>, g: Game)
    requires GameInterned(g, strings, keys) && |strings| <= MAX_IDS
    ensures LookupOptional(OptionalId(strings, g.gameId), strings) == Some(g.gameId)
    ensures LookupOptional(OptionalId(strings, g.region), strings) == Some(g.region)
    ensures LookupOptional(OptionalId(strings, g.language), strings) == Some(g.language)
    ensures LookupOptional(OptionalId(strings, g.revision), strings) == Some(g.revision)
    ensures LookupOptional(OptionalId(strings, g.parent), strings) == Some(g.parent)
  {
    hide OptionalId, LookupOptional;
    OptionalReadsBack(strings, g.gameId);
    OptionalReadsBack(strings, g.region);
    OptionalReadsBack(strings, g.language);
    OptionalReadsBack(strings, g.revision);
    OptionalReadsBack(strings, g.parent);
  }

  lemma {:induction false} GameReadsBack(n: Interning, sets: Sets, g: Game, manifest: Manifest)
    requires Small(n) && Covers(n, g) && Ascending(TextKey, n.strings)
    requires |sets.provenance| <= MAX_IDS && |sets.tags| <= MAX_IDS
    requires SortedProvenance(n.manifest, g.provenance) in sets.provenance && SortedIds(n.strings, g.dumpTags) in sets.tags
    requires manifest.provenance == n.manifest && Belongs(g, manifest)
    ensures ResolveGame(GameRowOf(n, sets, g), Unnumbered(g.components), Context(n.strings, manifest, sets),
                        OrderedSet(TextKey, g.alternateNames))
         == Some(Normal(n.manifest, g))
  {
    NamesReadBack(n.strings, g.dumpTags);
    ProvenanceReadsBack(n.manifest, g.provenance);
    NumberedUnnumbered(g.components, 0);
    OptionalNamesReadBack(n.strings, n.keys, g);
    UpstreamCodeReadsBack(g.upstream);
    hide SortedIds, SortedProvenance, OrderedSet, InManifestOrder, Numbered, Unnumbered, LookupAll, LookupOptional, OptionalId,
         TextKey, Has, HasAll, ComponentInterned, UpstreamOf, UpstreamCode, Ascending, Covers, GameInterned, IndexOf, Small;
  }

  function SortedNames(gs: seq<Game>): (r: seq<seq<str>>)
    ensures |r| == |gs|
  {
    if gs == [] then [] else [OrderedSet(TextKey, gs[0].alternateNames)] + SortedNames(gs[1..])
  }

  lemma {:induction false} GamesReadBack(n: Interning, sets: Sets, gs: seq<Game>, manifest: Manifest)
    requires Small(n) && CoversAll(n, gs) && Ascending(TextKey, n.strings)
    requires |sets.provenance| <= MAX_IDS && |sets.tags| <= MAX_IDS && SetsKnown(n, sets, gs)
    requires manifest.provenance == n.manifest && forall g :: g in gs ==> Belongs(g, manifest)
    ensures ResolveGames(GameRows(n, sets, gs), Unnumbered(AllComponents(gs)), Context(n.strings, manifest, sets),
                         SortedNames(gs))
         == Some(NormalAll(n.manifest, gs))
    decreases |gs|
  {
    hide GameRowOf, ResolveGame, Covers, SortedIds, SortedProvenance, Normal, OrderedSet, Ascending;
    if gs != [] {
      var (g, rest) := (gs[0], gs[1..]);
      assert g in gs;
      GameReadsBack(n, sets, g, manifest);
      GamesReadBack(n, sets, rest, manifest);
      UnnumberedConcat(g.components, AllComponents(rest));
      var all := Unnumbered(AllComponents(gs));
      assert all == Unnumbered(g.components) + Unnumbered(AllComponents(rest));
      RowTakes(n, sets, g);
      assert all[..|g.components|] == Unnumbered(g.components);
      assert all[|g.components|..] == Unnumbered(AllComponents(rest));
      var rows := GameRows(n, sets, gs);
      assert rows[1..] == GameRows(n, sets, rest) && SortedNames(gs)[1..] == SortedNames(rest);
    }
  }

  lemma RowTakes(n: Interning, sets: Sets, g: Game)
    requires Small(n) && Covers(n, g) && |sets.provenance| <= MAX_IDS && |sets.tags| <= MAX_IDS
    requires SortedProvenance(n.manifest, g.provenance) in sets.provenance && SortedIds(n.strings, g.dumpTags) in sets.tags
    ensures GameRowOf(n, sets, g).components == |g.components|
  {
  }

  // ---------------------------------------------------------------- alternate names

  lemma {:induction false} AlternatesLookUp(n: Interning, gs: seq<Game>)
    requires Small(n) && CoversAll(n, gs) && Ascending(TextKey, n.strings)
    ensures LookupLists(AlternateLists(n, gs), n.strings) == Some(SortedNames(gs))
    decreases |gs|
  {
    hide Ascending, SortedIds, LookupAll, OrderedSet;
    if gs != [] {
      assert gs[0] in gs;
      NamesReadBack(n.strings, gs[0].alternateNames);
      AlternatesLookUp(n, gs[1..]);
      assert AlternateLists(n, gs)[1..] == AlternateLists(n, gs[1..]);
    }
  }

  lemma {:induction false} NoAlternates(n: Interning, gs: seq<Game>)
    requires Small(n) && CoversAll(n, gs)
    requires forall l :: l in AlternateLists(n, gs) ==> l == []
    ensures SortedNames(gs) == NoNames(|gs|)
    decreases |gs|
  {
    if gs != [] {
      assert gs[0] in gs;
      var lists := AlternateLists(n, gs);
      assert lists[0] in lists && lists[1..] == AlternateLists(n, gs[1..]);
      forall l | l in lists[1..] ensures l == [] { TailMember(lists, l); }
      NoneListed(n.strings, gs[0].alternateNames);
      NoAlternates(n, gs[1..]);
    }
  }

  lemma TailMember<T>(s: seq<T>, x: T)
    requires s != [] && x in s[1..]
    ensures x in s
  {
  }

  lemma {:induction false} NoneListed(strings: seq<str>, names: seq<str>)
    requires HasAll(strings, names) && |strings| <= MAX_IDS && SortedIds(strings, names) == []
    ensures names == []
  {
    SimpleKeysInjective();
    var listed := IdsIn(strings, names);
    OrderedSetAscending(IdKey, listed);
    EmptyOrMember(listed);
  }

  lemma {:induction false} AlternatesReadBack(n: Interning, gs: seq<Game>)
    requires Small(n) && CoversAll(n, gs) && Ascending(TextKey, n.strings)
    ensures ResolveAlternates(WrittenAlternates(AlternateLists(n, gs)), |gs|, n.strings) == Some(SortedNames(gs))
  {
    var lists := AlternateLists(n, gs);
    if exists l :: l in lists && l != [] {
      AlternatesLookUp(n, gs);
    } else {
      NoAlternates(n, gs);
    }
  }

  // ---------------------------------------------------------------- sets

  lemma {:induction false} ListsInTable(n: Interning, gs: seq<Game>)
    requires Small(n) && CoversAll(n, gs)
    ensures InTable(ProvenanceLists(n, gs), |n.manifest|) && InTable(TagLists(n, gs), |n.strings|)
    decreases |gs|
  {
    if gs != [] {
      assert gs[0] in gs;
      SortedInRange(n, gs[0]);
      ListsInTable(n, gs[1..]);
    }
  }

  lemma {:induction false} SortedInRange(n: Interning, g: Game)
    requires Small(n) && Covers(n, g)
    ensures forall i :: 0 <= i < |SortedProvenance(n.manifest, g.provenance)| ==>
      SortedProvenance(n.manifest, g.provenance)[i] < |n.manifest|
    ensures forall i :: 0 <= i < |SortedIds(n.strings, g.dumpTags)| ==> SortedIds(n.strings, g.dumpTags)[i] < |n.strings|
  {
    SimpleKeysInjective();
    var (used, tags) := (ProvenanceIds(n.manifest, g.provenance), IdsIn(n.strings, g.dumpTags));
    OrderedSetAscending(IdKey, used);
    OrderedSetAscending(IdKey, tags);
    hide OrderedSet, Ascending, Injective;
    var ids := SortedProvenance(n.manifest, g.provenance);
    forall i | 0 <= i < |ids| ensures ids[i] < |n.manifest| { assert ids[i] in ids && ids[i] in used; }
    IdsInRange(n.strings, g.dumpTags, SortedIds(n.strings, g.dumpTags));
  }

  lemma {:induction false} SetsInTable(n: Interning, gs: seq<Game>)
    requires Small(n) && CoversAll(n, gs)
    ensures InTable(SetsOf(n, gs).provenance, |n.manifest|) && InTable(SetsOf(n, gs).tags, |n.strings|)
  {
    ListsInTable(n, gs);
    SetTableItems(ProvenanceLists(n, gs));
    SetTableItems(TagLists(n, gs));
    hide SetTable, ProvenanceLists, TagLists;
  }
}
