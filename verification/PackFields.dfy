/** The round trip said on the fields: in which order the games come back, and what each field has become. */
module PackFields {
  import opened Bytes
  import opened Order
  import opened PackFormat
  import opened PackModel
  import opened PackHashes
  import opened PackOwners
  import opened PackRoutes
  import opened PackTables
  import opened PackSizes
  import opened Varint
  import opened PackParse
  import opened PackBuild
  import opened PackIndex
  import opened PackSound
  import opened PackCodec
  import opened PackScan

  // ---------------------------------------------------------------- the order of games

  /** An absent id counts as the empty text. */
  function IdText(g: Game): str { match g.gameId case None => [] case Some(id) => id }

  /** By platform, then name, then id. */
  predicate GamesInOrder(x: Game, y: Game) {
    || TextLess(x.platform, y.platform)
    || (x.platform == y.platform
        && (TextLess(x.name, y.name) || (x.name == y.name && !TextLess(IdText(y), IdText(x)))))
  }

  predicate SameRank(x: Game, y: Game) { x.platform == y.platform && x.name == y.name && IdText(x) == IdText(y) }

  /** The games that rank with `x`, in order. */
  function RankedWith(x: Game, gs: seq<Game>): seq<Game> {
    if gs == [] then [] else (if SameRank(x, gs[0]) then [gs[0]] else []) + RankedWith(x, gs[1..])
  }

  lemma {:induction false} ThreeFields(a: Key, b: Key)
    requires |a| == |b| == 3
    ensures KeyLess(a, b) <==>
      TextLess(a[0], b[0]) || (a[0] == b[0] && (TextLess(a[1], b[1]) || (a[1] == b[1] && TextLess(a[2], b[2]))))
  {
    hide TextLess;
    assert Lex(TextLess, a[1..][1..], b[1..][1..])
        == (TextLess(a[2], b[2]) || (a[2] == b[2] && Lex(TextLess, a[1..][1..][1..], b[1..][1..][1..])));
    assert !Lex(TextLess, a[1..][1..][1..], b[1..][1..][1..]);
    assert Lex(TextLess, a[1..], b[1..])
        == (TextLess(a[1], b[1]) || (a[1] == b[1] && Lex(TextLess, a[1..][1..], b[1..][1..])));
  }

  lemma {:induction false} NotBelow(x: Game, y: Game)
    requires !KeyLess(GameOrder(y), GameOrder(x))
    ensures GamesInOrder(x, y)
  {
    ThreeFields(GameOrder(y), GameOrder(x));
    TextLessTotal();
    hide KeyLess, TextLess;
  }

  lemma {:induction false} SortedInOrder(games: seq<Game>, i: nat, j: nat)
    requires i < j < |SortBy(GameOrder, games)|
    ensures GamesInOrder(SortBy(GameOrder, games)[i], SortBy(GameOrder, games)[j])
  {
    SortBySorted(GameOrder, games);
    hide KeyLess, GamesInOrder, SortBy, GameOrder;
    NotBelow(SortBy(GameOrder, games)[i], SortBy(GameOrder, games)[j]);
  }

  lemma {:induction false} SameKey(x: Game, y: Game)
    ensures GameOrder(y) == GameOrder(x) <==> SameRank(x, y)
  {
    var (a, b) := (GameOrder(x), GameOrder(y));
    assert a == b ==> a[0] == b[0] && a[1] == b[1] && a[2] == b[2];
  }

  lemma {:induction false} RankedIsWithKey(x: Game, gs: seq<Game>)
    ensures WithKey(GameOrder, GameOrder(x), gs) == RankedWith(x, gs)
  {
    hide GameOrder, SameRank;
    if gs != [] {
      SameKey(x, gs[0]);
      RankedIsWithKey(x, gs[1..]);
    }
  }

  lemma {:induction false} SortedKeepsRank(x: Game, games: seq<Game>)
    ensures RankedWith(x, SortBy(GameOrder, games)) == RankedWith(x, games)
  {
    SortByStable(GameOrder, GameOrder(x), games);
    RankedIsWithKey(x, games);
    RankedIsWithKey(x, SortBy(GameOrder, games));
    hide *;
  }

  // ---------------------------------------------------------------- what a game has become

  /** `r` lists the names of `given`, sorted, each once. */
  ghost predicate SortedNames(given: seq<str>, r: seq<str>) {
    (forall s :: s in r <==> s in given) && forall i, j :: 0 <= i < j < |r| ==> TextLess(r[i], r[j])
  }

  ghost predicate SameComponent(c: Component, r: Component, k: nat) {
    && r.ordinal == k % 0x1_0000_0000 && r.role == c.role && r.hash == c.hash && r.filename == c.filename
    && r.required == c.required && r.discriminating == c.discriminating && r.track == c.track && r.session == c.session
  }

  /** The provenance entries a game uses, in the order of their last places in the manifest. */
  ghost predicate InManifest(manifest: seq<Provenance>, given: seq<Provenance>, r: seq<Provenance>) {
    && (forall p :: p in r <==> p in given && p in manifest)
    && (forall i, j :: 0 <= i < j < |r| ==>
          r[i] in manifest && r[j] in manifest && LastIndexOf(manifest, r[i]) < LastIndexOf(manifest, r[j]))
  }

  ghost predicate ReturnedAs(manifest: seq<Provenance>, g: Game, r: Game) {
    && r.name == g.name && r.platform == g.platform && r.source == g.source && r.upstream == g.upstream
    && r.legacy == g.legacy && r.gameId == g.gameId && r.region == g.region && r.language == g.language
    && r.disc == g.disc && r.revision == g.revision && r.parent == g.parent
    && |r.components| == |g.components|
    && (forall k :: 0 <= k < |g.components| ==> SameComponent(g.components[k], r.components[k], k))
    && SortedNames(g.dumpTags, r.dumpTags) && SortedNames(g.alternateNames, r.alternateNames)
    && InManifest(manifest, g.provenance, r.provenance)
  }

  lemma {:induction false} NumberedAre(cs: seq<Component>, from: nat, k: nat)
    requires k < |cs|
    ensures SameComponent(cs[k], Numbered(cs, from)[k], from + k)
    decreases k
  {
    if k > 0 {
      NumberedAre(cs[1..], from + 1, k - 1);
      assert Numbered(cs, from)[k] == Numbered(cs[1..], from + 1)[k - 1];
    }
  }

  lemma {:induction false} TextKeyOrder(a: str, b: str)
    ensures KeyLess(TextKey(a), TextKey(b)) <==> TextLess(a, b)
  {
    hide TextLess;
    assert TextKey(a)[1..] == [] && TextKey(b)[1..] == [];
    assert !Lex(TextLess, [], []);
  }

  lemma {:induction false} OrderedNames(given: seq<str>)
    ensures SortedNames(given, OrderedSet(TextKey, given))
  {
    SimpleKeysInjective();
    OrderedSetAscending(TextKey, given);
    var r := OrderedSet(TextKey, given);
    hide KeyLess, TextLess, OrderedSet, Injective;
    forall i, j | 0 <= i < j < |r| ensures TextLess(r[i], r[j]) { TextKeyOrder(r[i], r[j]); }
  }

  lemma {:induction false} ManifestOrder(manifest: seq<Provenance>, used: seq<Provenance>)
    ensures InManifest(manifest, used, InManifestOrder(manifest, used))
  {
    if manifest != [] {
      var (head, rest) := (manifest[0], manifest[1..]);
      ManifestOrder(rest, used);
      assert manifest == [head] + rest;
      var (r, more) := (InManifestOrder(manifest, used), InManifestOrder(rest, used));
      forall p | p in rest ensures LastIndexOf(manifest, p) == 1 + LastIndexOf(rest, p) { }
      assert head !in rest ==> LastIndexOf(manifest, head) == 0;
      if head in used && head !in rest {
        assert r == [head] + more;
      } else {
        assert r == more;
      }
    }
  }

  lemma {:induction false} NormalMeans(manifest: seq<Provenance>, g: Game)
    ensures ReturnedAs(manifest, g, Normal(manifest, g))
  {
    OrderedNames(g.dumpTags);
    OrderedNames(g.alternateNames);
    ManifestOrder(manifest, g.provenance);
    forall k | 0 <= k < |g.components| ensures SameComponent(g.components[k], Numbered(g.components, 0)[k], k) {
      NumberedAre(g.components, 0, k);
    }
    hide SameComponent, SortedNames, InManifest, Numbered, OrderedSet, InManifestOrder;
  }

  lemma {:induction false} NormalAllAt(manifest: seq<Provenance>, gs: seq<Game>, i: nat)
    requires i < |gs|
    ensures NormalAll(manifest, gs)[i] == Normal(manifest, gs[i])
    decreases i
  {
    hide Normal;
    if i > 0 {
      NormalAllAt(manifest, gs[1..], i - 1);
      assert NormalAll(manifest, gs)[i] == NormalAll(manifest, gs[1..])[i - 1];
    }
  }

  // ---------------------------------------------------------------- the round trip

  /** `gs` are the games given, sorted; games that rank alike keep their order. */
  ghost predicate Arranged(given: seq<Game>, gs: seq<Game>) {
    && multiset(gs) == multiset(given)
    && (forall i, j :: 0 <= i < j < |gs| ==> GamesInOrder(gs[i], gs[j]))
    && (forall x: Game :: RankedWith(x, gs) == RankedWith(x, given))
  }

  ghost predicate AllReturned(manifest: seq<Provenance>, gs: seq<Game>, r: seq<Game>) {
    |r| == |gs| && forall i :: 0 <= i < |gs| ==> ReturnedAs(manifest, gs[i], r[i])
  }

  lemma {:induction false} SortedIsArranged(games: seq<Game>)
    ensures Arranged(games, SortBy(GameOrder, games))
  {
    SortBySorted(GameOrder, games);
    var gs := SortBy(GameOrder, games);
    hide SortBy, SortedBy, GamesInOrder, RankedWith;
    forall i, j | 0 <= i < j < |gs| ensures GamesInOrder(gs[i], gs[j]) { SortedInOrder(games, i, j); }
    forall x: Game ensures RankedWith(x, gs) == RankedWith(x, games) { SortedKeepsRank(x, games); }
  }

  lemma {:induction false} NormalsReturned(manifest: seq<Provenance>, gs: seq<Game>)
    ensures AllReturned(manifest, gs, NormalAll(manifest, gs))
  {
    hide Normal, NormalAll, ReturnedAs;
    forall i | 0 <= i < |gs| ensures ReturnedAs(manifest, gs[i], NormalAll(manifest, gs)[i]) {
      NormalAllAt(manifest, gs, i);
      NormalMeans(manifest, gs[i]);
    }
  }

  /** The games parsing returns, in order themselves and field by field those of the request. */
  ghost predicate ReturnsFields(q: Request, read: seq<Game>) {
    && (exists gs :: Arranged(q.games, gs) && AllReturned(q.provenance, gs, read))
    && forall i, j :: 0 <= i < j < |read| ==> GamesInOrder(read[i], read[j])
  }

  lemma {:induction false} ReturnedInOrder(manifest: seq<Provenance>, given: seq<Game>, gs: seq<Game>, read: seq<Game>)
    requires Arranged(given, gs) && AllReturned(manifest, gs, read)
    ensures forall i, j :: 0 <= i < j < |read| ==> GamesInOrder(read[i], read[j])
  {
    hide SortedNames, SameComponent, InManifest, TextLess, RankedWith;
    forall i, j | 0 <= i < j < |read| ensures GamesInOrder(read[i], read[j]) {
      assert ReturnedAs(manifest, gs[i], read[i]) && ReturnedAs(manifest, gs[j], read[j]);
      assert GamesInOrder(gs[i], gs[j]);
    }
  }

  /** Parsing what was encoded returns the games by platform, name and id, with every field as it should be. */
  lemma {:induction false} RoundTripOnFields(q: Request, json: Json)
    requires Faithful(json) && |json.write(ManifestOf(q))| <= U64_MAX
    ensures Canonical(q.games) && Fits(q) ==>
      var written := EncodePack(q.platform, q.source, q.profile, q.provenance, q.games, json);
      written.Some? && Parse(written.value, json).Some? && ReturnsFields(q, Parse(written.value, json).value.games)
  {
    hide Canonical, Fits, EncodePack, Parse, Faithful, NormalAll, Arranged, AllReturned, ManifestOf, GamesInOrder;
    RoundTrip(q, json);
    if Canonical(q.games) && Fits(q) {
      var gs := Sorted(q);
      SortedIsArranged(q.games);
      NormalsReturned(q.provenance, gs);
      ReturnedInOrder(q.provenance, q.games, gs, NormalAll(q.provenance, gs));
    }
  }

  // ---------------------------------------------------------------- written rows are distinct

  lemma {:induction false} RowsDistinct(keys: seq<HashKey>)
    requires Ascending(HashOrder, keys) && forall k :: k in keys ==> CanonicalHash(k)
    ensures NoRepeats(Rows(keys))
  {
    KeyLessTotal();
    hide KeyLess, HashOrder, CanonicalHash, RowOf;
    var rows := Rows(keys);
    forall i, j | 0 <= i < j < |rows| ensures rows[i] != rows[j] {
      assert keys[i] in keys && keys[j] in keys;
      KeyReadsBack(keys[i]);
      KeyReadsBack(keys[j]);
      assert KeyLess(HashOrder(keys[i]), HashOrder(keys[j]));
    }
  }

  lemma {:induction false} KeysDistinct(q: Request)
    requires Canonical(q.games)
    ensures NoRepeats(Rows(HashTable(Sorted(q))))
  {
    var gs := Sorted(q);
    SortByMembers(GameOrder, q.games);
    CanonicalKeys(q.games, gs);
    HashOrderInjective();
    OrderedSetAscending(HashOrder, Keys(AllComponents(gs)));
    hide Canonical, Sorted, CanonicalHash, AllComponents, OrderedSet, Injective, Ascending;
    RowsDistinct(HashTable(gs));
  }

  lemma {:induction false} EncodedRows(q: Request, json: Json)
    requires Faithful(json) && |json.write(ManifestOf(q))| <= U64_MAX
    ensures Canonical(q.games) && Fits(q) ==>
      var written := EncodePack(q.platform, q.source, q.profile, q.provenance, q.games, json);
      written.Some? && Parse(written.value, json).Some?
      && Parse(written.value, json).value.hashes == Rows(HashTable(Sorted(q)))
  {
    hide Canonical, Fits, Build, Members, Storable, Resolve, ReadTables, WriteTables, Sorted, NormalAll, Faithful, CoversAll,
         FitsIds, StringTable, HashTable, Rows;
    BuildGives(q);
    if Canonical(q.games) && Fits(q) {
      BuiltManifest(q);
      MembersAreShort(Built(q).value, json);
      TablesReadBack(Built(q).value, json);
    }
  }

  /** On a pack that was encoded, narrow as it may be, every query finds what a scan of the games finds. */
  lemma {:induction false} EncodedScans(q: Request, json: Json, text: str, size: u64)
    requires Faithful(json) && |json.write(ManifestOf(q))| <= U64_MAX
    ensures Canonical(q.games) && Fits(q) ==>
      var written := EncodePack(q.platform, q.source, q.profile, q.provenance, q.games, json);
      written.Some? && Parse(written.value, json).Some?
      && (Narrow(Parse(written.value, json).value) ==> AnswersScan(Parse(written.value, json).value, text, size))
  {
    hide Canonical, Fits, EncodePack, Parse, Faithful, ManifestOf, AnswersScan, Narrow, SoundPack, Rows, HashTable, Sorted,
         Unsplit;
    EncodedRows(q, json);
    if Canonical(q.games) && Fits(q) {
      var b := EncodePack(q.platform, q.source, q.profile, q.provenance, q.games, json).value;
      var pack := Parse(b, json).value;
      KeysDistinct(q);
      AcceptedIsSound(b, json);
      AcceptedGameCount(b, json);
      DistinctUnsplit(pack);
      if Narrow(pack) { NarrowScans(pack, text, size); }
    }
  }

  // ---------------------------------------------------------------- the order of hash rows

  /** An absent digest comes before every present one. */
  predicate OptLess(x: Option<str>, y: Option<str>) { y.Some? && (x.None? || TextLess(x.value, y.value)) }

  /** By size, scope, and the digests in turn. */
  predicate HashBefore(a: HashKey, b: HashKey) {
    a.size < b.size || (a.size == b.size
      && (TextLess(a.scope, b.scope) || (a.scope == b.scope
        && (OptLess(a.crc32, b.crc32) || (a.crc32 == b.crc32
          && (OptLess(a.md5, b.md5) || (a.md5 == b.md5
            && (OptLess(a.sha1, b.sha1) || (a.sha1 == b.sha1 && OptLess(a.sha256, b.sha256))))))))))
  }

  lemma KeyStep(x: seq<int>, a: Key, y: seq<int>, b: Key)
    ensures KeyLess([x] + a, [y] + b) <==> TextLess(x, y) || (x == y && KeyLess(a, b))
  {
    hide TextLess;
    assert ([x] + a)[1..] == a && ([y] + b)[1..] == b;
  }

  lemma {:induction false} TextStep(n: int, a: seq<int>, b: seq<int>)
    ensures TextLess([n] + a, [n] + b) <==> TextLess(a, b)
  {
    assert ([n] + a)[1..] == a && ([n] + b)[1..] == b;
  }

  lemma {:induction false} OptOrder(x: Option<str>, y: Option<str>)
    ensures TextLess(OptKey(x), OptKey(y)) <==> OptLess(x, y)
    ensures OptKey(x) == OptKey(y) <==> x == y
  {
    if x.Some? && y.Some? { TextStep(0, x.value, y.value); }
    if OptKey(x) == OptKey(y) { OptKeyInjective(x, y); }
  }

  lemma {:induction false} HashOrderMeans(a: HashKey, b: HashKey)
    ensures KeyLess(HashOrder(a), HashOrder(b)) <==> HashBefore(a, b)
  {
    SingleNumbers(a.size, b.size);
    OptOrder(a.crc32, b.crc32);
    OptOrder(a.md5, b.md5);
    OptOrder(a.sha1, b.sha1);
    OptOrder(a.sha256, b.sha256);
    assert !KeyLess([], []);
    var a5: Key, b5: Key := [OptKey(a.sha256)], [OptKey(b.sha256)];
    var a4: Key, b4: Key := [OptKey(a.sha1)] + a5, [OptKey(b.sha1)] + b5;
    var a3: Key, b3: Key := [OptKey(a.md5)] + a4, [OptKey(b.md5)] + b4;
    var a2: Key, b2: Key := [OptKey(a.crc32)] + a3, [OptKey(b.crc32)] + b3;
    var a1: Key, b1: Key := [a.scope] + a2, [b.scope] + b2;
    assert HashOrder(a) == [[a.size]] + a1 && HashOrder(b) == [[b.size]] + b1;
    assert a5 == [OptKey(a.sha256)] + [] && b5 == [OptKey(b.sha256)] + [];
    hide TextLess, KeyLess, OptKey, OptLess, HashOrder;
    KeyStep(OptKey(a.sha256), [], OptKey(b.sha256), []);
    KeyStep(OptKey(a.sha1), a5, OptKey(b.sha1), b5);
    KeyStep(OptKey(a.md5), a4, OptKey(b.md5), b4);
    KeyStep(OptKey(a.crc32), a3, OptKey(b.crc32), b3);
    KeyStep(a.scope, a2, b.scope, b2);
    KeyStep([a.size], a1, [b.size], b1);
  }

  /** The hash rows are written in the order of their fields. */
  lemma {:induction false} HashRowsInOrder(gs: seq<Game>, i: nat, j: nat)
    requires i < j < |HashTable(gs)|
    ensures HashBefore(HashTable(gs)[i], HashTable(gs)[j])
  {
    HashOrderInjective();
    OrderedSetAscending(HashOrder, Keys(AllComponents(gs)));
    hide OrderedSet, AllComponents, KeyLess, HashOrder, Injective, HashBefore;
    HashOrderMeans(HashTable(gs)[i], HashTable(gs)[j]);
  }
}
