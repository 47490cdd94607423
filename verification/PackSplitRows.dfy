/** A pack that writes one hash row twice: it is accepted, and a query misses a component its scan finds. */
module PackSplitRows {
  import opened Bytes
  import opened Varint
  import opened Hex
  import opened Order
  import opened PackFormat
  import opened PackModel
  import opened PackHashes
  import opened PackOwners
  import opened PackRoutes
  import opened PackTables
  import opened PackSizes
  import opened PackParse
  import opened PackIndex
  import opened PackSound
  import opened PackScan

  const CRC: bytes := [1, 2, 3, 4]
  const DIGESTS: Digests := Digests(Some(CRC), None, None, None)
  const ROW: Hash := Hash(4, FULL_FILE, DIGESTS)
  const MANIFEST: Manifest := Manifest(FORMAT, [], FromRedump, [], VERSION, [])

  function PlainRow(hash: u32, discriminating: bool): ComponentRow {
    ComponentRow(hash, None, None, None, 0, true, discriminating)
  }

  const GAME_ROW: GameRow := GameRow(0, None, None, None, None, None, 2, 0, 0, None, None, false)

  /** Two equal rows, the first with a plain component, the second with one that tells games apart. */
  function SplitTables(): Tables {
    Tables([[]], [HashRow(4, FullFile, DIGESTS), HashRow(0, FullFile, DIGESTS)], [PlainRow(0, false), PlainRow(1, true)],
           [GAME_ROW], [[0], [1]], [1], Sets([[]], [[]]), MANIFEST, None)
  }

  function SplitComponent(discriminating: bool): Component {
    Component(PrimaryPayload, 0, KeyOf(ROW), None, true, discriminating, None, None)
  }

  const COMPONENTS: seq<Component> := [SplitComponent(false), SplitComponent(true)]

  const OWNERS: seq<Ids> := [[0], [1]]

  function SplitGame(): Game {
    Game([], [], FromRedump, Unknown, [], false, [], [], None, None, None, None, None, None, Numbered(COMPONENTS, 0))
  }

  function SplitPack(): Pack { Pack([SplitGame()], [ROW, ROW], OWNERS, [1], MANIFEST) }

  // ---------------------------------------------------------------- the tables resolve

  lemma Single<T>(x: T, none: seq<T>)
    requires none == []
    ensures [x][1..] == [] && [x] + none == [x]
  {
  }

  lemma Pair<T>(x: T, y: T)
    ensures [x, y][1..] == [y] && [x] + [y] == [x, y]
  {
  }

  lemma {:induction false} HashesResolve()
    ensures ResolveHashes(SplitTables().hashes, [[]], 0) == Some([ROW, ROW])
  {
    var (first, second) := (HashRow(4, FullFile, DIGESTS), HashRow(0, FullFile, DIGESTS));
    hide Ascii;
    Single(second, []);
    Single(ROW, []);
    assert ResolveHashes([], [[]], 4) == Some([]);
    assert ResolveHashes([second], [[]], 4) == Some([ROW]);
    Pair(first, second);
    Pair(ROW, ROW);
  }

  lemma {:induction false} ComponentsResolve()
    ensures ResolveComponents(SplitTables().components, [ROW, ROW], [[]]) == Some(COMPONENTS)
  {
    hide KeyOf;
    Single(PlainRow(1, true), []);
    Single(SplitComponent(true), []);
    assert ResolveComponents([PlainRow(1, true)], [ROW, ROW], [[]]) == Some([SplitComponent(true)]);
    Pair(PlainRow(0, false), PlainRow(1, true));
    Pair(SplitComponent(false), SplitComponent(true));
  }

  lemma {:induction false} OneDelta(d: u32)
    requires d < 2
    ensures FromDeltas([d], None, 2) == Some([d])
  {
    Single(d, []);
    assert FromDeltas([], Some(d), 2) == Some([]);
  }

  lemma {:induction false} OwnersResolve()
    ensures ResolveOwners([[0], [1]], 2) == Some(OWNERS)
  {
    OneDelta(0);
    OneDelta(1);
    hide FromDeltas;
    var a: Ids, b: Ids := [0], [1];
    Single(b, []);
    assert ResolveOwners([b], 2) == Some([b]);
    Pair(a, b);
  }

  lemma {:induction false} RoutesExpected()
    ensures ExpectedRoutes([ROW, ROW], OWNERS, COMPONENTS) == [1]
  {
    var hashes := [ROW, ROW];
    hide KeyLess, KeyOf;
    assert COMPONENTS[OWNERS[1][0]].discriminating;
    assert !Eligible(hashes, OWNERS, COMPONENTS, 0) && Eligible(hashes, OWNERS, COMPONENTS, 1);
    assert EligibleFrom(hashes, OWNERS, COMPONENTS, 2) == [];
    assert EligibleFrom(hashes, OWNERS, COMPONENTS, 1) == [1];
    assert EligibleFrom(hashes, OWNERS, COMPONENTS, 0) == [1];
    assert [1 as u32][..0] == [] && SortBy(RouteOrder(hashes), []) == [];
  }

  lemma {:induction false} SplitOwnersValid()
    ensures var hashIds := HashIds(SplitTables().components);
      InRange(OWNERS, hashIds, [ROW, ROW]) && ValidOwners(OWNERS, hashIds, [ROW, ROW])
  {
    hide Ascii, Widths;
    var hashIds := HashIds(SplitTables().components);
    assert |hashIds| == 2 && hashIds[0] == 0 && hashIds[1] == 1;
    assert OWNERS[0][0] == 0 && OWNERS[1][0] == 1;
    assert Owned(OWNERS, 0) && Owned(OWNERS, 1);
  }

  lemma {:induction false} SplitIndex()
    requires Storable(SplitTables())
    ensures ResolveIndex(SplitTables()) == Some(Index([ROW, ROW], COMPONENTS, OWNERS))
  {
    HashesResolve();
    ComponentsResolve();
    OwnersResolve();
    RoutesExpected();
    SplitOwnersValid();
    hide ResolveHashes, ResolveComponents, ResolveOwners, ExpectedRoutes, ValidOwners, InRange, HashIds, KeyOf, Storable,
         EligibleFrom;
  }

  lemma {:induction false} SplitStorable()
    ensures Storable(SplitTables())
  {
  }

  lemma {:induction false} ResolveGives(t: Tables, index: PackParse.Index, games: seq<Game>)
    requires Storable(t) && ResolveIndex(t) == Some(index) && t.alternates == None
    requires t.manifest.format == FORMAT && t.manifest.version == VERSION
    requires InTable(t.sets.provenance, |t.manifest.provenance|) && InTable(t.sets.tags, |t.strings|)
    requires ResolveGames(t.games, index.components, Context(t.strings, t.manifest, t.sets), NoNames(|t.games|)) == Some(games)
    ensures Resolve(t) == Some(Pack(games, index.hashes, index.owners, t.routes, t.manifest))
  {
    hide Storable, ResolveIndex, ResolveGames, Ascii, InTable, NoNames;
  }

  lemma {:induction false} SplitResolves()
    requires Storable(SplitTables())
    ensures Resolve(SplitTables()) == Some(SplitPack())
  {
    SplitIndex();
    GameResolves();
    SetsInRange();
    hide Resolve, ResolveIndex, ResolveGames, Ascii, Storable, InTable, NoNames, SplitGame, COMPONENTS, OWNERS;
    ResolveGives(SplitTables(), Index([ROW, ROW], COMPONENTS, OWNERS), [SplitGame()]);
  }

  lemma SetsInRange()
    ensures InTable(SplitTables().sets.provenance, 0) && InTable(SplitTables().sets.tags, 1)
  {
  }

  lemma {:induction false} GameResolves()
    ensures var t := SplitTables();
      ResolveGames(t.games, COMPONENTS, Context(t.strings, t.manifest, t.sets), NoNames(1)) == Some([SplitGame()])
  {
    var t := SplitTables();
    var ctx := Context(t.strings, t.manifest, t.sets);
    assert LookupAll([], t.manifest.provenance) == Some([]) && LookupAll([], t.strings) == Some([]);
    assert ResolveGame(GAME_ROW, COMPONENTS, ctx, []) == Some(SplitGame()) by { hide Numbered, KeyOf, Ascii, LookupAll; }
    hide ResolveGame, Numbered, KeyOf, Ascii;
    Single(GAME_ROW, []);
    Single(SplitGame(), []);
    assert COMPONENTS[..2] == COMPONENTS && COMPONENTS[2..] == [] && NoNames(1)[0] == [] && NoNames(1)[1..] == [];
    assert ResolveGames([], [], ctx, []) == Some([]);
  }

  // ---------------------------------------------------------------- and the query misses one

  lemma {:induction false} PlainIsScanned()
    ensures ScanPlace(SplitPack(), CRC, 4, (0, 0)) && ScanPlace(SplitPack(), CRC, 4, (0, 1))
  {
    hide Lower;
    NumberedAlike(COMPONENTS, 0);
    var cs := SplitPack().games[0].components;
    assert Alike(cs[0], COMPONENTS[0]) && Alike(cs[1], COMPONENTS[1]);
    hide Numbered;
    assert Tells(SplitPack(), KeyOf(ROW), 0, 1);
  }

  lemma {:induction false} OneIsReturned()
    ensures Route(SplitPack(), Lower(CRC), 4) == Some([(0, 1)])
  {
    TextOfBytes(CRC);
    hide Lower, AsciiLower, ToBytes, KeyOf;
    var pack := SplitPack();
    assert pack.owners[1] == [1] && [1 as u32][1..] == [];
    assert Hits([], pack.hashes, pack.owners, CRC, 4) == Some([]);
    assert Hits([1], pack.hashes, pack.owners, CRC, 4) == Some([1]) by { assert [1] + [] == [1 as u32]; }
    NumberedAlike(COMPONENTS, 0);
    assert Locate(pack.games, 1, 0) == Some((0, 1));
    assert LocateAll(pack.games, [1]) == [(0, 1)];
    assert TruncatedAll([(0, 1)]) == [(0, 1)];
  }

  /** The tables are written and read back as a pack whose query leaves out a component that matches. */
  lemma {:induction false} SplitRowsMissed(json: Json)
    requires Faithful(json) && |json.write(MANIFEST)| <= U64_MAX
    ensures Parse(WriteTables(SplitTables(), json), json) == Some(SplitPack())
    ensures Route(SplitPack(), Lower(CRC), 4) == Some([(0, 1)]) && ScanPlace(SplitPack(), CRC, 4, (0, 0))
    ensures !AnswersScan(SplitPack(), Lower(CRC), 4)
  {
    hide Storable, Resolve, ReadTables, WriteTables, Faithful, Route, ScanPlace, Lower, AsciiLower, ToBytes, Members;
    SplitStorable();
    assert SplitTables().manifest == MANIFEST;
    MembersAreShort(SplitTables(), json);
    TablesReadBack(SplitTables(), json);
    SplitResolves();
    hide SplitTables, SplitPack;
    TextOfBytes(CRC);
    OneIsReturned();
    PlainIsScanned();
    var out := AllNumbers([(0, 1)]);
    assert (0, 0) !in out by { assert out == [(0, 1)]; }
  }
}
