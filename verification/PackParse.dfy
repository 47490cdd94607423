/** Parsing a pack: the tables read, the ids in them looked up, and the checks that tie the tables together. */
module PackParse {
  import opened Bytes
  import opened Varint
  import opened PackFormat
  import opened PackModel
  import opened PackHashes
  import opened PackOwners
  import opened PackRoutes
  import opened PackTables

  const FORMAT: str := Ascii("rom-weaver-identify-system-pack-v1")
  const VERSION: u32 := 1

  // ---------------------------------------------------------------- looking ids up

  function At<T>(table: seq<T>, id: u32): Option<T> { if id < |table| then Some(table[id]) else None }

  function LookupAll<T>(ids: Ids, table: seq<T>): Option<seq<T>>
    decreases |ids|
  {
    if ids == [] then Some([])
    else
      var x :- At(table, ids[0]);
      var rest :- LookupAll(ids[1..], table);
      Some([x] + rest)
  }

  function LookupLists<T>(lists: seq<Ids>, table: seq<T>): Option<seq<seq<T>>>
    decreases |lists|
  {
    if lists == [] then Some([])
    else
      var xs :- LookupAll(lists[0], table);
      var rest :- LookupLists(lists[1..], table);
      Some([xs] + rest)
  }

  function LookupOptional(id: Option<u32>, strings: seq<str>): Option<Option<str>> {
    match id
    case None => Some(None)
    case Some(i) =>
      var s :- At(strings, i);
      Some(Some(s))
  }

  lemma {:induction false} LookupAllItems<T>(ids: Ids, table: seq<T>)
    ensures LookupAll(ids, table).Some? <==> forall i :: 0 <= i < |ids| ==> ids[i] < |table|
    ensures LookupAll(ids, table).Some? ==>
      |LookupAll(ids, table).value| == |ids|
      && forall i :: 0 <= i < |ids| ==> LookupAll(ids, table).value[i] == table[ids[i]]
    decreases |ids|
  {
    if ids != [] { LookupAllItems(ids[1..], table); }
  }

  // ---------------------------------------------------------------- components and games

  function ResolveComponent(row: ComponentRow, hashes: seq<Hash>, strings: seq<str>): Option<Component> {
    var hash :- At(hashes, row.hash);
    var filename :- LookupOptional(row.filename, strings);
    var role :- RoleOf(row.role);
    Some(Component(role, 0, KeyOf(hash), filename, row.required, row.discriminating, row.track, row.session))
  }

  function ResolveComponents(rows: seq<ComponentRow>, hashes: seq<Hash>, strings: seq<str>): Option<seq<Component>>
    decreases |rows|
  {
    if rows == [] then Some([])
    else
      var c :- ResolveComponent(rows[0], hashes, strings);
      var rest :- ResolveComponents(rows[1..], hashes, strings);
      Some([c] + rest)
  }

  function HashIds(rows: seq<ComponentRow>): (r: seq<u32>)
    ensures |r| == |rows| && forall i :: 0 <= i < |rows| ==> r[i] == rows[i].hash
  {
    seq(|rows|, i requires 0 <= i < |rows| => rows[i].hash)
  }

  datatype Context = Context(strings: seq<str>, manifest: Manifest, sets: Sets)

  function ResolveGame(row: GameRow, components: seq<Component>, ctx: Context, alternates: seq<str>): Option<Game> {
    var name :- At(ctx.strings, row.name);
    var gameId :- LookupOptional(row.gameId, ctx.strings);
    var region :- LookupOptional(row.region, ctx.strings);
    var language :- LookupOptional(row.language, ctx.strings);
    var revision :- LookupOptional(row.revision, ctx.strings);
    var parent :- LookupOptional(row.parent, ctx.strings);
    var provenanceIds :- At(ctx.sets.provenance, row.provenanceSet);
    var tagIds :- At(ctx.sets.tags, row.tagSet);
    var upstream :- UpstreamOf(row.upstream);
    var provenance :- LookupAll(provenanceIds, ctx.manifest.provenance);
    var tags :- LookupAll(tagIds, ctx.strings);
    Some(Game(name, ctx.manifest.platform, ctx.manifest.source, upstream, provenance, row.legacy, tags, alternates,
              gameId, region, language, row.disc, revision, parent, Numbered(components, 0)))
  }

  /** Each game takes the next components; together they have to use up all of them. */
  function ResolveGames(rows: seq<GameRow>, all: seq<Component>, ctx: Context, alternates: seq<seq<str>>): Option<seq<Game>>
    requires |alternates| == |rows|
    decreases |rows|
  {
    if rows == [] then (if all == [] then Some([]) else None)
    else
      var n := rows[0].components;
      if n > |all| then None
      else
        var g :- ResolveGame(rows[0], all[..n], ctx, alternates[0]);
        var rest :- ResolveGames(rows[1..], all[n..], ctx, alternates[1..]);
        Some([g] + rest)
  }

  function NoNames(games: nat): (r: seq<seq<str>>)
    ensures |r| == games && forall i :: 0 <= i < games ==> r[i] == []
  {
    seq(games, _ => [])
  }

  /** One list of names per game; a pack without the member has empty ones. */
  function ResolveAlternates(lists: Option<seq<Ids>>, games: nat, strings: seq<str>): (r: Option<seq<seq<str>>>)
    ensures r.Some? ==> |r.value| == games
  {
    match lists
    case None => Some(NoNames(games))
    case Some(ids) =>
      var names :- LookupLists(ids, strings);
      if |names| == games then Some(names) else None
  }

  predicate InTable(lists: seq<Ids>, size: nat) { forall ids :: ids in lists ==> forall i :: 0 <= i < |ids| ==> ids[i] < size }

  // ---------------------------------------------------------------- the whole pack

  lemma {:induction false} ResolvedComponents(rows: seq<ComponentRow>, hashes: seq<Hash>, strings: seq<str>)
    requires ResolveComponents(rows, hashes, strings).Some?
    ensures var cs := ResolveComponents(rows, hashes, strings).value;
      && |cs| == |rows|
      && forall i :: 0 <= i < |rows| ==> rows[i].hash < |hashes| && cs[i].hash == KeyOf(hashes[rows[i].hash])
    decreases |rows|
  {
    hide KeyOf, RoleOf, LookupOptional;
    if rows != [] { ResolvedComponents(rows[1..], hashes, strings); }
  }

  lemma {:induction false} ResolvedInRange(t: Tables, hashes: seq<Hash>, components: seq<Component>, owners: seq<Ids>)
    requires ResolveComponents(t.components, hashes, t.strings) == Some(components)
    requires |t.owners| == |hashes| && ResolveOwners(t.owners, |components|) == Some(owners)
    ensures InRange(owners, HashIds(t.components), hashes)
  {
    ResolvedComponents(t.components, hashes, t.strings);
    ResolvedOwnersAscend(t.owners, |components|);
  }

  /** The hash ids of the tables resolve to at most `MAX_IDS` rows. */
  lemma {:induction false} ResolvedHashCount(t: Tables)
    requires Storable(t)
    ensures var hs := ResolveHashes(t.hashes, t.strings, 0);
      hs.Some? ==> |hs.value| == |t.hashes| <= MAX_COUNT && forall h :: h in hs.value ==> Widths(h.digests)
  {
    ResolvedWidths(t.hashes, t.strings, 0);
  }

  /** The hash rows, the components built from them, and the owners of each row. */
  datatype Index = Index(hashes: seq<Hash>, components: seq<Component>, owners: seq<Ids>)

  /** The three tables stand for the index: ids in range, owners a bijection, routes as expected. */
  ghost predicate Indexed(t: Tables, index: Index) {
    && ResolveHashes(t.hashes, t.strings, 0) == Some(index.hashes)
    && ResolveComponents(t.components, index.hashes, t.strings) == Some(index.components)
    && |t.owners| == |index.hashes| && ResolveOwners(t.owners, |index.components|) == Some(index.owners)
    && InRange(index.owners, HashIds(t.components), index.hashes)
    && ValidOwners(index.owners, HashIds(t.components), index.hashes)
    && |index.hashes| <= MAX_IDS && t.routes == ExpectedRoutes(index.hashes, index.owners, index.components)
  }

  /** The three tables looked up and checked against each other and against the routes. */
  ghost function ResolveIndex(t: Tables): (r: Option<Index>)
    requires Storable(t)
    ensures r.Some? ==> Indexed(t, r.value)
  {
    var hashes :- ResolveHashes(t.hashes, t.strings, 0);
    var components :- ResolveComponents(t.components, hashes, t.strings);
    if |t.owners| != |hashes| then None
    else
      var owners :- ResolveOwners(t.owners, |components|);
      ResolvedInRange(t, hashes, components, owners);
      ResolvedHashCount(t);
      if !ValidOwners(owners, HashIds(t.components), hashes) || t.routes != ExpectedRoutes(hashes, owners, components) then None
      else Some(Index(hashes, components, owners))
  }

  ghost function Resolve(t: Tables): Option<Pack>
    requires Storable(t)
  {
    var index :- ResolveIndex(t);
    if t.manifest.format != FORMAT || t.manifest.version != VERSION then None
    else if !InTable(t.sets.provenance, |t.manifest.provenance|) || !InTable(t.sets.tags, |t.strings|) then None
    else
      var alternates :- ResolveAlternates(t.alternates, |t.games|, t.strings);
      var games :- ResolveGames(t.games, index.components, Context(t.strings, t.manifest, t.sets), alternates);
      Some(Pack(games, index.hashes, index.owners, t.routes, t.manifest))
  }

  // ---------------------------------------------------------------- what reading guarantees

  lemma {:induction false} GetListAll<T(!new)>(get: Get<T>, ok: T -> bool, n: nat, b: bytes)
    requires forall c: bytes :: get(c).Some? ==> ok(get(c).value.0)
    ensures GetList(get, n, b).Some? ==>
      |GetList(get, n, b).value.0| == n && forall x :: x in GetList(get, n, b).value.0 ==> ok(x)
    decreases n
  {
    if n > 0 && get(b).Some? { GetListAll(get, ok, n - 1, get(b).value.1); }
  }

  lemma {:induction false} GetTableAll<T(!new)>(magic: str, get: Get<seq<T>>, item: Get<T>, ok: T -> bool, member: Option<bytes>)
    requires forall b: bytes :: get(b) == GetCounted(item, b)
    requires forall c: bytes :: item(c).Some? ==> ok(item(c).value.0)
    ensures GetTable(magic, get, member).Some? ==>
      |GetTable(magic, get, member).value| <= MAX_COUNT && forall x :: x in GetTable(magic, get, member).value ==> ok(x)
  {
    if GetTable(magic, get, member).Some? {
      var body := Body(magic, member.value).value;
      var (n, rest) := ReadCount(body).value;
      GetListAll(item, ok, n, rest);
    }
  }

  lemma {:induction false} HashWidths(b: bytes)
    ensures GetHash(b).Some? ==> Widths(GetHash(b).value.0.digests)
  {
    hide Var, GetScope, HasBit;
  }

  lemma {:induction false} ComponentRoles(b: bytes)
    ensures GetComponent(b).Some? ==> GetComponent(b).value.0.role < ROLES
  {
    hide GetU32, GetOptional, HasBit;
  }

  lemma {:induction false} GameRowCodes(b: bytes)
    ensures GetGame(b).Some? ==> GameCodes(GetGame(b).value.0)
  {
    hide GetU32, GetOptional, HasBit, GetGameNames, Var;
  }

  lemma {:induction false} ListCounts(b: bytes)
    ensures GetU32s(b).Some? ==> |GetU32s(b).value.0| <= MAX_COUNT
  {
    if GetU32s(b).Some? {
      var (n, rest) := ReadCount(b).value;
      GetListAll(GetU32, _ => true, n, rest);
    }
  }

  lemma {:induction false} StringLengths(b: bytes)
    ensures GetString(b).Some? ==> |GetString(b).value.0| <= MAX_STRING
  {
    if Var(b).Some? && Var(b).value.0 <= MAX_STRING {
      var (n, rest) := Var(b).value;
      assert GetString(b) == Take(rest, n);
    }
  }

  lemma {:induction false} ListsStorable(b: bytes)
    ensures GetLists(b).Some? ==> StorableLists(GetLists(b).value.0)
  {
    if GetLists(b).Some? {
      var (n, rest) := ReadCount(b).value;
      forall c: bytes ensures GetU32s(c).Some? ==> |GetU32s(c).value.0| <= MAX_COUNT { ListCounts(c); }
      GetListAll(GetU32s, (x: Ids) => |x| <= MAX_COUNT, n, rest);
    }
  }

  lemma {:induction false} TableListsStorable(magic: str, member: Option<bytes>)
    ensures GetTable(magic, GetLists, member).Some? ==> StorableLists(GetTable(magic, GetLists, member).value)
  {
    if GetTable(magic, GetLists, member).Some? { ListsStorable(Body(magic, member.value).value); }
  }

  lemma {:induction false} SetsStorable(member: Option<bytes>)
    ensures var s := GetTable(RWX5, GetSets, member);
      s.Some? ==> StorableLists(s.value.provenance) && StorableLists(s.value.tags)
  {
    if GetTable(RWX5, GetSets, member).Some? {
      var body := Body(RWX5, member.value).value;
      ListsStorable(body);
      ListsStorable(GetLists(body).value.1);
    }
  }

  lemma {:induction false} RoutesCounted(member: Option<bytes>)
    ensures GetTable(RWR5, GetU32s, member).Some? ==> |GetTable(RWR5, GetU32s, member).value| <= MAX_COUNT
  {
    if GetTable(RWR5, GetU32s, member).Some? { ListCounts(Body(RWR5, member.value).value); }
  }

  lemma {:induction false} StringsStorable(member: Option<bytes>)
    ensures var r := GetTable(RWS5, GetStrings, member);
      r.Some? ==> |r.value| <= MAX_COUNT && forall s :: s in r.value ==> |s| <= MAX_STRING
  {
    hide GetTable, Ascii, GetCounted, GetString;
    forall b: bytes ensures GetString(b).Some? ==> ((s: str) => |s| <= MAX_STRING)(GetString(b).value.0) { StringLengths(b); }
    GetTableAll(RWS5, GetStrings, GetString, (s: str) => |s| <= MAX_STRING, member);
  }

  lemma {:induction false} HashesStorable(member: Option<bytes>)
    ensures var r := GetTable(RWH5, GetHashes, member);
      r.Some? ==> |r.value| <= MAX_COUNT && forall h :: h in r.value ==> Widths(h.digests)
  {
    hide GetTable, Ascii, GetCounted, GetHash;
    forall b: bytes ensures GetHash(b).Some? ==> ((h: HashRow) => Widths(h.digests))(GetHash(b).value.0) { HashWidths(b); }
    GetTableAll(RWH5, GetHashes, GetHash, (h: HashRow) => Widths(h.digests), member);
  }

  lemma {:induction false} ComponentsStorable(member: Option<bytes>)
    ensures var r := GetTable(RWC5, GetComponents, member);
      r.Some? ==> |r.value| <= MAX_COUNT && forall c :: c in r.value ==> c.role < ROLES
  {
    hide GetTable, Ascii, GetCounted, GetComponent;
    forall b: bytes ensures GetComponent(b).Some? ==> ((c: ComponentRow) => c.role < ROLES)(GetComponent(b).value.0) { ComponentRoles(b); }
    GetTableAll(RWC5, GetComponents, GetComponent, (c: ComponentRow) => c.role < ROLES, member);
  }

  lemma {:induction false} GamesStorable(member: Option<bytes>)
    ensures var r := GetTable(RWG5, GetGames, member);
      r.Some? ==> |r.value| <= MAX_COUNT && forall g :: g in r.value ==> GameCodes(g)
  {
    hide GetTable, Ascii, GetCounted, GetGame;
    forall b: bytes ensures GetGame(b).Some? ==> ((g: GameRow) => GameCodes(g))(GetGame(b).value.0) { GameRowCodes(b); }
    GetTableAll(RWG5, GetGames, GetGame, (g: GameRow) => GameCodes(g), member);
  }

  /** Whatever is read keeps the limits of the format. */
  lemma {:induction false} ReadIsStorable(b: bytes, json: Json)
    ensures ReadTables(b, json).Some? ==> Storable(ReadTables(b, json).value)
  {
    hide GetTable, Find, Ascii, StorableLists, Widths, GameCodes;
    if ReadTables(b, json).Some? {
      var ms := PackContainer.ReadMembers(b).value;
      StringsStorable(Find(ms, STRINGS_BIN));
      HashesStorable(Find(ms, HASHES_BIN));
      ComponentsStorable(Find(ms, COMPONENTS_BIN));
      GamesStorable(Find(ms, GAMES_BIN));
      SetsStorable(Find(ms, SETS_BIN));
      TableListsStorable(RWO5, Find(ms, OWNERS_BIN));
      RoutesCounted(Find(ms, ROUTES_BIN));
      TableListsStorable(RWN5, Find(ms, ALTERNATE_NAMES_BIN));
    }
  }

  ghost function Parse(b: bytes, json: Json): Option<Pack> {
    var t :- ReadTables(b, json);
    ReadIsStorable(b, json);
    Resolve(t)
  }
}
