/** The nine members of a pack as one value, its bytes, and that reading the bytes gives the value back. */
module PackTables {
  import opened Bytes
  import opened Varint
  import opened PackFormat
  import opened PackContainer
  import opened PackModel
  import opened PackHashes
  import opened PackOwners

  datatype Tables = Tables(
    strings: seq<str>, hashes: seq<HashRow>, components: seq<ComponentRow>, games: seq<GameRow>, owners: seq<Ids>,
    routes: Ids, sets: Sets, manifest: Manifest, alternates: Option<seq<Ids>>)

  /** The JSON writer and reader of the manifest, which are not part of this model. */
  datatype Json = Json(write: Manifest -> bytes, read: bytes -> Option<Manifest>)

  ghost predicate Faithful(json: Json) { forall m :: json.read(json.write(m)) == Some(m) }

  const STRINGS_BIN: str := Ascii("strings.bin")
  const HASHES_BIN: str := Ascii("hashes.bin")
  const COMPONENTS_BIN: str := Ascii("components.bin")
  const GAMES_BIN: str := Ascii("games.bin")
  const OWNERS_BIN: str := Ascii("owners.bin")
  const ROUTES_BIN: str := Ascii("routes.bin")
  const SETS_BIN: str := Ascii("sets.bin")
  const MANIFEST_JSON: str := Ascii("manifest.json")
  const ALTERNATE_NAMES_BIN: str := Ascii("alternate-names.bin")

  const RWS5: str := Ascii("RWS5")
  const RWH5: str := Ascii("RWH5")
  const RWC5: str := Ascii("RWC5")
  const RWG5: str := Ascii("RWG5")
  const RWO5: str := Ascii("RWO5")
  const RWR5: str := Ascii("RWR5")
  const RWX5: str := Ascii("RWX5")
  const RWN5: str := Ascii("RWN5")

  // ---------------------------------------------------------------- the table bodies

  function PutStrings(xs: seq<str>, k: bytes): bytes { PutCounted(PutString, xs, k) }

  function GetStrings(b: bytes): Option<(seq<str>, bytes)> { GetCounted(GetString, b) }

  function PutHashes(xs: seq<HashRow>, k: bytes): bytes { PutCounted(PutHash, xs, k) }

  function GetHashes(b: bytes): Option<(seq<HashRow>, bytes)> { GetCounted(GetHash, b) }

  function PutComponents(xs: seq<ComponentRow>, k: bytes): bytes { PutCounted(PutComponent, xs, k) }

  function GetComponents(b: bytes): Option<(seq<ComponentRow>, bytes)> { GetCounted(GetComponent, b) }

  function PutGames(xs: seq<GameRow>, k: bytes): bytes { PutCounted(PutGame, xs, k) }

  function GetGames(b: bytes): Option<(seq<GameRow>, bytes)> { GetCounted(GetGame, b) }

  function PutLists(xs: seq<Ids>, k: bytes): bytes { PutCounted(PutU32s, xs, k) }

  function GetLists(b: bytes): Option<(seq<Ids>, bytes)> { GetCounted(GetU32s, b) }

  function PutSets(s: Sets, k: bytes): bytes { PutLists(s.provenance, PutLists(s.tags, k)) }

  function GetSets(b: bytes): Option<(Sets, bytes)> {
    var (provenance, rest) :- GetLists(b);
    var (tags, last) :- GetLists(rest);
    Some((Sets(provenance, tags), last))
  }

  /** The whole of a member as a table of that magic. */
  function GetTable<T>(magic: str, get: Get<T>, member: Option<bytes>): Option<T> {
    var m :- member;
    var body :- Body(magic, m);
    Whole(get(body))
  }

  function PutTable<T>(magic: str, put: Put<T>, x: T): bytes { Table(magic, put(x, [])) }

  lemma {:induction false} TableReadsBack<T>(magic: str, put: Put<T>, get: Get<T>, x: T)
    requires |magic| == 4 && get(put(x, [])) == Some((x, []))
    ensures GetTable(magic, get, Some(PutTable(magic, put, x))) == Some(x)
  {
    TableBody(magic, put(x, []));
  }

  // ---------------------------------------------------------------- the members

  function Members(t: Tables, json: Json): seq<Member> {
    [ (STRINGS_BIN, PutTable(RWS5, PutStrings, t.strings)),
      (HASHES_BIN, PutTable(RWH5, PutHashes, t.hashes)),
      (COMPONENTS_BIN, PutTable(RWC5, PutComponents, t.components)),
      (GAMES_BIN, PutTable(RWG5, PutGames, t.games)),
      (OWNERS_BIN, PutTable(RWO5, PutLists, t.owners)),
      (ROUTES_BIN, PutTable(RWR5, PutU32s, t.routes)),
      (SETS_BIN, PutTable(RWX5, PutSets, t.sets)),
      (MANIFEST_JSON, json.write(t.manifest)) ]
    + (match t.alternates case None => [] case Some(a) => [(ALTERNATE_NAMES_BIN, PutTable(RWN5, PutLists, a))])
  }

  function WriteTables(t: Tables, json: Json): bytes { WriteMembers(Members(t, json)) }

  function Find(ms: map<str, bytes>, name: str): Option<bytes> { if name in ms then Some(ms[name]) else None }

  function ReadTables(b: bytes, json: Json): Option<Tables> {
    var ms :- ReadMembers(b);
    TablesOf(ms, json)
  }

  function TablesOf(ms: map<str, bytes>, json: Json): Option<Tables> {
    var strings :- GetTable(RWS5, GetStrings, Find(ms, STRINGS_BIN));
    var hashes :- GetTable(RWH5, GetHashes, Find(ms, HASHES_BIN));
    var components :- GetTable(RWC5, GetComponents, Find(ms, COMPONENTS_BIN));
    var text :- Find(ms, MANIFEST_JSON);
    var manifest :- json.read(text);
    var sets :- GetTable(RWX5, GetSets, Find(ms, SETS_BIN));
    var owners :- GetTable(RWO5, GetLists, Find(ms, OWNERS_BIN));
    var routes :- GetTable(RWR5, GetU32s, Find(ms, ROUTES_BIN));
    var games :- GetTable(RWG5, GetGames, Find(ms, GAMES_BIN));
    var alternates :- AlternatesOf(Find(ms, ALTERNATE_NAMES_BIN));
    Some(Tables(strings, hashes, components, games, owners, routes, sets, manifest, alternates))
  }

  /** The alternate names are optional; a member that is present has to be a table. */
  function AlternatesOf(member: Option<bytes>): Option<Option<seq<Ids>>> {
    if member.None? then Some(None)
    else
      var lists :- GetTable(RWN5, GetLists, member);
      Some(Some(lists))
  }

  // ---------------------------------------------------------------- the limits of the format

  predicate GameCodes(g: GameRow) { g.components <= MAX_COUNT && (g.upstream.Some? ==> g.upstream.value < UPSTREAMS) }

  ghost predicate StorableLists(lists: seq<Ids>) {
    |lists| <= MAX_COUNT && forall ids :: ids in lists ==> |ids| <= MAX_COUNT
  }

  /** Every count is within the reader's limit, every string within its length, every code within its range. */
  ghost predicate Storable(t: Tables) {
    && |t.strings| <= MAX_COUNT && (forall s :: s in t.strings ==> |s| <= MAX_STRING)
    && |t.hashes| <= MAX_COUNT && (forall h :: h in t.hashes ==> Widths(h.digests))
    && |t.components| <= MAX_COUNT && (forall c :: c in t.components ==> c.role < ROLES)
    && |t.games| <= MAX_COUNT
    && (forall g :: g in t.games ==> GameCodes(g))
    && StorableLists(t.owners) && |t.routes| <= MAX_COUNT
    && StorableLists(t.sets.provenance) && StorableLists(t.sets.tags)
    && (t.alternates.Some? ==> StorableLists(t.alternates.value))
  }

  lemma {:induction false} StringsTableReadsBack(xs: seq<str>)
    requires |xs| <= MAX_COUNT && forall s :: s in xs ==> |s| <= MAX_STRING
    ensures GetTable(RWS5, GetStrings, Some(PutTable(RWS5, PutStrings, xs))) == Some(xs)
  {
    forall s | s in xs ensures ReadsBack(PutString, GetString, s) { StringReadsBack(s); }
    CountedReadsBack(PutString, GetString, xs, []);
    TableReadsBack(RWS5, PutStrings, GetStrings, xs);
  }

  lemma {:induction false} HashesTableReadsBack(xs: seq<HashRow>)
    requires |xs| <= MAX_COUNT && forall h :: h in xs ==> Widths(h.digests)
    ensures GetTable(RWH5, GetHashes, Some(PutTable(RWH5, PutHashes, xs))) == Some(xs)
  {
    forall h | h in xs ensures ReadsBack(PutHash, GetHash, h) { HashReadsBack(h); }
    CountedReadsBack(PutHash, GetHash, xs, []);
    TableReadsBack(RWH5, PutHashes, GetHashes, xs);
  }

  lemma {:induction false} ComponentsTableReadsBack(xs: seq<ComponentRow>)
    requires |xs| <= MAX_COUNT && forall c :: c in xs ==> c.role < ROLES
    ensures GetTable(RWC5, GetComponents, Some(PutTable(RWC5, PutComponents, xs))) == Some(xs)
  {
    forall c | c in xs ensures ReadsBack(PutComponent, GetComponent, c) { ComponentReadsBack(c); }
    CountedReadsBack(PutComponent, GetComponent, xs, []);
    TableReadsBack(RWC5, PutComponents, GetComponents, xs);
  }

  lemma {:induction false} GamesTableReadsBack(xs: seq<GameRow>)
    requires |xs| <= MAX_COUNT
    requires forall g :: g in xs ==> GameCodes(g)
    ensures GetTable(RWG5, GetGames, Some(PutTable(RWG5, PutGames, xs))) == Some(xs)
  {
    forall g | g in xs ensures ReadsBack(PutGame, GetGame, g) { GameReadsBack(g); }
    CountedReadsBack(PutGame, GetGame, xs, []);
    TableReadsBack(RWG5, PutGames, GetGames, xs);
  }

  lemma {:induction false} ListsTableReadsBack(magic: str, xs: seq<Ids>)
    requires |magic| == 4 && StorableLists(xs)
    ensures GetTable(magic, GetLists, Some(PutTable(magic, PutLists, xs))) == Some(xs)
  {
    U32ListsReadBack(xs, []);
    TableReadsBack(magic, PutLists, GetLists, xs);
  }

  lemma {:induction false} SetsTableReadsBack(s: Sets)
    requires StorableLists(s.provenance) && StorableLists(s.tags)
    ensures GetTable(RWX5, GetSets, Some(PutTable(RWX5, PutSets, s))) == Some(s)
  {
    U32ListsReadBack(s.provenance, PutLists(s.tags, []));
    U32ListsReadBack(s.tags, []);
    TableReadsBack(RWX5, PutSets, GetSets, s);
  }

  lemma {:induction false} RoutesTableReadsBack(xs: Ids)
    requires |xs| <= MAX_COUNT
    ensures GetTable(RWR5, GetU32s, Some(PutTable(RWR5, PutU32s, xs))) == Some(xs)
  {
    U32sReadBack(xs, []);
    TableReadsBack(RWR5, PutU32s, GetU32s, xs);
  }

  lemma {:induction false} NamesDiffer(t: Tables, json: Json)
    ensures DistinctNames(Members(t, json)) && (t.alternates == None ==> ALTERNATE_NAMES_BIN !in Names(Members(t, json)))
  {
    hide PutTable;
    var ms := Members(t, json);
    assert HASHES_BIN[0] == 'h' as int && OWNERS_BIN[0] == 'o' as int && ROUTES_BIN[0] == 'r' as int;
    assert HASHES_BIN != OWNERS_BIN && HASHES_BIN != ROUTES_BIN && OWNERS_BIN != ROUTES_BIN;
    forall i, j | 0 <= i < j < |ms| ensures ms[i].0 != ms[j].0 { }
    if t.alternates == None { NotNamed(ms, ALTERNATE_NAMES_BIN); }
  }

  lemma {:induction false} NotNamed(ms: seq<Member>, name: str)
    requires forall i :: 0 <= i < |ms| ==> ms[i].0 != name
    ensures name !in Names(ms)
  {
    if ms != [] { NotNamed(ms[1..], name); }
  }

  /** Where each member is found again. */
  lemma FoundAt(ms: seq<Member>, read: map<str, bytes>, i: nat, name: str, body: bytes)
    requires forall k :: 0 <= k < |ms| ==> ms[k].0 in read && read[ms[k].0] == ms[k].1
    requires i < |ms| && ms[i] == (name, body)
    ensures Find(read, name) == Some(body)
  {
  }

  /** The member list as it stands in the container. */
  ghost predicate Holds(read: map<str, bytes>, t: Tables, json: Json) {
    && Find(read, STRINGS_BIN) == Some(PutTable(RWS5, PutStrings, t.strings))
    && Find(read, HASHES_BIN) == Some(PutTable(RWH5, PutHashes, t.hashes))
    && Find(read, COMPONENTS_BIN) == Some(PutTable(RWC5, PutComponents, t.components))
    && Find(read, GAMES_BIN) == Some(PutTable(RWG5, PutGames, t.games))
    && Find(read, OWNERS_BIN) == Some(PutTable(RWO5, PutLists, t.owners))
    && Find(read, ROUTES_BIN) == Some(PutTable(RWR5, PutU32s, t.routes))
    && Find(read, SETS_BIN) == Some(PutTable(RWX5, PutSets, t.sets))
    && Find(read, MANIFEST_JSON) == Some(json.write(t.manifest))
    && Find(read, ALTERNATE_NAMES_BIN)
       == match t.alternates case None => None case Some(a) => Some(PutTable(RWN5, PutLists, a))
  }

  lemma {:induction false} MemberList(t: Tables, json: Json)
    ensures var ms := Members(t, json);
      && |ms| == (if t.alternates.Some? then 9 else 8)
      && ms[0] == (STRINGS_BIN, PutTable(RWS5, PutStrings, t.strings))
      && ms[1] == (HASHES_BIN, PutTable(RWH5, PutHashes, t.hashes))
      && ms[2] == (COMPONENTS_BIN, PutTable(RWC5, PutComponents, t.components))
      && ms[3] == (GAMES_BIN, PutTable(RWG5, PutGames, t.games))
      && ms[4] == (OWNERS_BIN, PutTable(RWO5, PutLists, t.owners))
      && ms[5] == (ROUTES_BIN, PutTable(RWR5, PutU32s, t.routes))
      && ms[6] == (SETS_BIN, PutTable(RWX5, PutSets, t.sets))
      && ms[7] == (MANIFEST_JSON, json.write(t.manifest))
      && (t.alternates.Some? ==> ms[8] == (ALTERNATE_NAMES_BIN, PutTable(RWN5, PutLists, t.alternates.value)))
  {
    hide PutTable, Ascii;
  }

  lemma {:induction false} Located(ms: seq<Member>, read: map<str, bytes>, t: Tables, json: Json)
    requires ms == Members(t, json) && read.Keys == Names(ms)
    requires forall i :: 0 <= i < |ms| ==> ms[i].0 in read && read[ms[i].0] == ms[i].1
    ensures Holds(read, t, json)
  {
    NamesDiffer(t, json);
    hide PutTable, Names, Ascii, Find, DistinctNames;
    MemberList(t, json);
    hide Members;
    FoundAt(ms, read, 0, STRINGS_BIN, PutTable(RWS5, PutStrings, t.strings));
    FoundAt(ms, read, 1, HASHES_BIN, PutTable(RWH5, PutHashes, t.hashes));
    FoundAt(ms, read, 2, COMPONENTS_BIN, PutTable(RWC5, PutComponents, t.components));
    FoundAt(ms, read, 3, GAMES_BIN, PutTable(RWG5, PutGames, t.games));
    FoundAt(ms, read, 4, OWNERS_BIN, PutTable(RWO5, PutLists, t.owners));
    FoundAt(ms, read, 5, ROUTES_BIN, PutTable(RWR5, PutU32s, t.routes));
    FoundAt(ms, read, 6, SETS_BIN, PutTable(RWX5, PutSets, t.sets));
    FoundAt(ms, read, 7, MANIFEST_JSON, json.write(t.manifest));
    if t.alternates.Some? {
      FoundAt(ms, read, 8, ALTERNATE_NAMES_BIN, PutTable(RWN5, PutLists, t.alternates.value));
    } else {
      NotFound(read, ALTERNATE_NAMES_BIN);
    }
  }

  lemma NotFound(read: map<str, bytes>, name: str)
    requires name !in read
    ensures Find(read, name) == None
  {
  }

  /** Each table of a storable pack reads back on its own. */
  ghost predicate EachReadsBack(t: Tables) {
    && GetTable(RWS5, GetStrings, Some(PutTable(RWS5, PutStrings, t.strings))) == Some(t.strings)
    && GetTable(RWH5, GetHashes, Some(PutTable(RWH5, PutHashes, t.hashes))) == Some(t.hashes)
    && GetTable(RWC5, GetComponents, Some(PutTable(RWC5, PutComponents, t.components))) == Some(t.components)
    && GetTable(RWG5, GetGames, Some(PutTable(RWG5, PutGames, t.games))) == Some(t.games)
    && GetTable(RWO5, GetLists, Some(PutTable(RWO5, PutLists, t.owners))) == Some(t.owners)
    && GetTable(RWR5, GetU32s, Some(PutTable(RWR5, PutU32s, t.routes))) == Some(t.routes)
    && GetTable(RWX5, GetSets, Some(PutTable(RWX5, PutSets, t.sets))) == Some(t.sets)
    && (t.alternates.Some? ==>
          GetTable(RWN5, GetLists, Some(PutTable(RWN5, PutLists, t.alternates.value))) == Some(t.alternates.value))
  }

  lemma {:induction false} StorableReadsBack(t: Tables)
    requires Storable(t)
    ensures EachReadsBack(t)
  {
    hide PutTable, GetTable, Ascii, StorableLists, Widths;
    StringsTableReadsBack(t.strings);
    HashesTableReadsBack(t.hashes);
    ComponentsTableReadsBack(t.components);
    GamesTableReadsBack(t.games);
    ListsTableReadsBack(RWO5, t.owners);
    RoutesTableReadsBack(t.routes);
    SetsTableReadsBack(t.sets);
    if t.alternates.Some? { ListsTableReadsBack(RWN5, t.alternates.value); }
  }

  lemma {:induction false} TablesOfHeld(read: map<str, bytes>, t: Tables, json: Json)
    requires Holds(read, t, json) && EachReadsBack(t) && Faithful(json)
    ensures TablesOf(read, json) == Some(t)
  {
    hide PutTable, GetTable, Ascii, Find;
  }

  /** Tables within the limits are read back as they were written. */
  lemma {:induction false} TablesReadBack(t: Tables, json: Json)
    requires Storable(t) && Faithful(json)
    requires forall m :: m in Members(t, json) ==> |m.1| <= U64_MAX
    ensures ReadTables(WriteTables(t, json), json) == Some(t)
  {
    hide Storable, PutTable, ReadMembers, WriteMembers, Names, TablesOf, Holds, EachReadsBack, DistinctNames, Faithful;
    var ms := Members(t, json);
    NamesDiffer(t, json);
    hide Ascii;
    forall i | 0 <= i < |ms| ensures |ms[i].0| < 0x1_0000 && |ms[i].1| <= U64_MAX { assert ms[i] in ms; }
    MembersReadBack(ms);
    var read := ReadMembers(WriteMembers(ms)).value;
    Located(ms, read, t, json);
    StorableReadsBack(t);
    TablesOfHeld(read, t, json);
  }
}
