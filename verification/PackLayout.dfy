/** The pack as bytes: its magic, the names of its members and how each begins; and what an accepted one has to say. */
module PackLayout {
  import opened Bytes
  import opened Varint
  import opened PackFormat
  import opened PackContainer
  import opened PackModel
  import opened PackHashes
  import opened PackOwners
  import opened PackRoutes
  import opened PackTables
  import opened PackParse
  import opened PackSound
  import opened PackFields

  // ---------------------------------------------------------------- written

  lemma AsciiSpells(s: string)
    requires forall i :: 0 <= i < |s| ==> s[i] as int < 0x80
    ensures Spells(Ascii(s), s)
  {
  }

  /** A member of that name, whose bytes begin with the four characters of its table and the version 1. */
  ghost predicate TableMember(m: Member, name: string, magic: string) {
    |magic| == 4 && Spells(m.0, name) && |m.1| >= 5 && Spelled(m.1, 0, magic) && m.1[4] == 1
  }

  lemma {:induction false} TableBegins<T>(magic: string, put: Put<T>, x: T)
    requires |magic| == 4 && forall i :: 0 <= i < |magic| ==> magic[i] as int < 0x80
    ensures var b := PutTable(Ascii(magic), put, x); |b| >= 5 && Spelled(b, 0, magic) && b[4] == 1
  {
    var (head, body) := (Ascii(magic), put(x, []));
    assert Table(head, body) == head + [1] + body;
  }

  /** The nine members of a pack, in the order they are written. */
  lemma {:induction false} MembersSpelled(t: Tables, json: Json)
    ensures var ms := Members(t, json);
      && |ms| == (if t.alternates.Some? then 9 else 8)
      && TableMember(ms[0], "strings.bin", "RWS5") && TableMember(ms[1], "hashes.bin", "RWH5")
      && TableMember(ms[2], "components.bin", "RWC5") && TableMember(ms[3], "games.bin", "RWG5")
      && TableMember(ms[4], "owners.bin", "RWO5") && TableMember(ms[5], "routes.bin", "RWR5")
      && TableMember(ms[6], "sets.bin", "RWX5")
      && Spells(ms[7].0, "manifest.json") && ms[7].1 == json.write(t.manifest)
      && (t.alternates.Some? ==> TableMember(ms[8], "alternate-names.bin", "RWN5"))
  {
    MemberList(t, json);
    NamesSpelled();
    MoreNamesSpelled();
    TableBegins("RWS5", PutStrings, t.strings);
    TableBegins("RWH5", PutHashes, t.hashes);
    TableBegins("RWC5", PutComponents, t.components);
    TableBegins("RWG5", PutGames, t.games);
    TableBegins("RWO5", PutLists, t.owners);
    TableBegins("RWR5", PutU32s, t.routes);
    TableBegins("RWX5", PutSets, t.sets);
    if t.alternates.Some? { TableBegins("RWN5", PutLists, t.alternates.value); }
    hide Members, PutTable, Ascii, Spelled, Spells;
  }

  lemma {:induction false} NamesSpelled()
    ensures Spells(STRINGS_BIN, "strings.bin") && Spells(HASHES_BIN, "hashes.bin") && Spells(COMPONENTS_BIN, "components.bin")
    ensures Spells(GAMES_BIN, "games.bin") && Spells(OWNERS_BIN, "owners.bin")
  {
    hide Ascii, Spells;
    AsciiSpells("strings.bin");
    AsciiSpells("hashes.bin");
    AsciiSpells("components.bin");
    AsciiSpells("games.bin");
    AsciiSpells("owners.bin");
  }

  lemma {:induction false} MoreNamesSpelled()
    ensures Spells(ROUTES_BIN, "routes.bin") && Spells(SETS_BIN, "sets.bin") && Spells(MANIFEST_JSON, "manifest.json")
    ensures Spells(ALTERNATE_NAMES_BIN, "alternate-names.bin")
  {
    hide Ascii, Spells;
    AsciiSpells("routes.bin");
    AsciiSpells("sets.bin");
    AsciiSpells("manifest.json");
    AsciiSpells("alternate-names.bin");
  }

  /** A pack begins with its magic and the number of its members, the lowest byte first. */
  lemma {:induction false} PackBegins(t: Tables, json: Json)
    ensures var b := WriteTables(t, json);
      && |b| >= 12 && Spelled(b, 0, "RWFP1") && b[5] == 0 && b[6] == 0 && b[7] == 0
      && b[8] == (if t.alternates.Some? then 9 else 8) && b[9] == 0 && b[10] == 0 && b[11] == 0
  {
    var ms := Members(t, json);
    MemberList(t, json);
    hide Members, PutTable, Ascii;
    var count := LittleEndian(|ms|, 4);
    FewMembers(|ms|);
    var rest := PutList(PutEntry, Entries(ms), Bodies(ms));
    assert WriteTables(t, json) == PACK_V1_MAGIC + (count + rest);
    hide PutList, Bodies, Entries, LittleEndian;
    assert "RWFP1"[0] == 'R' && "RWFP1"[1] == 'W' && "RWFP1"[2] == 'F' && "RWFP1"[3] == 'P' && "RWFP1"[4] == '1';
  }

  lemma {:induction false} FewMembers(n: nat)
    requires n < 256
    ensures LittleEndian(n, 4) == [n, 0, 0, 0]
  {
    assert LittleEndian(0, 0) == [] && LittleEndian(0, 1) == [0] && LittleEndian(0, 2) == [0, 0];
    assert LittleEndian(0, 3) == [0, 0, 0];
  }

  /** Counts above four million and strings above 4096 bytes are refused. */
  lemma {:induction false} LimitsAre(n: u64, s: str, k: bytes)
    requires |s| <= U64_MAX
    ensures ReadCount(Enc(n) + k) == if n <= 4_000_000 then Some((n as nat, k)) else None
    ensures GetString(PutString(s, k)) == if |s| <= 4096 then Some((s, k)) else None
  {
    VarOfEnc(n, k);
    VarOfEnc(|s|, s + k);
    assert (s + k)[..|s|] == s && (s + k)[|s|..] == k;
  }

  // ---------------------------------------------------------------- accepted

  /** What parsing promises of a game: it is of its pack, and its components are numbered. */
  ghost predicate GameOfPack(m: Manifest, g: Game) {
    && g.platform == m.platform && g.source == m.source && (forall p :: p in g.provenance ==> p in m.provenance)
    && forall k :: 0 <= k < |g.components| ==> g.components[k].ordinal == k % 0x1_0000_0000
  }

  lemma {:induction false} LookedUp<T(!new)>(ids: Ids, table: seq<T>)
    ensures LookupAll(ids, table).Some? ==> forall x :: x in LookupAll(ids, table).value ==> x in table
    decreases |ids|
  {
    if ids != [] { LookedUp(ids[1..], table); }
  }

  lemma {:induction false} GameResolved(row: GameRow, components: seq<Component>, ctx: Context, alternates: seq<str>)
    ensures ResolveGame(row, components, ctx, alternates).Some? ==>
      GameOfPack(ctx.manifest, ResolveGame(row, components, ctx, alternates).value)
  {
    hide LookupAll, LookupOptional, UpstreamOf, Numbered;
    if ResolveGame(row, components, ctx, alternates).Some? {
      LookedUp(At(ctx.sets.provenance, row.provenanceSet).value, ctx.manifest.provenance);
      forall k | 0 <= k < |components| ensures Numbered(components, 0)[k].ordinal == k % 0x1_0000_0000 {
        NumberedAre(components, 0, k);
      }
    }
  }

  lemma {:induction false} GamesResolved(rows: seq<GameRow>, all: seq<Component>, ctx: Context, alternates: seq<seq<str>>)
    requires |alternates| == |rows|
    ensures ResolveGames(rows, all, ctx, alternates).Some? ==>
      forall g :: g in ResolveGames(rows, all, ctx, alternates).value ==> GameOfPack(ctx.manifest, g)
    decreases |rows|
  {
    hide ResolveGame, GameOfPack;
    if rows != [] && rows[0].components <= |all| {
      var n := rows[0].components;
      GameResolved(rows[0], all[..n], ctx, alternates[0]);
      GamesResolved(rows[1..], all[n..], ctx, alternates[1..]);
    }
  }

  /** The pack names its format and version, and its games are of it. */
  ghost predicate PackMeans(pack: Pack) {
    && Spells(pack.manifest.format, "rom-weaver-identify-system-pack-v1") && pack.manifest.version == 1
    && forall g :: g in pack.games ==> GameOfPack(pack.manifest, g)
  }

  lemma {:induction false} ResolvedManifest(t: Tables)
    requires Storable(t)
    ensures Resolve(t).Some? ==>
      var m := Resolve(t).value.manifest; m == t.manifest && m.format == FORMAT && m.version == VERSION
  {
    hide Storable, ResolveIndex, ResolveGames, ResolveAlternates, InTable, Ascii, Indexed;
  }

  lemma {:induction false} ResolvedMeans(t: Tables)
    requires Storable(t)
    ensures Resolve(t).Some? ==> PackMeans(Resolve(t).value)
  {
    hide Resolve, Storable, ResolveGames, Ascii, Spells, GameOfPack, Indexed;
    AsciiSpells("rom-weaver-identify-system-pack-v1");
    ResolvedManifest(t);
    ResolveParts(t);
    if Resolve(t).Some? {
      var components, alternates :| ResolvedFrom(Resolve(t).value, t, components, alternates);
      GamesResolved(t.games, components, Context(t.strings, t.manifest, t.sets), alternates);
    }
  }

  /** Every pack the parser accepts is such a pack. */
  lemma {:induction false} AcceptedMeans(b: bytes, json: Json)
    ensures Parse(b, json).Some? ==> PackMeans(Parse(b, json).value)
  {
    hide Resolve, ReadTables, PackMeans;
    ReadIsStorable(b, json);
    if ReadTables(b, json).Some? { ResolvedMeans(ReadTables(b, json).value); }
  }
}
