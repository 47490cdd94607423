/** How long the members of a pack within the limits can get: always short enough for their 64-bit lengths. */
module PackSizes {
  import opened Bytes
  import opened Varint
  import opened PackFormat
  import opened PackModel
  import opened PackHashes
  import opened PackTables

  lemma {:induction false} EncLength(n: nat, k: nat)
    requires k > 0 && n < Pow128(k)
    ensures |Enc(n)| <= k
    decreases k
  {
    if n >= 128 { EncLength(n / 128, k - 1); }
  }

  lemma {:induction false} VarLength(n: u64, k: bytes)
    ensures |PutVar(n, k)| <= 10 + |k|
  {
    TenDigits();
    EncLength(n, 10);
  }

  /** However it goes on, `x` takes at most `n` bytes. */
  ghost predicate Takes<T>(put: Put<T>, x: T, n: nat) { forall k: bytes :: |put(x, k)| <= n + |k| }

  lemma {:induction false} ListLength<T(!new)>(put: Put<T>, xs: seq<T>, n: nat, k: bytes)
    requires forall x :: x in xs ==> Takes(put, x, n)
    ensures |PutList(put, xs, k)| <= |xs| * n + |k|
    decreases |xs|
  {
    if xs != [] {
      assert Takes(put, xs[0], n);
      ListLength(put, xs[1..], n, k);
      assert |xs| * n == n + |xs[1..]| * n;
    }
  }

  lemma {:induction false} CountedLength<T(!new)>(put: Put<T>, xs: seq<T>, n: nat, k: bytes)
    requires |xs| <= MAX_COUNT && forall x :: x in xs ==> Takes(put, x, n)
    ensures |PutCounted(put, xs, k)| <= 10 + MAX_COUNT * n + |k|
  {
    ListLength(put, xs, n, k);
    VarLength(|xs|, PutList(put, xs, k));
    assert |xs| * n <= MAX_COUNT * n;
  }

  lemma {:induction false} StringTakes(s: str)
    requires |s| <= MAX_STRING
    ensures Takes(PutString, s, 10 + MAX_STRING)
  {
    forall k: bytes ensures |PutString(s, k)| <= 10 + MAX_STRING + |k| { VarLength(|s|, s + k); }
  }

  lemma {:induction false} NumberTakes(n: u32)
    ensures Takes(PutU32, n, 10)
  {
    forall k: bytes ensures |PutU32(n, k)| <= 10 + |k| { VarLength(n, k); }
  }

  lemma {:induction false} OptionalLength(o: Option<u32>, k: bytes)
    ensures |PutOptional(o, k)| <= 10 + |k|
  {
    if o.Some? { VarLength(o.value, k); }
  }

  lemma {:induction false} HashTakes(h: HashRow)
    requires Widths(h.digests)
    ensures Takes(PutHash, h, 100)
  {
    hide PutVar, DigestMask;
    forall k: bytes ensures |PutHash(h, k)| <= 100 + |k| {
      var k2 := PutDigests(h.digests, k);
      var k1 := [DigestMask(h.digests)] + k2;
      if h.scope.OtherScope? { VarLength(h.scope.id, k1); }
      VarLength(h.delta, PutScope(h.scope, k1));
    }
  }

  lemma {:induction false} ComponentTakes(c: ComponentRow)
    ensures Takes(PutComponent, c, 50)
  {
    hide PutOptional, PutVar, Presence, Flags;
    forall k: bytes ensures |PutComponent(c, k)| <= 50 + |k| {
      var k4 := [c.role] + ([Flags(c)] + k);
      var k3 := PutOptional(c.session, k4);
      var k2 := PutOptional(c.track, k3);
      var k1 := PutOptional(c.filename, k2);
      OptionalLength(c.session, k4);
      OptionalLength(c.track, k3);
      OptionalLength(c.filename, k2);
      VarLength(c.hash, [Presence(c)] + k1);
    }
  }

  lemma {:induction false} GameTakes(g: GameRow)
    requires g.components <= MAX_COUNT
    ensures Takes(PutGame, g, 110)
  {
    hide PutOptional, PutVar, GameBits;
    forall k: bytes ensures |PutGame(g, k)| <= 110 + |k| {
      var rest := PutGameRest(g, k);
      RestLength(g, k);
      NamesLength(g, rest);
      VarLength(g.name, [GameBits(g)] + PutGameNames(g, rest));
      hide PutGameRest, PutGameNames;
    }
  }

  lemma {:induction false} RestLength(g: GameRow, k: bytes)
    requires g.components <= MAX_COUNT
    ensures |PutGameRest(g, k)| <= 41 + |k|
  {
    hide PutOptional, PutVar;
    var k4 := PutUpstream(g.upstream, k);
    var k3 := PutOptional(g.disc, k4);
    var k2 := PutU32(g.tagSet, k3);
    var k1 := PutU32(g.provenanceSet, k2);
    OptionalLength(g.disc, k4);
    VarLength(g.tagSet, k3);
    VarLength(g.provenanceSet, k2);
    VarLength(g.components, k1);
  }

  lemma {:induction false} NamesLength(g: GameRow, k: bytes)
    ensures |PutGameNames(g, k)| <= 50 + |k|
  {
    hide PutOptional;
    var k4 := PutOptional(g.parent, k);
    var k3 := PutOptional(g.revision, k4);
    var k2 := PutOptional(g.language, k3);
    var k1 := PutOptional(g.region, k2);
    OptionalLength(g.parent, k);
    OptionalLength(g.revision, k4);
    OptionalLength(g.language, k3);
    OptionalLength(g.region, k2);
    OptionalLength(g.gameId, k1);
  }

  const LIST_BYTES: nat := 10 + MAX_COUNT * 10
  const LISTS_BYTES: nat := 10 + MAX_COUNT * LIST_BYTES

  lemma {:induction false} NumbersLength(ids: seq<u32>, k: bytes)
    requires |ids| <= MAX_COUNT
    ensures |PutU32s(ids, k)| <= LIST_BYTES + |k|
  {
    forall x | x in ids ensures Takes(PutU32, x, 10) { NumberTakes(x); }
    CountedLength(PutU32, ids, 10, k);
  }

  lemma {:induction false} ListsLength(lists: seq<seq<u32>>, k: bytes)
    requires StorableLists(lists)
    ensures |PutLists(lists, k)| <= LISTS_BYTES + |k|
  {
    forall x | x in lists ensures Takes(PutU32s, x, LIST_BYTES) {
      forall k: bytes ensures |PutU32s(x, k)| <= LIST_BYTES + |k| { NumbersLength(x, k); }
    }
    CountedLength(PutU32s, lists, LIST_BYTES, k);
  }

  lemma {:induction false} RowsLength(t: Tables)
    requires Storable(t)
    ensures |PutStrings(t.strings, [])| <= 10 + MAX_COUNT * (10 + MAX_STRING)
    ensures |PutHashes(t.hashes, [])| <= 10 + MAX_COUNT * 100
    ensures |PutComponents(t.components, [])| <= 10 + MAX_COUNT * 50
    ensures |PutGames(t.games, [])| <= 10 + MAX_COUNT * 110
  {
    hide Widths, PutString, PutHash, PutComponent, PutGame, StorableLists;
    forall s | s in t.strings ensures Takes(PutString, s, 10 + MAX_STRING) { StringTakes(s); }
    forall h | h in t.hashes ensures Takes(PutHash, h, 100) { HashTakes(h); }
    forall c | c in t.components ensures Takes(PutComponent, c, 50) { ComponentTakes(c); }
    forall g | g in t.games ensures Takes(PutGame, g, 110) { GameTakes(g); }
    hide Takes;
    CountedLength(PutString, t.strings, 10 + MAX_STRING, []);
    CountedLength(PutHash, t.hashes, 100, []);
    CountedLength(PutComponent, t.components, 50, []);
    CountedLength(PutGame, t.games, 110, []);
  }

  lemma TableLength<T>(magic: str, put: Put<T>, x: T)
    requires |magic| == 4 && |put(x, [])| < U64_MAX - 5
    ensures |PutTable(magic, put, x)| <= U64_MAX
  {
  }

  /** Every table of the pack has a 64-bit length. */
  ghost predicate ShortTables(t: Tables) {
    && |PutTable(RWS5, PutStrings, t.strings)| <= U64_MAX && |PutTable(RWH5, PutHashes, t.hashes)| <= U64_MAX
    && |PutTable(RWC5, PutComponents, t.components)| <= U64_MAX && |PutTable(RWG5, PutGames, t.games)| <= U64_MAX
    && |PutTable(RWO5, PutLists, t.owners)| <= U64_MAX && |PutTable(RWR5, PutU32s, t.routes)| <= U64_MAX
    && |PutTable(RWX5, PutSets, t.sets)| <= U64_MAX
    && (t.alternates.Some? ==> |PutTable(RWN5, PutLists, t.alternates.value)| <= U64_MAX)
  }

  lemma {:induction false} RowTablesAreShort(t: Tables)
    requires Storable(t)
    ensures |PutTable(RWS5, PutStrings, t.strings)| <= U64_MAX && |PutTable(RWH5, PutHashes, t.hashes)| <= U64_MAX
    ensures |PutTable(RWC5, PutComponents, t.components)| <= U64_MAX && |PutTable(RWG5, PutGames, t.games)| <= U64_MAX
  {
    RowsLength(t);
    hide PutTable, PutStrings, PutHashes, PutComponents, PutGames, Storable;
    TableLength(RWS5, PutStrings, t.strings);
    TableLength(RWH5, PutHashes, t.hashes);
    TableLength(RWC5, PutComponents, t.components);
    TableLength(RWG5, PutGames, t.games);
  }

  lemma {:induction false} ListTableIsShort(magic: str, lists: seq<seq<u32>>)
    requires |magic| == 4 && StorableLists(lists)
    ensures |PutTable(magic, PutLists, lists)| <= U64_MAX
  {
    ListsLength(lists, []);
    hide PutLists;
    TableLength(magic, PutLists, lists);
  }

  lemma {:induction false} SetTableIsShort(s: Sets)
    requires StorableLists(s.provenance) && StorableLists(s.tags)
    ensures |PutTable(RWX5, PutSets, s)| <= U64_MAX
  {
    ListsLength(s.provenance, PutLists(s.tags, []));
    ListsLength(s.tags, []);
    hide PutLists, StorableLists;
    TableLength(RWX5, PutSets, s);
  }

  lemma {:induction false} TablesAreShort(t: Tables)
    requires Storable(t)
    ensures ShortTables(t)
  {
    hide PutTable, StorableLists, Ascii;
    RowTablesAreShort(t);
    ListTableIsShort(RWO5, t.owners);
    NumbersLength(t.routes, []);
    TableLength(RWR5, PutU32s, t.routes);
    SetTableIsShort(t.sets);
    if t.alternates.Some? { ListTableIsShort(RWN5, t.alternates.value); }
  }

  /** All members of a pack within the limits have 64-bit lengths when the manifest's text has one. */
  lemma {:induction false} MembersAreShort(t: Tables, json: Json)
    requires Storable(t) && |json.write(t.manifest)| <= U64_MAX
    ensures forall m :: m in Members(t, json) ==> |m.1| <= U64_MAX
  {
    hide *;
    TablesAreShort(t);
    MemberList(t, json);
    var ms := Members(t, json);
    forall i | 0 <= i < |ms| ensures |ms[i].1| <= U64_MAX { MemberIsShort(t, json, i); }
  }

  lemma {:induction false} MemberIsShort(t: Tables, json: Json, i: nat)
    requires ShortTables(t) && |json.write(t.manifest)| <= U64_MAX && i < |Members(t, json)|
    ensures |Members(t, json)[i].1| <= U64_MAX
  {
    MemberList(t, json);
    hide Members, PutTable, Ascii;
    var ms := Members(t, json);
    if i == 0 { assert ms[i].1 == PutTable(RWS5, PutStrings, t.strings); }
  }
}
