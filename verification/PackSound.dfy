/** Every pack the parser accepts is sound: its owners partition the components and its index is exact. */
module PackSound {
  import opened Bytes
  import opened Varint
  import opened Hex
  import opened PackFormat
  import opened PackModel
  import opened PackHashes
  import opened PackOwners
  import opened PackRoutes
  import opened PackIndex
  import opened PackTables
  import opened PackParse

  /** The same component but for its position. */
  predicate Alike(a: Component, b: Component) { a.(ordinal := b.ordinal) == b }

  ghost predicate AllAlike(a: seq<Component>, b: seq<Component>) {
    |a| == |b| && forall i :: 0 <= i < |a| ==> Alike(a[i], b[i])
  }

  lemma {:induction false} NumberedAlike(cs: seq<Component>, from: nat)
    ensures AllAlike(Numbered(cs, from), cs)
    decreases |cs|
  {
    if cs != [] { NumberedAlike(cs[1..], from + 1); }
  }

  lemma {:induction false} GameComponents(row: GameRow, components: seq<Component>, ctx: Context, alternates: seq<str>)
    requires ResolveGame(row, components, ctx, alternates).Some?
    ensures ResolveGame(row, components, ctx, alternates).value.components == Numbered(components, 0)
  {
    hide LookupAll, LookupOptional, UpstreamOf, Numbered;
  }

  lemma {:induction false} JoinAlike(a: seq<Component>, b: seq<Component>, n: nat, tail: seq<Component>)
    requires n <= |b| && AllAlike(a, b[..n]) && AllAlike(tail, b[n..])
    ensures AllAlike(a + tail, b)
  {
    hide Alike;
    forall i | 0 <= i < |b| ensures Alike((a + tail)[i], b[i]) {
      if i >= n { assert Alike(tail[i - n], b[n..][i - n]); }
    }
  }

  /** The games hold the component table, cut into consecutive runs. */
  lemma {:induction false} GamesHoldComponents(rows: seq<GameRow>, all: seq<Component>, ctx: Context, alternates: seq<seq<str>>)
    requires |alternates| == |rows| && ResolveGames(rows, all, ctx, alternates).Some?
    ensures AllAlike(AllComponents(ResolveGames(rows, all, ctx, alternates).value), all)
    decreases |rows|
  {
    hide ResolveGame, Alike;
    if rows != [] {
      var n := rows[0].components;
      GameComponents(rows[0], all[..n], ctx, alternates[0]);
      NumberedAlike(all[..n], 0);
      GamesHoldComponents(rows[1..], all[n..], ctx, alternates[1..]);
      var rest := ResolveGames(rows[1..], all[n..], ctx, alternates[1..]).value;
      var gs := ResolveGames(rows, all, ctx, alternates).value;
      assert gs[1..] == rest;
      JoinAlike(gs[0].components, all, n, AllComponents(rest));
    }
  }

  /** The routes depend only on which components discriminate. */
  lemma {:induction false} EligibleAlike(hashes: seq<Hash>, owners: seq<Ids>, a: seq<Component>, b: seq<Component>, from: nat)
    requires from <= |hashes| <= MAX_IDS && AllAlike(a, b)
    ensures EligibleFrom(hashes, owners, a, from) == EligibleFrom(hashes, owners, b, from)
    decreases |hashes| - from
  {
    hide AllAlike, Discriminates;
    if from < |hashes| {
      DiscriminatesAlike(owners, a, b, from);
      EligibleAlike(hashes, owners, a, b, from + 1);
    }
  }

  lemma {:induction false} DiscriminatesAlike(owners: seq<Ids>, a: seq<Component>, b: seq<Component>, h: nat)
    requires AllAlike(a, b)
    ensures Discriminates(owners, a, h) == Discriminates(owners, b, h)
  {
    forall i | 0 <= i < |a| ensures a[i].discriminating == b[i].discriminating { assert Alike(a[i], b[i]); }
  }

  lemma {:induction false} KeysStillAgree(t: Tables, hashes: seq<Hash>, owners: seq<Ids>, components: seq<Component>, all: seq<Component>)
    requires InRange(owners, HashIds(t.components), hashes) && ValidOwners(owners, HashIds(t.components), hashes)
    requires ResolveComponents(t.components, hashes, t.strings) == Some(components) && AllAlike(all, components)
    ensures KeysAgree(owners, hashes, all)
  {
    ResolvedComponents(t.components, hashes, t.strings);
    hide ResolveComponents, KeyOf, Once, Cover;
    forall h, i | 0 <= h < |owners| && 0 <= i < |owners[h]|
      ensures h < |hashes| && owners[h][i] < |all| && all[owners[h][i]].hash == KeyOf(hashes[h])
    {
      assert owners[h] in owners;
      assert RowsAgree(owners, HashIds(t.components), hashes, h, i);
      assert Alike(all[owners[h][i]], components[owners[h][i]]);
    }
  }

  /** What a pack was resolved from. */
  ghost predicate ResolvedFrom(pack: Pack, t: Tables, components: seq<Component>, alternates: seq<seq<str>>) {
    && Indexed(t, Index(pack.hashes, components, pack.owners)) && pack.routes == t.routes
    && |alternates| == |t.games|
    && ResolveGames(t.games, components, Context(t.strings, t.manifest, t.sets), alternates) == Some(pack.games)
  }

  lemma {:induction false} ResolveParts(t: Tables)
    requires Storable(t)
    ensures Resolve(t).Some? ==>
      exists components, alternates :: ResolvedFrom(Resolve(t).value, t, components, alternates)
  {
    hide Storable, Indexed, ResolveIndex, ResolveGames, ResolveAlternates, InTable;
    if Resolve(t).Some? {
      var pack := Resolve(t).value;
      var index := ResolveIndex(t).value;
      var alternates := ResolveAlternates(t.alternates, |t.games|, t.strings).value;
      assert ResolvedFrom(pack, t, index.components, alternates);
    }
  }

  lemma {:induction false} SourceIsSound(pack: Pack, t: Tables, components: seq<Component>, alternates: seq<seq<str>>)
    requires Storable(t)
    ensures ResolvedFrom(pack, t, components, alternates) ==> SoundPack(pack)
  {
    if !ResolvedFrom(pack, t, components, alternates) {
      return;
    }
    hide ResolveHashes, ResolveComponents, ResolveOwners, ResolveGames, InTable, ExpectedRoutes, HashIds, KeysAgree, Once,
         Cover, Agree, AllComponents, EligibleFrom, Alike, Widths, StrictlyAscending, InRange;
    ResolvedHashCount(t);
    hide Storable;
    ResolvedOwnersAscend(t.owners, |components|);
    GamesHoldComponents(t.games, components, Context(t.strings, t.manifest, t.sets), alternates);
    var all := AllComponents(pack.games);
    KeysStillAgree(t, pack.hashes, pack.owners, components, all);
    RoutesAlike(pack.hashes, pack.owners, all, components);
    assert ValidOwners(pack.owners, HashIds(t.components), pack.hashes);
    hide AllAlike, ResolvedFrom;
    assert |HashIds(t.components)| == |components| by { ResolvedComponents(t.components, pack.hashes, t.strings); }
  }

  lemma {:induction false} ResolvedIsSound(t: Tables)
    requires Storable(t)
    ensures Resolve(t).Some? ==> SoundPack(Resolve(t).value)
  {
    hide Resolve, ResolvedFrom, SoundPack, Storable;
    ResolveParts(t);
    if Resolve(t).Some? {
      var components, alternates :| ResolvedFrom(Resolve(t).value, t, components, alternates);
      SourceIsSound(Resolve(t).value, t, components, alternates);
    }
  }

  lemma {:induction false} RoutesAlike(hashes: seq<Hash>, owners: seq<Ids>, a: seq<Component>, b: seq<Component>)
    requires |hashes| <= MAX_IDS && AllAlike(a, b)
    ensures ExpectedRoutes(hashes, owners, a) == ExpectedRoutes(hashes, owners, b)
  {
    EligibleAlike(hashes, owners, a, b, 0);
  }

  /** The index of any accepted pack agrees with its games. */
  lemma {:induction false} AcceptedIsSound(b: bytes, json: Json)
    ensures Parse(b, json).Some? ==> SoundPack(Parse(b, json).value)
  {
    hide Resolve, SoundPack, ReadTables;
    ReadIsStorable(b, json);
    if ReadTables(b, json).Some? { ResolvedIsSound(ReadTables(b, json).value); }
  }

  lemma {:induction false} ResolvedGames(rows: seq<GameRow>, all: seq<Component>, ctx: Context, alternates: seq<seq<str>>)
    requires |alternates| == |rows| && ResolveGames(rows, all, ctx, alternates).Some?
    ensures |ResolveGames(rows, all, ctx, alternates).value| == |rows|
    decreases |rows|
  {
    hide ResolveGame;
    if rows != [] { ResolvedGames(rows[1..], all[rows[0].components..], ctx, alternates[1..]); }
  }

  lemma {:induction false} AcceptedGameCount(b: bytes, json: Json)
    ensures Parse(b, json).Some? ==> |Parse(b, json).value.games| <= MAX_COUNT
  {
    hide ReadTables, ResolveIndex, ResolveGames, ResolveAlternates, InTable;
    ReadIsStorable(b, json);
    if Parse(b, json).Some? {
      var t := ReadTables(b, json).value;
      var index := ResolveIndex(t).value;
      var alternates := ResolveAlternates(t.alternates, |t.games|, t.strings).value;
      ResolvedGames(t.games, index.components, Context(t.strings, t.manifest, t.sets), alternates);
    }
  }

  /** Every query on an accepted pack is answered exactly if and only if the pack is narrow. */
  lemma {:induction false} AcceptedAnswersIff(b: bytes, json: Json)
    ensures Parse(b, json).Some? ==>
      ((forall text, size :: AnswersExactly(Parse(b, json).value, text, size)) <==> Narrow(Parse(b, json).value))
  {
    hide Parse, SoundPack, AnswersExactly, Narrow;
    AcceptedIsSound(b, json);
    AcceptedGameCount(b, json);
    if Parse(b, json).Some? { RouteExactIff(Parse(b, json).value); }
  }

  /** So it is where no game has more than 65536 components. */
  lemma {:induction false} SmallGamesAnswered(b: bytes, json: Json, text: str, size: u64)
    ensures Parse(b, json).Some? && SmallGames(Parse(b, json).value) ==> AnswersExactly(Parse(b, json).value, text, size)
  {
    hide Parse, AnswersExactly;
    AcceptedAnswersIff(b, json);
    if Parse(b, json).Some? && SmallGames(Parse(b, json).value) { SmallGamesNarrow(Parse(b, json).value); }
  }

  predicate SmallGames(pack: Pack) { forall g :: g in pack.games ==> |g.components| <= 0x1_0000 }

  lemma {:induction false} SmallGamesNarrow(pack: Pack)
    requires SmallGames(pack)
    ensures Narrow(pack)
  {
    hide Routed, Offset;
    forall g: nat, l: nat | Reachable(pack, g, l) ensures l < 0x1_0000 { assert pack.games[g] in pack.games; }
  }
}
