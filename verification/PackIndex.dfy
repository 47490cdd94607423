/** The route index agrees with a scan of every game. */
module PackIndex {
  import opened Bytes
  import opened Hex
  import opened Order
  import opened PackFormat
  import opened PackModel
  import opened PackHashes
  import opened PackOwners
  import opened PackRoutes

  /** What parsing guarantees of a pack: owners partition the components, and the routes are the expected ones. */
  ghost predicate SoundPack(pack: Pack) {
    var all := AllComponents(pack.games);
    && |pack.hashes| == |pack.owners| <= MAX_IDS
    && (forall h :: h in pack.hashes ==> Widths(h.digests))
    && (forall o :: o in pack.owners ==> StrictlyAscending(o) && forall i :: 0 <= i < |o| ==> o[i] < |all|)
    && Once(pack.owners) && Cover(pack.owners, |all|)
    && KeysAgree(pack.owners, pack.hashes, all)
    && pack.routes == ExpectedRoutes(pack.hashes, pack.owners, all)
  }

  ghost predicate KeysAgree(owners: seq<Ids>, hashes: seq<Hash>, all: seq<Component>)
  {
    forall h, i :: 0 <= h < |owners| && 0 <= i < |owners[h]| ==>
      h < |hashes| && owners[h][i] < |all| && all[owners[h][i]].hash == KeyOf(hashes[h])
  }

  predicate Matches(c: Component, crc: bytes, size: u64) { c.hash.size == size && c.hash.crc32 == Some(Lower(crc)) }

  predicate RowMatches(h: Hash, crc: bytes, size: u64) { h.size == size && h.digests.crc32 == Some(crc) }

  lemma {:induction false} RowMatchesKey(h: Hash, crc: bytes, size: u64)
    ensures RowMatches(h, crc, size) <==> KeyOf(h).size == size && KeyOf(h).crc32 == Some(Lower(crc))
  {
    if h.digests.crc32.Some? && Lower(h.digests.crc32.value) == Lower(crc) {
      TextInjective(h.digests.crc32, Some(crc));
    }
  }

  // ---------------------------------------------------------------- which components a query hits

  ghost predicate AllBelow(ids: Ids, n: nat) { forall i :: 0 <= i < |ids| ==> ids[i] < n }

  ghost predicate HitBy(routes: Ids, hashes: seq<Hash>, owners: seq<Ids>, crc: bytes, size: u64, x: u32) {
    exists r :: r in routes && r < |hashes| && r < |owners| && RowMatches(hashes[r], crc, size) && x in owners[r]
  }

  lemma {:induction false} HitsExact(routes: Ids, hashes: seq<Hash>, owners: seq<Ids>, crc: bytes, size: u64)
    requires AllBelow(routes, |hashes|) && AllBelow(routes, |owners|)
    ensures var hits := Hits(routes, hashes, owners, crc, size);
      hits.Some? && forall x: u32 :: x in hits.value <==> HitBy(routes, hashes, owners, crc, size, x)
    decreases |routes|
  {
    if routes != [] {
      var (id, rest) := (routes[0], routes[1..]);
      assert routes == [id] + rest && id in routes;
      HitsExact(rest, hashes, owners, crc, size);
      forall x: u32
        ensures HitBy(routes, hashes, owners, crc, size, x)
           <==> (RowMatches(hashes[id], crc, size) && x in owners[id]) || HitBy(rest, hashes, owners, crc, size, x)
      {
      }
    }
  }

  lemma {:induction false} RowDistinct(owners: seq<Ids>, h: nat)
    requires Once(owners) && h < |owners|
    ensures NoRepeats(owners[h])
  {
    forall i, j | 0 <= i < j < |owners[h]| ensures owners[h][i] != owners[h][j] { }
  }

  lemma {:induction false} RowsDisjoint(owners: seq<Ids>, h: nat, h': nat, x: u32)
    requires Once(owners) && h < |owners| && h' < |owners| && x in owners[h']
    ensures x in owners[h] ==> h == h'
  {
    if x in owners[h] {
      var i :| 0 <= i < |owners[h]| && owners[h][i] == x;
      var j :| 0 <= j < |owners[h']| && owners[h'][j] == x;
    }
  }

  lemma {:induction false} JoinDistinct<T>(a: seq<T>, b: seq<T>)
    requires NoRepeats(a) && NoRepeats(b) && forall x :: x in a ==> x !in b
    ensures NoRepeats(a + b)
  {
    forall i, j | 0 <= i < j < |a + b| ensures (a + b)[i] != (a + b)[j] {
      if i < |a| <= j { assert a[i] in a && b[j - |a|] in b; }
    }
  }

  /** No component is hit twice: no route repeats and no component has two rows. */
  lemma {:induction false} HitsDistinct(routes: Ids, hashes: seq<Hash>, owners: seq<Ids>, crc: bytes, size: u64)
    requires AllBelow(routes, |hashes|) && AllBelow(routes, |owners|)
    requires NoRepeats(routes) && Once(owners)
    ensures Hits(routes, hashes, owners, crc, size).Some? && NoRepeats(Hits(routes, hashes, owners, crc, size).value)
    decreases |routes|
  {
    if routes != [] {
      var (id, rest) := (routes[0], routes[1..]);
      assert routes == [id] + rest && id in routes;
      assert forall i :: 0 <= i < |rest| ==> rest[i] == routes[i + 1];
      HitsDistinct(rest, hashes, owners, crc, size);
      HitsExact(rest, hashes, owners, crc, size);
      var hits := Hits(rest, hashes, owners, crc, size).value;
      RowDistinct(owners, id);
      forall x | x in hits ensures x !in owners[id] {
        var r :| r in rest && r < |owners| && x in owners[r];
        RowsDisjoint(owners, id, r, x);
        assert id != r;
      }
      JoinDistinct(owners[id], hits);
    }
  }

  /** The row of `x` is routed before that of `y`, or they share a row that lists `x` first. */
  ghost predicate Before(hashes: seq<Hash>, owners: seq<Ids>, x: nat, y: nat) {
    exists h: u32, k: u32 :: ListedIn(owners, h, x) && ListedIn(owners, k, y)
      && (if h == k then x < y else KeyLess(RouteOrder(hashes)(h), RouteOrder(hashes)(k)))
  }

  ghost predicate ListedIn(owners: seq<Ids>, h: nat, x: nat) { h < |owners| && x in owners[h] }

  ghost predicate HitsOrdered(hashes: seq<Hash>, owners: seq<Ids>, hits: Ids) {
    forall i, j :: 0 <= i < j < |hits| ==> Before(hashes, owners, hits[i], hits[j])
  }

  lemma {:induction false} HitsInOrder(routes: Ids, hashes: seq<Hash>, owners: seq<Ids>, crc: bytes, size: u64)
    requires AllBelow(routes, |hashes|) && AllBelow(routes, |owners|) && Ascending(RouteOrder(hashes), routes)
    requires forall o :: o in owners ==> StrictlyAscending(o)
    ensures Hits(routes, hashes, owners, crc, size).Some?
         && HitsOrdered(hashes, owners, Hits(routes, hashes, owners, crc, size).value)
    decreases |routes|
  {
    if routes != [] {
      var (id, rest) := (routes[0], routes[1..]);
      assert id in routes;
      assert forall i :: 0 <= i < |rest| ==> rest[i] == routes[i + 1] && rest[i] in routes;
      HitsInOrder(rest, hashes, owners, crc, size);
      HitsExact(rest, hashes, owners, crc, size);
      var more := Hits(rest, hashes, owners, crc, size).value;
      forall y | y in more ensures LaterRow(rest, owners, y) { }
      RowThenHits(id, rest, hashes, owners, more);
    }
  }

  ghost predicate LaterRow(rest: Ids, owners: seq<Ids>, y: u32) { exists r :: r in rest && r < |owners| && y in owners[r] }

  lemma {:induction false} RowThenHits(id: u32, rest: Ids, hashes: seq<Hash>, owners: seq<Ids>, more: Ids)
    requires id < |hashes| && id < |owners| && StrictlyAscending(owners[id]) && HitsOrdered(hashes, owners, more)
    requires AllBelow(rest, |hashes|) && Ascending(RouteOrder(hashes), [id] + rest)
    requires forall y :: y in more ==> LaterRow(rest, owners, y)
    ensures HitsOrdered(hashes, owners, owners[id] + more)
  {
    hide KeyLess, RouteOrder;
    var (row, all) := (owners[id], owners[id] + more);
    forall i, j | 0 <= i < j < |all| ensures Before(hashes, owners, all[i], all[j]) {
      if j < |row| {
        assert ListedIn(owners, id, row[i]) && ListedIn(owners, id, row[j]);
      } else if i < |row| {
        var y := more[j - |row|];
        assert y in more;
        var r :| r in rest && r < |owners| && y in owners[r];
        var k :| 0 <= k < |rest| && rest[k] == r;
        assert ([id] + rest)[k + 1] == r && ([id] + rest)[0] == id;
        assert KeyLess(RouteOrder(hashes)(id), RouteOrder(hashes)(r));
        assert ListedIn(owners, id, row[i]) && ListedIn(owners, r, y);
        KeyLessTotal();
      } else {
        assert Before(hashes, owners, more[i - |row|], more[j - |row|]);
      }
    }
  }

  // ---------------------------------------------------------------- from components to games

  lemma {:induction false} LocateAllItems(games: seq<Game>, hits: Ids)
    requires AllBelow(hits, |AllComponents(games)|)
    ensures |LocateAll(games, hits)| == |hits|
    ensures forall i :: 0 <= i < |hits| ==> Locate(games, hits[i], 0) == Some(LocateAll(games, hits)[i])
    decreases |hits|
  {
    if hits != [] {
      assert hits[0] in hits;
      LocateFinds(games, hits[0], 0);
      LocateAllItems(games, hits[1..]);
    }
  }

  lemma {:induction false} PlaceNumber(games: seq<Game>, c: nat, g: nat, l: nat)
    requires c < |AllComponents(games)|
    ensures Locate(games, c, 0) == Some((g, l)) <==> IsAt(games, g, l) && Offset(games, g) + l == c
  {
    LocateFinds(games, c, 0);
    if IsAt(games, g, l) && Offset(games, g) + l == c { LocateOffset(games, g, l, 0); }
  }

  /** The row that lists a component tells games apart. */
  ghost predicate Routed(pack: Pack, c: nat) {
    exists h, i :: 0 <= h < |pack.owners| && 0 <= i < |pack.owners[h]| && pack.owners[h][i] == c
      && Discriminates(pack.owners, AllComponents(pack.games), h)
  }

  /** A discriminating component routes its own row. */
  lemma {:induction false} DiscriminatingRouted(pack: Pack, c: nat)
    requires SoundPack(pack) && c < |AllComponents(pack.games)| && AllComponents(pack.games)[c].discriminating
    ensures Routed(pack, c)
  {
    var owners := pack.owners;
    assert Owned(owners, c);
    var h, i :| 0 <= h < |owners| && 0 <= i < |owners[h]| && owners[h][i] == c;
    assert Discriminates(owners, AllComponents(pack.games), h);
  }

  lemma {:induction false} RoutesAreEligible(pack: Pack)
    requires SoundPack(pack)
    ensures forall r: u32 :: r in pack.routes <==> Eligible(pack.hashes, pack.owners, AllComponents(pack.games), r)
    ensures NoRepeats(pack.routes) && AllBelow(pack.routes, |pack.hashes|) && Ascending(RouteOrder(pack.hashes), pack.routes)
  {
    var all, routes := AllComponents(pack.games), pack.routes;
    ExpectedExact(pack.hashes, pack.owners, all);
    hide ExpectedRoutes, Once, Cover, KeysAgree, AllComponents;
    forall i | 0 <= i < |routes| ensures routes[i] < |pack.hashes| { assert routes[i] in routes; }
  }

  lemma {:induction false} ListedMatches(pack: Pack, crc: bytes, size: u64, h: nat, i: nat)
    requires SoundPack(pack) && h < |pack.owners| && i < |pack.owners[h]|
    ensures h < |pack.hashes| && pack.owners[h][i] < |AllComponents(pack.games)|
    ensures RowMatches(pack.hashes[h], crc, size)
       <==> Matches(AllComponents(pack.games)[pack.owners[h][i]], crc, size)
  {
    RowMatchesKey(pack.hashes[h], crc, size);
    hide ExpectedRoutes, Once, Cover, AllComponents, RowMatches;
    assert AllComponents(pack.games)[pack.owners[h][i]].hash == KeyOf(pack.hashes[h]);
  }

  lemma {:induction false} HitIffRouted(pack: Pack, crc: bytes, size: u64, x: u32)
    requires SoundPack(pack) && x < |AllComponents(pack.games)|
    ensures HitBy(pack.routes, pack.hashes, pack.owners, crc, size, x)
       <==> Matches(AllComponents(pack.games)[x], crc, size) && size > 0 && Routed(pack, x)
  {
    RoutesAreEligible(pack);
    hide SoundPack, HitBy, Matches, Routed, Eligible, AllComponents;
    HitMeansRouted(pack, crc, size, x);
    RoutedMeansHit(pack, crc, size, x);
  }

  lemma {:induction false} HitMeansRouted(pack: Pack, crc: bytes, size: u64, x: u32)
    requires SoundPack(pack) && x < |AllComponents(pack.games)|
    ensures HitBy(pack.routes, pack.hashes, pack.owners, crc, size, x)
        ==> Matches(AllComponents(pack.games)[x], crc, size) && size > 0 && Routed(pack, x)
  {
    RoutesAreEligible(pack);
    hide SoundPack, AllComponents, Matches, Discriminates;
    if HitBy(pack.routes, pack.hashes, pack.owners, crc, size, x) {
      var r :| r in pack.routes && r < |pack.hashes| && r < |pack.owners| && RowMatches(pack.hashes[r], crc, size)
               && x in pack.owners[r];
      var i :| 0 <= i < |pack.owners[r]| && pack.owners[r][i] == x;
      ListedMatches(pack, crc, size, r, i);
    }
  }

  lemma {:induction false} RoutedMeansHit(pack: Pack, crc: bytes, size: u64, x: u32)
    requires SoundPack(pack) && x < |AllComponents(pack.games)|
    requires forall r: u32 :: r in pack.routes <==> Eligible(pack.hashes, pack.owners, AllComponents(pack.games), r)
    ensures Matches(AllComponents(pack.games)[x], crc, size) && size > 0 && Routed(pack, x)
        ==> HitBy(pack.routes, pack.hashes, pack.owners, crc, size, x)
  {
    var owners, all := pack.owners, AllComponents(pack.games);
    assert |owners| == |pack.hashes| <= MAX_IDS;
    hide SoundPack, AllComponents, Matches, Discriminates;
    if Matches(all[x], crc, size) && size > 0 && Routed(pack, x) {
      var h, i :| 0 <= h < |owners| && 0 <= i < |owners[h]| && owners[h][i] == x && Discriminates(owners, all, h);
      ListedMatches(pack, crc, size, h, i);
      var r: u32 := h;
      assert Eligible(pack.hashes, owners, all, r);
      assert r in pack.routes && x in owners[r];
    }
  }

  ghost predicate ExactPlace(pack: Pack, crc: bytes, size: u64, p: (nat, nat)) {
    && IsAt(pack.games, p.0, p.1) && Matches(pack.games[p.0].components[p.1], crc, size) && size > 0
    && Routed(pack, Offset(pack.games, p.0) + p.1)
  }

  ghost predicate InOrder(pack: Pack, places: seq<(nat, nat)>) {
    forall i, j :: 0 <= i < j < |places| ==> PlacedBefore(pack, places[i], places[j])
  }

  ghost predicate PlacedBefore(pack: Pack, p: (nat, nat), q: (nat, nat)) {
    && IsAt(pack.games, p.0, p.1) && IsAt(pack.games, q.0, q.1)
    && Before(pack.hashes, pack.owners, Offset(pack.games, p.0) + p.1, Offset(pack.games, q.0) + q.1)
  }

  /** The matching components whose row is routed, each once, by the order of their rows and then their own. */
  ghost predicate ExactAnswer(pack: Pack, crc: bytes, size: u64, places: seq<(nat, nat)>) {
    NoRepeats(places) && InOrder(pack, places) && forall p :: p in places <==> ExactPlace(pack, crc, size, p)
  }

  /** What a query finds, before its indexes are cut to width, are the places a scan of the games finds. */
  lemma {:induction false} IndexAgreesWithScan(pack: Pack, crc: bytes, size: u64)
    requires SoundPack(pack)
    ensures Places(pack, crc, size).Some? && ExactAnswer(pack, crc, size, Places(pack, crc, size).value)
  {
    RoutesAreEligible(pack);
    HitsExact(pack.routes, pack.hashes, pack.owners, crc, size);
    HitsDistinct(pack.routes, pack.hashes, pack.owners, crc, size);
    HitsInOrder(pack.routes, pack.hashes, pack.owners, crc, size);
    hide SoundPack, Eligible, Hits, LocateAll, AllComponents, HitBy, ExactPlace, NoRepeats, HitsOrdered, InOrder, Ascending;
    var hits := Hits(pack.routes, pack.hashes, pack.owners, crc, size).value;
    HitsInRange(pack, crc, size, hits);
    PlacesDistinct(pack.games, hits);
    PlacesInOrder(pack, hits);
    var places := LocateAll(pack.games, hits);
    forall p ensures p in places <==> ExactPlace(pack, crc, size, p) { PlaceIffExact(pack, crc, size, hits, p); }
  }

  lemma {:induction false} PlacesInOrder(pack: Pack, hits: Ids)
    requires AllBelow(hits, |AllComponents(pack.games)|) && HitsOrdered(pack.hashes, pack.owners, hits)
    ensures InOrder(pack, LocateAll(pack.games, hits))
  {
    LocateAllItems(pack.games, hits);
    var places := LocateAll(pack.games, hits);
    hide LocateAll, Locate, AllComponents, Before, PlacedBefore;
    forall i, j | 0 <= i < j < |places| ensures PlacedBefore(pack, places[i], places[j]) {
      assert hits[i] in hits && hits[j] in hits;
      PairInOrder(pack, hits[i], hits[j], places[i], places[j]);
    }
  }

  lemma {:induction false} PairInOrder(pack: Pack, x: nat, y: nat, p: (nat, nat), q: (nat, nat))
    requires x < |AllComponents(pack.games)| && y < |AllComponents(pack.games)|
    requires Locate(pack.games, x, 0) == Some(p) && Locate(pack.games, y, 0) == Some(q)
    requires Before(pack.hashes, pack.owners, x, y)
    ensures PlacedBefore(pack, p, q)
  {
    hide Locate, AllComponents, Before, Offset, IsAt;
    PlaceNumber(pack.games, x, p.0, p.1);
    PlaceNumber(pack.games, y, q.0, q.1);
  }

  /** The hits of a query. */
  ghost predicate HitsAre(pack: Pack, crc: bytes, size: u64, hits: Ids) {
    forall x: u32 :: x in hits <==> HitBy(pack.routes, pack.hashes, pack.owners, crc, size, x)
  }

  lemma {:induction false} HitsInRange(pack: Pack, crc: bytes, size: u64, hits: Ids)
    requires SoundPack(pack) && HitsAre(pack, crc, size, hits)
    ensures AllBelow(hits, |AllComponents(pack.games)|)
  {
    hide ExpectedRoutes, AllComponents, KeysAgree, Once, Cover, RowMatches;
    forall k | 0 <= k < |hits| ensures hits[k] < |AllComponents(pack.games)| {
      var x := hits[k];
      assert x in hits;
      var r :| r in pack.routes && r < |pack.owners| && x in pack.owners[r];
      assert pack.owners[r] in pack.owners;
    }
  }

  lemma {:induction false} PlacesDistinct(games: seq<Game>, hits: Ids)
    requires AllBelow(hits, |AllComponents(games)|)
    requires NoRepeats(hits)
    ensures NoRepeats(LocateAll(games, hits))
  {
    LocateAllItems(games, hits);
    var places := LocateAll(games, hits);
    hide LocateAll, Locate, AllComponents;
    forall i, j | 0 <= i < j < |places| ensures places[i] != places[j] {
      assert hits[i] in hits && hits[j] in hits;
      PlaceNumber(games, hits[i], places[i].0, places[i].1);
      PlaceNumber(games, hits[j], places[j].0, places[j].1);
    }
  }

  lemma {:induction false} PlaceIffExact(pack: Pack, crc: bytes, size: u64, hits: Ids, p: (nat, nat))
    requires SoundPack(pack) && HitsAre(pack, crc, size, hits)
    requires AllBelow(hits, |AllComponents(pack.games)|)
    ensures p in LocateAll(pack.games, hits) <==> ExactPlace(pack, crc, size, p)
  {
    hide *;
    PlaceIsExact(pack, crc, size, hits, p);
    ExactIsPlace(pack, crc, size, hits, p);
  }

  lemma {:induction false} PlaceIsExact(pack: Pack, crc: bytes, size: u64, hits: Ids, p: (nat, nat))
    requires SoundPack(pack) && HitsAre(pack, crc, size, hits)
    requires AllBelow(hits, |AllComponents(pack.games)|)
    ensures p in LocateAll(pack.games, hits) ==> ExactPlace(pack, crc, size, p)
  {
    hide SoundPack, LocateAll, Locate, AllComponents, Matches, Routed, HitBy;
    LocateAllItems(pack.games, hits);
    var places := LocateAll(pack.games, hits);
    if p !in places {
      return;
    }
    var i :| 0 <= i < |places| && places[i] == p;
    assert hits[i] in hits;
    PlaceNumber(pack.games, hits[i], p.0, p.1);
    LocateOffset(pack.games, p.0, p.1, 0);
    HitIffRouted(pack, crc, size, hits[i]);
  }

  lemma {:induction false} ExactIsPlace(pack: Pack, crc: bytes, size: u64, hits: Ids, p: (nat, nat))
    requires SoundPack(pack) && HitsAre(pack, crc, size, hits)
    requires AllBelow(hits, |AllComponents(pack.games)|)
    ensures ExactPlace(pack, crc, size, p) ==> p in LocateAll(pack.games, hits)
  {
    hide SoundPack, LocateAll, Locate, AllComponents, Matches, Routed, HitBy;
    if !ExactPlace(pack, crc, size, p) {
      return;
    }
    LocateAllItems(pack.games, hits);
    var places := LocateAll(pack.games, hits);
    var c := Offset(pack.games, p.0) + p.1;
    LocateOffset(pack.games, p.0, p.1, 0);
    ComponentIdFits(pack, c);
    HitIffRouted(pack, crc, size, c);
    var i :| 0 <= i < |hits| && hits[i] == c;
    assert Locate(pack.games, c, 0) == Some(places[i]);
    assert places[i] == p;
  }

  /** Every component is listed under a 32-bit id. */
  lemma {:induction false} ComponentIdFits(pack: Pack, c: nat)
    requires SoundPack(pack) && c < |AllComponents(pack.games)|
    ensures c < MAX_IDS
  {
    assert Owned(pack.owners, c);
  }

  // ---------------------------------------------------------------- what a query returns

  lemma {:induction false} TextOfBytes(crc: bytes)
    ensures ToBytes(AsciiLower(Lower(crc))) == Some(crc)
  {
    PairsOfLower(crc);
    var s := Lower(crc);
    forall i | 0 <= i < |s| ensures AsciiLower(s)[i] == s[i] { assert s[i] in s; }
    assert AsciiLower(s) == s;
  }

  /** A returned pair as game and component numbers. */
  function Numbers(p: (u32, u16)): (nat, nat) { (p.0, p.1) }

  function AllNumbers(out: seq<(u32, u16)>): (r: seq<(nat, nat)>)
    ensures |r| == |out| && forall i :: 0 <= i < |out| ==> r[i] == Numbers(out[i])
  {
    seq(|out|, i requires 0 <= i < |out| => Numbers(out[i]))
  }

  /** The query returns the matching components of routed rows, in order and each once; no crc32, no answer. */
  ghost predicate AnswersExactly(pack: Pack, text: str, size: u64) {
    match ToBytes(AsciiLower(text))
    case Some(crc) =>
      if |crc| != 4 then Route(pack, text, size) == None
      else Route(pack, text, size).Some? && ExactAnswer(pack, crc, size, AllNumbers(Route(pack, text, size).value))
    case None => Route(pack, text, size) == None
  }

  /** A component that some query leads to: its row has a size, a crc32 and an owner that tells games apart. */
  ghost predicate Reachable(pack: Pack, g: nat, l: nat) {
    && IsAt(pack.games, g, l) && Routed(pack, Offset(pack.games, g) + l)
    && pack.games[g].components[l].hash.size > 0 && pack.games[g].components[l].hash.crc32.Some?
  }

  /** Every such component is among the first 65536 of its game. */
  ghost predicate Narrow(pack: Pack) { forall g: nat, l: nat :: Reachable(pack, g, l) ==> l < 0x1_0000 }

  /** One query is answered exactly when the components it asks for have 16-bit numbers. */
  lemma {:induction false} QueryExactIff(pack: Pack, text: str, crc: bytes, size: u64)
    requires SoundPack(pack) && |pack.games| <= 0x1_0000_0000
    requires ToBytes(AsciiLower(text)) == Some(crc) && |crc| == 4
    ensures AnswersExactly(pack, text, size) <==> forall p: (nat, nat) :: ExactPlace(pack, crc, size, p) ==> p.1 < 0x1_0000
  {
    hide SoundPack, ExactPlace, NoRepeats, InOrder, Places, ToBytes, AsciiLower;
    IndexAgreesWithScan(pack, crc, size);
    var places := Places(pack, crc, size).value;
    var out := AllNumbers(TruncatedAll(places));
    if AnswersExactly(pack, text, size) {
      forall p: (nat, nat) | ExactPlace(pack, crc, size, p) ensures p.1 < 0x1_0000 {
        assert p in out;
        var i :| 0 <= i < |out| && out[i] == p;
      }
    } else if forall p: (nat, nat) :: ExactPlace(pack, crc, size, p) ==> p.1 < 0x1_0000 {
      forall i | 0 <= i < |places| ensures out[i] == places[i] {
        assert places[i] in places;
        PlaceInPack(pack, crc, size, places[i]);
      }
      assert out == places;
    }
  }

  lemma PlaceInPack(pack: Pack, crc: bytes, size: u64, p: (nat, nat))
    requires ExactPlace(pack, crc, size, p)
    ensures p.0 < |pack.games|
  {
  }

  lemma {:induction false} RoutedKey(pack: Pack, c: nat)
    requires SoundPack(pack) && Routed(pack, c) && c < |AllComponents(pack.games)|
    ensures exists h :: h in pack.hashes && AllComponents(pack.games)[c].hash == KeyOf(h) && Widths(h.digests)
  {
    var all := AllComponents(pack.games);
    hide AllComponents, Once, Cover, ExpectedRoutes, KeyOf, Widths;
    var h, i :| 0 <= h < |pack.owners| && 0 <= i < |pack.owners[h]| && pack.owners[h][i] == c
      && Discriminates(pack.owners, all, h);
    assert all[pack.owners[h][i]].hash == KeyOf(pack.hashes[h]);
    assert pack.hashes[h] in pack.hashes;
  }

  /** A reachable component can be asked for. */
  lemma {:induction false} AskedFor(pack: Pack, g: nat, l: nat)
    requires SoundPack(pack) && Reachable(pack, g, l)
    ensures exists crc: bytes :: |crc| == 4 && ExactPlace(pack, crc, pack.games[g].components[l].hash.size, (g, l))
  {
    hide SoundPack, AllComponents, Offset, Lower, Routed;
    LocateOffset(pack.games, g, l, 0);
    RoutedKey(pack, Offset(pack.games, g) + l);
    var h :| h in pack.hashes && pack.games[g].components[l].hash == KeyOf(h) && Widths(h.digests);
    var crc := h.digests.crc32.value;
    assert |crc| == 4 && ExactPlace(pack, crc, h.size, (g, l));
  }

  /** Every query on a sound pack is answered exactly if and only if the pack is narrow. */
  lemma {:induction false} RouteExactIff(pack: Pack)
    requires SoundPack(pack) && |pack.games| <= 0x1_0000_0000
    ensures (forall text, size :: AnswersExactly(pack, text, size)) <==> Narrow(pack)
  {
    hide SoundPack, AnswersExactly, Lower, AsciiLower, ToBytes;
    if Narrow(pack) {
      forall text, size ensures AnswersExactly(pack, text, size) { NarrowAnswers(pack, text, size); }
    }
    if forall text, size :: AnswersExactly(pack, text, size) {
      forall g: nat, l: nat | Reachable(pack, g, l) ensures l < 0x1_0000 {
        AskedFor(pack, g, l);
        var crc: bytes :| |crc| == 4 && ExactPlace(pack, crc, pack.games[g].components[l].hash.size, (g, l));
        TextOfBytes(crc);
        QueryExactIff(pack, Lower(crc), crc, pack.games[g].components[l].hash.size);
        assert ExactPlace(pack, crc, pack.games[g].components[l].hash.size, (g, l));
      }
    }
  }

  lemma {:induction false} NarrowAnswers(pack: Pack, text: str, size: u64)
    requires SoundPack(pack) && |pack.games| <= 0x1_0000_0000 && Narrow(pack)
    ensures AnswersExactly(pack, text, size)
  {
    hide SoundPack, AsciiLower, ToBytes, Routed, Offset;
    var raw := ToBytes(AsciiLower(text));
    if raw.Some? && |raw.value| == 4 {
      QueryExactIff(pack, text, raw.value, size);
      forall p: (nat, nat) | ExactPlace(pack, raw.value, size, p) ensures p.1 < 0x1_0000 {
        assert Reachable(pack, p.0, p.1);
      }
    }
  }

  /** A query returns every matching discriminating component with a size, its two numbers cut to their widths. */
  lemma {:induction false} DiscriminatingAnswered(pack: Pack, text: str, crc: bytes, size: u64, g: nat, l: nat)
    requires SoundPack(pack) && |crc| == 4 && AsciiLower(text) == Lower(crc)
    requires IsAt(pack.games, g, l) && pack.games[g].components[l].discriminating
    requires Matches(pack.games[g].components[l], crc, size) && size > 0
    ensures Route(pack, text, size).Some? && (g % 0x1_0000_0000, l % 0x1_0000) in Route(pack, text, size).value
  {
    hide *;
    DiscriminatingPlaced(pack, crc, size, g, l);
    PlaceReturned(pack, text, crc, size, (g, l));
  }

  /** A place of the answer comes back as its truncated pair. */
  lemma {:induction false} PlaceReturned(pack: Pack, text: str, crc: bytes, size: u64, p: (nat, nat))
    requires |crc| == 4 && AsciiLower(text) == Lower(crc)
    requires Places(pack, crc, size).Some? && p in Places(pack, crc, size).value
    ensures Route(pack, text, size).Some? && (p.0 % 0x1_0000_0000, p.1 % 0x1_0000) in Route(pack, text, size).value
  {
    QueryReads(text, crc);
    hide Lower, AsciiLower, Places, ToBytes;
    var places := Places(pack, crc, size).value;
    var i :| 0 <= i < |places| && places[i] == p;
    assert TruncatedAll(places)[i] == Truncated(p);
  }

  lemma {:induction false} QueryReads(text: str, crc: bytes)
    requires AsciiLower(text) == Lower(crc)
    ensures ToBytes(AsciiLower(text)) == Some(crc)
  {
    PairsOfLower(crc);
  }

  lemma {:induction false} DiscriminatingPlaced(pack: Pack, crc: bytes, size: u64, g: nat, l: nat)
    requires SoundPack(pack) && IsAt(pack.games, g, l) && pack.games[g].components[l].discriminating
    requires Matches(pack.games[g].components[l], crc, size) && size > 0
    ensures Places(pack, crc, size).Some? && (g, l) in Places(pack, crc, size).value
  {
    IndexAgreesWithScan(pack, crc, size);
    hide SoundPack, Places, AllComponents, Matches, Routed;
    LocateOffset(pack.games, g, l, 0);
    DiscriminatingRouted(pack, Offset(pack.games, g) + l);
    assert ExactPlace(pack, crc, size, (g, l));
  }
}
