/** The route table: the rows a size and crc32 query may reach, and the query itself. */
module PackRoutes {
  import opened Bytes
  import opened Hex
  import opened Order
  import opened PackFormat
  import opened PackModel
  import opened PackHashes
  import opened PackOwners

  // ---------------------------------------------------------------- the table the parser expects

  predicate Discriminates(owners: seq<Ids>, components: seq<Component>, h: nat) {
    h < |owners|
    && exists i :: 0 <= i < |owners[h]| && owners[h][i] < |components| && components[owners[h][i]].discriminating
  }

  /** A row is routed when it has a size, a crc32, and an owner that tells games apart. */
  predicate Eligible(hashes: seq<Hash>, owners: seq<Ids>, components: seq<Component>, h: nat) {
    h < |hashes| && hashes[h].size > 0 && hashes[h].digests.crc32.Some? && Discriminates(owners, components, h)
  }

  function EligibleFrom(hashes: seq<Hash>, owners: seq<Ids>, components: seq<Component>, from: nat): Ids
    requires from <= |hashes| <= MAX_IDS
    decreases |hashes| - from
  {
    if from == |hashes| then []
    else
      (if Eligible(hashes, owners, components, from) then [from] else [])
      + EligibleFrom(hashes, owners, components, from + 1)
  }

  function RouteKey(h: Hash, id: u32): Key {
    [match h.digests.crc32 case None => [] case Some(crc) => crc, [h.size], h.scope, [id]]
  }

  function RouteOrder(hashes: seq<Hash>): u32 -> Key {
    (id: u32) => if id < |hashes| then RouteKey(hashes[id], id) else [[], [], [], [id]]
  }

  /** The eligible rows by crc32, size, scope and id. */
  function ExpectedRoutes(hashes: seq<Hash>, owners: seq<Ids>, components: seq<Component>): Ids
    requires |hashes| <= MAX_IDS
  {
    SortBy(RouteOrder(hashes), EligibleFrom(hashes, owners, components, 0))
  }

  lemma {:induction false} EligibleExact(hashes: seq<Hash>, owners: seq<Ids>, components: seq<Component>, from: nat, x: u32)
    requires from <= |hashes| <= MAX_IDS
    ensures x in EligibleFrom(hashes, owners, components, from) <==> from <= x && Eligible(hashes, owners, components, x)
    decreases |hashes| - from
  {
    assert Eligible(hashes, owners, components, x) ==> x < |hashes|;
    hide Eligible;
    if from < |hashes| { EligibleExact(hashes, owners, components, from + 1, x); }
  }

  lemma {:induction false} EligibleAscends(hashes: seq<Hash>, owners: seq<Ids>, components: seq<Component>, from: nat)
    requires from <= |hashes| <= MAX_IDS
    ensures StrictlyAscending(EligibleFrom(hashes, owners, components, from))
    decreases |hashes| - from
  {
    hide Eligible;
    if from < |hashes| {
      EligibleAscends(hashes, owners, components, from + 1);
      var rest := EligibleFrom(hashes, owners, components, from + 1);
      forall j | 0 <= j < |rest| ensures from < rest[j] { EligibleExact(hashes, owners, components, from + 1, rest[j]); }
    }
  }

  ghost predicate NoRepeats<T>(s: seq<T>) { forall i, j :: 0 <= i < j < |s| ==> s[i] != s[j] }

  lemma {:induction false} DistinctCounts<T>(s: seq<T>, x: T)
    requires NoRepeats(s)
    ensures multiset(s)[x] <= 1
  {
    if s != [] {
      assert s == [s[0]] + s[1..];
      assert forall j :: 0 <= j < |s[1..]| ==> s[1..][j] == s[j + 1];
      DistinctCounts(s[1..], x);
      assert s[0] !in s[1..] && s[0] !in multiset(s[1..]);
    }
  }

  lemma {:induction false} CountsDistinct<T>(s: seq<T>)
    requires forall x :: multiset(s)[x] <= 1
    ensures NoRepeats(s)
  {
    if s != [] {
      var (head, tail) := (s[0], s[1..]);
      assert s == [head] + tail;
      forall x ensures multiset(tail)[x] <= 1 { assert multiset(s)[x] <= 1; }
      CountsDistinct(tail);
      assert multiset(s)[head] == 1 + multiset(tail)[head];
      assert head !in multiset(tail);
      forall j | 0 < j < |s| ensures s[j] != head { assert s[j] == tail[j - 1] && tail[j - 1] in multiset(tail); }
      forall i, j | 0 < i < j < |s| ensures s[i] != s[j] { assert s[i] == tail[i - 1] && s[j] == tail[j - 1]; }
    }
  }

  lemma {:induction false} PermutedDistinct<T>(a: seq<T>, b: seq<T>)
    requires NoRepeats(a) && multiset(a) == multiset(b)
    ensures NoRepeats(b)
  {
    forall x ensures multiset(b)[x] <= 1 { DistinctCounts(a, x); }
    CountsDistinct(b);
  }

  lemma {:induction false} RouteOrderInjective(hashes: seq<Hash>)
    ensures Injective(RouteOrder(hashes))
  {
    var key := RouteOrder(hashes);
    forall a: u32, b: u32 | key(a) == key(b) ensures a == b {
      assert key(a)[3] == [a] && key(b)[3] == [b];
      assert [a][0] == a;
    }
  }

  /** Exactly the eligible rows, each once, in strictly ascending key order. */
  lemma {:induction false} ExpectedExact(hashes: seq<Hash>, owners: seq<Ids>, components: seq<Component>)
    requires |hashes| <= MAX_IDS
    ensures var r := ExpectedRoutes(hashes, owners, components);
      && (forall x: u32 :: x in r <==> Eligible(hashes, owners, components, x))
      && NoRepeats(r) && Ascending(RouteOrder(hashes), r)
  {
    var key, ids := RouteOrder(hashes), EligibleFrom(hashes, owners, components, 0);
    var r := ExpectedRoutes(hashes, owners, components);
    forall x: u32 ensures x in r <==> Eligible(hashes, owners, components, x) {
      SortByMembers(key, ids);
      EligibleExact(hashes, owners, components, 0, x);
    }
    EligibleAscends(hashes, owners, components, 0);
    SortBySorted(key, ids);
    PermutedDistinct(ids, r);
    RouteOrderInjective(hashes);
    SortedDistinctAscends(key, r);
  }

  lemma {:induction false} SortedDistinctAscends<T(!new)>(key: T -> Key, s: seq<T>)
    requires SortedBy(key, s) && NoRepeats(s) && Injective(key)
    ensures Ascending(key, s)
  {
    KeyLessTotal();
    hide KeyLess;
    forall i, j | 0 <= i < j < |s| ensures KeyLess(key(s[i]), key(s[j])) {
      assert key(s[i]) != key(s[j]);
    }
  }

  // ---------------------------------------------------------------- the query

  function AsciiLower(s: str): (r: str)
    ensures |r| == |s|
  {
    seq(|s|, i requires 0 <= i < |s| => if 0x41 <= s[i] <= 0x5A then s[i] + 0x20 else s[i])
  }

  /** The components behind the routed rows of that crc32 and size; no answer when a route points nowhere. */
  function Hits(routes: Ids, hashes: seq<Hash>, owners: seq<Ids>, crc: bytes, size: u64): Option<Ids> {
    if routes == [] then Some([])
    else if routes[0] >= |hashes| then None
    else
      var h := hashes[routes[0]];
      if h.size != size || h.digests.crc32 != Some(crc) then Hits(routes[1..], hashes, owners, crc, size)
      else if routes[0] >= |owners| then None
      else
        Prepend(owners[routes[0]], Hits(routes[1..], hashes, owners, crc, size))
  }

  function Prepend(ids: Ids, rest: Option<Ids>): Option<Ids> { match rest case None => None case Some(r) => Some(ids + r) }

  function AllComponents(games: seq<Game>): seq<Component> {
    if games == [] then [] else games[0].components + AllComponents(games[1..])
  }

  /** The game a component number falls into and its position there. */
  function Locate(games: seq<Game>, c: nat, index: nat): Option<(nat, nat)>
    decreases |games|
  {
    if games == [] then None
    else if c < |games[0].components| then Some((index, c))
    else Locate(games[1..], c - |games[0].components|, index + 1)
  }

  /** How many components the games before `g` have. */
  function Offset(games: seq<Game>, g: nat): nat
    requires g <= |games|
    decreases g
  {
    if g == 0 then 0 else |games[0].components| + Offset(games[1..], g - 1)
  }

  ghost predicate IsAt(games: seq<Game>, g: nat, l: nat) { g < |games| && l < |games[g].components| }

  lemma {:induction false} LocateFinds(games: seq<Game>, c: nat, index: nat)
    requires c < |AllComponents(games)|
    ensures Locate(games, c, index).Some?
    ensures var (at, l) := Locate(games, c, index).value;
      && index <= at && IsAt(games, at - index, l)
      && games[at - index].components[l] == AllComponents(games)[c]
      && Offset(games, at - index) + l == c
    decreases |games|
  {
    var n := |games[0].components|;
    if c >= n {
      LocateFinds(games[1..], c - n, index + 1);
      assert AllComponents(games)[c] == AllComponents(games[1..])[c - n];
    }
  }

  lemma {:induction false} LocateOffset(games: seq<Game>, g: nat, l: nat, index: nat)
    requires IsAt(games, g, l)
    ensures Offset(games, g) + l < |AllComponents(games)|
    ensures Locate(games, Offset(games, g) + l, index) == Some((index + g, l))
    ensures AllComponents(games)[Offset(games, g) + l] == games[g].components[l]
    decreases |games|
  {
    if g > 0 { LocateOffset(games[1..], g - 1, l, index + 1); }
  }

  function LocateAll(games: seq<Game>, hits: Ids): seq<(nat, nat)> {
    if hits == [] then []
    else
      (match Locate(games, hits[0], 0) case None => [] case Some(at) => [at]) + LocateAll(games, hits[1..])
  }

  /** The pair as it is returned: a 32-bit game index and a 16-bit component index, both cut to width. */
  function Truncated(at: (nat, nat)): (u32, u16) { (at.0 % 0x1_0000_0000, at.1 % 0x1_0000) }

  function TruncatedAll(ats: seq<(nat, nat)>): (r: seq<(u32, u16)>)
    ensures |r| == |ats| && forall i :: 0 <= i < |ats| ==> r[i] == Truncated(ats[i])
  {
    seq(|ats|, i requires 0 <= i < |ats| => Truncated(ats[i]))
  }

  datatype Pack = Pack(games: seq<Game>, hashes: seq<Hash>, owners: seq<Ids>, routes: Ids, manifest: Manifest)

  /** Where the matching components are, before the indexes are cut to their widths. */
  function Places(pack: Pack, crc: bytes, size: u64): Option<seq<(nat, nat)>> {
    var hits :- Hits(pack.routes, pack.hashes, pack.owners, crc, size);
    Some(LocateAll(pack.games, hits))
  }

  function Route(pack: Pack, crc: str, size: u64): Option<seq<(u32, u16)>> {
    var raw :- ToBytes(AsciiLower(crc));
    if |raw| != 4 then None
    else
      var places :- Places(pack, raw, size);
      Some(TruncatedAll(places))
  }

  // ---------------------------------------------------------------- the query as loops

  method FindGame(games: seq<Game>, component: nat) returns (at: Option<(nat, nat)>)
    ensures at == Locate(games, component, 0)
  {
    var base, game := 0, 0;
    while game < |games|
      invariant 0 <= game <= |games| && base <= component
      invariant Locate(games[game..], component - base, game) == Locate(games, component, 0)
    {
      assert games[game..][0] == games[game] && games[game..][1..] == games[game + 1..];
      if component < base + |games[game].components| {
        return Some((game, component - base));
      }
      base := base + |games[game].components|;
      game := game + 1;
    }
    return None;
  }

  /** Scans the routes, then the owners of each match, then the games for each owner. */
  method RouteQuery(pack: Pack, crc: str, size: u64) returns (out: Option<seq<(u32, u16)>>)
    ensures out == Route(pack, crc, size)
  {
    var raw := ToBytes(AsciiLower(crc));
    if raw.None? || |raw.value| != 4 {
      return None;
    }
    var found: seq<(nat, nat)> := [];
    var r := 0;
    assert pack.routes[0..] == pack.routes;
    StartsEmpty(pack.games, Hits(pack.routes, pack.hashes, pack.owners, raw.value, size));
    while r < |pack.routes|
      invariant 0 <= r <= |pack.routes|
      invariant Places(pack, raw.value, size)
             == Resume(found, pack.games, Hits(pack.routes[r..], pack.hashes, pack.owners, raw.value, size))
    {
      var id := pack.routes[r];
      assert pack.routes[r..][0] == id && pack.routes[r..][1..] == pack.routes[r + 1..];
      if id >= |pack.hashes| {
        return None;
      }
      var h := pack.hashes[id];
      if h.size == size && h.digests.crc32 == Some(raw.value) {
        if id >= |pack.owners| {
          return None;
        }
        var more := OwnersPlaces(pack.games, pack.owners[id]);
        ResumeMore(found, pack.games, pack.owners[id], Hits(pack.routes[r + 1..], pack.hashes, pack.owners, raw.value, size));
        found := found + more;
      }
      r := r + 1;
    }
    assert found + LocateAll(pack.games, []) == found;
    return Some(TruncatedAll(found));
  }

  method OwnersPlaces(games: seq<Game>, ids: Ids) returns (found: seq<(nat, nat)>)
    ensures found == LocateAll(games, ids)
  {
    hide Locate;
    found := [];
    var i := 0;
    while i < |ids|
      invariant 0 <= i <= |ids|
      invariant LocateAll(games, ids) == found + LocateAll(games, ids[i..])
    {
      assert ids[i..][0] == ids[i] && ids[i..][1..] == ids[i + 1..];
      var at := FindGame(games, ids[i]);
      ghost var rest := LocateAll(games, ids[i + 1..]);
      if at.Some? {
        assert found + [at.value] + rest == found + ([at.value] + rest);
        found := found + [at.value];
      }
      i := i + 1;
    }
  }

  function Resume(found: seq<(nat, nat)>, games: seq<Game>, rest: Option<Ids>): Option<seq<(nat, nat)>> {
    var hits :- rest;
    Some(found + LocateAll(games, hits))
  }

  lemma {:induction false} StartsEmpty(games: seq<Game>, rest: Option<Ids>)
    ensures Resume([], games, rest) == match rest case None => None case Some(hits) => Some(LocateAll(games, hits))
  {
    if rest.Some? { assert [] + LocateAll(games, rest.value) == LocateAll(games, rest.value); }
  }

  lemma {:induction false} ResumeMore(found: seq<(nat, nat)>, games: seq<Game>, ids: Ids, rest: Option<Ids>)
    ensures Resume(found, games, Prepend(ids, rest)) == Resume(found + LocateAll(games, ids), games, rest)
  {
    if rest.Some? {
      LocateAllConcat(games, ids, rest.value);
      var (a, b) := (LocateAll(games, ids), LocateAll(games, rest.value));
      assert found + (a + b) == (found + a) + b;
    }
  }

  lemma {:induction false} LocateAllConcat(games: seq<Game>, a: Ids, b: Ids)
    ensures LocateAll(games, a + b) == LocateAll(games, a) + LocateAll(games, b)
  {
    if a == [] {
      assert a + b == b;
    } else {
      assert (a + b)[1..] == a[1..] + b;
      LocateAllConcat(games, a[1..], b);
    }
  }
}
