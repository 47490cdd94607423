/** The table readers and writers as the loops they are: a cursor over the bytes, one row a turn. */
module PackReaders {
  import opened Bytes
  import opened Varint
  import opened Order
  import opened PackFormat
  import opened PackModel
  import opened PackHashes
  import opened PackOwners
  import opened PackParse
  import opened PackRoutes
  import opened PackTables

  /** The cursor moved past what `get` took, or `get` refused. */
  ghost predicate Took<T>(r: Option<(T, bytes)>, x: Option<T>, rest: bytes) {
    match r
    case None => x == None
    case Some((v, after)) => x == Some(v) && rest == after
  }

  /** Rows already read in front of what the rest gives. */
  function Extend<T>(done: seq<T>, rest: Option<seq<T>>): Option<seq<T>> {
    match rest
    case None => None
    case Some(xs) => Some(done + xs)
  }

  lemma {:induction false} ExtendMore<T>(done: seq<T>, x: T, rest: Option<seq<T>>)
    ensures Extend(done, Extend([x], rest)) == Extend(done + [x], rest)
  {
    if rest.Some? { assert done + ([x] + rest.value) == (done + [x]) + rest.value; }
  }

  lemma {:induction false} ExtendNothing<T>(rest: Option<seq<T>>)
    ensures Extend([], rest) == rest
  {
    if rest.Some? { assert [] + rest.value == rest.value; }
  }

  lemma {:induction false} ExtendDone<T>(done: seq<T>)
    ensures Extend(done, Some([])) == Some(done) && Extend(done, None) == None
  {
    assert done + [] == done;
  }

  /** Opens a table; nothing when the header is not the magic and version 1. */
  method Open(b: bytes, magic: str) returns (c: Cursor?)
    requires |magic| == 4
    ensures c == null <==> Body(magic, b) == None
    ensures c != null ==> fresh(c) && c.Valid() && Body(magic, b) == Some(c.Rest())
  {
    c := null;
    if |b| >= 5 && b[..4] == magic && b[4] == 1 {
      c := new Cursor(b, 5);
    }
  }

  // ---------------------------------------------------------------- hashes

  method ReadScope(c: Cursor) returns (x: Option<ScopeCode>)
    requires c.Valid()
    modifies c
    ensures c.Valid() && Took(GetScope(old(c.Rest())), x, c.Rest())
  {
    var tag := c.Byte();
    if tag.None? {
      return None;
    }
    if tag.value == 0 {
      return Some(FullFile);
    } else if tag.value == 1 {
      return Some(TrackFile);
    } else if tag.value == 255 {
      var id := c.U32();
      if id.None? {
        return None;
      }
      return Some(OtherScope(id.value));
    }
    return None;
  }

  method ReadDigest(c: Cursor, present: bool, width: nat) returns (x: Option<Option<bytes>>)
    requires c.Valid()
    modifies c
    ensures c.Valid() && Took(GetDigest(present, width, old(c.Rest())), x, c.Rest())
  {
    if !present {
      return Some(None);
    }
    var d := c.Bytes(width);
    if d.None? {
      return None;
    }
    return Some(Some(d.value));
  }

  method ReadDigests(c: Cursor, mask: u8) returns (x: Option<Digests>)
    requires c.Valid()
    modifies c
    ensures c.Valid() && Took(GetDigests(mask, old(c.Rest())), x, c.Rest())
  {
    hide GetDigest, HasBit;
    if mask >= 16 {
      return None;
    }
    var crc32 := ReadDigest(c, HasBit(mask, 0), 4);
    if crc32.None? {
      return None;
    }
    var md5 := ReadDigest(c, HasBit(mask, 1), 16);
    if md5.None? {
      return None;
    }
    var sha1 := ReadDigest(c, HasBit(mask, 2), 20);
    if sha1.None? {
      return None;
    }
    var sha256 := ReadDigest(c, HasBit(mask, 3), 32);
    if sha256.None? {
      return None;
    }
    return Some(Digests(crc32.value, md5.value, sha1.value, sha256.value));
  }

  method ReadHash(c: Cursor) returns (x: Option<HashRow>)
    requires c.Valid()
    modifies c
    ensures c.Valid() && Took(GetHash(old(c.Rest())), x, c.Rest())
  {
    hide GetScope, GetDigests, Var;
    ghost var start := c.Rest();
    var delta := c.Variable();
    if delta.None? {
      return None;
    }
    EncOfVar(start);
    var scope := ReadScope(c);
    if scope.None? {
      return None;
    }
    var mask := c.Byte();
    if mask.None? {
      return None;
    }
    var digests := ReadDigests(c, mask.value);
    if digests.None? {
      return None;
    }
    return Some(HashRow(delta.value, scope.value, digests.value));
  }

  /** The hash table of these bytes: the rows taken off and resolved. */
  function ParsedHashes(b: bytes, strings: seq<str>): Option<seq<Hash>> {
    var rows :- GetTable(RWH5, GetHashes, Some(b));
    ResolveHashes(rows, strings, 0)
  }

  function RemainingHashes(n: nat, b: bytes, strings: seq<str>, size: u64): Option<seq<Hash>> {
    var rows :- Whole(GetList(GetHash, n, b));
    ResolveHashes(rows, strings, size)
  }

  /** One more row: read, its size added, its scope looked up. */
  lemma {:induction false} NextHash(n: nat, b: bytes, strings: seq<str>, size: u64)
    requires n > 0
    ensures GetHash(b).None? ==> RemainingHashes(n, b, strings, size) == None
    ensures GetHash(b).Some? ==>
      var (row, rest) := GetHash(b).value;
      var total: nat := size + row.delta;
      RemainingHashes(n, b, strings, size) ==
        (if total > U64_MAX || ScopeName(row.scope, strings).None? then None
         else Extend([Hash(total, ScopeName(row.scope, strings).value, row.digests)],
                     RemainingHashes(n - 1, rest, strings, total)))
  {
    hide GetHash, ScopeName;
    if GetHash(b).Some? {
      var (row, rest) := GetHash(b).value;
      var tail := GetList(GetHash, n - 1, rest);
      if tail.Some? {
        assert ([row] + tail.value.0)[1..] == tail.value.0;
      }
    }
  }

  method ParseHashes(b: bytes, strings: seq<str>) returns (out: Option<seq<Hash>>)
    ensures out == ParsedHashes(b, strings)
  {
    hide GetHash, ResolveHashes, ScopeName, Body, Ascii, ReadCount, RemainingHashes, ParsedHashes;
    var c := Open(b, RWH5);
    OpenHashes(b, strings);
    if c == null {
      return None;
    }
    var n := c.Count();
    if n.None? {
      return None;
    }
    var hashes: seq<Hash> := [];
    var size: u64 := 0;
    var i := 0;
    ExtendNothing(RemainingHashes(n.value, c.Rest(), strings, 0));
    while i < n.value
      invariant c.Valid() && 0 <= i <= n.value
      invariant ParsedHashes(b, strings) == Extend(hashes, RemainingHashes(n.value - i, c.Rest(), strings, size))
    {
      NextHash(n.value - i, c.Rest(), strings, size);
      var row := ReadHash(c);
      if row.None? || size + row.value.delta > U64_MAX {
        return None;
      }
      var scope := ScopeName(row.value.scope, strings);
      if scope.None? {
        return None;
      }
      size := size + row.value.delta;
      var h := Hash(size, scope.value, row.value.digests);
      i := i + 1;
      ExtendMore(hashes, h, RemainingHashes(n.value - i, c.Rest(), strings, size));
      hashes := hashes + [h];
    }
    NoMoreHashes(c.Rest(), strings, size);
    ExtendDone(hashes);
    if !c.Finished() {
      return None;
    }
    return Some(hashes);
  }

  lemma {:induction false} OpenHashes(b: bytes, strings: seq<str>)
    ensures Body(RWH5, b).None? ==> ParsedHashes(b, strings) == None
    ensures Body(RWH5, b).Some? ==>
      var count := ReadCount(Body(RWH5, b).value);
      ParsedHashes(b, strings)
      == match count case None => None case Some((n, rest)) => RemainingHashes(n, rest, strings, 0)
  {
    hide Ascii, GetList, ResolveHashes;
  }

  lemma NoMoreHashes(rest: bytes, strings: seq<str>, size: u64)
    ensures RemainingHashes(0, rest, strings, size) == if rest == [] then Some([]) else None
  {
  }

  // ---------------------------------------------------------------- components

  method ReadOptional(c: Cursor, present: bool) returns (x: Option<Option<u32>>)
    requires c.Valid()
    modifies c
    ensures c.Valid() && Took(GetOptional(present, old(c.Rest())), x, c.Rest())
  {
    if !present {
      return Some(None);
    }
    var id := c.U32();
    if id.None? {
      return None;
    }
    return Some(Some(id.value));
  }

  method ReadComponent(c: Cursor) returns (x: Option<ComponentRow>)
    requires c.Valid()
    modifies c
    ensures c.Valid() && Took(GetComponent(old(c.Rest())), x, c.Rest())
  {
    hide GetOptional, HasBit, ReadU32, ReadByte;
    var hash := c.U32();
    if hash.None? {
      return None;
    }
    var presence := c.Byte();
    if presence.None? || presence.value >= 8 {
      return None;
    }
    var filename := ReadOptional(c, HasBit(presence.value, 0));
    if filename.None? {
      return None;
    }
    var track := ReadOptional(c, HasBit(presence.value, 1));
    if track.None? {
      return None;
    }
    var session := ReadOptional(c, HasBit(presence.value, 2));
    if session.None? {
      return None;
    }
    var role := c.Byte();
    if role.None? {
      return None;
    }
    var flags := c.Byte();
    if flags.None? || role.value >= ROLES || flags.value >= 4 {
      return None;
    }
    return Some(ComponentRow(hash.value, filename.value, track.value, session.value, role.value, HasBit(flags.value, 0),
                             HasBit(flags.value, 1)));
  }

  function ParsedComponents(b: bytes, hashes: seq<Hash>, strings: seq<str>): Option<seq<Component>> {
    var rows :- GetTable(RWC5, GetComponents, Some(b));
    ResolveComponents(rows, hashes, strings)
  }

  function RemainingComponents(n: nat, b: bytes, hashes: seq<Hash>, strings: seq<str>): Option<seq<Component>> {
    var rows :- Whole(GetList(GetComponent, n, b));
    ResolveComponents(rows, hashes, strings)
  }

  lemma {:induction false} NextComponent(n: nat, b: bytes, hashes: seq<Hash>, strings: seq<str>)
    requires n > 0
    ensures GetComponent(b).None? ==> RemainingComponents(n, b, hashes, strings) == None
    ensures GetComponent(b).Some? ==>
      var (row, rest) := GetComponent(b).value;
      RemainingComponents(n, b, hashes, strings) ==
        (match ResolveComponent(row, hashes, strings)
         case None => None
         case Some(c) => Extend([c], RemainingComponents(n - 1, rest, hashes, strings)))
  {
    hide GetComponent, ResolveComponent;
    if GetComponent(b).Some? {
      var (row, rest) := GetComponent(b).value;
      var tail := GetList(GetComponent, n - 1, rest);
      if tail.Some? {
        assert ([row] + tail.value.0)[1..] == tail.value.0;
      }
    }
  }

  lemma {:induction false} OpenComponents(b: bytes, hashes: seq<Hash>, strings: seq<str>)
    ensures Body(RWC5, b).None? ==> ParsedComponents(b, hashes, strings) == None
    ensures Body(RWC5, b).Some? ==>
      var count := ReadCount(Body(RWC5, b).value);
      ParsedComponents(b, hashes, strings)
      == match count case None => None case Some((n, rest)) => RemainingComponents(n, rest, hashes, strings)
  {
    hide Ascii, GetList, ResolveComponents;
  }

  lemma NoMoreComponents(rest: bytes, hashes: seq<Hash>, strings: seq<str>)
    ensures RemainingComponents(0, rest, hashes, strings) == if rest == [] then Some([]) else None
  {
  }

  method ParseComponents(b: bytes, hashes: seq<Hash>, strings: seq<str>) returns (out: Option<seq<Component>>)
    ensures out == ParsedComponents(b, hashes, strings)
  {
    hide GetComponent, ResolveComponent, Body, Ascii, ReadCount, RemainingComponents, ParsedComponents;
    var c := Open(b, RWC5);
    OpenComponents(b, hashes, strings);
    if c == null {
      return None;
    }
    var n := c.Count();
    if n.None? {
      return None;
    }
    var components: seq<Component> := [];
    var i := 0;
    ExtendNothing(RemainingComponents(n.value, c.Rest(), hashes, strings));
    while i < n.value
      invariant c.Valid() && 0 <= i <= n.value
      invariant ParsedComponents(b, hashes, strings)
             == Extend(components, RemainingComponents(n.value - i, c.Rest(), hashes, strings))
    {
      NextComponent(n.value - i, c.Rest(), hashes, strings);
      var row := ReadComponent(c);
      if row.None? {
        return None;
      }
      var component := ResolveComponent(row.value, hashes, strings);
      if component.None? {
        return None;
      }
      i := i + 1;
      ExtendMore(components, component.value, RemainingComponents(n.value - i, c.Rest(), hashes, strings));
      components := components + [component.value];
    }
    NoMoreComponents(c.Rest(), hashes, strings);
    ExtendDone(components);
    if !c.Finished() {
      return None;
    }
    return Some(components);
  }

  // ---------------------------------------------------------------- owners

  /** The ids of `m` differences after `last`, and what follows them. */
  function RemainingIds(m: nat, b: bytes, last: Option<u32>, limit: nat): Option<(Ids, bytes)> {
    var (deltas, rest) :- GetList(GetU32, m, b);
    var ids :- FromDeltas(deltas, last, limit);
    Some((ids, rest))
  }

  function OwnerRow(b: bytes, limit: nat): Option<(Ids, bytes)> {
    var (n, rest) :- ReadCount(b);
    RemainingIds(n, rest, None, limit)
  }

  function ExtendRow(done: Ids, r: Option<(Ids, bytes)>): Option<(Ids, bytes)> {
    match r
    case None => None
    case Some((ids, rest)) => Some((done + ids, rest))
  }

  lemma {:induction false} ExtendRowMore(done: Ids, id: u32, r: Option<(Ids, bytes)>)
    ensures ExtendRow(done, ExtendRow([id], r)) == ExtendRow(done + [id], r)
    ensures ExtendRow([], r) == r
  {
    if r.Some? {
      assert done + ([id] + r.value.0) == (done + [id]) + r.value.0;
      assert [] + r.value.0 == r.value.0;
    }
  }

  lemma {:induction false} NextId(m: nat, b: bytes, last: Option<u32>, limit: nat)
    requires m > 0
    ensures GetU32(b).None? ==> RemainingIds(m, b, last, limit) == None
    ensures GetU32(b).Some? ==>
      var (delta, rest) := GetU32(b).value;
      var id: nat := if last.None? then delta else last.value + delta;
      RemainingIds(m, b, last, limit) ==
        (if id >= MAX_IDS || id >= limit || (last.Some? && id <= last.value) then None
         else ExtendRow([id], RemainingIds(m - 1, rest, Some(id), limit)))
  {
    hide GetU32;
    if GetU32(b).Some? {
      var (delta, rest) := GetU32(b).value;
      var tail := GetList(GetU32, m - 1, rest);
      if tail.Some? {
        assert ([delta] + tail.value.0)[1..] == tail.value.0;
      }
    }
  }

  lemma {:induction false} NoMoreIds(b: bytes, last: Option<u32>, limit: nat, done: Ids)
    ensures ExtendRow(done, RemainingIds(0, b, last, limit)) == Some((done, b))
  {
    assert done + [] == done;
  }

  method ReadOwnerRow(c: Cursor, limit: nat) returns (x: Option<Ids>)
    requires c.Valid()
    modifies c
    ensures c.Valid() && Took(OwnerRow(old(c.Rest()), limit), x, c.Rest())
  {
    hide ReadCount, RemainingIds, ReadU32;
    ghost var row := OwnerRow(c.Rest(), limit);
    var n := c.Count();
    if n.None? {
      return None;
    }
    var ids: Ids := [];
    var last: Option<u32> := None;
    var i := 0;
    ExtendRowMore([], 0, RemainingIds(n.value, c.Rest(), None, limit));
    while i < n.value
      invariant c.Valid() && 0 <= i <= n.value
      invariant row == ExtendRow(ids, RemainingIds(n.value - i, c.Rest(), last, limit))
    {
      NextId(n.value - i, c.Rest(), last, limit);
      var delta := c.U32();
      if delta.None? {
        return None;
      }
      var id: nat := if last.None? then delta.value else last.value + delta.value;
      if id >= MAX_IDS || id >= limit || (last.Some? && id <= last.value) {
        return None;
      }
      last := Some(id);
      i := i + 1;
      ExtendRowMore(ids, id, RemainingIds(n.value - i, c.Rest(), last, limit));
      ids := ids + [id];
    }
    NoMoreIds(c.Rest(), last, limit, ids);
    return Some(ids);
  }

  /** As many rows as hash rows, each ascending below the number of components. */
  function ParsedOwners(b: bytes, hashes: nat, components: nat): Option<seq<Ids>> {
    var rows :- GetTable(RWO5, GetLists, Some(b));
    if |rows| != hashes then None else ResolveOwners(rows, components)
  }

  function RemainingOwners(n: nat, b: bytes, limit: nat): Option<seq<Ids>> {
    var rows :- Whole(GetList(GetU32s, n, b));
    ResolveOwners(rows, limit)
  }

  lemma {:induction false} NextOwner(n: nat, b: bytes, limit: nat)
    requires n > 0
    ensures RemainingOwners(n, b, limit) ==
      match OwnerRow(b, limit)
      case None => None
      case Some((ids, rest)) => Extend([ids], RemainingOwners(n - 1, rest, limit))
  {
    hide ReadCount;
    if GetU32s(b).Some? {
      var (row, rest) := GetU32s(b).value;
      var tail := GetList(GetU32s, n - 1, rest);
      if tail.Some? {
        assert ([row] + tail.value.0)[1..] == tail.value.0;
      }
    }
  }

  lemma {:induction false} OpenOwners(b: bytes, hashes: nat, limit: nat)
    ensures Body(RWO5, b).None? ==> ParsedOwners(b, hashes, limit) == None
    ensures Body(RWO5, b).Some? ==>
      var count := ReadCount(Body(RWO5, b).value);
      ParsedOwners(b, hashes, limit)
      == match count case None => None case Some((n, rest)) => if n != hashes then None else RemainingOwners(n, rest, limit)
  {
    if GetTable(RWO5, GetLists, Some(b)).Some? {
      var (n, rest) := ReadCount(Body(RWO5, b).value).value;
      GetListAll(GetU32s, _ => true, n, rest);
    }
    hide Ascii, ResolveOwners, GetU32s, GetList;
  }

  lemma NoMoreOwners(rest: bytes, limit: nat)
    ensures RemainingOwners(0, rest, limit) == if rest == [] then Some([]) else None
  {
  }

  method ParseOwners(b: bytes, hashes: nat, components: nat) returns (out: Option<seq<Ids>>)
    ensures out == ParsedOwners(b, hashes, components)
  {
    hide OwnerRow, Body, Ascii, ReadCount, RemainingOwners, ParsedOwners;
    var c := Open(b, RWO5);
    OpenOwners(b, hashes, components);
    if c == null {
      return None;
    }
    var n := c.Count();
    if n.None? || n.value != hashes {
      return None;
    }
    var owners: seq<Ids> := [];
    var i := 0;
    ExtendNothing(RemainingOwners(n.value, c.Rest(), components));
    while i < n.value
      invariant c.Valid() && 0 <= i <= n.value
      invariant ParsedOwners(b, hashes, components) == Extend(owners, RemainingOwners(n.value - i, c.Rest(), components))
    {
      NextOwner(n.value - i, c.Rest(), components);
      var ids := ReadOwnerRow(c, components);
      if ids.None? {
        return None;
      }
      i := i + 1;
      ExtendMore(owners, ids.value, RemainingOwners(n.value - i, c.Rest(), components));
      owners := owners + [ids.value];
    }
    NoMoreOwners(c.Rest(), components);
    ExtendDone(owners);
    if !c.Finished() {
      return None;
    }
    return Some(owners);
  }

  // ---------------------------------------------------------------- routes

  /** The route table, accepted only when it is the expected one. */
  function ParsedRoutes(b: bytes, hashes: seq<Hash>, owners: seq<Ids>, components: seq<Component>): Option<Ids>
    requires |hashes| <= MAX_IDS
  {
    var rows :- GetTable(RWR5, GetU32s, Some(b));
    if rows == ExpectedRoutes(hashes, owners, components) then Some(rows) else None
  }

  function RemainingRoutes(n: nat, b: bytes): Option<Ids> { Whole(GetList(GetU32, n, b)) }

  function IfExpected(rows: Option<Ids>, expected: Ids): Option<Ids> { if rows == Some(expected) then rows else None }

  lemma {:induction false} NextRoute(n: nat, b: bytes)
    requires n > 0
    ensures GetU32(b).None? ==> RemainingRoutes(n, b) == None
    ensures GetU32(b).Some? ==>
      RemainingRoutes(n, b) == Extend([GetU32(b).value.0], RemainingRoutes(n - 1, GetU32(b).value.1))
  {
    hide GetU32;
  }

  lemma {:induction false} OpenRoutes(b: bytes, hashes: seq<Hash>, owners: seq<Ids>, components: seq<Component>)
    requires |hashes| <= MAX_IDS
    ensures Body(RWR5, b).None? ==> ParsedRoutes(b, hashes, owners, components) == None
    ensures Body(RWR5, b).Some? ==>
      var count := ReadCount(Body(RWR5, b).value);
      ParsedRoutes(b, hashes, owners, components)
      == match count
         case None => None
         case Some((n, rest)) => IfExpected(RemainingRoutes(n, rest), ExpectedRoutes(hashes, owners, components))
  {
    hide Ascii, GetList, ExpectedRoutes;
  }

  /** A row the expected table does not hold refuses the table. */
  lemma {:induction false} NotExpected(done: Ids, id: u32, rest: Option<Ids>, expected: Ids)
    requires id !in expected
    ensures Extend(done, Extend([id], rest)) != Some(expected)
  {
    if rest.Some? { assert (done + ([id] + rest.value))[|done|] == id; }
  }

  /** So does a row that is not above the one before it. */
  lemma {:induction false} NotInOrder(key: u32 -> Key, done: Ids, id: u32, rest: Option<Ids>, expected: Ids)
    requires Ascending(key, expected) && done != [] && !KeyLess(key(done[|done| - 1]), key(id))
    ensures Extend(done, Extend([id], rest)) != Some(expected)
  {
    if rest.Some? {
      var rows := done + ([id] + rest.value);
      assert rows[|done|] == id && rows[|done| - 1] == done[|done| - 1];
    }
  }

  lemma {:induction false} NoMoreRoutes(rest: bytes, done: Ids)
    ensures Extend(done, RemainingRoutes(0, rest)) == if rest == [] then Some(done) else None
  {
    assert done + [] == done;
  }

  /** Checks every row as it comes, then compares the whole with the expected table. */
  method ParseRoutes(b: bytes, hashes: seq<Hash>, owners: seq<Ids>, components: seq<Component>) returns (out: Option<Ids>)
    requires |hashes| <= MAX_IDS
    ensures out == ParsedRoutes(b, hashes, owners, components)
  {
    hide Eligible, Body, Ascii, ReadCount, RemainingRoutes, ParsedRoutes, ReadU32, ExpectedRoutes, KeyLess, RouteKey;
    var c := Open(b, RWR5);
    OpenRoutes(b, hashes, owners, components);
    if c == null {
      return None;
    }
    var n := c.Count();
    if n.None? {
      return None;
    }
    var expected := ExpectedRoutes(hashes, owners, components);
    ExpectedExact(hashes, owners, components);
    var key := RouteOrder(hashes);
    var routes: Ids := [];
    var i := 0;
    ExtendNothing(RemainingRoutes(n.value, c.Rest()));
    while i < n.value
      invariant c.Valid() && 0 <= i <= n.value
      invariant ParsedRoutes(b, hashes, owners, components)
             == IfExpected(Extend(routes, RemainingRoutes(n.value - i, c.Rest())), expected)
    {
      NextRoute(n.value - i, c.Rest());
      var id := c.U32();
      if id.None? {
        return None;
      }
      i := i + 1;
      ghost var rest := RemainingRoutes(n.value - i, c.Rest());
      if !Eligible(hashes, owners, components, id.value) {
        NotExpected(routes, id.value, rest, expected);
        return None;
      }
      if routes != [] && !KeyLess(key(routes[|routes| - 1]), key(id.value)) {
        NotInOrder(key, routes, id.value, rest, expected);
        return None;
      }
      ExtendMore(routes, id.value, rest);
      routes := routes + [id.value];
    }
    NoMoreRoutes(c.Rest(), routes);
    if !c.Finished() || routes != expected {
      return None;
    }
    return Some(routes);
  }
}
