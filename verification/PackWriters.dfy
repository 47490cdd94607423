/** The table writers as the loops they are: bytes appended to a buffer, a running previous value subtracted. */
module PackWriters {
  import opened Bytes
  import opened Varint
  import opened Hex
  import opened PackFormat
  import opened PackModel
  import opened PackHashes
  import opened PackOwners
  import opened PackTables

  /** Appending rows: what is in the buffer, then the rows, then nothing. */
  lemma {:induction false} RowsAppend<T>(put: Put<T>, xs: seq<T>, k: bytes)
    requires forall x, k: bytes :: x in xs ==> put(x, k) == put(x, []) + k
    ensures PutList(put, xs, k) == PutList(put, xs, []) + k
  {
    if xs == [] {
      assert [] + k == k;
    } else {
      assert xs[0] in xs;
      RowsAppend(put, xs[1..], k);
      var rest := PutList(put, xs[1..], []);
      assert put(xs[0], []) + (rest + k) == (put(xs[0], []) + rest) + k;
    }
  }

  /** Row `i` moves from the rows to write into the buffer. */
  lemma {:induction false} AppendRow<T>(put: Put<T>, out: bytes, x: T, xs: seq<T>)
    requires forall k: bytes :: put(x, k) == put(x, []) + k
    ensures out + PutList(put, [x] + xs, []) == (out + put(x, [])) + PutList(put, xs, [])
  {
    assert ([x] + xs)[1..] == xs;
    var rest := PutList(put, xs, []);
    assert out + (put(x, []) + rest) == (out + put(x, [])) + rest;
  }

  // ---------------------------------------------------------------- owners

  lemma {:induction false} DeltaAppends(n: u32)
    ensures forall k: bytes :: PutU32(n, k) == PutU32(n, []) + k
  {
    assert Enc(n) + [] == Enc(n);
  }

  lemma {:induction false} DeltasAppend(ids: Ids, k: bytes)
    ensures PutU32s(ids, k) == PutU32s(ids, []) + k
  {
    forall x, k: bytes | x in ids ensures PutU32(x, k) == PutU32(x, []) + k { DeltaAppends(x); }
    RowsAppend(PutU32, ids, k);
    var rest := PutList(PutU32, ids, []);
    assert Enc(|ids|) + (rest + k) == (Enc(|ids|) + rest) + k;
  }

  method EncodeOwnerRow(ids: Ids) returns (out: bytes)
    requires StrictlyAscending(ids) && |ids| <= U64_MAX
    ensures out == PutU32s(Deltas(ids, 0), [])
  {
    out := Encode(|ids|);
    var previous: u32 := 0;
    var i := 0;
    ghost var row := PutU32s(Deltas(ids, 0), []);
    RowStarts(ids);
    assert ids[0..] == ids;
    hide Enc, StrictlyAscending, PutU32s;
    while i < |ids|
      invariant 0 <= i <= |ids|
      invariant StrictlyAscending(ids[i..]) && (i < |ids| ==> previous <= ids[i])
      invariant row == out + PutList(PutU32, Deltas(ids[i..], previous), [])
    {
      assert ids[i..][0] == ids[i] && ids[i..][1..] == ids[i + 1..];
      TailAscends(ids[i..]);
      var delta: u32 := ids[i] - previous;
      var more := Encode(delta);
      DeltaAppends(delta);
      AppendRow(PutU32, out, delta, Deltas(ids[i + 1..], ids[i]));
      assert PutU32(delta, []) == more + [] == more;
      out := out + more;
      previous := ids[i];
      i := i + 1;
    }
    assert Deltas(ids[i..], previous) == [];
    assert out + [] == out;
  }

  lemma {:induction false} RowStarts(ids: Ids)
    requires StrictlyAscending(ids)
    ensures PutU32s(Deltas(ids, 0), []) == Enc(|ids|) + PutList(PutU32, Deltas(ids, 0), [])
  {
    DeltasCount(ids, 0);
  }

  lemma {:induction false} DeltasCount(ids: Ids, previous: u32)
    requires StrictlyAscending(ids) && (ids != [] ==> previous <= ids[0])
    ensures |Deltas(ids, previous)| == |ids|
    decreases |ids|
  {
    if ids != [] { DeltasCount(ids[1..], ids[0]); }
  }

  lemma {:induction false} AllDeltasCount(owners: seq<Ids>)
    requires forall o :: o in owners ==> StrictlyAscending(o)
    ensures |AllDeltas(owners)| == |owners|
  {
    if owners != [] {
      assert owners[0] in owners;
      AllDeltasCount(owners[1..]);
    }
  }

  method EncodeOwners(owners: seq<Ids>) returns (out: bytes)
    requires |owners| <= U64_MAX
    requires forall o :: o in owners ==> StrictlyAscending(o) && |o| <= U64_MAX
    ensures out == PutTable(RWO5, PutLists, AllDeltas(owners))
  {
    hide Enc, StrictlyAscending, Deltas, Ascii, PutU32s;
    var count := Encode(|owners|);
    out := RWO5 + [1] + count;
    AllDeltasCount(owners);
    var h := 0;
    assert owners[0..] == owners;
    TableStarts(owners);
    while h < |owners|
      invariant 0 <= h <= |owners|
      invariant PutTable(RWO5, PutLists, AllDeltas(owners)) == out + PutList(PutU32s, AllDeltas(owners[h..]), [])
    {
      var ids := owners[h];
      assert ids in owners;
      assert owners[h..][0] == ids && owners[h..][1..] == owners[h + 1..];
      var row := EncodeOwnerRow(ids);
      forall k: bytes ensures PutU32s(Deltas(ids, 0), k) == PutU32s(Deltas(ids, 0), []) + k { DeltasAppend(Deltas(ids, 0), k); }
      AppendRow(PutU32s, out, Deltas(ids, 0), AllDeltas(owners[h + 1..]));
      out := out + row;
      h := h + 1;
    }
    assert out + [] == out;
  }

  lemma {:induction false} TableStarts(owners: seq<Ids>)
    requires forall o :: o in owners ==> StrictlyAscending(o)
    ensures PutTable(RWO5, PutLists, AllDeltas(owners))
         == (RWO5 + [1] + Enc(|owners|)) + PutList(PutU32s, AllDeltas(owners), [])
  {
    hide Ascii, Enc, AllDeltas, PutList, StrictlyAscending;
    AllDeltasCount(owners);
    var rest := PutList(PutU32s, AllDeltas(owners), []);
    assert RWO5 + [1] + (Enc(|owners|) + rest) == (RWO5 + [1] + Enc(|owners|)) + rest;
  }

  // ---------------------------------------------------------------- hashes

  lemma {:induction false} ScopeAppends(s: ScopeCode, k: bytes)
    ensures PutScope(s, k) == PutScope(s, []) + k
  {
    match s
    case FullFile => assert [0] + k == ([0] + []) + k;
    case TrackFile => assert [1] + k == ([1] + []) + k;
    case OtherScope(id) =>
      DeltaAppends(id);
      assert [255] + (PutU32(id, []) + k) == ([255] + PutU32(id, [])) + k;
  }

  lemma {:induction false} DigestsAppend(d: Digests, k: bytes)
    ensures PutDigests(d, k) == PutDigests(d, []) + k
  {
    var (s3, s2) := (PutDigest(d.sha256, []), PutDigest(d.sha1, PutDigest(d.sha256, [])));
    DigestAppends(d.sha256, [], k);
    DigestAppends(d.sha1, s3, k);
    DigestAppends(d.md5, s2, k);
    DigestAppends(d.crc32, PutDigest(d.md5, s2), k);
    assert [] + k == k;
    hide PutDigest;
  }

  lemma {:induction false} DigestAppends(d: Option<bytes>, a: bytes, k: bytes)
    ensures PutDigest(d, a + k) == PutDigest(d, a) + k
  {
    if d.Some? { assert d.value + (a + k) == (d.value + a) + k; }
  }

  lemma {:induction false} HashAppends(h: HashRow)
    ensures forall k: bytes :: PutHash(h, k) == PutHash(h, []) + k
  {
    hide Enc, PutScope, PutDigests, DigestMask;
    forall k: bytes ensures PutHash(h, k) == PutHash(h, []) + k {
      var d := PutDigests(h.digests, []);
      DigestsAppend(h.digests, k);
      var m := [DigestMask(h.digests)];
      assert m + (d + k) == (m + d) + k;
      ScopeAppends(h.scope, m + d + k);
      ScopeAppends(h.scope, m + d);
      var s := PutScope(h.scope, []);
      assert s + ((m + d) + k) == (s + (m + d)) + k;
      assert Enc(h.delta) + ((s + (m + d)) + k) == (Enc(h.delta) + (s + (m + d))) + k;
    }
  }

  /** The bytes of one row, written field by field. */
  method EncodeHashRow(h: HashRow) returns (out: bytes)
    ensures out == PutHash(h, [])
  {
    hide Enc, DigestMask;
    out := Encode(h.delta);
    match h.scope {
      case FullFile => out := out + [0];
      case TrackFile => out := out + [1];
      case OtherScope(id) =>
        var more := Encode(id);
        out := out + [255] + more;
    }
    ghost var d := PutDigests(h.digests, []);
    ghost var m := [DigestMask(h.digests)];
    ScopeAppends(h.scope, m + d);
    assert out == Enc(h.delta) + PutScope(h.scope, []) by { assert Enc(h.delta) + PutScope(h.scope, []) == out; }
    ghost var head := out;
    out := out + [DigestMask(h.digests)];
    var fields := [h.digests.crc32, h.digests.md5, h.digests.sha1, h.digests.sha256];
    var i := 0;
    FieldsAreDigests(h.digests);
    assert out + PutFields(fields, 0) == head + (m + d);
    while i < 4
      invariant 0 <= i <= 4
      invariant out + PutFields(fields, i) == head + (m + d)
    {
      if fields[i].Some? {
        assert (out + fields[i].value) + PutFields(fields, i + 1) == out + (fields[i].value + PutFields(fields, i + 1));
        out := out + fields[i].value;
      }
      i := i + 1;
    }
    assert out + [] == out;
    assert head + (m + d) == Enc(h.delta) + (PutScope(h.scope, []) + (m + d));
  }

  /** The digests present from number `i` on. */
  function PutFields(fields: seq<Option<bytes>>, i: nat): bytes
    requires i <= |fields|
    decreases |fields| - i
  {
    if i == |fields| then [] else PutDigest(fields[i], PutFields(fields, i + 1))
  }

  lemma {:induction false} FieldsAreDigests(d: Digests)
    ensures PutFields([d.crc32, d.md5, d.sha1, d.sha256], 0) == PutDigests(d, [])
  {
    var fields := [d.crc32, d.md5, d.sha1, d.sha256];
    assert PutFields(fields, 4) == [];
    assert PutFields(fields, 3) == PutDigest(d.sha256, []);
    assert PutFields(fields, 2) == PutDigest(d.sha1, PutFields(fields, 3));
    assert PutFields(fields, 1) == PutDigest(d.md5, PutFields(fields, 2));
  }

  /** The table of the keys; none when a digest is not hexadecimal. */
  function WrittenHashes(rows: Option<seq<HashRow>>, out: bytes): Option<bytes> {
    match rows
    case None => None
    case Some(rs) => Some(out + PutList(PutHash, rs, []))
  }

  /** The bytes of one key's row after a row of size `previous`. */
  function WrittenKey(k: HashKey, strings: seq<str>, previous: u64): Option<bytes>
    requires previous <= k.size && ScopeKnown(k.scope, strings) && |strings| <= MAX_IDS
  {
    var digests :- DigestsOf(k);
    Some(PutHash(HashRow(k.size - previous, ScopeCodeOf(k.scope, strings), digests), []))
  }

  method EncodeKey(k: HashKey, strings: seq<str>, previous: u64) returns (out: Option<bytes>)
    requires previous <= k.size && ScopeKnown(k.scope, strings) && |strings| <= MAX_IDS
    ensures out == WrittenKey(k, strings, previous)
  {
    hide PutHash, DigestsOf;
    var digests := DigestsOf(k);
    if digests.None? {
      return None;
    }
    var row := EncodeHashRow(HashRow(k.size - previous, ScopeCodeOf(k.scope, strings), digests.value));
    return Some(row);
  }

  /** The next row: its digests have to be hexadecimal, and its bytes move into the buffer. */
  lemma {:induction false} NextRow(keys: seq<HashKey>, strings: seq<str>, previous: u64, buffer: bytes)
    requires SizesFrom(keys, previous) && ScopesKnown(keys, strings) && |strings| <= MAX_IDS && keys != []
    ensures previous <= keys[0].size && ScopeKnown(keys[0].scope, strings)
    ensures SizesFrom(keys[1..], keys[0].size) && ScopesKnown(keys[1..], strings)
    ensures WrittenHashes(HashRows(keys, strings, previous), buffer) ==
      match WrittenKey(keys[0], strings, previous)
      case None => None
      case Some(row) => WrittenHashes(HashRows(keys[1..], strings, keys[0].size), buffer + row)
  {
    hide PutHash, DigestsOf, ScopeCodeOf, ScopeKnown;
    assert keys[0] in keys;
    var rest := HashRows(keys[1..], strings, keys[0].size);
    if DigestsOf(keys[0]).Some? && rest.Some? {
      var row := HashRow(keys[0].size - previous, ScopeCodeOf(keys[0].scope, strings), DigestsOf(keys[0]).value);
      HashAppends(row);
      AppendRow(PutHash, buffer, row, rest.value);
    }
  }

  method EncodeHashes(keys: seq<HashKey>, strings: seq<str>) returns (out: Option<bytes>)
    requires SizesFrom(keys, 0) && ScopesKnown(keys, strings) && |strings| <= MAX_IDS && |keys| <= U64_MAX
    ensures out == match HashRows(keys, strings, 0)
                   case None => None
                   case Some(rows) => Some(PutTable(RWH5, PutHashes, rows))
  {
    HashTableStarts(keys, strings);
    hide Enc, WrittenKey, Ascii, PutTable, HashRows, WrittenHashes, SizesFrom, ScopesKnown, ScopeKnown;
    var count := Encode(|keys|);
    var buffer := RWH5 + [1] + count;
    var previous: u64 := 0;
    var i := 0;
    ghost var whole := WrittenHashes(HashRows(keys, strings, 0), buffer);
    assert keys[0..] == keys;
    while i < |keys|
      invariant 0 <= i <= |keys|
      invariant SizesFrom(keys[i..], previous) && ScopesKnown(keys[i..], strings)
      invariant whole == WrittenHashes(HashRows(keys[i..], strings, previous), buffer)
    {
      var k := keys[i];
      assert keys[i..][0] == k && keys[i..][1..] == keys[i + 1..];
      NextRow(keys[i..], strings, previous, buffer);
      var more := EncodeKey(k, strings, previous);
      if more.None? {
        return None;
      }
      buffer := buffer + more.value;
      previous := k.size;
      i := i + 1;
    }
    assert keys[i..] == [];
    NoRows(strings, previous, buffer);
    return Some(buffer);
  }

  lemma {:induction false} NoRows(strings: seq<str>, previous: u64, buffer: bytes)
    requires |strings| <= MAX_IDS
    ensures SizesFrom([], previous) && ScopesKnown([], strings)
    ensures WrittenHashes(HashRows([], strings, previous), buffer) == Some(buffer)
  {
    assert buffer + [] == buffer;
  }

  lemma {:induction false} HashRowsCount(keys: seq<HashKey>, strings: seq<str>, previous: u64)
    requires SizesFrom(keys, previous) && ScopesKnown(keys, strings) && |strings| <= MAX_IDS
    ensures HashRows(keys, strings, previous).Some? ==> |HashRows(keys, strings, previous).value| == |keys|
    decreases |keys|
  {
    hide DigestsOf, ScopeCodeOf;
    if keys != [] && DigestsOf(keys[0]).Some? { HashRowsCount(keys[1..], strings, keys[0].size); }
  }

  lemma {:induction false} HashTableStarts(keys: seq<HashKey>, strings: seq<str>)
    requires SizesFrom(keys, 0) && ScopesKnown(keys, strings) && |strings| <= MAX_IDS
    ensures WrittenHashes(HashRows(keys, strings, 0), RWH5 + [1] + Enc(|keys|))
         == match HashRows(keys, strings, 0)
            case None => None
            case Some(rows) => Some(PutTable(RWH5, PutHashes, rows))
  {
    HashRowsCount(keys, strings, 0);
    hide Ascii, Enc, HashRows, PutList, SizesFrom, ScopesKnown;
    var rows := HashRows(keys, strings, 0);
    if rows.Some? { Regrouped(RWH5 + [1], Enc(|keys|), PutList(PutHash, rows.value, [])); }
  }

  lemma Regrouped(a: bytes, b: bytes, c: bytes)
    ensures a + (b + c) == (a + b) + c
  {
  }
}
