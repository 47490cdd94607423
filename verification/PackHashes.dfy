/** The hash table: rows sorted by key, sizes stored as differences, digests as raw bytes. */
module PackHashes {
  import opened Bytes
  import opened Hex
  import opened Order
  import opened PackFormat
  import opened PackModel

  /** A parsed hash row; the scope is its name, since a coded scope and the same name spelled out are equal. */
  datatype Hash = Hash(size: u64, scope: str, digests: Digests)

  function Ascii(s: string): (r: str)
    ensures |r| == |s| && forall i :: 0 <= i < |s| ==> r[i] == s[i] as int % 0x80
  {
    seq(|s|, i requires 0 <= i < |s| => s[i] as int % 0x80)
  }

  const FULL_FILE: str := Ascii("full_file")
  const TRACK_FILE: str := Ascii("track_file")

  /** Table ids are 32 bits wide. */
  const MAX_IDS: nat := 0x1_0000_0000

  // ---------------------------------------------------------------- scopes and digests

  predicate ScopeKnown(scope: str, strings: seq<str>) {
    scope == FULL_FILE || scope == TRACK_FILE || scope in strings
  }

  function ScopeCodeOf(scope: str, strings: seq<str>): ScopeCode
    requires ScopeKnown(scope, strings) && |strings| <= MAX_IDS
  {
    if scope == FULL_FILE then FullFile
    else if scope == TRACK_FILE then TrackFile
    else OtherScope(IndexOf(strings, scope))
  }

  function StringAt(strings: seq<str>, id: u32): Option<str> { if id < |strings| then Some(strings[id]) else None }

  function ScopeName(code: ScopeCode, strings: seq<str>): Option<str> {
    match code
    case FullFile => Some(FULL_FILE)
    case TrackFile => Some(TRACK_FILE)
    case OtherScope(id) => StringAt(strings, id)
  }

  lemma ScopeReadsBack(scope: str, strings: seq<str>)
    requires ScopeKnown(scope, strings) && |strings| <= MAX_IDS
    ensures ScopeName(ScopeCodeOf(scope, strings), strings) == Some(scope)
  {
  }

  function DigestBytes(d: Option<str>): Option<Option<bytes>> {
    match d
    case None => Some(None)
    case Some(text) =>
      var b :- Pairs(text);
      Some(Some(b))
  }

  function DigestsOf(h: HashKey): Option<Digests> {
    var crc32 :- DigestBytes(h.crc32);
    var md5 :- DigestBytes(h.md5);
    var sha1 :- DigestBytes(h.sha1);
    var sha256 :- DigestBytes(h.sha256);
    Some(Digests(crc32, md5, sha1, sha256))
  }

  function DigestText(d: Option<bytes>): Option<str> { match d case None => None case Some(b) => Some(Lower(b)) }

  /** The key of a parsed row: what its components carry. */
  function KeyOf(h: Hash): HashKey {
    HashKey(h.size, h.scope, DigestText(h.digests.crc32), DigestText(h.digests.md5), DigestText(h.digests.sha1),
            DigestText(h.digests.sha256))
  }

  lemma {:induction false} DigestReadsBack(d: Option<str>, width: nat)
    requires Digest(d, width)
    ensures DigestBytes(d).Some? && DigestText(DigestBytes(d).value) == d
    ensures DigestBytes(d).value.Some? ==> |DigestBytes(d).value.value| == width
  {
    if d.Some? { LowerOfPairs(d.value, width); }
  }

  /** The parsed row a key is written as. */
  function RowOf(h: HashKey): Hash {
    Hash(h.size, h.scope, match DigestsOf(h) case Some(d) => d case None => Digests(None, None, None, None))
  }

  lemma {:induction false} KeyReadsBack(h: HashKey)
    requires CanonicalHash(h)
    ensures DigestsOf(h) == Some(RowOf(h).digests) && Widths(RowOf(h).digests) && KeyOf(RowOf(h)) == h
  {
    DigestReadsBack(h.crc32, 4);
    DigestReadsBack(h.md5, 16);
    DigestReadsBack(h.sha1, 20);
    DigestReadsBack(h.sha256, 32);
  }

  /** Rows with the widths the parser reads are determined by their keys. */
  lemma {:induction false} KeyOfInjective(a: Hash, b: Hash)
    requires Widths(a.digests) && Widths(b.digests) && KeyOf(a) == KeyOf(b)
    ensures a == b
  {
    TextInjective(a.digests.crc32, b.digests.crc32);
    TextInjective(a.digests.md5, b.digests.md5);
    TextInjective(a.digests.sha1, b.digests.sha1);
    TextInjective(a.digests.sha256, b.digests.sha256);
  }

  lemma {:induction false} TextInjective(a: Option<bytes>, b: Option<bytes>)
    requires DigestText(a) == DigestText(b)
    ensures a == b
  {
    if a.Some? && b.Some? {
      PairsOfLower(a.value);
      PairsOfLower(b.value);
    }
  }

  // ---------------------------------------------------------------- the rows of the table

  ghost predicate SizesFrom(keys: seq<HashKey>, previous: u64) {
    && (forall i :: 0 <= i < |keys| ==> previous <= keys[i].size)
    && (forall i, j :: 0 <= i < j < |keys| ==> keys[i].size <= keys[j].size)
  }

  ghost predicate ScopesKnown(keys: seq<HashKey>, strings: seq<str>) {
    forall k :: k in keys ==> ScopeKnown(k.scope, strings)
  }

  /** The rows written for the keys; none when a digest is not hexadecimal. */
  function HashRows(keys: seq<HashKey>, strings: seq<str>, previous: u64): Option<seq<HashRow>>
    requires SizesFrom(keys, previous) && ScopesKnown(keys, strings) && |strings| <= MAX_IDS
    decreases |keys|
  {
    if keys == [] then Some([])
    else
      var k := keys[0];
      var digests :- DigestsOf(k);
      var rows :- HashRows(keys[1..], strings, k.size);
      Some([HashRow(k.size - previous, ScopeCodeOf(k.scope, strings), digests)] + rows)
  }

  /** The rows read: sizes summed up within 64 bits, scope ids looked up. */
  function ResolveHashes(rows: seq<HashRow>, strings: seq<str>, previous: u64): Option<seq<Hash>>
    decreases |rows|
  {
    if rows == [] then Some([])
    else
      var row := rows[0];
      var size: nat := previous + row.delta;
      if size > U64_MAX then None
      else
        var scope :- ScopeName(row.scope, strings);
        var hashes :- ResolveHashes(rows[1..], strings, size);
        Some([Hash(size, scope, row.digests)] + hashes)
  }

  /** Every parsed row has the widths the parser reads. */
  lemma {:induction false} ResolvedWidths(rows: seq<HashRow>, strings: seq<str>, previous: u64)
    requires forall r :: r in rows ==> Widths(r.digests)
    ensures var hs := ResolveHashes(rows, strings, previous);
      hs.Some? ==> |hs.value| == |rows| && forall h :: h in hs.value ==> Widths(h.digests)
    decreases |rows|
  {
    if rows != [] && previous + rows[0].delta <= U64_MAX {
      ResolvedWidths(rows[1..], strings, previous + rows[0].delta);
    }
  }

  function Rows(keys: seq<HashKey>): (r: seq<Hash>)
    ensures |r| == |keys| && forall i :: 0 <= i < |keys| ==> r[i] == RowOf(keys[i])
  {
    if keys == [] then [] else [RowOf(keys[0])] + Rows(keys[1..])
  }

  /** The sorted keys survive the table: the size differences add up to the sizes again. */
  lemma {:induction false} HashRowsReadBack(keys: seq<HashKey>, strings: seq<str>, previous: u64)
    requires SizesFrom(keys, previous) && ScopesKnown(keys, strings) && |strings| <= MAX_IDS
    requires forall k :: k in keys ==> CanonicalHash(k)
    ensures var rows := HashRows(keys, strings, previous);
      && rows.Some? && |rows.value| == |keys| && (forall r :: r in rows.value ==> Widths(r.digests))
      && ResolveHashes(rows.value, strings, previous) == Some(Rows(keys))
    decreases |keys|
  {
    if keys != [] {
      var k := keys[0];
      assert k in keys;
      KeyReadsBack(k);
      ScopeReadsBack(k.scope, strings);
      HashRowsReadBack(keys[1..], strings, k.size);
      var rows := HashRows(keys, strings, previous).value;
      assert rows[1..] == HashRows(keys[1..], strings, k.size).value;
      hide DigestsOf, ScopeName, ScopeCodeOf, RowOf, Widths, CanonicalHash;
    }
  }
}
