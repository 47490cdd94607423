/** The pack container: a magic, a directory of named members with their lengths, and the members. */
module PackContainer {
  import opened Bytes
  import opened PackFormat

  const PACK_V1_MAGIC: bytes := [0x52, 0x57, 0x46, 0x50, 0x31, 0, 0, 0]

  type Member = (str, bytes)

  // ---------------------------------------------------------------- little-endian numbers

  function LittleEndian(n: nat, width: nat): (r: bytes)
    ensures |r| == width
  {
    if width == 0 then [] else [n % 256] + LittleEndian(n / 256, width - 1)
  }

  function FromLittleEndian(b: bytes): nat {
    if b == [] then 0 else b[0] + 256 * FromLittleEndian(b[1..])
  }

  function Limit(width: nat): nat { if width == 0 then 1 else 256 * Limit(width - 1) }

  lemma {:induction false} LittleEndianReadsBack(n: nat, width: nat)
    requires n < Limit(width)
    ensures FromLittleEndian(LittleEndian(n, width)) == n
  {
    if width > 0 {
      LittleEndianReadsBack(n / 256, width - 1);
      assert LittleEndian(n, width)[1..] == LittleEndian(n / 256, width - 1);
    }
  }

  lemma {:induction false} Limits()
    ensures Limit(2) == 0x1_0000 && Limit(4) == 0x1_0000_0000 && Limit(8) == 0x1_0000_0000_0000_0000
  {
    assert Limit(6) == 0x1_0000_0000_0000;
  }

  function GetLittleEndian(width: nat, b: bytes): Option<(nat, bytes)> {
    if |b| < width then None else Some((FromLittleEndian(b[..width]), b[width..]))
  }

  lemma {:induction false} GetOfLittleEndian(n: nat, width: nat, k: bytes)
    requires n < Limit(width)
    ensures GetLittleEndian(width, LittleEndian(n, width) + k) == Some((n, k))
  {
    LittleEndianReadsBack(n, width);
    assert (LittleEndian(n, width) + k)[..width] == LittleEndian(n, width);
    assert (LittleEndian(n, width) + k)[width..] == k;
  }

  // ---------------------------------------------------------------- the directory

  type Entry = (str, nat)

  function PutEntry(e: Entry, k: bytes): bytes {
    LittleEndian(|e.0|, 2) + (LittleEndian(e.1, 8) + (e.0 + k))
  }

  function GetEntry(b: bytes): Option<(Entry, bytes)> {
    var (nameLen, b1) :- GetLittleEndian(2, b);
    var (byteLen, b2) :- GetLittleEndian(8, b1);
    if |b2| < nameLen then None else Some(((b2[..nameLen], byteLen), b2[nameLen..]))
  }

  lemma {:induction false} EntryReadsBack(e: Entry)
    requires |e.0| < 0x1_0000 && e.1 <= U64_MAX
    ensures ReadsBack(PutEntry, GetEntry, e)
  {
    Limits();
    forall k: bytes ensures GetEntry(PutEntry(e, k)) == Some((e, k)) {
      GetOfLittleEndian(|e.0|, 2, LittleEndian(e.1, 8) + (e.0 + k));
      GetOfLittleEndian(e.1, 8, e.0 + k);
      assert (e.0 + k)[..|e.0|] == e.0 && (e.0 + k)[|e.0|..] == k;
    }
  }

  lemma {:induction false} DirectoryLength(es: seq<Entry>, k: bytes)
    ensures |PutList(PutEntry, es, k)| >= 10 * |es| + |k|
  {
    if es != [] { DirectoryLength(es[1..], k); }
  }

  // ---------------------------------------------------------------- members

  function Entries(ms: seq<Member>): seq<Entry> {
    seq(|ms|, i requires 0 <= i < |ms| => (ms[i].0, |ms[i].1|))
  }

  function Bodies(ms: seq<Member>): bytes {
    if ms == [] then [] else ms[0].1 + Bodies(ms[1..])
  }

  /** The members cut off the data in directory order; no name twice, and nothing left over. */
  function CutMembers(es: seq<Entry>, b: bytes, found: map<str, bytes>): Option<map<str, bytes>>
    decreases |es|
  {
    if es == [] then (if b == [] then Some(found) else None)
    else
      var (name, len) := es[0];
      if |b| < len || name in found then None
      else CutMembers(es[1..], b[len..], found[name := b[..len]])
  }

  function WriteMembers(ms: seq<Member>): bytes {
    PACK_V1_MAGIC + (LittleEndian(|ms|, 4) + PutList(PutEntry, Entries(ms), Bodies(ms)))
  }

  function ReadMembers(b: bytes): Option<map<str, bytes>> {
    if |b| < |PACK_V1_MAGIC| + 4 || b[..|PACK_V1_MAGIC|] != PACK_V1_MAGIC then None
    else
      var (count, rest) :- GetLittleEndian(4, b[|PACK_V1_MAGIC|..]);
      if count > |rest| / 10 then None
      else
        var (directory, data) :- GetList(GetEntry, count, rest);
        CutMembers(directory, data, map[])
  }

  ghost predicate DistinctNames(ms: seq<Member>) {
    forall i, j :: 0 <= i < j < |ms| ==> ms[i].0 != ms[j].0
  }

  function Names(ms: seq<Member>): set<str> {
    if ms == [] then {} else {ms[0].0} + Names(ms[1..])
  }

  lemma {:induction false} CutReadsBack(ms: seq<Member>, found: map<str, bytes>)
    requires DistinctNames(ms)
    requires forall i :: 0 <= i < |ms| ==> ms[i].0 !in found
    ensures CutMembers(Entries(ms), Bodies(ms), found).Some?
    ensures var r := CutMembers(Entries(ms), Bodies(ms), found).value;
      && r.Keys == found.Keys + Names(ms)
      && (forall name :: name in found ==> r[name] == found[name])
      && (forall i :: 0 <= i < |ms| ==> ms[i].0 in r && r[ms[i].0] == ms[i].1)
    decreases |ms|
  {
    if ms != [] {
      var (name, body) := ms[0];
      assert Entries(ms)[1..] == Entries(ms[1..]);
      assert Bodies(ms)[..|body|] == body && Bodies(ms)[|body|..] == Bodies(ms[1..]);
      CutReadsBack(ms[1..], found[name := body]);
      assert forall i :: 1 <= i < |ms| ==> ms[i] == ms[1..][i - 1];
    }
  }

  /** The container gives back exactly the members it was written with. */
  lemma {:induction false} MembersReadBack(ms: seq<Member>)
    requires DistinctNames(ms) && |ms| < 0x1_0000_0000
    requires forall i :: 0 <= i < |ms| ==> |ms[i].0| < 0x1_0000 && |ms[i].1| <= U64_MAX
    ensures ReadMembers(WriteMembers(ms)).Some?
    ensures var r := ReadMembers(WriteMembers(ms)).value;
      && r.Keys == Names(ms)
      && (forall i :: 0 <= i < |ms| ==> ms[i].0 in r && r[ms[i].0] == ms[i].1)
  {
    Limits();
    var es, data := Entries(ms), Bodies(ms);
    var tail := PutList(PutEntry, es, data);
    var b := WriteMembers(ms);
    assert b[..|PACK_V1_MAGIC|] == PACK_V1_MAGIC && b[|PACK_V1_MAGIC|..] == LittleEndian(|ms|, 4) + tail;
    GetOfLittleEndian(|ms|, 4, tail);
    DirectoryLength(es, data);
    forall e | e in es ensures ReadsBack(PutEntry, GetEntry, e) { EntryReadsBack(e); }
    ListReadsBack(PutEntry, GetEntry, es, data);
    CutReadsBack(ms, map[]);
  }

  // ---------------------------------------------------------------- the reader as a cursor over the bytes

  function Directory(done: seq<Entry>, rest: Option<(seq<Entry>, bytes)>): Option<(seq<Entry>, bytes)> {
    match rest
    case None => None
    case Some((es, data)) => Some((done + es, data))
  }

  lemma {:induction false} DirectoryMore(done: seq<Entry>, e: Entry, rest: Option<(seq<Entry>, bytes)>)
    ensures Directory(done, Directory([e], rest)) == Directory(done + [e], rest)
    ensures Directory([], rest) == rest
  {
    if rest.Some? {
      assert done + ([e] + rest.value.0) == (done + [e]) + rest.value.0;
      assert [] + rest.value.0 == rest.value.0;
    }
  }

  /** What the next directory entry at `p` is, and where it ends. */
  lemma {:induction false} EntryAtCursor(b: bytes, p: nat)
    requires p <= |b|
    ensures p + 10 > |b| ==> GetEntry(b[p..]) == None
    ensures p + 10 <= |b| ==>
      var nameLen := FromLittleEndian(b[p..p + 2]);
      var byteLen := FromLittleEndian(b[p + 2..p + 10]);
      GetEntry(b[p..])
      == if p + 10 + nameLen > |b| then None
         else Some(((b[p + 10..p + 10 + nameLen], byteLen), b[p + 10 + nameLen..]))
  {
    hide FromLittleEndian;
    if p + 10 <= |b| {
      assert b[p..][..2] == b[p..p + 2] && b[p..][2..] == b[p + 2..];
      assert b[p + 2..][..8] == b[p + 2..p + 10] && b[p + 2..][8..] == b[p + 10..];
      var nameLen := FromLittleEndian(b[p..p + 2]);
      if p + 10 + nameLen <= |b| {
        assert b[p + 10..][..nameLen] == b[p + 10..p + 10 + nameLen] && b[p + 10..][nameLen..] == b[p + 10 + nameLen..];
      }
    }
  }

  method ReadDirectory(b: bytes, start: nat, count: nat) returns (r: Option<(seq<Entry>, nat)>)
    requires start <= |b|
    ensures r.None? ==> GetList(GetEntry, count, b[start..]) == None
    ensures r.Some? ==> r.value.1 <= |b| && GetList(GetEntry, count, b[start..]) == Some((r.value.0, b[r.value.1..]))
  {
    hide GetEntry, FromLittleEndian;
    var directory: seq<Entry> := [];
    var p: nat := start;
    var i := 0;
    DirectoryMore([], ([], 0), GetList(GetEntry, count, b[start..]));
    while i < count
      invariant 0 <= i <= count && 0 <= p <= |b|
      invariant GetList(GetEntry, count, b[start..]) == Directory(directory, GetList(GetEntry, count - i, b[p..]))
    {
      EntryAtCursor(b, p);
      if p + 10 > |b| {
        return None;
      }
      var nameLen := FromLittleEndian(b[p..p + 2]);
      var byteLen := FromLittleEndian(b[p + 2..p + 10]);
      p := p + 10;
      if p + nameLen > |b| {
        return None;
      }
      var entry := (b[p..p + nameLen], byteLen);
      p := p + nameLen;
      DirectoryMore(directory, entry, GetList(GetEntry, count - i - 1, b[p..]));
      directory := directory + [entry];
      i := i + 1;
    }
    assert directory + [] == directory;
    return Some((directory, p));
  }

  /** Slices the members off in directory order and refuses a name that comes twice. */
  method SliceMembers(b: bytes, start: nat, directory: seq<Entry>) returns (r: Option<map<str, bytes>>)
    requires start <= |b|
    ensures r == CutMembers(directory, b[start..], map[])
  {
    var members: map<str, bytes> := map[];
    var p: nat := start;
    var i := 0;
    assert directory[0..] == directory;
    while i < |directory|
      invariant 0 <= i <= |directory| && 0 <= p <= |b|
      invariant CutMembers(directory, b[start..], map[]) == CutMembers(directory[i..], b[p..], members)
    {
      var (name, byteLen) := directory[i];
      assert directory[i..][0] == directory[i] && directory[i..][1..] == directory[i + 1..];
      if p + byteLen > |b| || name in members {
        return None;
      }
      assert b[p..][..byteLen] == b[p..p + byteLen] && b[p..][byteLen..] == b[p + byteLen..];
      members := members[name := b[p..p + byteLen]];
      p := p + byteLen;
      i := i + 1;
    }
    if p != |b| {
      return None;
    }
    return Some(members);
  }

  method CollectMembers(b: bytes) returns (r: Option<map<str, bytes>>)
    ensures r == ReadMembers(b)
  {
    hide FromLittleEndian, GetEntry, GetList, CutMembers;
    var n := |PACK_V1_MAGIC|;
    if |b| < n + 4 || b[..n] != PACK_V1_MAGIC {
      return None;
    }
    assert b[n..][..4] == b[n..n + 4] && b[n..][4..] == b[n + 4..];
    var count := FromLittleEndian(b[n..n + 4]);
    if count > (|b| - (n + 4)) / 10 {
      return None;
    }
    var directory := ReadDirectory(b, n + 4, count);
    if directory.None? {
      return None;
    }
    r := SliceMembers(b, directory.value.1, directory.value.0);
  }
}
