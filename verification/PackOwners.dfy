/** The owner table: for every hash row the components built from it, delta coded, each component exactly once. */
module PackOwners {
  import opened Bytes
  import opened PackHashes

  type Ids = seq<u32>

  // ---------------------------------------------------------------- collecting the owners

  /** The positions of `h` in `hashIds`, counted from `from`. */
  function PositionsFrom(hashIds: seq<u32>, h: nat, from: nat): Ids
    requires from + |hashIds| <= MAX_IDS
    decreases |hashIds|
  {
    if hashIds == [] then []
    else (if hashIds[0] == h then [from] else []) + PositionsFrom(hashIds[1..], h, from + 1)
  }

  ghost predicate StrictlyAscending(ids: Ids) { forall i, j :: 0 <= i < j < |ids| ==> ids[i] < ids[j] }

  lemma {:induction false} InPositions(hashIds: seq<u32>, h: nat, from: nat, x: u32)
    requires from + |hashIds| <= MAX_IDS
    ensures x in PositionsFrom(hashIds, h, from) <==> from <= x < from + |hashIds| && hashIds[x - from] == h
    decreases |hashIds|
  {
    if hashIds != [] {
      InPositions(hashIds[1..], h, from + 1, x);
      if from < x < from + |hashIds| { assert hashIds[1..][x - (from + 1)] == hashIds[x - from]; }
    }
  }

  lemma {:induction false} PositionsAscend(hashIds: seq<u32>, h: nat, from: nat)
    requires from + |hashIds| <= MAX_IDS
    ensures StrictlyAscending(PositionsFrom(hashIds, h, from))
    decreases |hashIds|
  {
    if hashIds != [] {
      PositionsAscend(hashIds[1..], h, from + 1);
      var rest := PositionsFrom(hashIds[1..], h, from + 1);
      forall j | 0 <= j < |rest| ensures from < rest[j] { InPositions(hashIds[1..], h, from + 1, rest[j]); }
    }
  }

  /** Row `h` lists the components whose hash id is `h`. */
  function OwnerTable(hashIds: seq<u32>, hashCount: nat): (r: seq<Ids>)
    requires |hashIds| <= MAX_IDS
    ensures |r| == hashCount && forall h :: 0 <= h < hashCount ==> r[h] == PositionsFrom(hashIds, h, 0)
  {
    seq(hashCount, h requires 0 <= h < hashCount => PositionsFrom(hashIds, h, 0))
  }

  // ---------------------------------------------------------------- delta coding

  /** Each id as the difference from the one before; the first one as itself. */
  function Deltas(ids: Ids, previous: u32): Ids
    requires StrictlyAscending(ids) && (ids != [] ==> previous <= ids[0])
    decreases |ids|
  {
    if ids == [] then [] else [ids[0] - previous] + Deltas(ids[1..], ids[0])
  }

  /** The ids a row of differences stands for; refused unless they ascend and stay below `limit`. */
  function FromDeltas(deltas: Ids, last: Option<u32>, limit: nat): Option<Ids>
    decreases |deltas|
  {
    if deltas == [] then Some([])
    else
      var id: nat := if last.None? then deltas[0] else last.value + deltas[0];
      if id >= MAX_IDS || id >= limit || (last.Some? && id <= last.value) then None
      else
        var rest :- FromDeltas(deltas[1..], Some(id), limit);
        Some([id] + rest)
  }

  lemma TailAscends(ids: Ids)
    requires StrictlyAscending(ids) && ids != []
    ensures StrictlyAscending(ids[1..]) && (|ids| > 1 ==> ids[0] < ids[1])
  {
  }

  lemma {:induction false} DeltasReadBack(ids: Ids, last: Option<u32>, limit: nat)
    requires StrictlyAscending(ids) && forall i :: 0 <= i < |ids| ==> ids[i] < limit
    requires last.Some? && ids != [] ==> last.value < ids[0]
    ensures var previous := match last case None => 0 case Some(v) => v;
      |Deltas(ids, previous)| == |ids| && FromDeltas(Deltas(ids, previous), last, limit) == Some(ids)
    decreases |ids|
  {
    if ids != [] {
      TailAscends(ids);
      hide StrictlyAscending;
      DeltasReadBack(ids[1..], Some(ids[0]), limit);
      var previous := match last case None => 0 case Some(v) => v;
      assert Deltas(ids, previous)[1..] == Deltas(ids[1..], ids[0]);
      assert ids == [ids[0]] + ids[1..];
    }
  }

  /** What the parser accepts ascends below the limit. */
  lemma {:induction false} FromDeltasAscends(deltas: Ids, last: Option<u32>, limit: nat)
    requires FromDeltas(deltas, last, limit).Some?
    ensures var ids := FromDeltas(deltas, last, limit).value;
      && StrictlyAscending(ids) && (forall i :: 0 <= i < |ids| ==> ids[i] < limit)
      && (last.Some? ==> forall i :: 0 <= i < |ids| ==> last.value < ids[i])
    decreases |deltas|
  {
    if deltas != [] {
      var id: u32 := if last.None? then deltas[0] else last.value + deltas[0];
      FromDeltasAscends(deltas[1..], Some(id), limit);
    }
  }

  function AllDeltas(owners: seq<Ids>): seq<Ids>
    requires forall o :: o in owners ==> StrictlyAscending(o)
  {
    if owners == [] then [] else assert owners[0] in owners; [Deltas(owners[0], 0)] + AllDeltas(owners[1..])
  }

  function ResolveOwners(rows: seq<Ids>, limit: nat): Option<seq<Ids>>
    decreases |rows|
  {
    if rows == [] then Some([])
    else
      var ids :- FromDeltas(rows[0], None, limit);
      var rest :- ResolveOwners(rows[1..], limit);
      Some([ids] + rest)
  }

  lemma {:induction false} OwnersReadBack(owners: seq<Ids>, limit: nat)
    requires forall o :: o in owners ==> StrictlyAscending(o) && forall i :: 0 <= i < |o| ==> o[i] < limit
    ensures |AllDeltas(owners)| == |owners| && ResolveOwners(AllDeltas(owners), limit) == Some(owners)
    ensures forall h :: 0 <= h < |owners| ==> |AllDeltas(owners)[h]| == |owners[h]|
  {
    if owners != [] {
      assert owners[0] in owners;
      DeltasReadBack(owners[0], None, limit);
      OwnersReadBack(owners[1..], limit);
      assert AllDeltas(owners)[1..] == AllDeltas(owners[1..]);
      assert owners == [owners[0]] + owners[1..];
    }
  }

  lemma {:induction false} ResolvedOwnersAscend(rows: seq<Ids>, limit: nat)
    requires ResolveOwners(rows, limit).Some?
    ensures |ResolveOwners(rows, limit).value| == |rows|
    ensures forall o :: o in ResolveOwners(rows, limit).value ==>
      StrictlyAscending(o) && forall i :: 0 <= i < |o| ==> o[i] < limit
    decreases |rows|
  {
    if rows != [] {
      FromDeltasAscends(rows[0], None, limit);
      ResolvedOwnersAscend(rows[1..], limit);
    }
  }

  // ---------------------------------------------------------------- the ownership bijection

  /** Ids and component hash ids point into their tables. */
  ghost predicate InRange(owners: seq<Ids>, hashIds: seq<u32>, hashes: seq<Hash>) {
    && |owners| == |hashes|
    && (forall o :: o in owners ==> forall i :: 0 <= i < |o| ==> o[i] < |hashIds|)
    && (forall c :: 0 <= c < |hashIds| ==> hashIds[c] < |hashes|)
  }

  /** Every component listed under `h` was built from a row equal to row `h`. */
  ghost predicate Agree(owners: seq<Ids>, hashIds: seq<u32>, hashes: seq<Hash>)
    requires InRange(owners, hashIds, hashes)
  {
    forall h, i :: 0 <= h < |owners| && 0 <= i < |owners[h]| ==> RowsAgree(owners, hashIds, hashes, h, i)
  }

  predicate RowsAgree(owners: seq<Ids>, hashIds: seq<u32>, hashes: seq<Hash>, h: nat, i: nat)
    requires InRange(owners, hashIds, hashes) && h < |owners| && i < |owners[h]|
  {
    assert owners[h] in owners;
    hashes[hashIds[owners[h][i]]] == hashes[h]
  }

  /** No component is listed twice. */
  ghost predicate Once(owners: seq<Ids>) {
    forall h, i, h', i' :: (0 <= h < |owners| && 0 <= i < |owners[h]| && 0 <= h' < |owners| && 0 <= i' < |owners[h']|
      && owners[h][i] == owners[h'][i']) ==> h == h' && i == i'
  }

  ghost predicate Owned(owners: seq<Ids>, c: nat) {
    exists h, i :: 0 <= h < |owners| && 0 <= i < |owners[h]| && owners[h][i] == c
  }

  /** Every component is listed. */
  ghost predicate Cover(owners: seq<Ids>, components: nat) {
    forall c: nat :: c < components ==> Owned(owners, c)
  }

  ghost predicate ValidOwners(owners: seq<Ids>, hashIds: seq<u32>, hashes: seq<Hash>)
    requires InRange(owners, hashIds, hashes)
  {
    Agree(owners, hashIds, hashes) && Once(owners) && Cover(owners, |hashIds|)
  }

  /** Listed before position `i` of row `h`. */
  ghost predicate Seen(owners: seq<Ids>, h: nat, i: nat, c: nat) {
    exists h', i' :: 0 <= h' < |owners| && 0 <= i' < |owners[h']| && owners[h'][i'] == c && (h' < h || (h' == h && i' < i))
  }

  /** No id repeats up to position `i` of row `h`, and the rows up to there agree. */
  ghost predicate SoundBefore(owners: seq<Ids>, hashIds: seq<u32>, hashes: seq<Hash>, h: nat, i: nat)
    requires InRange(owners, hashIds, hashes)
  {
    forall h', i' :: 0 <= h' < |owners| && 0 <= i' < |owners[h']| && (h' < h || (h' == h && i' < i)) ==>
      RowsAgree(owners, hashIds, hashes, h', i') && !Seen(owners, h', i', owners[h'][i'])
  }

  /** Marks each listed component and refuses a second mark, a disagreeing row, and an unmarked component. */
  method ValidateOwners(owners: seq<Ids>, hashIds: seq<u32>, hashes: seq<Hash>) returns (ok: bool)
    requires InRange(owners, hashIds, hashes)
    ensures ok <==> ValidOwners(owners, hashIds, hashes)
  {
    hide RowsAgree;
    var seen := new bool[|hashIds|](_ => false);
    var h := 0;
    while h < |owners|
      invariant 0 <= h <= |owners|
      invariant forall c :: 0 <= c < |hashIds| ==> seen[c] == Seen(owners, h, 0, c)
      invariant SoundBefore(owners, hashIds, hashes, h, 0)
    {
      var ids := owners[h];
      assert ids in owners;
      var i := 0;
      while i < |ids|
        invariant 0 <= i <= |ids|
        invariant forall c :: 0 <= c < |hashIds| ==> seen[c] == Seen(owners, h, i, c)
        invariant SoundBefore(owners, hashIds, hashes, h, i)
      {
        var c := ids[i];
        if seen[c] || !RowsAgree(owners, hashIds, hashes, h, i) {
          Refuses(owners, hashIds, hashes, h, i);
          return false;
        }
        seen[c] := true;
        SeenStep(owners, h, i);
        i := i + 1;
      }
      SeenRow(owners, h);
      h := h + 1;
    }
    SoundMeansOnce(owners, hashIds, hashes);
    var c := 0;
    while c < |hashIds|
      invariant 0 <= c <= |hashIds|
      invariant forall d :: 0 <= d < c ==> seen[d]
    {
      if !seen[c] {
        assert !Seen(owners, |owners|, 0, c);
        NotCovered(owners, |hashIds|, c);
        return false;
      }
      c := c + 1;
    }
    AllCovered(owners, |hashIds|);
    return true;
  }

  lemma {:induction false} SeenStep(owners: seq<Ids>, h: nat, i: nat)
    requires h < |owners| && i < |owners[h]|
    ensures forall c :: Seen(owners, h, i + 1, c) <==> Seen(owners, h, i, c) || c == owners[h][i]
  {
    forall c ensures Seen(owners, h, i + 1, c) <==> Seen(owners, h, i, c) || c == owners[h][i] {
      if c == owners[h][i] { assert Seen(owners, h, i + 1, c); }
    }
  }

  lemma SeenRow(owners: seq<Ids>, h: nat)
    requires h < |owners|
    ensures forall c :: Seen(owners, h + 1, 0, c) <==> Seen(owners, h, |owners[h]|, c)
  {
  }

  lemma {:induction false} Refuses(owners: seq<Ids>, hashIds: seq<u32>, hashes: seq<Hash>, h: nat, i: nat)
    requires InRange(owners, hashIds, hashes) && h < |owners| && i < |owners[h]|
    requires Seen(owners, h, i, owners[h][i]) || !RowsAgree(owners, hashIds, hashes, h, i)
    ensures !ValidOwners(owners, hashIds, hashes)
  {
    hide RowsAgree;
  }

  lemma {:induction false} SoundMeansOnce(owners: seq<Ids>, hashIds: seq<u32>, hashes: seq<Hash>)
    requires InRange(owners, hashIds, hashes) && SoundBefore(owners, hashIds, hashes, |owners|, 0)
    ensures Agree(owners, hashIds, hashes) && Once(owners)
  {
    hide RowsAgree;
    forall h, i, h', i' | 0 <= h < |owners| && 0 <= i < |owners[h]| && 0 <= h' < |owners| && 0 <= i' < |owners[h']|
      && owners[h][i] == owners[h'][i']
      ensures h == h' && i == i'
    {
      NotEarlier(owners, hashIds, hashes, h, i, h', i');
      NotEarlier(owners, hashIds, hashes, h', i', h, i);
    }
  }

  lemma {:induction false} NotEarlier(owners: seq<Ids>, hashIds: seq<u32>, hashes: seq<Hash>, h: nat, i: nat, h': nat, i': nat)
    requires InRange(owners, hashIds, hashes) && SoundBefore(owners, hashIds, hashes, |owners|, 0)
    requires h < |owners| && i < |owners[h]| && h' < |owners| && i' < |owners[h']| && owners[h][i] == owners[h'][i']
    ensures !(h' < h || (h' == h && i' < i))
  {
    hide RowsAgree;
  }

  lemma OwnedMeansSeen(owners: seq<Ids>, c: nat)
    ensures Owned(owners, c) <==> Seen(owners, |owners|, 0, c)
  {
  }

  lemma {:induction false} NotCovered(owners: seq<Ids>, components: nat, c: nat)
    requires c < components && !Seen(owners, |owners|, 0, c)
    ensures !Cover(owners, components)
  {
    OwnedMeansSeen(owners, c);
  }

  lemma {:induction false} AllCovered(owners: seq<Ids>, components: nat)
    requires forall c :: 0 <= c < components ==> Seen(owners, |owners|, 0, c)
    ensures Cover(owners, components)
  {
    forall c: nat | c < components ensures Owned(owners, c) { assert Seen(owners, |owners|, 0, c); }
  }

  /** The owners collected from the components' own hash ids are a valid table. */
  lemma {:induction false} OwnerTableValid(hashIds: seq<u32>, hashes: seq<Hash>)
    requires |hashIds| <= MAX_IDS && forall c :: 0 <= c < |hashIds| ==> hashIds[c] < |hashes|
    ensures var owners := OwnerTable(hashIds, |hashes|);
      && InRange(owners, hashIds, hashes) && ValidOwners(owners, hashIds, hashes)
      && forall o :: o in owners ==> StrictlyAscending(o)
  {
    var owners := OwnerTable(hashIds, |hashes|);
    forall h | 0 <= h < |owners|
      ensures StrictlyAscending(owners[h]) && forall x: u32 :: x in owners[h] <==> x < |hashIds| && hashIds[x] == h
    {
      PositionsAscend(hashIds, h, 0);
      forall x: u32 ensures x in owners[h] <==> x < |hashIds| && hashIds[x] == h { InPositions(hashIds, h, 0, x); }
    }
    hide PositionsFrom;
    forall h, i | 0 <= h < |owners| && 0 <= i < |owners[h]| ensures owners[h][i] < |hashIds| && hashIds[owners[h][i]] == h {
      assert owners[h][i] in owners[h];
    }
    forall c: nat | c < |hashIds| ensures Owned(owners, c) { assert c in owners[hashIds[c]]; }
  }
}
