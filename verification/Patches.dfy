/** Sparse byte patches: an ordered map from offset to bytes, and what applying one to a file means. */
module Patches {
  import opened Bytes

  datatype Patch = Patch(offset: nat, data: bytes)

  /** An ordered map as its iteration sequence: offsets strictly ascending. */
  type PatchMap = seq<Patch>

  predicate Ascending(ps: PatchMap) {
    forall i, j :: 0 <= i < j < |ps| ==> ps[i].offset < ps[j].offset
  }

  predicate HasKey(ps: PatchMap, offset: nat) {
    exists k :: 0 <= k < |ps| && ps[k].offset == offset
  }

  /** Map insertion: in order, replacing an entry with the same offset. */
  function Insert(ps: PatchMap, p: Patch): PatchMap {
    if ps == [] || p.offset < ps[0].offset then [p] + ps
    else if p.offset == ps[0].offset then [p] + ps[1..]
    else [ps[0]] + Insert(ps[1..], p)
  }

  lemma AscendingTail(ps: PatchMap)
    requires Ascending(ps) && ps != []
    ensures Ascending(ps[1..]) && forall q :: q in ps[1..] ==> ps[0].offset < q.offset
  {
  }

  lemma AscendingCons(p: Patch, ps: PatchMap)
    requires Ascending(ps) && forall q :: q in ps ==> p.offset < q.offset
    ensures Ascending([p] + ps)
  {
  }

  /** Insertion keeps the offsets ascending and changes no other entry. */
  lemma {:induction false} InsertIsMap(ps: PatchMap, p: Patch)
    requires Ascending(ps)
    ensures Ascending(Insert(ps, p))
    ensures forall q :: q in Insert(ps, p) <==> q == p || (q in ps && q.offset != p.offset)
  {
    hide Ascending;
    if ps == [] {
      AscendingCons(p, ps);
    } else {
      var (head, tail) := (ps[0], ps[1..]);
      assert ps == [head] + tail;
      AscendingTail(ps);
      if p.offset < head.offset {
        AscendingCons(p, ps);
      } else if p.offset == head.offset {
        AscendingCons(p, tail);
      } else {
        InsertIsMap(tail, p);
        AscendingCons(head, Insert(tail, p));
      }
    }
  }

  /** An offset that falls between two parts of the map is inserted between them. */
  lemma {:induction false} InsertBetween(a: PatchMap, b: PatchMap, p: Patch)
    requires forall i :: 0 <= i < |a| ==> a[i].offset < p.offset
    requires b != [] ==> p.offset < b[0].offset
    ensures Insert(a + b, p) == a + [p] + b
    decreases |a|
  {
    if a == [] {
      assert a + b == b;
    } else {
      assert (a + b)[1..] == a[1..] + b;
      InsertBetween(a[1..], b, p);
      assert [a[0]] + (a[1..] + [p] + b) == a + [p] + b;
    }
  }

  /** `file` with `p` written over it, clipped to the length of the file. */
  function Blit(file: bytes, p: Patch): (r: bytes)
    ensures |r| == |file|
  {
    seq(|file|, i requires 0 <= i < |file| =>
      if p.offset <= i < p.offset + |p.data| then p.data[i - p.offset] else file[i])
  }

  /** `file` with every patch applied in ascending offset order. */
  function Overlay(file: bytes, ps: PatchMap): (r: bytes)
    ensures |r| == |file|
    decreases |ps|
  {
    if ps == [] then file else Overlay(Blit(file, ps[0]), ps[1..])
  }

  lemma {:induction false} OverlaySnoc(file: bytes, ps: PatchMap, p: Patch)
    ensures Overlay(file, ps + [p]) == Blit(Overlay(file, ps), p)
    decreases |ps|
  {
    if ps == [] {
      assert [p][1..] == [];
    } else {
      assert (ps + [p])[1..] == ps[1..] + [p];
      OverlaySnoc(Blit(file, ps[0]), ps[1..], p);
    }
  }

  lemma {:induction false} OverlayConcat(file: bytes, a: PatchMap, b: PatchMap)
    ensures Overlay(file, a + b) == Overlay(Overlay(file, a), b)
    decreases |a|
  {
    if a == [] {
      assert a + b == b;
    } else {
      assert (a + b)[1..] == a[1..] + b;
      OverlayConcat(Blit(file, a[0]), a[1..], b);
    }
  }

  /** Every patch writes inside `[lo, hi)` only. */
  predicate Inside(ps: PatchMap, lo: nat, hi: nat) {
    forall k :: 0 <= k < |ps| ==> lo <= ps[k].offset && ps[k].offset + |ps[k].data| <= hi
  }

  /** A slice outside that range is kept. */
  lemma {:induction false} OverlayMisses(file: bytes, ps: PatchMap, lo: nat, hi: nat, from: nat, to: nat)
    requires Inside(ps, lo, hi) && from <= to <= |file| && (hi <= from || to <= lo)
    ensures Overlay(file, ps)[from..to] == file[from..to]
  {
    forall i | from <= i < to
      ensures Overlay(file, ps)[i] == file[i]
    {
      OverlayUntouched(file, ps, i);
    }
  }

  /** A patch that fits reads back as written. */
  lemma BlitWritten(file: bytes, p: Patch)
    requires p.offset + |p.data| <= |file|
    ensures Blit(file, p)[p.offset..p.offset + |p.data|] == p.data
  {
  }

  /** Bytes outside every patch keep their value. */
  lemma {:induction false} OverlayUntouched(file: bytes, ps: PatchMap, i: nat)
    requires i < |file|
    requires forall k :: 0 <= k < |ps| ==> !(ps[k].offset <= i < ps[k].offset + |ps[k].data|)
    ensures Overlay(file, ps)[i] == file[i]
    decreases |ps|
  {
    if ps != [] { OverlayUntouched(Blit(file, ps[0]), ps[1..], i); }
  }

  /** Where two patches overlap the one with the larger offset wins. */
  lemma {:induction false} OverlayLastWins(file: bytes, ps: PatchMap, k: nat, i: nat)
    requires k < |ps| && i < |file| && ps[k].offset <= i < ps[k].offset + |ps[k].data|
    requires forall j :: k < j < |ps| ==> !(ps[j].offset <= i < ps[j].offset + |ps[j].data|)
    ensures Overlay(file, ps)[i] == ps[k].data[i - ps[k].offset]
    decreases |ps|
  {
    if k == 0 {
      OverlayUntouched(Blit(file, ps[0]), ps[1..], i);
    } else {
      OverlayLastWins(Blit(file, ps[0]), ps[1..], k - 1, i);
    }
  }

  /** Patches that end inside `file` leave whatever follows it alone. */
  lemma {:induction false} OverlayPrefix(file: bytes, more: bytes, ps: PatchMap)
    requires forall k :: 0 <= k < |ps| ==> ps[k].offset + |ps[k].data| <= |file|
    ensures Overlay(file + more, ps) == Overlay(file, ps) + more
    decreases |ps|
  {
    if ps != [] {
      assert Blit(file + more, ps[0]) == Blit(file, ps[0]) + more;
      OverlayPrefix(Blit(file, ps[0]), more, ps[1..]);
    }
  }

  /** One patch applied to the part of a file that starts at `start`, as the chunk loop does it. */
  function BlitChunk(chunk: bytes, start: nat, p: Patch): bytes {
    seq(|chunk|, i requires 0 <= i < |chunk| =>
      if p.offset <= start + i < p.offset + |p.data| then p.data[start + i - p.offset] else chunk[i])
  }

  lemma BlitSlice(file: bytes, start: nat, end: nat, p: Patch)
    requires start <= end <= |file|
    ensures Blit(file, p)[start..end] == BlitChunk(file[start..end], start, p)
  {
  }
}
