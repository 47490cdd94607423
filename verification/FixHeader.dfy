/**
 The `fix-header` variant: hashes the file as it would be with its internal checksums corrected,
 in the same pass that computes the corrections. Bytes are buffered up to the flush offset, patched
 there, and everything after it is hashed live.
 */
module FixHeader {
  import opened Bytes
  import opened Patches
  import opened HeaderRepair
  import opened Accumulators
  import Hashers
  import N64

  /** A streaming hasher: its algorithms, the worker threads it was given, and the bytes fed so far. */
  datatype Hasher = Hasher(algorithms: seq<Hashers.Algorithm>, threads: nat, fed: bytes)

  datatype Outcome =
    | Nothing
    | Row(hasher: Hasher, profiles: seq<Profile>)
    | Deferred(patches: PatchMap, profiles: seq<Profile>)

  /** What the variant must come to, stated on the whole file. */
  function Expected(r: Repairs, data: bytes, hasher: Hasher): Outcome
    requires WellPlanned(r)
  {
    var patches := Resolve(r, data);
    if patches == [] then Nothing
    else if DefersDigest(r) then Deferred(patches, RepairedProfiles(r, patches))
    else Row(hasher.(fed := Overlay(data, patches)), RepairedProfiles(r, patches))
  }

  class FixHeader {
    const repairs: Repairs
    const flushOffset: nat
    const deferred: bool
    const capExceeded: bool
    const sega: SegaAccumulator?
    const n64: N64Accumulator?
    const fresh0: Hasher
    var checksum: Option<Hasher>
    var flushed: bool
    var prefix: bytes
    ghost var seen: bytes
    ghost const Repr: set<object>

    ghost predicate SegaPart()
      reads this, Repr
    {
      (repairs.sega.Some? <==> sega != null)
      && (sega != null ==>
            (sega in Repr && sega.Valid() && sega.seen == seen
             && sega.start == 0x200 && sega.end == repairs.sega.value.end))
    }

    ghost predicate N64Part()
      reads this, Repr
    {
      (repairs.n64.Some? <==> n64 != null)
      && (n64 != null ==>
            (n64 in Repr && n64.Valid() && n64.seen == seen
             && n64.order == repairs.n64.value.order && n64.start == N64_CRC_START && n64.end == N64_CRC_END))
    }

    ghost predicate Parts()
      reads this, Repr
    {
      && this in Repr
      && WellPlanned(repairs) && 0 < flushOffset == FlushOffset(repairs)
      && PatchedExtent(repairs) <= flushOffset
      && deferred == DefersDigest(repairs) && capExceeded == CapExceeded(repairs)
      && fresh0.fed == []
      && SegaPart() && N64Part()
    }

    /** The buffer holds the whole stream until the flush; after it the hash holds the repaired stream. */
    ghost predicate Valid()
      reads this, Repr
    {
      && Parts()
      && (deferred ==> checksum == None && !flushed && prefix == [])
      && (!deferred && !flushed ==> prefix == seen && |seen| < flushOffset && checksum == Some(fresh0))
      && (!deferred && flushed ==> flushOffset <= |seen| && Hashed())
    }

    /** The hash of `head` with `patches` applied; dropped when there is nothing to patch. */
    ghost function HashOf(head: bytes, patches: PatchMap): Option<Hasher> {
      if patches == [] then None else Some(fresh0.(fed := Overlay(head, patches)))
    }

    ghost predicate Hashed()
      reads this
      requires WellPlanned(repairs)
    {
      checksum == HashOf(seen, Resolve(repairs, seen))
    }

    constructor (repairs: Repairs, hasher: Hasher)
      requires WellPlanned(repairs) && 0 < FlushOffset(repairs) && PatchedExtent(repairs) <= FlushOffset(repairs)
      requires hasher.fed == []
      ensures Valid() && fresh(Repr) && seen == []
      ensures this.repairs == repairs && this.fresh0 == hasher
    {
      this.repairs := repairs;
      flushOffset := FlushOffset(repairs);
      capExceeded := CapExceeded(repairs);
      deferred := DefersDigest(repairs);
      checksum := if DefersDigest(repairs) then None else Some(hasher);
      fresh0 := hasher;
      flushed, prefix, seen := false, [], [];
      var s: SegaAccumulator? := null;
      var n: N64Accumulator? := null;
      var parts: set<object> := {};
      if repairs.sega.Some? {
        var sum := new SegaAccumulator(0x200, repairs.sega.value.end);
        s, parts := sum, {sum};
      }
      if repairs.n64.Some? {
        var crc := new N64Accumulator(repairs.n64.value.order, N64_CRC_START, N64_CRC_END);
        n, parts := crc, parts + {crc};
      }
      sega, n64 := s, n;
      Repr := {this} + parts;
    }

    /** The patches from the running sums, inserted one by one, are those the whole stream so far calls for. */
    method ResolvePatches() returns (patches: PatchMap)
      requires Parts()
      ensures patches == Resolve(repairs, seen)
    {
      hide N64.CrcPair, N64.Rounds, N64.WordOriginalOrder, WordSum, Window;
      patches := [];
      if repairs.gba.Some? {
        patches := Insert(patches, Patch(0xBD, [repairs.gba.value.corrected]));
      }
      if sega != null {
        var newChecksum: u16 := sega.sum % 0x1_0000;
        SumLowHalf(WordSum(Window(seen, 0x200, sega.end)));
        if repairs.sega.value.oldChecksum != newChecksum {
          InsertBetween(patches, [], Patch(0x18E, BigEndian16(newChecksum)));
          assert patches + [] == patches;
          patches := Insert(patches, Patch(0x18E, BigEndian16(newChecksum)));
        }
      }
      assert patches == GbaPatches(repairs.gba) + SegaPatches(repairs.sega, seen);
      if n64 != null {
        patches := InsertPair(patches, repairs.n64.value, N64.CrcPair(n64.crc));
      }
    }

    /** The N64 checksums lie in front of every other patch. */
    static method InsertPair(behind: PatchMap, r: N64Repair, pair: (u32, u32)) returns (patches: PatchMap)
      requires behind != [] ==> 0x14 < behind[0].offset
      ensures patches == N64PatchesFor(r, pair) + behind
    {
      var crc1 := Patch(0x10, N64.WordOriginalOrder(r.order, pair.0));
      var crc2 := Patch(0x14, N64.WordOriginalOrder(r.order, pair.1));
      patches := behind;
      ghost var first: PatchMap := if r.oldCrc1 == pair.0 then [] else [crc1];
      if r.oldCrc1 != pair.0 {
        patches := Insert(patches, crc1);
      }
      assert patches == first + behind;
      if r.oldCrc2 != pair.1 {
        InsertBetween(first, behind, crc2);
        patches := Insert(patches, crc2);
      }
    }

    static lemma SumLowHalf(total: nat)
      ensures total % 0x1_0000_0000 % 0x1_0000 == total % 0x1_0000
    {
    }

    /** Patches the buffered prefix and hashes it; with nothing to patch the variant is dropped. */
    method Flush()
      requires Parts() && !deferred && !flushed && checksum == Some(fresh0)
      requires prefix <= seen && PatchedExtent(repairs) <= |prefix|
      modifies this
      ensures Parts() && flushed && seen == old(seen)
      ensures checksum == HashOf(old(prefix), Resolve(repairs, seen))
    {
      hide Resolve, Overlay, Window, WordSum, N64.Rounds, Patches.Ascending;
      var patches := ResolvePatches();
      ResolveShape(repairs, seen);
      if patches == [] {
        checksum, flushed, prefix := None, true, [];
        return;
      }
      PatchPrefix(patches);
      assert fresh0.fed + prefix == prefix;
      checksum := Some(checksum.value.(fed := checksum.value.fed + prefix));
      flushed, prefix := true, [];
    }

    method PatchPrefix(patches: PatchMap)
      requires Parts() && Inside(patches, 0, |prefix|)
      modifies this`prefix
      ensures Parts() && prefix == Overlay(old(prefix), patches)
    {
      var i := 0;
      while i < |patches|
        invariant 0 <= i <= |patches| && Parts()
        invariant prefix == Overlay(old(prefix), patches[..i])
      {
        var p := patches[i];
        assert patches[..i + 1] == patches[..i] + [p];
        OverlaySnoc(old(prefix), patches[..i], p);
        var end := p.offset + |p.data|;
        if end <= |prefix| {
          prefix := prefix[..p.offset] + p.data + prefix[end..];
        }
        i := i + 1;
      }
      assert patches[..i] == patches;
    }

    method FeedSums(offset: nat, chunk: bytes)
      requires Parts() && offset == |seen|
      modifies Repr
      ensures Parts() && seen == old(seen) + chunk
      ensures checksum == old(checksum) && flushed == old(flushed) && prefix == old(prefix)
    {
      if sega != null {
        sega.Feed(offset, chunk);
      }
      if n64 != null {
        n64.Feed(offset, chunk);
      }
      seen := seen + chunk;
    }

    /** Hashes bytes past the flush boundary as they are. */
    method HashLive(rest: bytes, ghost before: bytes)
      requires Parts() && !deferred && flushed && flushOffset <= |before| && seen == before + rest
      requires checksum == HashOf(before, Resolve(repairs, seen))
      modifies this`checksum
      ensures Parts() && Hashed()
    {
      KeepHashing(before, rest);
      if checksum.Some? {
        checksum := Some(checksum.value.(fed := checksum.value.fed + rest));
      }
    }

    method Feed(offset: nat, chunk: bytes)
      requires Valid() && offset == |seen|
      modifies Repr
      ensures Valid() && seen == old(seen) + chunk
    {
      ghost var before := seen;
      FeedSums(offset, chunk);
      if deferred {
        return;
      }
      if flushed {
        KeepHashing(before, chunk);
        HashLive(chunk, before);
        return;
      }
      var chunkEnd := offset + |chunk|;
      if chunkEnd <= flushOffset {
        prefix := prefix + chunk;
        if chunkEnd == flushOffset {
          Flush();
        }
        return;
      }
      // Up to the flush offset the bytes still belong to the prefix; those behind it are hashed as they come.
      var split := flushOffset - offset;
      prefix := prefix + chunk[..split];
      ghost var head := prefix;
      assert seen == head + chunk[split..];
      Flush();
      HashLive(chunk[split..], head);
    }

    /** Past the flush offset the patches no longer change, and the rest of the stream is hashed as it is. */
    lemma {:induction false} KeepHashing(before: bytes, chunk: bytes)
      requires WellPlanned(repairs) && FlushOffset(repairs) <= |before| && PatchedExtent(repairs) <= FlushOffset(repairs)
      ensures Resolve(repairs, before + chunk) == Resolve(repairs, before)
      ensures Overlay(before + chunk, Resolve(repairs, before)) == Overlay(before, Resolve(repairs, before)) + chunk
    {
      ResolveStable(repairs, before, chunk);
      ResolveShape(repairs, before);
      OverlayPrefix(before, chunk, Resolve(repairs, before));
    }

    /** Even when the stream ends before the flush offset the outcome is the one for the bytes seen. */
    method IntoOutput() returns (outcome: Outcome)
      requires Valid() && PatchedExtent(repairs) <= |seen|
      modifies Repr
      ensures outcome == Expected(repairs, old(seen), fresh0)
    {
      var patches := ResolvePatches();
      if patches == [] {
        return Nothing;
      }
      var profiles := RepairedProfiles(repairs, patches);
      if deferred {
        return Deferred(patches, profiles);
      }
      if !flushed {
        Flush();
      }
      if checksum.None? {
        return Nothing;
      }
      return Row(checksum.value, profiles);
    }
  }
}
