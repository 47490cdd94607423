/** The engine's state machine: buffering, planned, finished; and the overlay read that completes a deferral. */
module VariantEngine {
  import opened Bytes
  import opened Variants
  import opened Patches
  import opened Sources
  import FixHeader
  import HeaderRepair
  import N64
  import Hashers

  // ---------------------------------------------------------------- the planned set

  /** The active variants, all fed the same stream. */
  class PlannedVariants {
    ghost const config: Config
    ghost const plan: Plan
    const raw: VariantHasher
    const removeHeader: VariantHasher?
    const fix: FixHeader.FixHeader?
    const orders: seq<VariantHasher>
    ghost var seen: bytes
    ghost const Repr: set<object>

    ghost function EachHasher(): Hasher { NewHasher(config.algorithms, Share(config, plan)) }

    ghost predicate Streams(v: VariantHasher, t: Transform, h: Option<Hasher>)
      reads this, v
    {
      v.Valid() && v.seen == seen && v.transform == t && v.fresh0 == h
    }

    ghost predicate RawPart()
      reads this, Repr
    {
      raw in Repr && Streams(raw, Raw, RawHasher(config, Share(config, plan))) && raw.known == Known(config)
    }

    ghost predicate RemovePart()
      reads this, Repr
    {
      (plan.removal.Some? <==> removeHeader != null)
      && (removeHeader != null ==>
            (removeHeader in Repr && removeHeader != raw && removeHeader.known == map[]
             && Streams(removeHeader, RemoveHeader(plan.removal.value), Some(EachHasher()))))
    }

    ghost predicate FixPart()
      reads this, Repr, if fix == null then {} else fix.Repr
    {
      (plan.repairs.Some? <==> fix != null)
      && (fix != null ==>
            (fix in Repr && fix.Repr <= Repr && fix.Valid() && fix.seen == seen
             && fix.repairs == plan.repairs.value && fix.fresh0 == EachHasher()))
    }

    ghost predicate OrdersPart()
      reads this, Repr
    {
      |orders| == (if plan.order.Some? then |N64.ALL_ORDERS| else 0)
      && (forall i :: 0 <= i < |orders| ==>
            orders[i] in Repr && orders[i].known == map[]
            && Streams(orders[i], ChangeOrder(plan.order.value, N64.ALL_ORDERS[i]), Some(EachHasher())))
    }

    /** No two variants share state. */
    ghost predicate Apart()
      reads this
    {
      && Distinct(orders)
      && (forall i :: 0 <= i < |orders| ==> orders[i] != raw && orders[i] != removeHeader)
      && (fix != null ==>
            (this !in fix.Repr && raw !in fix.Repr && removeHeader !in fix.Repr
             && forall i :: 0 <= i < |orders| ==> orders[i] !in fix.Repr))
    }

    ghost predicate Valid()
      reads this, Repr, if fix == null then {} else fix.Repr
    {
      this in Repr && RawPart() && RemovePart() && FixPart() && OrdersPart() && Apart()
    }

    constructor (c: Config, p: Plan, rawVariant: VariantHasher, remove: VariantHasher?, fixed: FixHeader.FixHeader?,
                 reordered: seq<VariantHasher>)
      requires IsVariant(rawVariant, Raw, RawHasher(c, Share(c, p)), Known(c))
      requires p.removal.Some? <==> remove != null
      requires remove != null ==>
        (remove != rawVariant
         && IsVariant(remove, RemoveHeader(p.removal.value), Some(NewHasher(c.algorithms, Share(c, p))), map[]))
      requires p.repairs.Some? <==> fixed != null
      requires fixed != null ==>
        (fixed.Valid() && fixed.seen == [] && fixed.repairs == p.repairs.value
         && fixed.fresh0 == NewHasher(c.algorithms, Share(c, p))
         && rawVariant !in fixed.Repr && remove !in fixed.Repr)
      requires |reordered| == if p.order.Some? then |N64.ALL_ORDERS| else 0
      requires Distinct(reordered)
      requires forall i :: 0 <= i < |reordered| ==>
        (IsVariant(reordered[i], ChangeOrder(p.order.value, N64.ALL_ORDERS[i]), Some(NewHasher(c.algorithms, Share(c, p))), map[])
         && reordered[i] != rawVariant && reordered[i] != remove && (fixed != null ==> reordered[i] !in fixed.Repr))
      ensures Valid() && seen == [] && config == c && plan == p
      ensures Repr == {this, rawVariant} + (set v | v in reordered) + (if remove == null then {} else {remove})
                      + (if fixed == null then {} else fixed.Repr)
    {
      hide Share, RawHasher, NewHasher, Known, VariantHasher.Valid, Distinct;
      config, plan, seen := c, p, [];
      raw, removeHeader, fix, orders := rawVariant, remove, fixed, reordered;
      ghost var removeRepr: set<object> := if remove == null then {} else {remove};
      ghost var fixRepr: set<object> := if fixed == null then {} else fixed.Repr;
      Repr := {this, rawVariant} + (set v | v in reordered) + removeRepr + fixRepr;
    }

    /** The hashers the variants have now. */
    ghost function Hashers(): (hs: seq<Option<Hasher>>)
      reads this, raw, removeHeader, fix, orders
      ensures |hs| == 1 + (if removeHeader == null then 0 else 1) + (if fix == null then 0 else 1) + |orders|
    {
      [raw.checksum]
      + (if removeHeader == null then [] else [removeHeader.checksum])
      + (if fix == null then [] else [fix.checksum])
      + seq(|orders|, i requires 0 <= i < |orders| reads this, orders => orders[i].checksum)
    }

    /** At every point of the pass the variants' worker threads together stay within the budget. */
    lemma WithinBudget()
      requires Valid()
      ensures Threads(Hashers()) <= Budget(config)
    {
      hide Share, RawHasher, Known;
      var (now, built) := (Hashers(), Built(config, plan));
      assert |now| == |built|;
      forall i | 0 <= i < |now| && now[i].Some?
        ensures built[i].Some? && now[i].value.threads == built[i].value.threads
      {
      }
      FewerThreads(now, built);
      ThreadsWithinBudget(config, plan);
    }

    method Feed(offset: nat, chunk: bytes)
      requires Valid() && offset == |seen|
      modifies Repr
      ensures Valid() && seen == old(seen) + chunk
    {
      hide VariantHasher.Valid, FixHeader.FixHeader.Valid, RawHasher, Share, Known, NewHasher;
      ghost var before := seen;
      seen := seen + chunk;
      raw.Update(offset, chunk);
      FeedVariant(removeHeader, offset, chunk);
      FeedFix(fix, offset, chunk);
      FeedAll(orders, offset, chunk, before);
      assert RawPart() && RemovePart();
      assert FixPart();
      assert OrdersPart();
    }

    /** The certain variants, announced before any digest is known. */
    method Announce() returns (ids: seq<VariantId>)
      requires Valid()
      ensures ids == PlannedIds(plan)
    {
      TransformIds();
      hide Valid, IdsAfterFix, IdsBeforeFix, IdOf;
      ids := [IdOf(raw.transform)];
      if removeHeader != null {
        ids := ids + [IdOf(removeHeader.transform)];
      }
      ghost var head := ids;
      for i := 0 to |orders|
        invariant ids == head + IdsAfterFix(plan)[..i]
      {
        ids := ids + [IdOf(orders[i].transform)];
      }
    }

    /** The variants' transforms have the planned ids. */
    lemma TransformIds()
      requires Valid()
      ensures IdsBeforeFix(plan)
           == [IdOf(raw.transform)] + (if removeHeader == null then [] else [IdOf(removeHeader.transform)])
      ensures |IdsAfterFix(plan)| == |orders|
      ensures forall i :: 0 <= i < |orders| ==> IdOf(orders[i].transform) == IdsAfterFix(plan)[i]
    {
    }

    method FinalizeHead() returns (rows: seq<Row>)
      requires Valid()
      ensures rows == HeadRows(config, plan, seen)
    {
      var row := raw.Finalize();
      rows := [row];
      if removeHeader != null {
        row := removeHeader.Finalize();
        rows := rows + [row];
      }
    }

    method FinalizeTail() returns (rows: seq<Row>)
      requires Valid()
      ensures rows == TailRows(config, plan, seen)
    {
      rows := [];
      for i := 0 to |orders|
        invariant |rows| == i
        invariant forall j :: 0 <= j < i ==>
          rows[j] == VariantRow(ChangeOrder(plan.order.value, N64.ALL_ORDERS[j]), Some(EachHasher()), map[], seen)
      {
        var row := orders[i].Finalize();
        rows := rows + [row];
      }
    }

    method FinalizeFix() returns (outcome: FixHeader.Outcome)
      requires Valid()
      requires plan.repairs.Some? ==> HeaderRepair.PatchedExtent(plan.repairs.value) <= |seen|
      modifies if fix == null then {} else fix.Repr
      ensures plan.repairs.Some? ==> HeaderRepair.WellPlanned(plan.repairs.value)
      ensures outcome == FixOutcome(config, plan, old(seen))
    {
      outcome := FixHeader.Nothing;
      if fix != null {
        outcome := fix.IntoOutput();
      }
    }
  }

  /** A variant that has not been fed yet. */
  ghost predicate IsVariant(v: VariantHasher, t: Transform, h: Option<Hasher>, known: map<Hashers.Algorithm, string>)
    reads v
  {
    v.Valid() && v.seen == [] && v.transform == t && v.fresh0 == h && v.known == known
  }

  lemma RawHasherUnfed(c: Config, share: nat)
    ensures RawHasher(c, share).Some? ==> RawHasher(c, share).value.fed == []
  {
  }

  /** Builds the variants a plan calls for. */
  method BuildVariants(c: Config, p: Plan) returns (variants: PlannedVariants)
    requires p.repairs.Some? ==>
      (HeaderRepair.WellPlanned(p.repairs.value) && 0 < HeaderRepair.FlushOffset(p.repairs.value)
       && HeaderRepair.PatchedExtent(p.repairs.value) <= HeaderRepair.FlushOffset(p.repairs.value))
    ensures variants.Valid() && fresh(variants.Repr) && variants.seen == []
    ensures variants.config == c && variants.plan == p
  {
    hide *;
    var share := Share(c, p);
    var h := NewHasher(c.algorithms, share);
    hide NewHasher;
    RawHasherUnfed(c, share);
    var raw := NewRaw(RawHasher(c, share), Known(c));
    hide IsVariant, Distinct, PlannedVariants.Valid, FixHeader.FixHeader.Valid;
    var remove := NewRemoval(p.removal, h);
    var fixed := NewFix(p.repairs, h);
    var reordered := NewOrders(p.order, h);
    assert fixed != null ==> raw !in fixed.Repr && remove !in fixed.Repr;
    variants := new PlannedVariants(c, p, raw, remove, fixed, reordered);
  }

  ghost predicate Distinct(vs: seq<VariantHasher>) {
    forall i, j :: 0 <= i < j < |vs| ==> vs[i] != vs[j]
  }

  method NewRaw(h: Option<Hasher>, known: map<Hashers.Algorithm, string>) returns (v: VariantHasher)
    requires h.Some? ==> h.value.fed == []
    ensures fresh(v) && IsVariant(v, Raw, h, known)
  {
    v := new VariantHasher(Raw, h, known);
  }

  method NewRemoval(removal: Option<Removal>, h: Hasher) returns (v: VariantHasher?)
    requires h.fed == []
    ensures removal.Some? <==> v != null
    ensures v != null ==> fresh(v) && IsVariant(v, RemoveHeader(removal.value), Some(h), map[])
  {
    v := null;
    if removal.Some? {
      v := new VariantHasher(RemoveHeader(removal.value), Some(h), map[]);
    }
  }

  method NewFix(repairs: Option<HeaderRepair.Repairs>, h: Hasher) returns (f: FixHeader.FixHeader?)
    requires h.fed == []
    requires repairs.Some? ==>
      (HeaderRepair.WellPlanned(repairs.value) && 0 < HeaderRepair.FlushOffset(repairs.value)
       && HeaderRepair.PatchedExtent(repairs.value) <= HeaderRepair.FlushOffset(repairs.value))
    ensures repairs.Some? <==> f != null
    ensures f != null ==>
      f.Valid() && fresh(f.Repr) && f.seen == [] && f.repairs == repairs.value && f.fresh0 == h
  {
    f := null;
    if repairs.Some? {
      f := new FixHeader.FixHeader(repairs.value, h);
    }
  }

  /** One variant per target order, none of them fed yet. */
  method NewOrders(source: Option<N64.ByteOrder>, h: Hasher) returns (orders: seq<VariantHasher>)
    requires h.fed == []
    ensures |orders| == (if source.Some? then |N64.ALL_ORDERS| else 0) && fresh(orders) && Distinct(orders)
    ensures forall j :: 0 <= j < |orders| ==>
      IsVariant(orders[j], ChangeOrder(source.value, N64.ALL_ORDERS[j]), Some(h), map[])
  {
    orders := [];
    if source.None? {
      return;
    }
    for i := 0 to |N64.ALL_ORDERS|
      invariant |orders| == i && fresh(orders) && Distinct(orders)
      invariant forall j :: 0 <= j < i ==>
        IsVariant(orders[j], ChangeOrder(source.value, N64.ALL_ORDERS[j]), Some(h), map[])
    {
      var v := new VariantHasher(ChangeOrder(source.value, N64.ALL_ORDERS[i]), Some(h), map[]);
      orders := orders + [v];
    }
  }

  method FeedVariant(v: VariantHasher?, offset: nat, chunk: bytes)
    requires v != null ==> v.Valid() && offset == |v.seen|
    modifies v
    ensures v != null ==> v.Valid() && v.seen == old(v.seen) + chunk
  {
    if v != null {
      v.Update(offset, chunk);
    }
  }

  method FeedFix(f: FixHeader.FixHeader?, offset: nat, chunk: bytes)
    requires f != null ==> f.Valid() && offset == |f.seen|
    modifies if f == null then {} else f.Repr
    ensures f != null ==> f.Valid() && f.seen == old(f.seen) + chunk
  {
    if f != null {
      f.Feed(offset, chunk);
    }
  }

  method FeedAll(vs: seq<VariantHasher>, offset: nat, chunk: bytes, ghost before: bytes)
    requires Distinct(vs) && offset == |before|
    requires forall i :: 0 <= i < |vs| ==> vs[i].Valid() && vs[i].seen == before
    modifies vs
    ensures forall i :: 0 <= i < |vs| ==> vs[i].Valid() && vs[i].seen == before + chunk
  {
    for i := 0 to |vs|
      invariant forall j :: 0 <= j < |vs| ==> vs[j].Valid() && vs[j].seen == if j < i then before + chunk else before
    {
      vs[i].Update(offset, chunk);
    }
  }

  // ---------------------------------------------------------------- the engine

  datatype State = Buffering | Planned(variants: PlannedVariants) | Empty

  /** Fed the source in ordered slices; `totalLen` is the length of the whole source. */
  class StreamingVariantChecksums {
    const config: Config
    var consumed: nat
    var headerBuf: bytes
    var state: State
    var planTaken: bool
    ghost var seen: bytes
    /** What was buffered when the plan was made. */
    ghost var planHeader: bytes
    ghost var Repr: set<object>

    ghost function Below(): set<object>
      reads `state
    {
      if state.Planned? then state.variants.Repr else {}
    }

    ghost function BelowFix(): set<object>
      reads `state
    {
      if state.Planned? && state.variants.fix != null then state.variants.fix.Repr else {}
    }

    /** The variants are those of the stream so far, and have been fed all of it. */
    ghost predicate PlannedInv()
      reads `state, `seen, `planHeader, `Repr, Below() - {this}, BelowFix() - {this}
    {
      && this in Repr && state.Planned? && config.algorithms != []
      && state.variants in Repr && state.variants.Repr <= Repr && this !in state.variants.Repr
      && this !in BelowFix() && state.variants in Below() && state.variants.Valid() && state.variants.seen == seen
      && state.variants.config == config && state.variants.plan == PlanFor(config, planHeader)
      && planHeader <= seen
    }

    ghost predicate Valid()
      reads `state, `seen, `planHeader, `Repr, `consumed, `headerBuf, Below() - {this}, BelowFix() - {this}
    {
      && this in Repr
      && consumed == |seen|
      && match state
         case Buffering => headerBuf == seen && (seen == [] || (|seen| < PLAN_SCAN_BYTES && |seen| < config.totalLen))
         case Empty => config.algorithms == []
         case Planned(_) => PlannedInv() && |planHeader| >= Min(PLAN_SCAN_BYTES, config.totalLen)
    }

    constructor (c: Config)
      ensures Valid() && fresh(Repr) && seen == [] && config == c && !planTaken
    {
      config := c;
      consumed, headerBuf, state, planTaken, seen, planHeader := 0, [], Buffering, false, [], [];
      Repr := {this};
    }

    /** Builds the active variants from the buffered header, then replays the buffer through them. */
    method MakePlan()
      requires this in Repr && state.Buffering? && headerBuf == seen
      modifies this
      ensures if config.algorithms == [] then state == Empty else PlannedInv()
      ensures planHeader == seen
      ensures this in Repr && fresh(Repr - old(Repr)) && fresh(Below()) && fresh(BelowFix())
      ensures seen == old(seen) && consumed == old(consumed) && planTaken == old(planTaken)
    {
      hide PlanFor;
      var header := headerBuf;
      headerBuf, planHeader := [], headerBuf;
      if config.algorithms == [] {
        state := Empty;
        return;
      }
      var plan := PlanFor(config, header);
      PlanWellPlanned(config, header);
      var variants := BuildVariants(config, plan);
      variants.Feed(0, header);
      state := Planned(variants);
      Repr := Repr + variants.Repr;
    }

    method UpdatePlanned(chunk: bytes)
      requires Valid() && state.Planned? && 0 < |chunk|
      modifies Repr
      ensures Valid() && seen == old(seen) + chunk && planTaken == old(planTaken) && Repr == old(Repr)
      ensures planHeader == old(planHeader) && state.Planned?
    {
      hide PlanFor, PlannedVariants.Valid;
      state.variants.Feed(consumed, chunk);
      consumed, seen := consumed + |chunk|, seen + chunk;
    }

    method UpdateBuffering(chunk: bytes)
      requires Valid() && state.Buffering? && 0 < |chunk|
      modifies this
      ensures Valid() && seen == old(seen) + chunk && planTaken == old(planTaken)
      ensures fresh(Repr - old(Repr))
    {
      hide PlanFor;
      headerBuf := headerBuf + chunk;
      consumed, seen := consumed + |chunk|, seen + chunk;
      var scanTarget := Min(PLAN_SCAN_BYTES, config.totalLen);
      if |headerBuf| >= scanTarget || consumed >= config.totalLen {
        MakePlan();
      }
    }

    method Update(chunk: bytes)
      requires Valid()
      modifies Repr
      ensures Valid() && seen == old(seen) + chunk && planTaken == old(planTaken)
      ensures old(state).Planned? ==> state.Planned? && planHeader == old(planHeader)
      ensures fresh(Repr - old(Repr))
    {
      hide PlanFor;
      if chunk == [] {
        return;
      }
      match state {
        case Empty =>
          consumed, seen := consumed + |chunk|, seen + chunk;
        case Buffering =>
          UpdateBuffering(chunk);
        case Planned(_) =>
          UpdatePlanned(chunk);
      }
    }

    /** The announced ids, at most once, and only when the plan is known. */
    method TakePlannedVariants() returns (ids: Option<seq<VariantId>>)
      requires Valid()
      modifies this`planTaken
      ensures Valid() && seen == old(seen) && planHeader == old(planHeader)
      ensures ids.Some? <==> !old(planTaken) && state.Planned?
      ensures ids.Some? ==> ids.value == PlannedIds(PlanFor(config, planHeader))
      ensures ids.Some? && AsAnnounced(config, seen) ==> ids.value == PlannedIds(PlanFor(config, HeaderOf(seen)))
      ensures planTaken == (old(planTaken) || ids.Some?)
    {
      hide PlanFor, PlannedIds, PlannedVariants.Valid;
      if planTaken || !state.Planned? {
        return None;
      }
      planTaken := true;
      if AsAnnounced(config, seen) { PlansAlike(config, planHeader, seen); }
      var announced := state.variants.Announce();
      ids := Some(announced);
    }

    /**
     The answer for the concatenation of the slices, under the plan made from what was buffered of it. Of a stream that
     is as long as announced this is the whole-file definition, whatever the slices were.
     */
    method Finalize() returns (out: Output)
      requires Valid()
      modifies Repr
      ensures PlansFrom(config, planHeader, old(seen)) || config.algorithms == []
      ensures old(state).Planned? ==> planHeader == old(planHeader)
      ensures out == AnswerFrom(config, planHeader, old(seen))
      ensures AsAnnounced(config, old(seen)) ==> out == WholeFile(config, old(seen))
    {
      hide PlanFor, Answer;
      ghost var all := seen;
      if state.Buffering? {
        MakePlan();
      }
      if state.Empty? {
        return Output([], None);
      }
      out := FinishVariants();
      if AsAnnounced(config, all) { PlansAlike(config, planHeader, all); }
    }

    method FinishVariants() returns (out: Output)
      requires PlannedInv()
      modifies Repr
      ensures out == AnswerFrom(config, planHeader, old(seen)) && planHeader == old(planHeader)
    {
      hide PlanFor, HeadRows, TailRows, FixOutcome;
      var v := state.variants;
      PlanWellPlanned(config, planHeader);
      var head := v.FinalizeHead();
      var tail := v.FinalizeTail();
      var fix := v.FinalizeFix();
      out := Output(head + FixRows(fix) + tail, if fix.Deferred? then Some(fix) else None);
    }
  }

  /** Feeds a whole file in any slices. */
  method HashInSlices(c: Config, slices: seq<bytes>) returns (out: Output)
    requires AsAnnounced(c, Concat(slices))
    ensures out == WholeFile(c, Concat(slices))
  {
    hide PlanFor, WholeFile, AsAnnounced;
    var engine := new StreamingVariantChecksums(c);
    for i := 0 to |slices|
      invariant engine.Valid() && fresh(engine.Repr) && engine.config == c
      invariant engine.seen == Concat(slices[..i])
    {
      assert slices[..i + 1] == slices[..i] + [slices[i]];
      ConcatSnoc(slices[..i], slices[i]);
      engine.Update(slices[i]);
    }
    assert slices[..|slices|] == slices;
    out := engine.Finalize();
  }

  // ---------------------------------------------------------------- the overlay read

  /** One patch: skipped where it misses the chunk, else the part of it inside is copied over. */
  method PatchOne(chunk: bytes, start: nat, p: Patch) returns (patched: bytes)
    ensures patched == BlitChunk(chunk, start, p)
  {
    patched := chunk;
    var patchEnd := p.offset + |p.data|;
    if patchEnd <= start || p.offset >= start + |chunk| {
      return;
    }
    var writeStart := if p.offset > start then p.offset - start else 0;
    var sourceStart := if start > p.offset then start - p.offset else 0;
    var writeLen := Min(|p.data| - sourceStart, |chunk| - writeStart);
    patched := chunk[..writeStart] + p.data[sourceStart..sourceStart + writeLen] + chunk[writeStart + writeLen..];
  }

  lemma {:induction false} OverlayStep(file: bytes, patches: PatchMap, i: nat, start: nat, end: nat)
    requires i < |patches| && start <= end <= |file|
    ensures Overlay(file, patches[..i + 1])[start..end]
         == BlitChunk(Overlay(file, patches[..i])[start..end], start, patches[i])
  {
    hide Overlay, Blit, BlitChunk;
    assert patches[..i + 1] == patches[..i] + [patches[i]];
    OverlaySnoc(file, patches[..i], patches[i]);
    BlitSlice(Overlay(file, patches[..i]), start, end, patches[i]);
  }

  /** The chunk at `start` of a file with `patches` applied to the whole file. */
  method PatchChunk(chunk: bytes, start: nat, patches: PatchMap, ghost file: bytes) returns (patched: bytes)
    requires start + |chunk| <= |file| && chunk == file[start..start + |chunk|]
    ensures patched == Overlay(file, patches)[start..start + |chunk|]
  {
    assert Overlay(file, []) == file && patches[..0] == [];
    hide Overlay, Blit, BlitChunk;
    patched := chunk;
    for i := 0 to |patches|
      invariant patched == Overlay(file, patches[..i])[start..start + |chunk|]
    {
      OverlayStep(file, patches, i, start, start + |chunk|);
      patched := PatchOne(patched, start, patches[i]);
    }
    assert patches[..|patches|] == patches;
  }

  /** Hashes the source with a sparse overlay applied, for any read sizes and any patches. */
  method OverlayChecksums(reader: Reader, algorithms: seq<Hashers.Algorithm>, patches: PatchMap, maxThreads: nat)
    returns (hasher: Option<Hasher>)
    modifies reader
    ensures algorithms == [] <==> hasher.None?
    ensures hasher.Some? ==> hasher == Some(NewHasher(algorithms, maxThreads).(fed := Overlay(old(reader.rest), patches)))
  {
    if algorithms == [] {
      return None;
    }
    ghost var file := reader.rest;
    var checksum := NewHasher(algorithms, maxThreads);
    var offset := 0;
    while true
      invariant 0 <= offset <= |file| && reader.rest == file[offset..]
      invariant checksum == NewHasher(algorithms, maxThreads).(fed := Overlay(file, patches)[..offset])
      decreases |file| - offset
    {
      var chunk := reader.Read(1024 * 1024);
      if chunk == [] {
        break;
      }
      assert chunk == file[offset..offset + |chunk|];
      var patched := PatchChunk(chunk, offset, patches, file);
      assert Overlay(file, patches)[..offset] + patched == Overlay(file, patches)[..offset + |chunk|];
      checksum := checksum.(fed := checksum.fed + patched);
      offset := offset + |chunk|;
    }
    assert Overlay(file, patches)[..offset] == Overlay(file, patches);
    hasher := Some(checksum);
  }

  /** Appends the row of a deferred `fix-header`, from one more read of the file. */
  method FinishDeferredFixHeader(rows: seq<Row>, deferred: Option<FixHeader.Outcome>, c: Config, reader: Reader)
    returns (finished: seq<Row>)
    requires c.algorithms != [] && (deferred.Some? ==> deferred.value.Deferred?)
    modifies reader
    ensures finished == rows + (match deferred
      case None => []
      case Some(d) => [Row.Row(FixHeaderId,
                               Some(NewHasher(c.algorithms, Budget(c)).(fed := Overlay(old(reader.rest), d.patches))),
                               map[], Repaired(d.profiles))])
  {
    if deferred.None? {
      return rows;
    }
    var hasher := OverlayChecksums(reader, c.algorithms, deferred.value.patches, Budget(c));
    finished := rows + [Row.Row(FixHeaderId, hasher, map[], Repaired(deferred.value.profiles))];
  }

  // ---------------------------------------------------------------- consequences

  predicate HasFixRow(out: Output) { exists i :: 0 <= i < |out.rows| && out.rows[i].id == FixHeaderId }

  /** In pass or deferred, a repaired file is hashed as the source with its own patches overlaid. */
  lemma {:induction false} FixHeaderHashesRepairedFile(c: Config, p: Plan, data: bytes)
    requires p.repairs.Some? && HeaderRepair.WellPlanned(p.repairs.value)
    ensures var patches := HeaderRepair.Resolve(p.repairs.value, data);
      var out := Answer(c, p, data);
      && (HasFixRow(out) <==> patches != [] && !HeaderRepair.DefersDigest(p.repairs.value))
      && (out.deferred.Some? <==> patches != [] && HeaderRepair.DefersDigest(p.repairs.value))
      && (forall i :: 0 <= i < |out.rows| && out.rows[i].id == FixHeaderId ==>
            out.rows[i].hasher == Some(NewHasher(c.algorithms, Share(c, p)).(fed := Overlay(data, patches))))
      && (out.deferred.Some? ==> out.deferred.value.patches == patches)
  {
    hide NewHasher, Share, HeaderRepair.Resolve, RawHasher, Transformed, HeaderRepair.RepairedProfiles, Overlay;
    var head, fix, tail := HeadRows(c, p, data), FixRows(FixOutcome(c, p, data)), TailRows(c, p, data);
    var rows := Answer(c, p, data).rows;
    assert forall i :: 0 <= i < |head| ==> head[i].id != FixHeaderId;
    assert forall i :: 0 <= i < |tail| ==> tail[i].id != FixHeaderId;
    if fix != [] { assert rows[|head|] == fix[0]; }
  }
}
