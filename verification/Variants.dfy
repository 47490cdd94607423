/**
 The streaming variant engine: from one pass over a file, however it is sliced, the digests of the
 file as it is, without its copier header, with its header checksums repaired, and in each N64 order.
 */
module Variants {
  import opened Bytes
  import opened Hashers
  import opened Patches
  import opened RomHeaders
  import opened Sources
  import HeaderRepair
  import FixHeader
  import N64

  const PLAN_SCAN_BYTES: nat := ROM_HEADER_SCAN_BYTES
  const STREAMING_PARALLEL_THRESHOLD: nat := 1024 * 1024
  const PBP_MAGIC: bytes := [0x00, 0x50, 0x42, 0x50]

  type Hasher = FixHeader.Hasher

  // ---------------------------------------------------------------- the request

  /** What the engine is asked: algorithms, digests already known for the raw file, size and extension. */
  datatype Config = Config(
    algorithms: seq<Algorithm>,
    precomputed: map<Algorithm, string>,
    totalLen: u64,
    extension: Option<string>,
    hashThreads: nat)

  /** Known digests count only for requested algorithms. */
  function Known(c: Config): map<Algorithm, string> {
    map a | a in c.precomputed && a in c.algorithms :: c.precomputed[a]
  }

  /** Starting threads pays off only from a certain size on. */
  function Budget(c: Config): (b: nat)
    ensures 1 <= b <= Max(c.hashThreads, 1)
  {
    if c.totalLen >= STREAMING_PARALLEL_THRESHOLD then Max(c.hashThreads, 1) else 1
  }

  function Without(algorithms: seq<Algorithm>, known: map<Algorithm, string>): seq<Algorithm> {
    if algorithms == [] then []
    else (if algorithms[0] in known then [] else [algorithms[0]]) + Without(algorithms[1..], known)
  }

  // ---------------------------------------------------------------- the plan

  datatype Removal = Removal(header: Header, stripped: nat, retainOnOutput: bool)

  /** Which variants a header calls for, besides the raw one. */
  datatype Plan = Plan(removal: Option<Removal>, repairs: Option<HeaderRepair.Repairs>, order: Option<N64.ByteOrder>)

  function PlanRemoval(c: Config, header: bytes): Option<Removal> {
    var m := DetectStrippable(header, c.totalLen, c.extension);
    if m.None? || m.value.stripped.None? || c.totalLen < m.value.stripped.value then None
    else
      var stripped := m.value.stripped.value;
      Some(Removal(m.value.header, stripped,
                   RetainedOnOutput(m.value.header) || (stripped <= |header| && HasNsrtMetadata(header[..stripped]))))
  }

  function PlanOrder(c: Config, header: bytes): Option<N64.ByteOrder> {
    if c.totalLen % 4 != 0 then None else N64.Detect(header)
  }

  /** PBP sections are never read as cartridge headers. */
  function PlanFor(c: Config, header: bytes): Plan {
    if SliceIs(header, 0, 4, PBP_MAGIC) then Plan(None, None, None)
    else Plan(PlanRemoval(c, header), HeaderRepair.PlanRepairs(header, c.totalLen), PlanOrder(c, header))
  }

  /** Planning never looks past the scan window. */
  lemma {:induction false} PlanLocal(c: Config, a: bytes, b: bytes)
    requires SameWindow(a, b)
    ensures PlanFor(c, a) == PlanFor(c, b)
  {
    SliceLocal(a, b, 0, 4);
    RemovalLocal(c, a, b);
    HeaderRepair.PlanRepairsLocal(a, b, c.totalLen);
    HeaderRepair.N64DetectLocal(a, b);
  }

  lemma {:induction false} RemovalLocal(c: Config, a: bytes, b: bytes)
    requires SameWindow(a, b)
    ensures PlanRemoval(c, a) == PlanRemoval(c, b)
  {
    DetectStrippableLocal(a, b, c.totalLen, c.extension);
    StrippedSizes(a, c.totalLen, c.extension);
    var m := DetectStrippable(a, c.totalLen, c.extension);
    if m.Some? && m.value.stripped.Some? {
      SliceLocal(a, b, 0, m.value.stripped.value);
      assert a[..m.value.stripped.value] == a[0..m.value.stripped.value];
      assert b[..m.value.stripped.value] == b[0..m.value.stripped.value];
    }
  }

  /** The part of the stream planning is allowed to depend on. */
  function HeaderOf(data: bytes): bytes { data[..Min(|data|, PLAN_SCAN_BYTES)] }

  /** Planning from any buffer that fills the window, or holds the whole file, gives the plan of the file. */
  lemma {:induction false} PlanFromBuffer(c: Config, buffer: bytes, data: bytes)
    requires buffer <= data && (buffer == data || |buffer| >= PLAN_SCAN_BYTES)
    ensures PlanFor(c, buffer) == PlanFor(c, HeaderOf(data))
  {
    if |buffer| >= PLAN_SCAN_BYTES {
      var window := data[..PLAN_SCAN_BYTES];
      assert HeaderOf(data) == window && window[..PLAN_SCAN_BYTES] == window;
      assert buffer[..PLAN_SCAN_BYTES] == window;
      PlanLocal(c, buffer, window);
    } else {
      assert HeaderOf(data) == data;
    }
  }

  // ---------------------------------------------------------------- sharing the threads

  function HashesFix(p: Plan): bool { p.repairs.Some? && !HeaderRepair.DefersDigest(p.repairs.value) }

  /** The variants that hash during the pass. */
  function Active(p: Plan): (n: nat)
    ensures n >= 1
  {
    1 + (if p.removal.Some? then 1 else 0) + (if HashesFix(p) then 1 else 0)
      + (if p.order.Some? then |N64.ALL_ORDERS| else 0)
  }

  function Share(c: Config, p: Plan): nat { Max(Budget(c) / Active(p), 1) }

  /** A hasher with a share of the threads; a share of one hashes inline. */
  function NewHasher(algorithms: seq<Algorithm>, share: nat): (h: Hasher)
    ensures h.fed == [] && h.threads <= share && (share <= 1 ==> h.threads == 0)
  {
    FixHeader.Hasher(algorithms, WorkerCount(|algorithms|, share), [])
  }

  function RawHasher(c: Config, share: nat): Option<Hasher> {
    var rest := Without(c.algorithms, Known(c));
    if rest == [] then None else Some(NewHasher(rest, share))
  }

  /** The hashers of the variants as they are built, the deferred `fix-header` without one. */
  function Built(c: Config, p: Plan): seq<Option<Hasher>> {
    var share := Share(c, p);
    var each := Some(NewHasher(c.algorithms, share));
    [RawHasher(c, share)]
    + (if p.removal.Some? then [each] else [])
    + (if p.repairs.Some? then [if HashesFix(p) then each else None] else [])
    + seq(if p.order.Some? then |N64.ALL_ORDERS| else 0, _ => each)
  }

  /** The worker threads of several hashers. */
  function Threads(hs: seq<Option<Hasher>>): nat {
    if hs == [] then 0
    else Threads(hs[..|hs| - 1]) + (if hs[|hs| - 1].Some? then hs[|hs| - 1].value.threads else 0)
  }

  function CountSome(hs: seq<Option<Hasher>>): nat {
    if hs == [] then 0 else CountSome(hs[..|hs| - 1]) + (if hs[|hs| - 1].Some? then 1 else 0)
  }

  lemma {:induction false} ThreadsBound(hs: seq<Option<Hasher>>, each: nat)
    requires forall i :: 0 <= i < |hs| && hs[i].Some? ==> hs[i].value.threads <= each
    ensures Threads(hs) <= CountSome(hs) * each
  {
    if hs != [] { ThreadsBound(hs[..|hs| - 1], each); }
  }

  lemma {:induction false} CountConcat(a: seq<Option<Hasher>>, b: seq<Option<Hasher>>)
    ensures CountSome(a + b) == CountSome(a) + CountSome(b)
  {
    if b == [] {
      assert a + b == a;
    } else {
      assert (a + b)[..|a + b| - 1] == a + b[..|b| - 1];
      CountConcat(a, b[..|b| - 1]);
    }
  }

  lemma {:induction false} CountAtMost(hs: seq<Option<Hasher>>)
    ensures CountSome(hs) <= |hs|
  {
    if hs != [] { CountAtMost(hs[..|hs| - 1]); }
  }

  /** No more hashers are built than there are variants to share the budget. */
  lemma {:induction false} BuiltCount(c: Config, p: Plan)
    ensures CountSome(Built(c, p)) <= Active(p)
  {
    var share := Share(c, p);
    var each := Some(NewHasher(c.algorithms, share));
    hide NewHasher, RawHasher, Share, HashesFix;
    var head := [RawHasher(c, share)] + (if p.removal.Some? then [each] else []);
    var fixed := if p.repairs.Some? then [if HashesFix(p) then each else None] else [];
    var tail := seq(if p.order.Some? then |N64.ALL_ORDERS| else 0, _ => each);
    CountConcat(head, fixed);
    CountConcat(head + fixed, tail);
    CountAtMost(head);
    CountAtMost(tail);
    assert CountSome(fixed) <= if HashesFix(p) then 1 else 0 by {
      if p.repairs.Some? { assert fixed[..0] == []; }
      assert HashesFix(p) ==> p.repairs.Some? by { FixIsPlanned(p); }
    }
  }

  lemma FixIsPlanned(p: Plan)
    ensures HashesFix(p) ==> p.repairs.Some?
  {
  }

  lemma {:induction false} BuiltShares(c: Config, p: Plan, i: nat)
    requires i < |Built(c, p)| && Built(c, p)[i].Some?
    ensures Built(c, p)[i].value.threads <= if Share(c, p) > 1 then Share(c, p) else 0
  {
  }

  /** However many variants hash at once, all their threads together stay within the budget. */
  lemma {:induction false} ThreadsWithinBudget(c: Config, p: Plan)
    ensures Threads(Built(c, p)) <= Budget(c)
  {
    var (hs, share, n) := (Built(c, p), Share(c, p), Active(p));
    var each := if share > 1 then share else 0;
    forall i | 0 <= i < |hs| && hs[i].Some? ensures hs[i].value.threads <= each { BuiltShares(c, p, i); }
    ThreadsBound(hs, each);
    BuiltCount(c, p);
    ProductBound(CountSome(hs), n, each);
    if share > 1 { DivisionBound(Budget(c), n); }
  }

  /** From one mebibyte on the whole budget is shared; below it everything is hashed inline. */
  lemma BudgetMeans(c: Config)
    ensures Budget(c) == if c.totalLen >= 0x10_0000 && c.hashThreads > 1 then c.hashThreads else 1
  {
  }

  /** Each hasher gets an even share of the budget, no more threads than it has algorithms, and none for a share of one. */
  lemma {:induction false} SharedEvenly(c: Config, p: Plan, i: nat)
    requires i < |Built(c, p)| && Built(c, p)[i].Some?
    ensures var (hashing, h) := (CountAll(p), Built(c, p)[i].value);
      h.threads == if Budget(c) / hashing <= 1 then 0 else Min(Budget(c) / hashing, |h.algorithms|)
  {
    assert CountAll(p) == Active(p);
    hide Active, CountAll, Budget;
  }

  /** The variants that hash while the file streams by: the raw one and those the plan adds. */
  function CountAll(p: Plan): (n: nat)
    ensures n > 0
  {
    1 + (if p.removal.Some? then 1 else 0) + (if p.order.Some? then 3 else 0)
    + (if p.repairs.Some? && p.repairs.value.sega.None? && HeaderRepair.FlushOffset(p.repairs.value) <= 0x400_0000 then 1 else 0)
  }

  lemma ProductBound(x: nat, y: nat, each: nat)
    requires x <= y
    ensures x * each <= y * each
  {
  }

  /** Hashers that may have been dropped since count for no more than the ones built. */
  lemma {:induction false} FewerThreads(now: seq<Option<Hasher>>, built: seq<Option<Hasher>>)
    requires |now| == |built|
    requires forall i :: 0 <= i < |now| && now[i].Some? ==> built[i].Some? && now[i].value.threads == built[i].value.threads
    ensures Threads(now) <= Threads(built)
  {
    if now != [] { FewerThreads(now[..|now| - 1], built[..|built| - 1]); }
  }

  lemma DivisionBound(x: nat, n: nat)
    requires 0 < n
    ensures n * (x / n) <= x
  {
  }

  // ---------------------------------------------------------------- what each variant hashes

  datatype VariantId = RawId | RemoveHeaderId | FixHeaderId | OrderId(target: N64.ByteOrder)

  datatype Transform =
    | Raw
    | RemoveHeader(removal: Removal)
    | ChangeOrder(source: N64.ByteOrder, target: N64.ByteOrder)

  function IdOf(t: Transform): VariantId {
    match t case Raw => RawId case RemoveHeader(_) => RemoveHeaderId case ChangeOrder(_, target) => OrderId(target)
  }

  /** The transformed file. */
  function Transformed(t: Transform, data: bytes): bytes {
    match t
    case Raw => data
    case RemoveHeader(r) => data[Min(r.stripped, |data|)..]
    case ChangeOrder(source, target) => if source == target then data else N64.Reorder(source, target, data)
  }

  datatype Details = Plain(transform: Transform) | Repaired(profiles: seq<HeaderRepair.Profile>)

  /** One finished variant: the bytes its hasher was fed decide its digests. */
  datatype Row = Row(id: VariantId, hasher: Option<Hasher>, known: map<Algorithm, string>, details: Details)

  datatype Output = Output(rows: seq<Row>, deferred: Option<FixHeader.Outcome>)

  function Fed(h: Option<Hasher>, data: bytes): Option<Hasher> {
    if h.Some? then Some(h.value.(fed := data)) else None
  }

  function VariantRow(t: Transform, h: Option<Hasher>, known: map<Algorithm, string>, data: bytes): Row {
    Row(IdOf(t), Fed(h, Transformed(t, data)), known, Plain(t))
  }

  function OrderRows(source: N64.ByteOrder, targets: seq<N64.ByteOrder>, h: Hasher, data: bytes): seq<Row> {
    seq(|targets|, i requires 0 <= i < |targets| => VariantRow(ChangeOrder(source, targets[i]), Some(h), map[], data))
  }

  function FixOutcome(c: Config, p: Plan, data: bytes): FixHeader.Outcome
    requires p.repairs.Some? ==> HeaderRepair.WellPlanned(p.repairs.value)
  {
    if p.repairs.None? then FixHeader.Nothing
    else FixHeader.Expected(p.repairs.value, data, NewHasher(c.algorithms, Share(c, p)))
  }

  function FixRows(o: FixHeader.Outcome): seq<Row> {
    match o
    case Row(h, profiles) => [Row(FixHeaderId, Some(h), map[], Repaired(profiles))]
    case _ => []
  }

  lemma {:induction false} PlanWellPlanned(c: Config, header: bytes)
    ensures var p := PlanFor(c, header);
      p.repairs.Some? ==>
        (var r := p.repairs.value;
         HeaderRepair.WellPlanned(r) && 0 < HeaderRepair.FlushOffset(r)
         && HeaderRepair.PatchedExtent(r) <= HeaderRepair.FlushOffset(r)
         && HeaderRepair.PatchedExtent(r) <= |header|)
  {
    HeaderRepair.PlanWellPlanned(header, c.totalLen);
  }

  /** The rows reported before and after `fix-header`. */
  function HeadRows(c: Config, p: Plan, data: bytes): seq<Row> {
    var share := Share(c, p);
    [VariantRow(Raw, RawHasher(c, share), Known(c), data)]
    + (if p.removal.None? then []
       else [VariantRow(RemoveHeader(p.removal.value), Some(NewHasher(c.algorithms, share)), map[], data)])
  }

  function TailRows(c: Config, p: Plan, data: bytes): seq<Row> {
    if p.order.None? then []
    else OrderRows(p.order.value, N64.ALL_ORDERS, NewHasher(c.algorithms, Share(c, p)), data)
  }

  /** The answer for a plan. */
  function Answer(c: Config, p: Plan, data: bytes): Output
    requires p.repairs.Some? ==> HeaderRepair.WellPlanned(p.repairs.value)
  {
    var fix := FixOutcome(c, p, data);
    Output(HeadRows(c, p, data) + FixRows(fix) + TailRows(c, p, data), if fix.Deferred? then Some(fix) else None)
  }

  /** The answer for a stream that was planned from `header`. */
  function AnswerFrom(c: Config, header: bytes, data: bytes): Output {
    PlanWellPlanned(c, header);
    if c.algorithms == [] then Output([], None) else Answer(c, PlanFor(c, header), data)
  }

  /** The whole-file definition of the engine's answer. */
  function WholeFile(c: Config, data: bytes): Output { AnswerFrom(c, HeaderOf(data), data) }

  /** `header` is what was buffered when planning: all of the stream, or enough of it. */
  ghost predicate PlansFrom(c: Config, header: bytes, data: bytes) {
    header <= data && (header == data || |header| >= Min(PLAN_SCAN_BYTES, c.totalLen))
  }

  /** The stream keeps to its announced length, or that length fills the scan window. */
  predicate AsAnnounced(c: Config, data: bytes) { |data| <= c.totalLen || PLAN_SCAN_BYTES <= c.totalLen }

  /** Then it makes no difference how much was buffered. */
  lemma {:induction false} PlansAlike(c: Config, header: bytes, data: bytes)
    requires PlansFrom(c, header, data) && AsAnnounced(c, data)
    ensures PlanFor(c, header) == PlanFor(c, HeaderOf(data)) && AnswerFrom(c, header, data) == WholeFile(c, data)
  {
    assert header == data || |header| >= PLAN_SCAN_BYTES;
    PlanFromBuffer(c, header, data);
    hide PlanFor, Answer;
  }

  /** Past an announced length of nothing, planning from one byte or from four gives different answers. */
  lemma {:induction false} LongerStreamsDiffer(c: Config)
    requires c.totalLen == 0 && c.algorithms != []
    ensures var data: bytes := [0x80, 0x37, 0x12, 0x40];
      && PlansFrom(c, data[..1], data) && PlansFrom(c, data, data)
      && AnswerFrom(c, data[..1], data) != AnswerFrom(c, data, data)
  {
    var data: bytes := [0x80, 0x37, 0x12, 0x40];
    var (few, all) := (PlanFor(c, data[..1]), PlanFor(c, data));
    assert few.order.None?;
    assert all.order.Some? by {
      assert data[..4] == data && data[0..4] == data && data[0] != PBP_MAGIC[0];
      assert N64.Detect(data) == Some(N64.BigEndian);
    }
    AnswerIds(c, few, data);
    AnswerIds(c, all, data);
  }

  function IdsOf(rows: seq<Row>): seq<VariantId> {
    seq(|rows|, i requires 0 <= i < |rows| => rows[i].id)
  }

  function IdsBeforeFix(p: Plan): seq<VariantId> {
    [RawId] + (if p.removal.Some? then [RemoveHeaderId] else [])
  }

  function IdsAfterFix(p: Plan): seq<VariantId> {
    if p.order.None? then []
    else seq(|N64.ALL_ORDERS|, i requires 0 <= i < |N64.ALL_ORDERS| => OrderId(N64.ALL_ORDERS[i]))
  }

  /** The ids announced once the plan is known: every certain variant, never `fix-header`. */
  function PlannedIds(p: Plan): seq<VariantId> { IdsBeforeFix(p) + IdsAfterFix(p) }

  lemma IdsConcat(a: seq<Row>, b: seq<Row>)
    ensures IdsOf(a + b) == IdsOf(a) + IdsOf(b)
  {
  }

  /** The finished rows are the announced ones in the announced order, with at most `fix-header` added. */
  lemma {:induction false} PlannedAreFinished(c: Config, data: bytes)
    requires c.algorithms != []
    ensures var p := PlanFor(c, HeaderOf(data));
      var out := WholeFile(c, data);
      || IdsOf(out.rows) == PlannedIds(p)
      || (IdsOf(out.rows) == IdsBeforeFix(p) + [FixHeaderId] + IdsAfterFix(p) && out.deferred == None)
  {
    PlanWellPlanned(c, HeaderOf(data));
    AnswerIds(c, PlanFor(c, HeaderOf(data)), data);
  }

  lemma {:induction false} AnswerIds(c: Config, p: Plan, data: bytes)
    requires p.repairs.Some? ==> HeaderRepair.WellPlanned(p.repairs.value)
    ensures IdsOf(Answer(c, p, data).rows) == IdsBeforeFix(p) + IdsOf(FixRows(FixOutcome(c, p, data))) + IdsAfterFix(p)
    ensures IdsOf(FixRows(FixOutcome(c, p, data))) == [] || IdsOf(FixRows(FixOutcome(c, p, data))) == [FixHeaderId]
  {
    var head, fixed, tail := HeadRows(c, p, data), FixRows(FixOutcome(c, p, data)), TailRows(c, p, data);
    IdsConcat(head, fixed);
    IdsConcat(head + fixed, tail);
    assert IdsOf(head) == IdsBeforeFix(p);
    assert IdsOf(tail) == IdsAfterFix(p);
  }

  // ---------------------------------------------------------------- what the finished rows hold

  /** The algorithms a row was hashed with. */
  function HashedWith(r: Row): seq<Algorithm> { if r.hasher.None? then [] else r.hasher.value.algorithms }

  lemma {:induction false} WithoutMembers(algorithms: seq<Algorithm>, known: map<Algorithm, string>)
    ensures forall a :: a in Without(algorithms, known) <==> a in algorithms && a !in known
  {
    if algorithms != [] { WithoutMembers(algorithms[1..], known); }
  }

  /** Every requested algorithm is either hashed or known, and no other is. */
  ghost predicate CoversRequest(c: Config, r: Row) {
    && (forall a :: a in c.algorithms <==> a in HashedWith(r) || a in r.known)
    && (forall a :: a in HashedWith(r) ==> a !in r.known)
  }

  /** The raw row takes the digests known beforehand. */
  ghost predicate TakesPrecomputed(c: Config, r: Row) {
    && (forall a :: a in r.known <==> a in c.precomputed && a in c.algorithms)
    && (forall a :: a in r.known ==> r.known[a] == c.precomputed[a])
  }

  /** The bytes a row was hashed over, said of the file itself. */
  ghost predicate HashedOver(c: Config, data: bytes, r: Row) {
    r.hasher.Some? ==>
      match r.id
      case RawId => r.hasher.value.fed == data
      case RemoveHeaderId =>
        var m := DetectStrippable(HeaderOf(data), c.totalLen, c.extension);
        m.Some? && m.value.stripped.Some?
        && r.hasher.value.fed == if m.value.stripped.value <= |data| then data[m.value.stripped.value..] else []
      case FixHeaderId =>
        var plan := HeaderRepair.PlanRepairs(HeaderOf(data), c.totalLen);
        plan.Some? && HeaderRepair.WellPlanned(plan.value)
        && r.hasher.value.fed == Overlay(data, HeaderRepair.Resolve(plan.value, data))
      case OrderId(target) =>
        var order := N64.Detect(HeaderOf(data));
        order.Some?
        && r.hasher.value.fed == if order.value == target then data else N64.Reorder(order.value, target, data)
  }

  /** Rows other than the raw one hash every requested algorithm. */
  ghost predicate RowIsFull(c: Config, data: bytes, r: Row) {
    && CoversRequest(c, r) && HashedOver(c, data, r)
    && (r.id == RawId ==> TakesPrecomputed(c, r))
    && (r.id != RawId ==> r.known == map[] && r.hasher.Some? && HashedWith(r) == c.algorithms)
  }

  lemma {:induction false} RawRowFull(c: Config, share: nat, data: bytes)
    ensures RowIsFull(c, data, VariantRow(Raw, RawHasher(c, share), Known(c), data))
  {
    WithoutMembers(c.algorithms, Known(c));
    hide Without;
  }

  lemma {:induction false} HeadRowsFull(c: Config, data: bytes, r: Row)
    requires r in HeadRows(c, PlanFor(c, HeaderOf(data)), data)
    ensures RowIsFull(c, data, r)
  {
    var p := PlanFor(c, HeaderOf(data));
    RawRowFull(c, Share(c, p), data);
    hide Share, RawHasher, Known, DetectStrippable, HeaderOf;
  }

  lemma {:induction false} TailRowsFull(c: Config, data: bytes, r: Row)
    requires r in TailRows(c, PlanFor(c, HeaderOf(data)), data)
    ensures RowIsFull(c, data, r)
  {
    hide Share, HeaderOf, N64.Reorder;
  }

  lemma {:induction false} FixRowsFull(c: Config, data: bytes, r: Row)
    requires var p := PlanFor(c, HeaderOf(data)); p.repairs.Some? ==> HeaderRepair.WellPlanned(p.repairs.value)
    requires r in FixRows(FixOutcome(c, PlanFor(c, HeaderOf(data)), data))
    ensures RowIsFull(c, data, r)
  {
    hide Share, HeaderOf, HeaderRepair.Resolve, Overlay, HeaderRepair.PlanRepairs;
  }

  /** In every row of the answer the requested algorithms are all there, over the bytes the row stands for. */
  lemma {:induction false} RowsAreFull(c: Config, data: bytes, i: nat)
    requires i < |WholeFile(c, data).rows|
    ensures RowIsFull(c, data, WholeFile(c, data).rows[i])
  {
    PlanWellPlanned(c, HeaderOf(data));
    var p := PlanFor(c, HeaderOf(data));
    var r := WholeFile(c, data).rows[i];
    var (head, fix, tail) := (HeadRows(c, p, data), FixRows(FixOutcome(c, p, data)), TailRows(c, p, data));
    assert WholeFile(c, data).rows == head + fix + tail;
    assert r in head || r in fix || r in tail;
    hide RowIsFull, PlanFor, HeadRows, FixRows, TailRows, FixOutcome, WholeFile;
    if r in head {
      HeadRowsFull(c, data, r);
    } else if r in fix {
      FixRowsFull(c, data, r);
    } else {
      TailRowsFull(c, data, r);
    }
  }

  // ---------------------------------------------------------------- one variant, streamed

  class VariantHasher {
    const transform: Transform
    const known: map<Algorithm, string>
    const fresh0: Option<Hasher>
    var carry: bytes
    var checksum: Option<Hasher>
    ghost var seen: bytes

    ghost predicate Valid()
      reads this
    {
      && (fresh0.Some? ==> fresh0.value.fed == [])
      && checksum == Fed(fresh0, Transformed(transform, seen))
      && (transform.ChangeOrder? && fresh0.Some? && transform.source != transform.target ==>
            carry == seen[|seen| - |seen| % 4..])
    }

    constructor (transform: Transform, hasher: Option<Hasher>, known: map<Algorithm, string>)
      requires hasher.Some? ==> hasher.value.fed == []
      ensures Valid() && seen == []
      ensures this.transform == transform && this.fresh0 == hasher && this.known == known
    {
      this.transform, this.fresh0, this.known := transform, hasher, known;
      carry, seen, checksum := [], [], hasher;
    }

    method Hash(data: bytes)
      requires checksum.Some?
      modifies this`checksum
      ensures checksum == Some(old(checksum).value.(fed := old(checksum).value.fed + data))
    {
      checksum := Some(checksum.value.(fed := checksum.value.fed + data));
    }

    method Update(offset: nat, chunk: bytes)
      requires Valid() && offset == |seen|
      modifies this
      ensures Valid() && seen == old(seen) + chunk
    {
      ghost var before := seen;
      seen := seen + chunk;
      if checksum.None? {
        return;
      }
      match transform {
        case Raw =>
          Hash(chunk);
        case RemoveHeader(removal) =>
          var chunkEnd := offset + |chunk|;
          if chunkEnd <= removal.stripped {
            assert Transformed(transform, seen) == Transformed(transform, before) == [];
            return;
          }
          var start := Min(if removal.stripped > offset then removal.stripped - offset else 0, |chunk|);
          Hash(chunk[start..]);
          assert Transformed(transform, seen) == Transformed(transform, before) + chunk[start..];
        case ChangeOrder(source, target) =>
          if source == target {
            Hash(chunk);
            return;
          }
          UpdateOrder(chunk, before);
      }
    }

    /** Completes the carried word, transforms every whole word, and carries the rest. */
    method UpdateOrder(chunk: bytes, ghost before: bytes)
      requires transform.ChangeOrder? && transform.source != transform.target && checksum.Some? && fresh0.Some?
      requires fresh0.value.fed == [] && seen == before + chunk && carry == before[|before| - |before| % 4..]
      requires checksum == Fed(fresh0, Transformed(transform, before))
      modifies this`carry, this`checksum
      ensures Valid()
    {
      var buffer := carry + chunk;
      var full := |buffer| - |buffer| % 4;
      var transformed := ReorderWords(transform.source, transform.target, buffer[..full]);
      carry := buffer[full..];
      Hash(transformed);
      CarryOver(transform.source, transform.target, before, chunk);
    }

    method Finalize() returns (row: Row)
      requires Valid()
      ensures row == VariantRow(transform, fresh0, known, seen)
    {
      row := Row(IdOf(transform), checksum, known, Plain(transform));
    }
  }

  method ReorderWords(source: N64.ByteOrder, target: N64.ByteOrder, buffer: bytes) returns (transformed: bytes)
    requires |buffer| % 4 == 0
    ensures transformed == N64.Reorder(source, target, buffer)
  {
    transformed := [];
    var pos := 0;
    while pos < |buffer|
      invariant 0 <= pos <= |buffer| && pos % 4 == 0
      invariant transformed == N64.Reorder(source, target, buffer[..pos])
    {
      var word: N64.word := buffer[pos..pos + 4];
      N64.ReorderAppend(source, target, buffer[..pos], word);
      assert buffer[..pos + 4] == buffer[..pos] + word;
      transformed := transformed + N64.ReorderWord(source, target, word);
      pos := pos + 4;
    }
    assert buffer[..pos] == buffer;
  }

  /** Reordering what was carried together with the next chunk continues the reorder of the stream. */
  lemma {:induction false} CarryOver(source: N64.ByteOrder, target: N64.ByteOrder, before: bytes, chunk: bytes)
    ensures var carry := before[|before| - |before| % 4..];
      var buffer, seen := carry + chunk, before + chunk;
      var full := |buffer| - |buffer| % 4;
      && N64.Reorder(source, target, seen)
         == N64.Reorder(source, target, before) + N64.Reorder(source, target, buffer[..full])
      && buffer[full..] == seen[|seen| - |seen| % 4..]
  {
    hide N64.Reorder;
    var k := |before| - |before| % 4;
    var whole, buffer, seen := before[..k], before[k..] + chunk, before + chunk;
    var full := |buffer| - |buffer| % 4;
    assert seen == whole + buffer;
    N64.ReorderWhole(source, target, before);
    N64.ReorderWhole(source, target, seen);
    N64.ReorderAppend(source, target, whole, buffer[..full]);
    assert |seen| % 4 == |buffer| % 4;
    assert seen[..|seen| - |seen| % 4] == whole + buffer[..full];
  }
}
