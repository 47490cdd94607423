/**
 The execution plans: one pass, one pass fanned out over workers, and chunk partials joined by a
 combine step. Whatever the plan, the thread count, the chunk size and the sizes of the reads, the
 reported values are the digests of exactly the requested range.
 */
module Execution {
  import opened Bytes
  import opened Hashers
  import opened Sources
  import Crc16
  import Adler32

  const MAX_EAGER_MAP_RANGE_BYTES: u64 := 32 * 1024 * 1024
  const MIN_CHUNK_SIZE: nat := 256 * 1024
  const MAX_CHUNK_SIZE: nat := 4 * 1024 * 1024
  const TARGET_CHUNKS_PER_WORKER: nat := 8
  const FANOUT_PARALLEL_THRESHOLD: nat := 8 * 1024 * 1024
  const PARALLEL_THRESHOLD: nat := 32 * 1024 * 1024
  const PARALLEL_MIN_BYTES_PER_THREAD: nat := 16 * 1024 * 1024

  // ---------------------------------------------------------------- chunk sizes

  function Clamp(x: nat, lo: nat, hi: nat): nat
    requires lo <= hi
  {
    if x < lo then lo else if x > hi then hi else x
  }

  function TunedChunkSize(rangeLen: nat, workers: nat): (size: nat)
    ensures 0 < size <= MAX_CHUNK_SIZE
  {
    Clamp(Max(rangeLen / (Max(workers, 1) * TARGET_CHUNKS_PER_WORKER), 1), MIN_CHUNK_SIZE, MAX_CHUNK_SIZE)
  }

  function ParallelChunkSize(rangeLen: nat, workers: nat): (size: nat)
    ensures 0 < size <= MAX_CHUNK_SIZE
  {
    Clamp((rangeLen + Max(workers, 1) - 1) / Max(workers, 1), 1, MAX_CHUNK_SIZE)
  }

  // ---------------------------------------------------------------- one pass

  method ComputeSequentialStream(file: Reader, len: nat, algorithms: seq<Algorithm>, threads: nat)
    returns (r: Option<map<Algorithm, Value>>)
    modifies file
    ensures r.Some? <==> len <= |old(file.rest)|
    ensures r.Some? ==> r.value == Expected(algorithms, old(file.rest)[..len])
  {
    var remaining := len;
    var chunkSize := TunedChunkSize(len, threads);
    var batch := new HasherBatch(algorithms);
    while remaining > 0
      invariant 0 <= remaining <= len && batch.Valid() && fresh(batch)
      invariant batch.algorithms == algorithms
      invariant batch.fed + file.rest == old(file.rest)
      invariant |batch.fed| == len - remaining
    {
      var chunk := file.Read(Min(remaining, chunkSize));
      if chunk == [] {
        return None;
      }
      batch.Update(chunk);
      remaining := remaining - |chunk|;
    }
    PrefixOf(old(file.rest), batch.fed, file.rest);
    var results := batch.IntoResults();
    r := Some(results);
  }

  method ComputeSequentialMapped(data: bytes, algorithms: seq<Algorithm>, threads: nat)
    returns (r: map<Algorithm, Value>)
    ensures r == Expected(algorithms, data)
  {
    var chunkSize := TunedChunkSize(|data|, threads);
    var batch := new HasherBatch(algorithms);
    var pos := 0;
    while pos < |data|
      invariant 0 <= pos <= |data| && batch.Valid() && fresh(batch)
      invariant batch.algorithms == algorithms && batch.fed == data[..pos]
    {
      var end := Min(pos + chunkSize, |data|);
      batch.Update(data[pos..end]);
      assert data[..pos] + data[pos..end] == data[..end];
      pos := end;
    }
    assert data[..pos] == data;
    r := batch.IntoResults();
  }

  // ---------------------------------------------------------------- fan-out

  /** The items that round-robin dealing puts in group `g`, in order. */
  function Dealt<T>(items: seq<T>, groups: nat, g: nat): seq<T>
    requires g < groups
  {
    if items == [] then []
    else
      var front := items[..|items| - 1];
      if (|items| - 1) % groups == g then Dealt(front, groups, g) + [items[|items| - 1]]
      else Dealt(front, groups, g)
  }

  lemma {:induction false} ModuloSmall(n: nat, m: nat)
    requires 0 < m
    ensures n % m <= n
    ensures n < m ==> n % m == n
  {
    if n < m {
      assert n / m == 0;
    }
  }

  /** The groups that received anything are exactly the first `|items|`. */
  lemma {:induction false} DealtNonEmpty<T>(items: seq<T>, groups: nat, g: nat)
    requires g < groups
    ensures Dealt(items, groups, g) != [] <==> g < |items|
  {
    if items != [] {
      var n := |items| - 1;
      DealtNonEmpty(items[..n], groups, g);
      ModuloSmall(n, groups);
    }
  }

  /** Every item is dealt to some group. */
  lemma {:induction false} DealtReaches<T>(items: seq<T>, groups: nat, x: T) returns (g: nat)
    requires 0 < groups && x in items
    ensures g < groups && x in Dealt(items, groups, g)
  {
    var n := |items| - 1;
    if items[n] == x {
      g := n % groups;
    } else {
      assert items == items[..n] + [items[n]];
      g := DealtReaches(items[..n], groups, x);
    }
  }

  /** A group holds nothing but items. */
  lemma {:induction false} DealtFrom<T>(items: seq<T>, groups: nat, g: nat, x: T)
    requires g < groups && x in Dealt(items, groups, g)
    ensures x in items
  {
    var n := |items| - 1;
    if x in Dealt(items[..n], groups, g) {
      DealtFrom(items[..n], groups, g, x);
    }
  }

  /** Deals the items out in turn, to as many groups as get any. */
  method RoundRobinGroups<T(==)>(items: seq<T>, groups: nat) returns (grouped: seq<seq<T>>)
    ensures |grouped| == Min(groups, |items|) || (groups == 0 && items != [] && |grouped| == 1)
    ensures |grouped| <= Max(groups, 1)
    ensures forall g :: 0 <= g < |grouped| ==> grouped[g] == Dealt(items, |grouped|, g) && grouped[g] != []
  {
    var count := Max(Min(groups, |items|), 1);
    var dealt := DealRoundRobin(items, count);
    forall g | 0 <= g < count
      ensures dealt[g] == [] <==> |items| <= g
    {
      DealtNonEmpty(items, count, g);
    }
    grouped := RetainNonEmpty(dealt);
    NonEmptyPrefix(dealt, Min(count, |items|));
    assert dealt[..count] == dealt;
  }

  method DealRoundRobin<T>(items: seq<T>, count: nat) returns (dealt: seq<seq<T>>)
    requires 0 < count
    ensures |dealt| == count
    ensures forall g :: 0 <= g < count ==> dealt[g] == Dealt(items, count, g)
  {
    dealt := seq(count, _ => []);
    var index := 0;
    while index < |items|
      invariant 0 <= index <= |items| && |dealt| == count
      invariant forall g :: 0 <= g < count ==> dealt[g] == Dealt(items[..index], count, g)
    {
      assert items[..index + 1][..index] == items[..index];
      dealt := dealt[index % count := dealt[index % count] + [items[index]]];
      index := index + 1;
    }
    assert items[..index] == items;
  }

  function NonEmpty<T>(groups: seq<seq<T>>): seq<seq<T>> {
    if groups == [] then []
    else NonEmpty(groups[..|groups| - 1])
         + (if groups[|groups| - 1] == [] then [] else [groups[|groups| - 1]])
  }

  lemma {:induction false} NonEmptyPrefix<T>(groups: seq<seq<T>>, k: nat)
    requires k <= |groups|
    requires forall i :: 0 <= i < |groups| ==> (groups[i] != [] <==> i < k)
    ensures NonEmpty(groups) == groups[..k]
  {
    if groups != [] {
      var n := |groups| - 1;
      NonEmptyPrefix(groups[..n], Min(k, n));
      if k == |groups| { assert groups[..k] == groups[..n] + [groups[n]]; }
    }
  }

  method RetainNonEmpty<T(==)>(groups: seq<seq<T>>) returns (kept: seq<seq<T>>)
    ensures kept == NonEmpty(groups)
  {
    kept := [];
    for i := 0 to |groups|
      invariant kept == NonEmpty(groups[..i])
    {
      assert groups[..i + 1][..i] == groups[..i];
      if groups[i] != [] {
        kept := kept + [groups[i]];
      }
    }
    assert groups[..|groups|] == groups;
  }

  /** Feeds one chunk to every worker. */
  method UpdateAll(workers: seq<HasherBatch>, chunk: bytes, ghost fed: bytes)
    requires forall i :: 0 <= i < |workers| ==> workers[i].Valid() && workers[i].fed == fed
    requires forall i, j :: 0 <= i < j < |workers| ==> workers[i] != workers[j]
    modifies workers
    ensures forall i :: 0 <= i < |workers| ==> workers[i].Valid() && workers[i].fed == fed + chunk
  {
    for i := 0 to |workers|
      invariant forall j :: 0 <= j < i ==> workers[j].Valid() && workers[j].fed == fed + chunk
      invariant forall j :: i <= j < |workers| ==> workers[j].Valid() && workers[j].fed == fed
    {
      workers[i].Update(chunk);
    }
  }

  method StartWorkers(algorithms: seq<Algorithm>, count: nat) returns (workers: seq<HasherBatch>)
    requires 0 < count <= Max(|algorithms|, 1)
    ensures fresh(workers)
    ensures forall i :: 0 <= i < |workers| ==> workers[i].Valid() && workers[i].fed == []
    ensures forall i, j :: 0 <= i < j < |workers| ==> workers[i] != workers[j]
    ensures Covers(workers, algorithms)
  {
    var groups := RoundRobinGroups(algorithms, count);
    workers := [];
    for i := 0 to |groups|
      invariant |workers| == i && fresh(workers)
      invariant forall j :: 0 <= j < i ==> workers[j].Valid() && workers[j].fed == [] && workers[j].algorithms == groups[j]
      invariant forall j, k :: 0 <= j < k < i ==> workers[j] != workers[k]
    {
      var worker := new HasherBatch(groups[i]);
      workers := workers + [worker];
    }
    DealtShares(groups, algorithms);
  }

  /** The groups share out the algorithms: each in some group, nothing else in any. */
  ghost predicate Shares(groups: seq<seq<Algorithm>>, algorithms: seq<Algorithm>) {
    && (forall i, a :: 0 <= i < |groups| && a in groups[i] ==> a in algorithms)
    && (forall a :: a in algorithms ==> exists i :: 0 <= i < |groups| && a in groups[i])
  }

  lemma {:induction false} DealtShares(groups: seq<seq<Algorithm>>, algorithms: seq<Algorithm>)
    requires forall g :: 0 <= g < |groups| ==> groups[g] == Dealt(algorithms, |groups|, g)
    requires groups == [] ==> algorithms == []
    ensures Shares(groups, algorithms)
  {
    forall i, a | 0 <= i < |groups| && a in groups[i] ensures a in algorithms { DealtFrom(algorithms, |groups|, i, a); }
    forall a | a in algorithms ensures exists i :: 0 <= i < |groups| && a in groups[i] {
      var g := DealtReaches(algorithms, |groups|, a);
      assert a in groups[g];
    }
  }

  /** Between them the workers compute the requested algorithms and no others. */
  ghost predicate Covers(workers: seq<HasherBatch>, algorithms: seq<Algorithm>) {
    (forall i, a :: 0 <= i < |workers| && a in workers[i].algorithms ==> a in algorithms)
    && (forall a :: a in algorithms ==> exists i :: 0 <= i < |workers| && a in workers[i].algorithms)
  }

  method MergeResults(workers: seq<HasherBatch>, algorithms: seq<Algorithm>, ghost data: bytes)
    returns (results: map<Algorithm, Value>)
    requires forall i :: 0 <= i < |workers| ==> workers[i].Valid() && workers[i].fed == data
    requires Covers(workers, algorithms)
    ensures results == Expected(algorithms, data)
  {
    results := map[];
    for i := 0 to |workers|
      invariant forall a :: a in results <==> exists j :: 0 <= j < i && a in workers[j].algorithms
      invariant forall a :: a in results ==> results[a] == DigestOf(a, data)
    {
      var part := workers[i].IntoResults();
      results := results + part;
    }
  }

  method ComputeFanoutStream(file: Reader, len: nat, algorithms: seq<Algorithm>, threads: nat)
    returns (r: Option<map<Algorithm, Value>>)
    modifies file
    ensures r.Some? <==> len <= |old(file.rest)|
    ensures r.Some? ==> r.value == Expected(algorithms, old(file.rest)[..len])
  {
    hide Covers, Expected;
    var workerCount := Max(Min(threads, |algorithms|), 1);
    var workers := StartWorkers(algorithms, workerCount);
    var remaining := len;
    var chunkSize := TunedChunkSize(len, workerCount);
    ghost var fed: bytes := [];
    while remaining > 0
      invariant 0 <= remaining <= len && fresh(workers)
      invariant forall i :: 0 <= i < |workers| ==> workers[i].Valid() && workers[i].fed == fed
      invariant fed + file.rest == old(file.rest)
      invariant |fed| == len - remaining
    {
      var chunk := file.Read(Min(remaining, chunkSize));
      if chunk == [] {
        return None;
      }
      UpdateAll(workers, chunk, fed);
      fed := fed + chunk;
      remaining := remaining - |chunk|;
    }
    PrefixOf(old(file.rest), fed, file.rest);
    var results := MergeResults(workers, algorithms, fed);
    r := Some(results);
  }

  method ComputeFanoutMapped(data: bytes, algorithms: seq<Algorithm>, threads: nat)
    returns (r: map<Algorithm, Value>)
    ensures r == Expected(algorithms, data)
  {
    var workerCount := Max(Min(threads, |algorithms|), 1);
    var workers := StartWorkers(algorithms, workerCount);
    var chunkSize := TunedChunkSize(|data|, workerCount);
    var pos := 0;
    while pos < |data|
      invariant 0 <= pos <= |data| && fresh(workers)
      invariant forall i :: 0 <= i < |workers| ==> workers[i].Valid() && workers[i].fed == data[..pos]
    {
      var end := Min(pos + chunkSize, |data|);
      UpdateAll(workers, data[pos..end], data[..pos]);
      assert data[..pos] + data[pos..end] == data[..end];
      pos := end;
    }
    assert data[..pos] == data;
    r := MergeResults(workers, algorithms, data);
  }

  // ---------------------------------------------------------------- chunk partials

  /** A partial digest and the number of bytes it covers. */
  type Partial = (Value, nat)

  function ComputePartial(a: Algorithm, chunk: bytes): Partial { (DigestOf(a, chunk), |chunk|) }

  function Partials(a: Algorithm, chunks: seq<bytes>): seq<Partial> {
    seq(|chunks|, i requires 0 <= i < |chunks| => ComputePartial(a, chunks[i]))
  }

  lemma PartialsAppend(a: Algorithm, x: seq<bytes>, y: seq<bytes>)
    ensures Partials(a, x + y) == Partials(a, x) + Partials(a, y)
  {
  }

  method CollectPartialsMapped(a: Algorithm, data: bytes, chunkSize: nat)
    returns (partials: seq<Partial>, ghost chunks: seq<bytes>)
    requires 0 < chunkSize
    ensures Concat(chunks) == data && partials == Partials(a, chunks)
  {
    partials, chunks := [], [];
    var pos := 0;
    while pos < |data|
      invariant 0 <= pos <= |data|
      invariant Concat(chunks) == data[..pos] && partials == Partials(a, chunks)
    {
      var end := Min(pos + chunkSize, |data|);
      ConcatSnoc(chunks, data[pos..end]);
      assert data[..pos] + data[pos..end] == data[..end];
      partials := partials + [ComputePartial(a, data[pos..end])];
      chunks := chunks + [data[pos..end]];
      pos := end;
    }
    assert data[..pos] == data;
  }

  /** Reads up to `batchChunks` chunks; `None` when the source ends before `remaining` bytes. */
  method FillBatch(file: Reader, remaining: nat, batchChunks: nat, chunkSize: nat) returns (r: Option<seq<bytes>>)
    requires 0 < remaining && 0 < batchChunks && 0 < chunkSize
    modifies file
    ensures r.Some? ==> 0 < |Concat(r.value)| <= remaining
    ensures r.Some? ==> Concat(r.value) + file.rest == old(file.rest)
    ensures r.None? ==> |old(file.rest)| < remaining
  {
    var left := remaining;
    var batch: seq<bytes> := [];
    while left > 0 && |batch| < batchChunks
      invariant 0 <= left == remaining - |Concat(batch)|
      invariant Concat(batch) + file.rest == old(file.rest)
      invariant batch != [] ==> 0 < |Concat(batch)|
      decreases left
    {
      var chunk := file.Read(Min(left, chunkSize));
      if chunk == [] {
        return None;
      }
      ConcatSnoc(batch, chunk);
      left := left - |chunk|;
      batch := batch + [chunk];
    }
    r := Some(batch);
  }

  /** One reader fills bounded batches; the partials of a batch are appended in file order. */
  method CollectPartialsStream(a: Algorithm, file: Reader, len: nat, workers: nat)
    returns (r: Option<seq<Partial>>, ghost chunks: seq<bytes>)
    modifies file
    ensures r.Some? <==> len <= |old(file.rest)|
    ensures r.Some? ==> Concat(chunks) == old(file.rest)[..len] && r.value == Partials(a, chunks)
  {
    var chunkSize := ParallelChunkSize(len, workers);
    var batchChunks := Max(workers, 1);
    var remaining: nat := len;
    var partials: seq<Partial> := [];
    chunks := [];
    while remaining > 0
      invariant partials == Partials(a, chunks)
      invariant Concat(chunks) + file.rest == old(file.rest)
      invariant |Concat(chunks)| == len - remaining
    {
      var batch := FillBatch(file, remaining, batchChunks, chunkSize);
      if batch.None? {
        return None, chunks;
      }
      ConcatAppend(chunks, batch.value);
      PartialsAppend(a, chunks, batch.value);
      remaining := remaining - |Concat(batch.value)|;
      partials := partials + Partials(a, batch.value);
      chunks := chunks + batch.value;
    }
    PrefixOf(old(file.rest), Concat(chunks), file.rest);
    r := Some(partials);
  }

  method CombineCrc16Partials(partials: seq<Partial>, ghost chunks: seq<bytes>) returns (crc: bv16)
    requires partials == Partials(Algorithm.Crc16, chunks) && |Concat(chunks)| <= U64_MAX
    ensures crc == Crc16.Digest(Concat(chunks))
  {
    if partials == [] {
      return 0;
    }
    crc := partials[0].0.crc;
    assert Concat(chunks[..1]) == chunks[0];
    for i := 1 to |partials|
      invariant crc == Crc16.Digest(Concat(chunks[..i]))
    {
      assert chunks[..i + 1] == chunks[..i] + [chunks[i]];
      ConcatSnoc(chunks[..i], chunks[i]);
      ConcatPrefix(chunks, i + 1);
      var (value, len) := partials[i];
      crc := Crc16.Crc16ArcCombine(crc, value.crc, len);
      Crc16.DigestAppend(Concat(chunks[..i]), chunks[i]);
      if len == 0 { assert Concat(chunks[..i]) + chunks[i] == Concat(chunks[..i]); }
    }
    assert chunks[..|partials|] == chunks;
  }

  method CombineAdler32Partials(partials: seq<Partial>, ghost chunks: seq<bytes>) returns (adler: u32)
    requires partials == Partials(Algorithm.Adler32, chunks) && |Concat(chunks)| <= U64_MAX
    ensures adler == Adler32.Digest(Concat(chunks))
  {
    if partials == [] {
      return 1;
    }
    adler := partials[0].0.adler;
    assert Concat(chunks[..1]) == chunks[0];
    for i := 1 to |partials|
      invariant adler == Adler32.Digest(Concat(chunks[..i]))
    {
      assert chunks[..i + 1] == chunks[..i] + [chunks[i]];
      ConcatSnoc(chunks[..i], chunks[i]);
      ConcatPrefix(chunks, i + 1);
      Adler32.CombineDigests(Concat(chunks[..i]), chunks[i]);
      var (value, len) := partials[i];
      adler := Adler32.Combine(adler, value.adler, len);
    }
    assert chunks[..|partials|] == chunks;
  }

  /** CRC32 and CRC32C are joined by their libraries, whose combine is the digest of the two blocks. */
  method CombineForeignPartials(a: Algorithm, partials: seq<Partial>, ghost chunks: seq<bytes>)
    returns (value: Value)
    requires a == Crc32 || a == Crc32c
    requires partials == Partials(a, chunks)
    ensures value == DigestOf(a, Concat(chunks))
  {
    var hashed: bytes := [];
    for i := 0 to |partials|
      invariant hashed == Concat(chunks[..i])
    {
      assert chunks[..i + 1] == chunks[..i] + [chunks[i]];
      ConcatSnoc(chunks[..i], chunks[i]);
      hashed := hashed + partials[i].0.hashed;
    }
    assert chunks[..|partials|] == chunks;
    value := ForeignValue(a, hashed);
  }

  method CombinePartials(a: Algorithm, partials: seq<Partial>, ghost chunks: seq<bytes>)
    returns (value: Value)
    requires a in {Crc32, Crc32c, Algorithm.Crc16, Algorithm.Adler32}
    requires partials == Partials(a, chunks) && |Concat(chunks)| <= U64_MAX
    ensures value == DigestOf(a, Concat(chunks))
  {
    match a {
      case Crc16 =>
        var crc := CombineCrc16Partials(partials, chunks);
        value := Crc16Value(crc);
      case Adler32 =>
        var adler := CombineAdler32Partials(partials, chunks);
        value := Adler32Value(adler);
      case _ =>
        value := CombineForeignPartials(a, partials, chunks);
    }
  }

  // ---------------------------------------------------------------- planning

  datatype Mode = Sequential | ParallelFanout | ParallelSingle(algorithm: Algorithm)
  datatype Plan = Plan(mode: Mode, maxThreads: nat)

  function SingleMaxThreads(a: Algorithm): Option<nat> {
    match a
    case Crc32 => Some(4)
    case Crc32c => Some(4)
    case Crc16 => Some(4)
    case Adler32 => Some(4)
    case Blake3 => Some(8)
    case _ => None
  }

  /** The algorithm can be split over threads and the range is long enough for it. */
  predicate SplitsSingle(algorithms: seq<Algorithm>, len: nat) {
    |algorithms| == 1 && SingleMaxThreads(algorithms[0]).Some? && len >= PARALLEL_THRESHOLD
  }

  /**
   One algorithm is split from its threshold on, over at least two threads with a full share of bytes each; several are
   fanned out from theirs on, a thread for each; everything else is sequential.
   */
  function PlanChecksum(algorithms: seq<Algorithm>, len: nat): (p: Plan)
    ensures p.mode.ParallelSingle? <==> SplitsSingle(algorithms, len)
    ensures p.mode.ParallelSingle? ==>
      && p.mode.algorithm == algorithms[0] && 2 <= p.maxThreads <= SingleMaxThreads(algorithms[0]).value
      && p.maxThreads * PARALLEL_MIN_BYTES_PER_THREAD <= len
    ensures p.mode.ParallelFanout? <==> |algorithms| > 1 && len >= FANOUT_PARALLEL_THRESHOLD
    ensures p.mode.ParallelFanout? ==> p.maxThreads == |algorithms|
    ensures p.mode.Sequential? <==> p.maxThreads == 1
  {
    var single :=
      if |algorithms| == 1 && SingleMaxThreads(algorithms[0]).Some? && len >= PARALLEL_THRESHOLD then
        Clamp(len / PARALLEL_MIN_BYTES_PER_THREAD, 1, SingleMaxThreads(algorithms[0]).value)
      else 1;
    if single > 1 then Plan(ParallelSingle(algorithms[0]), single)
    else if |algorithms| > 1 && len >= FANOUT_PARALLEL_THRESHOLD then Plan(ParallelFanout, |algorithms|)
    else Plan(Sequential, 1)
  }

  method ComputeSingleStream(a: Algorithm, file: Reader, len: u64, threads: nat)
    returns (r: Option<map<Algorithm, Value>>)
    requires a in {Crc32, Crc32c, Algorithm.Crc16, Algorithm.Adler32}
    modifies file
    ensures r.Some? <==> len <= |old(file.rest)|
    ensures r.Some? ==> r.value == Expected([a], old(file.rest)[..len])
  {
    var partials, chunks := CollectPartialsStream(a, file, len, Max(threads, 1));
    if partials.None? {
      return None;
    }
    var value := CombinePartials(a, partials.value, chunks);
    r := Some(map[a := value]);
  }

  method ComputeSingleMapped(a: Algorithm, data: bytes, threads: nat)
    returns (r: map<Algorithm, Value>)
    requires a in {Crc32, Crc32c, Algorithm.Crc16, Algorithm.Adler32}
    requires |data| <= U64_MAX
    ensures r == Expected([a], data)
  {
    var partials, chunks := CollectPartialsMapped(a, data, ParallelChunkSize(|data|, Max(threads, 1)));
    var value := CombinePartials(a, partials, chunks);
    r := map[a := value];
  }

  /**
   The dispatch. `threads` is whatever the thread planner granted; a small range is read into memory
   first when the file still holds it, and streamed otherwise.
   */
  method ExecutePlan(file: Reader, len: u64, algorithms: seq<Algorithm>, threads: nat, usedParallelism: bool)
    returns (r: Option<map<Algorithm, Value>>)
    modifies file
    ensures r.Some? <==> len <= |old(file.rest)|
    ensures r.Some? ==> r.value == Expected(algorithms, old(file.rest)[..len])
  {
    var plan := PlanChecksum(algorithms, len);
    var mapped := 0 < len <= MAX_EAGER_MAP_RANGE_BYTES && len <= |file.rest|;
    var data := if mapped then file.rest[..len] else [];
    var sequential := !usedParallelism || threads == 1 || plan.mode.Sequential?;
    if sequential || plan.mode == ParallelSingle(Blake3) {
      // BLAKE3 parallelises inside one hasher that is fed the chunks in order.
      if mapped {
        var results := ComputeSequentialMapped(data, algorithms, threads);
        r := Some(results);
      } else {
        r := ComputeSequentialStream(file, len, algorithms, threads);
      }
    } else if plan.mode == ParallelFanout {
      if mapped {
        var results := ComputeFanoutMapped(data, algorithms, threads);
        r := Some(results);
      } else {
        r := ComputeFanoutStream(file, len, algorithms, threads);
      }
    } else {
      if mapped {
        var results := ComputeSingleMapped(plan.mode.algorithm, data, threads);
        r := Some(results);
      } else {
        r := ComputeSingleStream(plan.mode.algorithm, file, len, threads);
      }
    }
  }
}
