/**
 The streaming checksum: chunks pushed one after the other are hashed inline, or by worker threads that share the
 algorithms between them. In any interleaving of those threads the digests are those of all bytes pushed.
 */
module StreamingChecksum {
  import opened Bytes
  import opened Hashers
  import opened ChunkWorkers
  import opened Execution

  /** Each worker queues up to two chunks. */
  const QUEUE: nat := 2

  /** Inline, one batch for all algorithms; threaded, a group of algorithms for each worker and the run so far. */
  datatype Inner = Sync(batch: HasherBatch) | Async(groups: seq<seq<Algorithm>>, steps: seq<Step>)

  /** The protocol has come this far with `chunks` sent and the producer back from `send`. */
  ghost predicate Between(groups: seq<seq<Algorithm>>, steps: seq<Step>, chunks: seq<bytes>) {
    var at := Run(Start(|groups|, QUEUE), steps);
    at.Some? && at.value.producer.Idle? && SentBy(steps) == chunks
  }

  class StreamingChecksum {
    const algorithms: seq<Algorithm>
    var inner: Inner
    ghost var pushed: seq<bytes>

    ghost function Below(): set<object>
      reads `inner
    {
      if inner.Sync? then {inner.batch} else {}
    }

    ghost predicate Valid()
      reads this, Below()
    {
      match inner
      case Sync(batch) => batch.Valid() && batch.algorithms == algorithms && batch.fed == Concat(pushed)
      case Async(groups, steps) => Shares(groups, algorithms) && Between(groups, steps, pushed)
    }

    /** How many worker threads were started. */
    function Workers(): nat
      reads this
    {
      match inner case Sync(_) => 0 case Async(groups, _) => |groups|
    }

    /** For a budget of more than one, the algorithms are dealt out to that many workers or fewer. */
    constructor (algorithms: seq<Algorithm>, maxThreads: nat)
      requires algorithms != []
      ensures Valid() && fresh(Below()) && pushed == [] && this.algorithms == algorithms
      ensures Workers() == WorkerCount(|algorithms|, maxThreads)
    {
      this.algorithms, pushed := algorithms, [];
      if maxThreads > 1 {
        var groups := RoundRobinGroups(algorithms, maxThreads);
        inner := Async(groups, []);
        DealtShares(groups, algorithms);
      } else {
        var batch := new HasherBatch(algorithms);
        inner := Sync(batch);
      }
    }

    /** `schedule` is whatever the producer and the workers do until `send` returns. */
    method Update(chunk: bytes, schedule: seq<Step>)
      requires Valid()
      requires inner.Async? ==> Between(inner.groups, inner.steps + schedule, pushed + [chunk])
      modifies this, Below()
      ensures Valid() && Below() == old(Below()) && Workers() == old(Workers()) && pushed == old(pushed) + [chunk]
    {
      match inner {
        case Sync(batch) =>
          batch.Update(chunk);
          ConcatSnoc(pushed, chunk);
        case Async(groups, steps) =>
          inner := Async(groups, steps + schedule);
      }
      pushed := pushed + [chunk];
    }

    /** `schedule` is whatever happens from closing the queues until the last worker is joined. */
    method Finalize(schedule: seq<Step>) returns (results: map<Algorithm, Value>)
      requires Valid()
      requires inner.Async? ==>
        var end := Run(Start(|inner.groups|, QUEUE), inner.steps + schedule);
        end.Some? && Finished(end.value) && SentBy(schedule) == []
      ensures results == Expected(algorithms, Concat(pushed))
    {
      match inner {
        case Sync(batch) =>
          results := batch.IntoResults();
        case Async(groups, steps) =>
          SentByAppend(steps, schedule);
          FinishReturnsEverything(|groups|, QUEUE, steps + schedule);
          var end := Run(Start(|groups|, QUEUE), steps + schedule).value;
          results := MergeWorkers(groups, end.producer.results, algorithms, pushed);
      }
    }
  }

  /** What each worker folded, as the digests of its group, all put together in spawn order. */
  method MergeWorkers(groups: seq<seq<Algorithm>>, folded: seq<seq<Chunk>>, algorithms: seq<Algorithm>, ghost pushed: seq<bytes>)
    returns (results: map<Algorithm, Value>)
    requires Shares(groups, algorithms) && |folded| == |groups|
    requires forall i :: 0 <= i < |folded| ==> DataOf(folded[i]) == pushed
    ensures results == Expected(algorithms, Concat(pushed))
  {
    results := map[];
    for i := 0 to |groups|
      invariant forall a :: a in results <==> exists j :: 0 <= j < i && a in groups[j]
      invariant forall a :: a in results ==> results[a] == DigestOf(a, Concat(pushed))
    {
      var batch := FoldChunks(groups[i], folded[i]);
      var part := batch.IntoResults();
      results := results + part;
    }
  }

  /** A worker's hasher once it has folded its chunks. */
  method FoldChunks(group: seq<Algorithm>, chunks: seq<Chunk>) returns (batch: HasherBatch)
    ensures fresh(batch) && batch.Valid() && batch.algorithms == group && batch.fed == Concat(DataOf(chunks))
  {
    batch := new HasherBatch(group);
    for i := 0 to |chunks|
      invariant batch.Valid() && batch.algorithms == group && batch.fed == Concat(DataOf(chunks[..i]))
    {
      batch.Update(chunks[i].data);
      assert DataOf(chunks[..i + 1]) == DataOf(chunks[..i]) + [chunks[i].data];
      ConcatSnoc(DataOf(chunks[..i]), chunks[i].data);
    }
    assert chunks[..|chunks|] == chunks;
  }

  lemma {:induction false} SentByAppend(a: seq<Step>, b: seq<Step>)
    ensures SentBy(a + b) == SentBy(a) + SentBy(b)
  {
    if a == [] {
      assert a + b == b;
    } else {
      assert (a + b)[1..] == a[1..] + b && (a + b)[0] == a[0];
      SentByAppend(a[1..], b);
      var head := if a[0].Begin? then [a[0].data] else [];
      assert head + (SentBy(a[1..]) + SentBy(b)) == (head + SentBy(a[1..])) + SentBy(b);
    }
  }
}
