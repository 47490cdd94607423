/**
 The broadcast protocol of the hash workers: one producer hands every chunk to every worker over
 bounded queues, and each worker folds the chunks into its own hasher. Each atomic action of the
 producer and of a worker is a step, so a run is any interleaving.
 */
module ChunkWorkers {
  import opened Bytes

  /** A shared handle: which send it came from, and the bytes behind it. */
  datatype Chunk = Chunk(id: nat, data: bytes)

  /** What a worker holds between taking a chunk off its queue and giving the handle to `done`. */
  datatype Hand = Empty | Received(chunk: Chunk) | Hashed(chunk: Chunk)

  datatype Worker = Worker(queue: seq<Chunk>, hand: Hand, folded: seq<Chunk>, exited: bool)

  datatype Producer =
    | Idle
    | Sending(chunk: Chunk, next: nat, cloned: bool)   // inside `send`, about to fill queue `next`
    | Joining(results: seq<seq<Chunk>>)                // inside `finish`, every queue closed

  datatype State = State(
    capacity: nat,
    workers: seq<Worker>,
    producer: Producer,
    sent: seq<Chunk>,        // every chunk passed to `send`, in order
    refs: seq<nat>,          // the reference count behind each sent chunk
    reclaimed: seq<nat>)     // how often `done` got the buffer of each chunk back

  datatype Step =
    | Begin(data: bytes)
    | Clone
    | Push
    | Close
    | Join
    | Recv(worker: nat)
    | Hash(worker: nat)
    | Done(worker: nat)
    | Exit(worker: nat)

  function Start(workers: nat, capacity: nat): State {
    State(capacity, seq(workers, _ => Worker([], Empty, [], false)), Idle, [], [], [])
  }

  predicate Enabled(s: State, step: Step) {
    var n := |s.workers|;
    match step
    case Begin(_) => s.producer.Idle?
    case Clone => s.producer.Sending? && !s.producer.cloned && s.producer.next + 1 < n
                  && s.producer.chunk.id < |s.refs|
    case Push => s.producer.Sending? && s.producer.next < n
                 && (s.producer.cloned <==> s.producer.next + 1 < n)
                 && |s.workers[s.producer.next].queue| < s.capacity
    case Close => s.producer.Idle?
    case Join => s.producer.Joining? && |s.producer.results| < n && s.workers[|s.producer.results|].exited
    case Recv(i) => i < n && s.workers[i].hand.Empty? && s.workers[i].queue != []
    case Hash(i) => i < n && s.workers[i].hand.Received?
    case Done(i) => i < n && s.workers[i].hand.Hashed?
                    && s.workers[i].hand.chunk.id < |s.refs| == |s.reclaimed|
                    && s.refs[s.workers[i].hand.chunk.id] > 0
    case Exit(i) => i < n && s.producer.Joining? && !s.workers[i].exited
                    && s.workers[i].hand.Empty? && s.workers[i].queue == []
  }

  function Apply(s: State, step: Step): State
    requires Enabled(s, step)
  {
    match step
    case Begin(data) =>
      var chunk := Chunk(|s.sent|, data);
      // With no workers `send` returns at once and the handle is dropped.
      if s.workers == [] then
        s.(sent := s.sent + [chunk], refs := s.refs + [0], reclaimed := s.reclaimed + [0])
      else
        s.(sent := s.sent + [chunk], refs := s.refs + [1], reclaimed := s.reclaimed + [0],
           producer := Sending(chunk, 0, false))
    case Clone =>
      var id := s.producer.chunk.id;
      s.(refs := s.refs[id := s.refs[id] + 1], producer := s.producer.(cloned := true))
    case Push =>
      var k := s.producer.next;
      var w := s.workers[k].(queue := s.workers[k].queue + [s.producer.chunk]);
      // The queue of the last worker gets the handle the producer was passed; the others get clones.
      s.(workers := s.workers[k := w],
         producer := if k + 1 == |s.workers| then Idle else Sending(s.producer.chunk, k + 1, false))
    case Close => s.(producer := Joining([]))
    case Join =>
      var k := |s.producer.results|;
      s.(producer := Joining(s.producer.results + [s.workers[k].folded]))
    case Recv(i) =>
      var w := s.workers[i];
      s.(workers := s.workers[i := w.(queue := w.queue[1..], hand := Received(w.queue[0]))])
    case Hash(i) =>
      var w := s.workers[i];
      s.(workers := s.workers[i := w.(hand := Hashed(w.hand.chunk), folded := w.folded + [w.hand.chunk])])
    case Done(i) =>
      var w := s.workers[i];
      var id := w.hand.chunk.id;
      s.(workers := s.workers[i := w.(hand := Empty)],
         refs := s.refs[id := s.refs[id] - 1],
         reclaimed := if s.refs[id] == 1 then s.reclaimed[id := s.reclaimed[id] + 1] else s.reclaimed)
    case Exit(i) =>
      s.(workers := s.workers[i := s.workers[i].(exited := true)])
  }

  // ---------------------------------------------------------------- the invariant

  /** The chunks worker `w` was ever given, in the order it got them. */
  function Given(w: Worker): seq<Chunk> {
    w.folded + (if w.hand.Received? then [w.hand.chunk] else []) + w.queue
  }

  /** How many of the sent chunks have reached worker `i`. */
  function Delivered(s: State, i: nat): nat {
    if s.producer.Sending? && s.producer.next <= i && s.sent != [] then |s.sent| - 1 else |s.sent|
  }

  predicate Holds(w: Worker, id: nat) {
    (!w.hand.Empty? && w.hand.chunk.id == id)
    || exists k :: 0 <= k < |w.queue| && w.queue[k].id == id
  }

  function Holders(workers: seq<Worker>, id: nat): nat {
    if workers == [] then 0
    else Holders(workers[..|workers| - 1], id) + (if Holds(workers[|workers| - 1], id) then 1 else 0)
  }

  /** The handles the producer side keeps: its own while the send is unfinished, and a fresh clone. */
  function ProducerHandles(p: Producer, id: nat): nat {
    if p.Sending? && p.chunk.id == id then (if p.cloned then 2 else 1) else 0
  }

  ghost predicate Numbered(sent: seq<Chunk>) { forall k :: 0 <= k < |sent| ==> sent[k].id == k }

  ghost predicate WorkerInv(s: State, i: nat)
    requires i < |s.workers|
  {
    var w := s.workers[i];
    && |w.queue| <= s.capacity
    && Delivered(s, i) <= |s.sent|
    && Given(w) == s.sent[..Delivered(s, i)]
    && (w.hand.Hashed? ==> w.folded != [] && w.hand.chunk == w.folded[|w.folded| - 1])
    && (w.exited ==> s.producer.Joining? && w.hand.Empty? && w.queue == [])
  }

  ghost predicate ProducerInv(s: State) {
    && (s.producer.Sending? ==>
          s.sent != [] && s.producer.chunk == s.sent[|s.sent| - 1]
          && s.producer.next < |s.workers|
          && (s.producer.cloned ==> s.producer.next + 1 < |s.workers|))
    && (s.producer.Joining? ==>
          |s.producer.results| <= |s.workers|
          && forall i :: 0 <= i < |s.producer.results| ==>
               s.workers[i].exited && s.producer.results[i] == s.workers[i].folded)
  }

  ghost predicate HandleInv(s: State) {
    && |s.refs| == |s.reclaimed| == |s.sent|
    && (forall id :: 0 <= id < |s.sent| ==>
          s.refs[id] == ProducerHandles(s.producer, id) + Holders(s.workers, id))
    && (forall id :: 0 <= id < |s.sent| ==>
          s.reclaimed[id] == if s.workers != [] && s.refs[id] == 0 then 1 else 0)
  }

  ghost predicate Inv(s: State) {
    && 1 <= s.capacity
    && Numbered(s.sent)
    && (forall i :: 0 <= i < |s.workers| ==> WorkerInv(s, i))
    && ProducerInv(s)
    && HandleInv(s)
  }

  lemma {:induction false} HoldersUpdate(workers: seq<Worker>, i: nat, w: Worker, id: nat)
    requires i < |workers|
    ensures Holders(workers[i := w], id) + (if Holds(workers[i], id) then 1 else 0)
         == Holders(workers, id) + (if Holds(w, id) then 1 else 0)
  {
    var n := |workers| - 1;
    if i == n {
      assert workers[i := w][..n] == workers[..n];
    } else {
      assert workers[i := w][..n] == workers[..n][i := w];
      HoldersUpdate(workers[..n], i, w, id);
    }
  }

  lemma {:induction false} HoldersAny(workers: seq<Worker>, i: nat, id: nat)
    requires i < |workers| && Holds(workers[i], id)
    ensures Holders(workers, id) > 0
  {
    if i < |workers| - 1 { HoldersAny(workers[..|workers| - 1], i, id); }
  }

  lemma {:induction false} HoldersNone(workers: seq<Worker>, id: nat)
    requires forall i :: 0 <= i < |workers| ==> !Holds(workers[i], id)
    ensures Holders(workers, id) == 0
  {
    if workers != [] { HoldersNone(workers[..|workers| - 1], id); }
  }

  /** A worker holds exactly the chunks it was given and has not yet passed to `done`. */
  lemma {:induction false} HoldsRange(s: State, i: nat, id: nat)
    requires i < |s.workers| && WorkerInv(s, i) && Numbered(s.sent)
    ensures Holds(s.workers[i], id) <==>
      |s.workers[i].folded| - (if s.workers[i].hand.Hashed? then 1 else 0) <= id < Delivered(s, i)
  {
    var w := s.workers[i];
    var start := |w.folded| + (if w.hand.Received? then 1 else 0);
    forall k | 0 <= k < |w.queue|
      ensures w.queue[k].id == start + k
    {
      assert Given(w)[start + k] == w.queue[k];
    }
    if w.hand.Received? { assert Given(w)[|w.folded|] == w.hand.chunk; }
    if w.hand.Hashed? { assert Given(w)[|w.folded| - 1] == w.hand.chunk; }
    if start <= id < Delivered(s, i) { assert w.queue[id - start].id == id; }
  }

  lemma StartInv(workers: nat, capacity: nat)
    requires 1 <= capacity
    ensures Inv(Start(workers, capacity))
  {
  }

  // ---------------------------------------------------------------- every step keeps it

  /** A step that leaves worker `i` and what has reached it alone keeps its invariant. */
  lemma UntouchedWorker(s: State, t: State, i: nat)
    requires i < |s.workers| == |t.workers| && WorkerInv(s, i)
    requires t.workers[i] == s.workers[i] && t.capacity == s.capacity
    requires Delivered(t, i) == Delivered(s, i) <= |t.sent|
    requires t.sent[..Delivered(t, i)] == s.sent[..Delivered(s, i)]
    requires s.producer.Joining? ==> t.producer.Joining?
    ensures WorkerInv(t, i)
  {
  }

  lemma {:induction false} SendKeepsWorker(s: State, step: Step, i: nat)
    requires Inv(s) && Enabled(s, step) && i < |s.workers|
    requires step.Begin? || step.Clone? || step.Push?
    ensures WorkerInv(Apply(s, step), i)
  {
    var t := Apply(s, step);
    assert WorkerInv(s, i);
    if step.Push? && i == s.producer.next {
      assert s.sent == s.sent[..|s.sent| - 1] + [s.producer.chunk];
      assert Given(t.workers[i]) == Given(s.workers[i]) + [s.producer.chunk];
      assert t.sent[..Delivered(t, i)] == s.sent;
    } else {
      assert t.sent[..Delivered(t, i)] == s.sent[..Delivered(s, i)];
      UntouchedWorker(s, t, i);
    }
  }

  lemma {:induction false} WorkKeepsWorker(s: State, step: Step, i: nat)
    requires Inv(s) && Enabled(s, step) && i < |s.workers|
    requires step == Recv(i) || step == Hash(i) || step == Done(i) || step == Exit(i)
    ensures WorkerInv(Apply(s, step), i)
  {
    assert WorkerInv(s, i);
    var w := s.workers[i];
    if step.Recv? { assert w.queue == [w.queue[0]] + w.queue[1..]; }
    assert Given(Apply(s, step).workers[i]) == Given(w);
  }

  lemma {:induction false} StepKeepsWorker(s: State, step: Step, i: nat)
    requires Inv(s) && Enabled(s, step) && i < |s.workers|
    ensures WorkerInv(Apply(s, step), i)
  {
    assert WorkerInv(s, i);
    match step
    case Begin(_) => SendKeepsWorker(s, step, i);
    case Clone => SendKeepsWorker(s, step, i);
    case Push => SendKeepsWorker(s, step, i);
    case Close => UntouchedWorker(s, Apply(s, step), i);
    case Join => UntouchedWorker(s, Apply(s, step), i);
    case Recv(j) => if i == j { WorkKeepsWorker(s, step, i); } else { UntouchedWorker(s, Apply(s, step), i); }
    case Hash(j) => if i == j { WorkKeepsWorker(s, step, i); } else { UntouchedWorker(s, Apply(s, step), i); }
    case Done(j) => if i == j { WorkKeepsWorker(s, step, i); } else { UntouchedWorker(s, Apply(s, step), i); }
    case Exit(j) => if i == j { WorkKeepsWorker(s, step, i); } else { UntouchedWorker(s, Apply(s, step), i); }
  }

  lemma {:induction false} StepKeepsProducer(s: State, step: Step)
    requires Inv(s) && Enabled(s, step)
    ensures Numbered(Apply(s, step).sent) && ProducerInv(Apply(s, step))
  {
    var t := Apply(s, step);
    forall i | t.producer.Joining? && 0 <= i < |t.producer.results|
      ensures t.workers[i].exited && t.producer.results[i] == t.workers[i].folded
    {
      if s.producer.Joining? && i < |s.producer.results| {
        assert s.workers[i].exited && WorkerInv(s, i);
      }
    }
  }

  lemma {:induction false} StepKeepsWorkers(s: State, step: Step)
    requires Inv(s) && Enabled(s, step)
    ensures var t := Apply(s, step);
      Numbered(t.sent) && ProducerInv(t) && forall i :: 0 <= i < |t.workers| ==> WorkerInv(t, i)
  {
    StepKeepsProducer(s, step);
    forall i | 0 <= i < |s.workers|
      ensures WorkerInv(Apply(s, step), i)
    {
      StepKeepsWorker(s, step, i);
    }
  }

  /** One worker changed; how the count of holders moves for every chunk. */
  lemma {:induction false} HoldersMove(s: State, t: State, i: nat, id: nat)
    requires i < |s.workers| == |t.workers| && t.workers == s.workers[i := t.workers[i]]
    ensures Holders(t.workers, id) + (if Holds(s.workers[i], id) then 1 else 0)
         == Holders(s.workers, id) + (if Holds(t.workers[i], id) then 1 else 0)
  {
    HoldersUpdate(s.workers, i, t.workers[i], id);
  }

  lemma {:induction false} StepKeepsHandles(s: State, step: Step)
    requires Inv(s) && Enabled(s, step)
    ensures HandleInv(Apply(s, step))
  {
    StepKeepsWorkers(s, step);
    var t := Apply(s, step);
    match step
    case Begin(_) =>
      BeginKeepsHandles(s, step, t);
    case Clone =>
    case Close =>
    case Join =>
    case Push =>
      ChangeKeepsHandles(s, step, t, s.producer.next);
    case Recv(i) =>
      ChangeKeepsHandles(s, step, t, i);
    case Hash(i) =>
      ChangeKeepsHandles(s, step, t, i);
    case Done(i) =>
      ChangeKeepsHandles(s, step, t, i);
    case Exit(i) =>
      ChangeKeepsHandles(s, step, t, i);
  }

  lemma {:induction false} BeginKeepsHandles(s: State, step: Step, t: State)
    requires Inv(s) && Enabled(s, step) && step.Begin? && t == Apply(s, step)
    ensures HandleInv(t)
  {
    forall i | 0 <= i < |s.workers|
      ensures !Holds(s.workers[i], |s.sent|)
    {
      HoldsRange(s, i, |s.sent|);
    }
    HoldersNone(s.workers, |s.sent|);
  }

  lemma {:induction false} ChangeKeepsHandles(s: State, step: Step, t: State, i: nat)
    requires Inv(s) && Enabled(s, step) && t == Apply(s, step)
    requires i < |s.workers| && WorkerInv(t, i)
    requires (step.Push? && i == s.producer.next) || step == Recv(i) || step == Hash(i) || step == Done(i) || step == Exit(i)
    ensures HandleInv(t)
  {
    assert |t.refs| == |t.reclaimed| == |t.sent| == |s.sent|;
    forall id | 0 <= id < |s.sent|
      ensures t.refs[id] == ProducerHandles(t.producer, id) + Holders(t.workers, id)
           && t.reclaimed[id] == if t.workers != [] && t.refs[id] == 0 then 1 else 0
    {
      ChangeKeepsHandle(s, step, t, i, id);
    }
  }

  lemma {:induction false} ChangeKeepsHandle(s: State, step: Step, t: State, i: nat, id: nat)
    requires Inv(s) && Enabled(s, step) && t == Apply(s, step) && id < |s.sent|
    requires i < |s.workers| && WorkerInv(t, i)
    requires (step.Push? && i == s.producer.next) || step == Recv(i) || step == Hash(i) || step == Done(i) || step == Exit(i)
    ensures |t.refs| == |t.reclaimed| == |t.sent| == |s.sent|
    ensures t.refs[id] == ProducerHandles(t.producer, id) + Holders(t.workers, id)
    ensures t.reclaimed[id] == if t.workers != [] && t.refs[id] == 0 then 1 else 0
  {
    HoldersMove(s, t, i, id);
    HoldsRange(s, i, id);
    HoldsRange(t, i, id);
    if step.Done? { HoldsDone(s, i); }
  }

  /** The chunk being handed to `done` is the one right before the first a worker has not folded. */
  lemma {:induction false} HoldsDone(s: State, i: nat)
    requires Inv(s) && i < |s.workers| && s.workers[i].hand.Hashed?
    ensures s.workers[i].hand.chunk.id == |s.workers[i].folded| - 1 < |s.sent|
  {
    assert WorkerInv(s, i);
    var w := s.workers[i];
    assert Given(w)[|w.folded| - 1] == w.hand.chunk;
  }

  lemma {:induction false} StepKeepsInv(s: State, step: Step)
    requires Inv(s) && Enabled(s, step)
    ensures Inv(Apply(s, step))
  {
    StepKeepsWorkers(s, step);
    StepKeepsHandles(s, step);
  }

  // ---------------------------------------------------------------- runs

  /** The state after a list of steps; `None` when one of them was not enabled. */
  function Run(s: State, steps: seq<Step>): Option<State>
    decreases |steps|
  {
    if steps == [] then Some(s)
    else if Enabled(s, steps[0]) then Run(Apply(s, steps[0]), steps[1..])
    else None
  }

  lemma {:induction false} RunKeepsInv(s: State, steps: seq<Step>)
    requires Inv(s) && Run(s, steps).Some?
    ensures Inv(Run(s, steps).value)
    ensures |Run(s, steps).value.workers| == |s.workers|
    decreases |steps|
  {
    if steps != [] {
      StepKeepsInv(s, steps[0]);
      RunKeepsInv(Apply(s, steps[0]), steps[1..]);
    }
  }

  /** The data of the sends in a run, in order. */
  function SentBy(steps: seq<Step>): seq<bytes> {
    if steps == [] then []
    else (if steps[0].Begin? then [steps[0].data] else []) + SentBy(steps[1..])
  }

  function DataOf(chunks: seq<Chunk>): seq<bytes> {
    seq(|chunks|, k requires 0 <= k < |chunks| => chunks[k].data)
  }

  lemma {:induction false} RunSends(s: State, steps: seq<Step>)
    requires Run(s, steps).Some?
    ensures DataOf(Run(s, steps).value.sent) == DataOf(s.sent) + SentBy(steps)
    decreases |steps|
  {
    if steps != [] {
      RunSends(Apply(s, steps[0]), steps[1..]);
    }
  }

  /** Order: in every interleaving what a worker has folded, then holds, then queues is a prefix of the sends. */
  lemma {:induction false} GivenInOrder(workers: nat, capacity: nat, steps: seq<Step>, i: nat)
    requires 1 <= capacity && i < workers
    requires Run(Start(workers, capacity), steps).Some?
    ensures var t := Run(Start(workers, capacity), steps).value;
      && |t.workers| == workers
      && DataOf(Given(t.workers[i])) <= SentBy(steps)
      && |SentBy(steps)| <= |Given(t.workers[i])| + 1
      && |t.workers[i].queue| <= capacity
  {
    StartInv(workers, capacity);
    RunKeepsInv(Start(workers, capacity), steps);
    RunCapacity(Start(workers, capacity), steps);
    RunSends(Start(workers, capacity), steps);
    var t := Run(Start(workers, capacity), steps).value;
    assert WorkerInv(t, i);
    assert DataOf(Given(t.workers[i])) == DataOf(t.sent)[..Delivered(t, i)];
  }

  lemma {:induction false} RunCapacity(s: State, steps: seq<Step>)
    requires Run(s, steps).Some?
    ensures Run(s, steps).value.capacity == s.capacity
    decreases |steps|
  {
    if steps != [] { RunCapacity(Apply(s, steps[0]), steps[1..]); }
  }

  // ---------------------------------------------------------------- no deadlock

  /** `finish` has returned. */
  predicate Finished(s: State) { s.producer.Joining? && |s.producer.results| == |s.workers| }

  predicate WorkerCanStep(s: State, i: nat) {
    Enabled(s, Recv(i)) || Enabled(s, Hash(i)) || Enabled(s, Done(i)) || Enabled(s, Exit(i))
  }

  predicate ProducerCanStep(s: State) {
    Enabled(s, Close) || Enabled(s, Clone) || Enabled(s, Push) || Enabled(s, Join)
  }

  /** A worker that still has something in hand or in its queue can always move. */
  lemma {:induction false} BusyWorkerMoves(s: State, i: nat)
    requires Inv(s) && i < |s.workers|
    requires !s.workers[i].hand.Empty? || s.workers[i].queue != []
    ensures WorkerCanStep(s, i)
  {
    if s.workers[i].hand.Hashed? {
      HoldsDone(s, i);
      HoldersAny(s.workers, i, s.workers[i].hand.chunk.id);
    }
  }

  /** When the producer cannot move and `finish` has not returned, the worker it waits for can. */
  lemma {:induction false} NeverStuck(s: State)
    requires Inv(s) && !Finished(s) && !ProducerCanStep(s)
    ensures exists i :: 0 <= i < |s.workers| && WorkerCanStep(s, i)
  {
    var i := if s.producer.Sending? then s.producer.next else |s.producer.results|;
    assert WorkerInv(s, i);
    if !s.workers[i].hand.Empty? || s.workers[i].queue != [] {
      BusyWorkerMoves(s, i);
    }
    assert WorkerCanStep(s, i);
  }

  /** No interleaving deadlocks: every reachable state has a next step or `finish` has returned. */
  lemma {:induction false} NoDeadlock(workers: nat, capacity: nat, steps: seq<Step>)
    requires 1 <= capacity && Run(Start(workers, capacity), steps).Some?
    ensures var t := Run(Start(workers, capacity), steps).value;
      Finished(t) || ProducerCanStep(t) || exists i :: 0 <= i < |t.workers| && WorkerCanStep(t, i)
  {
    StartInv(workers, capacity);
    RunKeepsInv(Start(workers, capacity), steps);
    var t := Run(Start(workers, capacity), steps).value;
    if !Finished(t) && !ProducerCanStep(t) { NeverStuck(t); }
  }

  // ---------------------------------------------------------------- termination

  function WorkerWork(w: Worker): nat {
    3 * |w.queue|
    + (match w.hand case Empty => 0 case Received(_) => 2 case Hashed(_) => 1)
    + (if w.exited then 0 else 1)
  }

  function WorkersWork(workers: seq<Worker>): nat {
    if workers == [] then 0
    else WorkersWork(workers[..|workers| - 1]) + WorkerWork(workers[|workers| - 1])
  }

  /** How many more steps a state can take before it needs a new send. */
  function Work(s: State): int {
    var n := |s.workers|;
    WorkersWork(s.workers) + match s.producer
      case Idle => n + 1
      case Sending(_, k, cloned) => 5 * (n - k) - (if cloned then 1 else 0) + n + 1
      case Joining(results) => n - |results|
  }

  lemma {:induction false} WorkUpdate(workers: seq<Worker>, i: nat, w: Worker)
    requires i < |workers|
    ensures WorkersWork(workers[i := w]) + WorkerWork(workers[i]) == WorkersWork(workers) + WorkerWork(w)
  {
    var n := |workers| - 1;
    if i == n {
      assert workers[i := w][..n] == workers[..n];
    } else {
      assert workers[i := w][..n] == workers[..n][i := w];
      WorkUpdate(workers[..n], i, w);
    }
  }

  /** The steps one send can cause: five for each worker, and the send itself. */
  function SendCost(s: State): nat { 5 * |s.workers| + 1 }

  lemma {:induction false} StepSpendsWork(s: State, step: Step)
    requires Inv(s) && Enabled(s, step)
    ensures Work(Apply(s, step)) + 1 <= Work(s) + (if step.Begin? then SendCost(s) else 0)
    ensures SendCost(Apply(s, step)) == SendCost(s)
  {
    hide HandleInv, WorkerInv, Numbered, WorkersWork;
    var t := Apply(s, step);
    match step
    case Push => WorkUpdate(s.workers, s.producer.next, t.workers[s.producer.next]);
    case Recv(i) => WorkUpdate(s.workers, i, t.workers[i]);
    case Hash(i) => WorkUpdate(s.workers, i, t.workers[i]);
    case Done(i) => WorkUpdate(s.workers, i, t.workers[i]);
    case Exit(i) => WorkUpdate(s.workers, i, t.workers[i]);
    case _ =>
  }

  /** One step and the rest of its run, in numbers. */
  lemma AddStep(perSend: int, begins: nat, later: nat, work0: int, work1: int, work2: int, len: nat)
    requires work1 + 1 <= work0 + perSend * begins
    requires work2 + len <= work1 + perSend * later
    ensures work2 + (len + 1) <= work0 + perSend * (begins + later)
  {
  }

  lemma {:induction false} RunBounded(s: State, steps: seq<Step>)
    requires Inv(s) && Run(s, steps).Some?
    ensures Work(Run(s, steps).value) + |steps| <= Work(s) + SendCost(s) * |SentBy(steps)|
    decreases |steps|
  {
    hide Inv, Work, SendCost, Enabled, Apply;
    if steps != [] {
      var step, rest := steps[0], steps[1..];
      var t := Apply(s, step);
      StepKeepsInv(s, step);
      StepSpendsWork(s, step);
      RunBounded(t, rest);
      var begins := if step.Begin? then 1 else 0;
      assert |SentBy(steps)| == begins + |SentBy(rest)|;
      AddStep(SendCost(s), begins, |SentBy(rest)|, Work(s), Work(t), Work(Run(s, steps).value), |rest|);
    }
  }

  lemma {:induction false} WorkAtStart(workers: nat)
    ensures WorkersWork(seq(workers, _ => Worker([], Empty, [], false))) == workers
  {
    if workers > 0 {
      var ws := seq(workers, _ => Worker([], Empty, [], false));
      assert ws[..workers - 1] == seq(workers - 1, _ => Worker([], Empty, [], false));
      WorkAtStart(workers - 1);
    }
  }

  /** Every interleaving of `m` sends and a finish is over after a bounded number of steps. */
  lemma {:induction false} EveryRunEnds(workers: nat, capacity: nat, steps: seq<Step>)
    requires 1 <= capacity && Run(Start(workers, capacity), steps).Some?
    ensures |steps| <= 2 * workers + 1 + (5 * workers + 1) * |SentBy(steps)|
  {
    var s := Start(workers, capacity);
    StartInv(workers, capacity);
    RunBounded(s, steps);
    RunKeepsInv(s, steps);
    WorkAtStart(workers);
  }

  // ---------------------------------------------------------------- results

  /** `finish` returns one hasher per worker, in spawn order, and each folded exactly every send in order. */
  lemma {:induction false} FinishReturnsEverything(workers: nat, capacity: nat, steps: seq<Step>)
    requires 1 <= capacity && Run(Start(workers, capacity), steps).Some?
    requires Finished(Run(Start(workers, capacity), steps).value)
    ensures var results := Run(Start(workers, capacity), steps).value.producer.results;
      |results| == workers && forall i :: 0 <= i < workers ==> DataOf(results[i]) == SentBy(steps)
  {
    var s := Start(workers, capacity);
    StartInv(workers, capacity);
    RunKeepsInv(s, steps);
    RunSends(s, steps);
    var t := Run(s, steps).value;
    forall i | 0 <= i < workers
      ensures DataOf(t.producer.results[i]) == SentBy(steps)
    {
      assert WorkerInv(t, i) && t.workers[i].exited;
      assert Given(t.workers[i]) == t.sent[..|t.sent|] == t.sent;
    }
  }

  /** Handles: the count behind a chunk is the producer's share plus one per worker still holding it. */
  lemma {:induction false} HandlesConserved(workers: nat, capacity: nat, steps: seq<Step>, id: nat)
    requires 1 <= capacity && Run(Start(workers, capacity), steps).Some?
    requires id < |SentBy(steps)|
    ensures var t := Run(Start(workers, capacity), steps).value;
      && |t.refs| == |t.reclaimed| == |SentBy(steps)|
      && t.refs[id] == ProducerHandles(t.producer, id) + Holders(t.workers, id)
      && t.reclaimed[id] == (if workers > 0 && t.refs[id] == 0 then 1 else 0)
  {
    var s := Start(workers, capacity);
    StartInv(workers, capacity);
    RunKeepsInv(s, steps);
    RunSends(s, steps);
    assert |DataOf(Run(s, steps).value.sent)| == |SentBy(steps)|;
  }

  /** By the end exactly one `done` of each chunk was the last holder and got the buffer back. */
  lemma {:induction false} EachBufferReclaimedOnce(workers: nat, capacity: nat, steps: seq<Step>, id: nat)
    requires 1 <= capacity && 0 < workers && Run(Start(workers, capacity), steps).Some?
    requires Finished(Run(Start(workers, capacity), steps).value)
    requires id < |SentBy(steps)|
    ensures var t := Run(Start(workers, capacity), steps).value;
      |t.refs| == |t.reclaimed| == |SentBy(steps)| && t.refs[id] == 0 && t.reclaimed[id] == 1
  {
    var s := Start(workers, capacity);
    StartInv(workers, capacity);
    RunKeepsInv(s, steps);
    HandlesConserved(workers, capacity, steps, id);
    var t := Run(s, steps).value;
    forall i | 0 <= i < |t.workers|
      ensures !Holds(t.workers[i], id)
    {
      assert WorkerInv(t, i) && t.workers[i].exited;
    }
    HoldersNone(t.workers, id);
  }

  /** No buffer is given back while a worker still has the chunk ahead of it. */
  lemma {:induction false} ReclaimedOnlyAfterAllHashed(s: State, id: nat, i: nat)
    requires Inv(s) && id < |s.sent| && i < |s.workers| && s.reclaimed[id] == 1
    ensures s.sent[id] in s.workers[i].folded
  {
    assert WorkerInv(s, i);
    if Holds(s.workers[i], id) {
      HoldersAny(s.workers, i, id);
      assert false;
    }
    HoldsRange(s, i, id);
    assert ProducerHandles(s.producer, id) == 0;
    assert Given(s.workers[i])[id] == s.workers[i].folded[id];
  }
}
