/**
 Hash states as the engine uses them. CRC-16/ARC and Adler-32 are concrete; a digest computed by a
 foreign library is a function of its algorithm and the bytes fed to it, so its value is that pair.
 */
module Hashers {
  import opened Bytes
  import opened LinearOperators
  import Crc16
  import Adler32

  datatype Algorithm = Crc32 | Md5 | Sha1 | Sha256 | Blake3 | Crc32c | Crc16 | Adler32

  datatype HasherState =
    | Crc16State(crc: bv16)
    | Adler32State(sums: Adler32.Sums)
    | ForeignState(algorithm: Algorithm, fed: bytes)

  datatype Value =
    | Crc16Value(crc: bv16)
    | Adler32Value(adler: u32)
    | ForeignValue(algorithm: Algorithm, hashed: bytes)

  function NewState(a: Algorithm): HasherState {
    match a
    case Crc16 => Crc16State(0)
    case Adler32 => Adler32State(Adler32.State([]))
    case _ => ForeignState(a, [])
  }

  ghost predicate Sound(s: HasherState) { s.Adler32State? ==> Adler32.Reduced(s.sums) }

  /** The Adler-32 sums carried on from `s` over `data`. */
  function FeedSums(s: Adler32.Sums, data: bytes): Adler32.Sums
    decreases |data|
  {
    if data == [] then s
    else
      var a := (s.a + data[0]) % Adler32.ADLER32_MODULO;
      FeedSums(Adler32.Sums(a, (s.b + a) % Adler32.ADLER32_MODULO), data[1..])
  }

  lemma {:induction false} StateSnoc(prefix: bytes, x: u8)
    ensures Adler32.State(prefix + [x]) == FeedSums(Adler32.State(prefix), [x])
  {
    assert (prefix + [x])[..|prefix|] == prefix;
  }

  lemma {:induction false} FeedSumsIsState(prefix: bytes, data: bytes)
    ensures FeedSums(Adler32.State(prefix), data) == Adler32.State(prefix + data)
    decreases |data|
  {
    if data == [] {
      assert prefix + data == prefix;
    } else {
      var longer := prefix + [data[0]];
      StateSnoc(prefix, data[0]);
      FeedSumsIsState(longer, data[1..]);
      assert longer + data[1..] == prefix + data;
    }
  }

  function Feed(s: HasherState, data: bytes): HasherState {
    match s
    case Crc16State(crc) => Crc16State(Absorb(Crc16.ShiftBit, Crc16.Xor, 8, crc, Crc16.Words(data)))
    case Adler32State(sums) => Adler32State(FeedSums(sums, data))
    case ForeignState(a, fed) => ForeignState(a, fed + data)
  }

  function Finish(s: HasherState): Value
    requires Sound(s)
  {
    match s
    case Crc16State(crc) => Crc16Value(crc)
    case Adler32State(sums) => Adler32Value(Adler32.Pack(sums))
    case ForeignState(a, fed) => ForeignValue(a, fed)
  }

  /** The digest of a whole byte string. */
  function DigestOf(a: Algorithm, data: bytes): Value {
    match a
    case Crc16 => Crc16Value(Crc16.Digest(data))
    case Adler32 => Adler32Value(Adler32.Digest(data))
    case _ => ForeignValue(a, data)
  }

  /** The state a fresh hasher for `a` reaches on `data`. */
  function StateAfter(a: Algorithm, data: bytes): (s: HasherState)
    ensures Sound(s) && Finish(s) == DigestOf(a, data)
  {
    match a
    case Crc16 => Crc16State(Crc16.Digest(data))
    case Adler32 => Adler32State(Adler32.State(data))
    case _ => ForeignState(a, data)
  }

  lemma StateAfterNothing(a: Algorithm)
    ensures NewState(a) == StateAfter(a, [])
  {
  }

  /** Feeding in pieces is feeding the concatenation. */
  lemma {:induction false} FeedAppends(a: Algorithm, x: bytes, y: bytes)
    ensures Feed(StateAfter(a, x), y) == StateAfter(a, x + y)
  {
    match a
    case Crc16 =>
      Crc16.DigestContinues(x, y);
    case Adler32 =>
      FeedSumsIsState(x, y);
    case _ =>
  }

  /** How many threads hash beside the caller: none for a budget of one, and never more than there are algorithms. */
  function WorkerCount(algorithms: nat, budget: nat): (n: nat)
    ensures n <= algorithms && (budget > 1 ==> n <= budget) && (budget <= 1 ==> n == 0)
  {
    if budget > 1 then Min(budget, algorithms) else 0
  }

  /** What every execution plan must report: each requested algorithm's digest of `data`. */
  function Expected(algorithms: seq<Algorithm>, data: bytes): map<Algorithm, Value> {
    map a | a in algorithms :: DigestOf(a, data)
  }

  /** Several hash states fed side by side. */
  class HasherBatch {
    const algorithms: seq<Algorithm>
    var states: seq<(Algorithm, HasherState)>
    ghost var fed: bytes

    ghost predicate Valid()
      reads this
    {
      |states| == |algorithms|
      && forall i :: 0 <= i < |states| ==> states[i] == (algorithms[i], StateAfter(algorithms[i], fed))
    }

    constructor (algorithms: seq<Algorithm>)
      ensures Valid() && fed == [] && this.algorithms == algorithms
    {
      this.algorithms := algorithms;
      fed := [];
      states := seq(|algorithms|, i requires 0 <= i < |algorithms| => (algorithms[i], NewState(algorithms[i])));
      new;
      forall i | 0 <= i < |algorithms| ensures states[i].1 == StateAfter(algorithms[i], []) {
        StateAfterNothing(algorithms[i]);
      }
    }

    method Update(chunk: bytes)
      requires Valid()
      modifies this
      ensures Valid() && fed == old(fed) + chunk
    {
      var i := 0;
      ghost var before := states;
      while i < |states|
        invariant 0 <= i <= |states| == |algorithms| && fed == old(fed)
        invariant forall j :: 0 <= j < i ==> states[j] == (algorithms[j], StateAfter(algorithms[j], old(fed) + chunk))
        invariant states[i..] == before[i..]
      {
        assert states[i] == before[i];
        FeedAppends(algorithms[i], fed, chunk);
        states := states[i := (states[i].0, Feed(states[i].1, chunk))];
        i := i + 1;
      }
      fed := fed + chunk;
    }

    method IntoResults() returns (results: map<Algorithm, Value>)
      requires Valid()
      ensures results == Expected(algorithms, fed)
    {
      results := map[];
      var i := 0;
      while i < |states|
        invariant 0 <= i <= |states|
        invariant results == Expected(algorithms[..i], fed)
      {
        var (a, s) := states[i];
        assert algorithms[..i + 1] == algorithms[..i] + [a];
        results := results[a := Finish(s)];
        i := i + 1;
      }
      assert algorithms[..i] == algorithms;
    }
  }
}
