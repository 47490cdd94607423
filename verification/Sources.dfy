/** Where bytes come from: a reader whose reads may be short. */
module Sources {
  import opened Bytes

  /** A file positioned at the start of the range; a read returns some non-empty prefix of what is left. */
  class Reader {
    var rest: bytes

    constructor (rest: bytes)
      ensures this.rest == rest
    {
      this.rest := rest;
    }

    method Read(limit: nat) returns (chunk: bytes)
      modifies this
      ensures chunk + rest == old(rest)
      ensures |chunk| <= limit
      ensures chunk == [] <==> limit == 0 || old(rest) == []
    {
      if limit == 0 || rest == [] {
        return [];
      }
      var bound := Min(limit, |rest|);
      var n: nat :| 1 <= n <= bound;
      chunk := rest[..n];
      rest := rest[n..];
    }
  }

  lemma PrefixOf(whole: bytes, head: bytes, tail: bytes)
    requires whole == head + tail
    ensures whole[..|head|] == head
  {
  }
}
