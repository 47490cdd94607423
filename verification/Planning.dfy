/** The requested algorithms, each once, in the order first asked for. */
module Planning {
  import opened Bytes
  import opened Hashers
  import opened Order

  /** The items that do not occur earlier. */
  function FirstOccurrences<T(==)>(s: seq<T>): seq<T> {
    if s == [] then []
    else
      var (before, last) := (s[..|s| - 1], s[|s| - 1]);
      FirstOccurrences(before) + (if last in before then [] else [last])
  }

  lemma {:induction false} FirstOccurrencesMembers<T>(s: seq<T>)
    ensures forall x :: x in FirstOccurrences(s) <==> x in s
  {
    if s != [] {
      FirstOccurrencesMembers(s[..|s| - 1]);
      assert s == s[..|s| - 1] + [s[|s| - 1]];
    }
  }

  /** `x` is asked for before `y` is. */
  predicate Earlier<T(==)>(s: seq<T>, x: T, y: T) { x in s && y in s && IndexOf(s, x) < IndexOf(s, y) }

  lemma {:induction false} FirstOccurrencesOrder<T>(s: seq<T>, i: nat, j: nat)
    requires i < j < |FirstOccurrences(s)|
    ensures Earlier(s, FirstOccurrences(s)[i], FirstOccurrences(s)[j])
  {
    var (before, last) := (s[..|s| - 1], s[|s| - 1]);
    var (r, rest) := (FirstOccurrences(s), FirstOccurrences(before));
    assert s == before + [last];
    FirstOccurrencesMembers(before);
    assert r[i] == rest[i] && rest[i] in rest;
    IndexOfFirst(before, [last], r[i]);
    if j < |rest| {
      assert rest[j] in rest;
      FirstOccurrencesOrder(before, i, j);
      IndexOfFirst(before, [last], r[j]);
    } else {
      IndexOfLast(before, last);
    }
  }

  /** Every requested item once, and in the order of their first positions. */
  lemma {:induction false} FirstOccurrencesExact<T>(s: seq<T>)
    ensures forall x :: x in FirstOccurrences(s) <==> x in s
    ensures forall i: nat, j: nat :: i < j < |FirstOccurrences(s)| ==> Earlier(s, FirstOccurrences(s)[i], FirstOccurrences(s)[j])
  {
    FirstOccurrencesMembers(s);
    forall i: nat, j: nat | i < j < |FirstOccurrences(s)|
      ensures Earlier(s, FirstOccurrences(s)[i], FirstOccurrences(s)[j])
    {
      FirstOccurrencesOrder(s, i, j);
    }
  }

  lemma {:induction false} IndexOfFirst<T>(a: seq<T>, b: seq<T>, x: T)
    requires x in a
    ensures IndexOf(a + b, x) == IndexOf(a, x)
  {
    if a[0] != x {
      assert (a + b)[1..] == a[1..] + b;
      IndexOfFirst(a[1..], b, x);
    }
  }

  lemma {:induction false} IndexOfLast<T>(a: seq<T>, x: T)
    requires x !in a
    ensures IndexOf(a + [x], x) == |a|
  {
    if a != [] {
      assert (a + [x])[1..] == a[1..] + [x];
      IndexOfLast(a[1..], x);
    }
  }

  function ParseAll(parse: str -> Option<Algorithm>, values: seq<str>): Option<seq<Algorithm>> {
    if values == [] then Some([])
    else
      var a :- parse(values[0]);
      var rest :- ParseAll(parse, values[1..]);
      Some([a] + rest)
  }

  /** Refuses at the first unknown name; `parse` is the table of algorithm names. */
  method ResolveAlgorithms(parse: str -> Option<Algorithm>, values: seq<str>) returns (r: Option<seq<Algorithm>>)
    ensures r == match ParseAll(parse, values) case None => None case Some(parsed) => Some(FirstOccurrences(parsed))
  {
    ghost var parsed: seq<Algorithm> := [];
    var algorithms: seq<Algorithm> := [];
    var i := 0;
    assert values[0..] == values;
    Joined(parsed, ParseAll(parse, values));
    while i < |values|
      invariant 0 <= i <= |values|
      invariant algorithms == FirstOccurrences(parsed)
      invariant forall a :: a in algorithms <==> a in parsed
      invariant ParseAll(parse, values) == Join(parsed, ParseAll(parse, values[i..]))
    {
      assert values[i..][0] == values[i] && values[i..][1..] == values[i + 1..];
      var a := parse(values[i]);
      if a.None? {
        return None;
      }
      ghost var more := parsed + [a.value];
      assert more[..|more| - 1] == parsed;
      JoinMore(parsed, a.value, ParseAll(parse, values[i + 1..]));
      if a.value !in algorithms {
        algorithms := algorithms + [a.value];
      }
      parsed := more;
      i := i + 1;
    }
    Joined(parsed, Some([]));
    return Some(algorithms);
  }

  function Join(done: seq<Algorithm>, rest: Option<seq<Algorithm>>): Option<seq<Algorithm>> {
    match rest
    case None => None
    case Some(r) => Some(done + r)
  }

  lemma {:induction false} Joined(done: seq<Algorithm>, rest: Option<seq<Algorithm>>)
    ensures Join([], rest) == rest && Join(done, Some([])) == Some(done)
  {
    assert done + [] == done;
    if rest.Some? { assert [] + rest.value == rest.value; }
  }

  lemma {:induction false} JoinMore(done: seq<Algorithm>, a: Algorithm, rest: Option<seq<Algorithm>>)
    ensures Join(done, match rest case None => None case Some(r) => Some([a] + r)) == Join(done + [a], rest)
  {
    if rest.Some? { assert done + ([a] + rest.value) == (done + [a]) + rest.value; }
  }
}
