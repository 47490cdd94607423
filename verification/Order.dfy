/** The lexicographic orders the pack's ordered maps use, stable sorting, and ordered sets. */
module Order {
  import opened Bytes

  /** A sort key: fields compared in turn, each field as a sequence of numbers. */
  type Key = seq<seq<int>>

  // ---------------------------------------------------------------- lexicographic order

  predicate Lex<T(==)>(less: (T, T) -> bool, a: seq<T>, b: seq<T>)
    decreases |a|
  {
    b != [] && (a == [] || less(a[0], b[0]) || (a[0] == b[0] && Lex(less, a[1..], b[1..])))
  }

  ghost predicate StrictTotal<T(!new)>(less: (T, T) -> bool) {
    && (forall x :: !less(x, x))
    && (forall x, y, z :: less(x, y) && less(y, z) ==> less(x, z))
    && (forall x, y :: x == y || less(x, y) || less(y, x))
  }

  lemma {:induction false} LexIrreflexive<T(!new)>(less: (T, T) -> bool, a: seq<T>)
    requires StrictTotal(less)
    ensures !Lex(less, a, a)
    decreases |a|
  {
    if a != [] { LexIrreflexive(less, a[1..]); }
  }

  lemma {:induction false} LexTransitive<T(!new)>(less: (T, T) -> bool, a: seq<T>, b: seq<T>, c: seq<T>)
    requires StrictTotal(less) && Lex(less, a, b) && Lex(less, b, c)
    ensures Lex(less, a, c)
    decreases |a|
  {
    if a != [] && a[0] == b[0] == c[0] && !less(a[0], b[0]) && !less(b[0], c[0]) {
      LexTransitive(less, a[1..], b[1..], c[1..]);
    }
  }

  lemma {:induction false} LexTrichotomy<T(!new)>(less: (T, T) -> bool, a: seq<T>, b: seq<T>)
    requires StrictTotal(less)
    ensures a == b || Lex(less, a, b) || Lex(less, b, a)
    decreases |a|
  {
    if a != [] && b != [] && a[0] == b[0] {
      LexTrichotomy(less, a[1..], b[1..]);
      if a[1..] == b[1..] { assert a == [a[0]] + a[1..] == [b[0]] + b[1..] == b; }
    }
  }

  lemma {:induction false} LexStrictTotal<T(!new)>(less: (T, T) -> bool)
    requires StrictTotal(less)
    ensures StrictTotal((a, b) => Lex(less, a, b))
  {
    forall a: seq<T> ensures !Lex(less, a, a) { LexIrreflexive(less, a); }
    forall a: seq<T>, b: seq<T>, c: seq<T> | Lex(less, a, b) && Lex(less, b, c) ensures Lex(less, a, c) {
      LexTransitive(less, a, b, c);
    }
    forall a: seq<T>, b: seq<T> ensures a == b || Lex(less, a, b) || Lex(less, b, a) { LexTrichotomy(less, a, b); }
  }

  function NumLess(x: int, y: int): bool { x < y }

  /** The byte order of strings and of number lists: an item at a time, a proper prefix first. */
  predicate TextLess(a: seq<int>, b: seq<int>) { Lex(NumLess, a, b) }

  predicate KeyLess(a: Key, b: Key) { Lex(TextLess, a, b) }

  lemma {:induction false} TextLessTotal()
    ensures StrictTotal(TextLess)
  {
    LexStrictTotal(NumLess);
    assert forall a, b :: TextLess(a, b) == ((x, y) => Lex(NumLess, x, y))(a, b);
  }

  lemma {:induction false} KeyLessTotal()
    ensures StrictTotal(KeyLess)
  {
    TextLessTotal();
    LexStrictTotal(TextLess);
    assert forall a, b :: KeyLess(a, b) == ((x, y) => Lex(TextLess, x, y))(a, b);
  }

  // ---------------------------------------------------------------- stable sorting

  function InsertStable<T>(key: T -> Key, x: T, s: seq<T>): seq<T> {
    if s == [] || KeyLess(key(x), key(s[0])) then [x] + s else [s[0]] + InsertStable(key, x, s[1..])
  }

  /** `s` sorted by `key`, items with equal keys in their original order. */
  function SortBy<T>(key: T -> Key, s: seq<T>): seq<T> {
    if s == [] then [] else InsertStable(key, s[|s| - 1], SortBy(key, s[..|s| - 1]))
  }

  ghost predicate SortedBy<T>(key: T -> Key, s: seq<T>) {
    forall i, j :: 0 <= i < j < |s| ==> !KeyLess(key(s[j]), key(s[i]))
  }

  lemma {:induction false} InsertStableItems<T>(key: T -> Key, x: T, s: seq<T>)
    ensures multiset(InsertStable(key, x, s)) == multiset(s) + multiset{x}
    ensures forall y :: y in InsertStable(key, x, s) <==> y in s || y == x
  {
    if s != [] && !KeyLess(key(x), key(s[0])) {
      InsertStableItems(key, x, s[1..]);
      assert s == [s[0]] + s[1..];
    }
  }

  lemma {:induction false} InsertStableMember<T>(key: T -> Key, x: T, s: seq<T>, y: T)
    requires y in InsertStable(key, x, s)
    ensures y in s || y == x
  {
    InsertStableItems(key, x, s);
  }

  /** Nothing in a sorted list is below an item the first one is not below. */
  lemma {:induction false} NoneBelow<T>(key: T -> Key, x: T, s: seq<T>, y: T)
    requires SortedBy(key, s) && y in s && KeyLess(key(x), key(s[0]))
    ensures !KeyLess(key(y), key(x))
  {
    KeyLessTotal();
    hide KeyLess;
    var j :| 0 <= j < |s| && s[j] == y;
    if j > 0 { assert !KeyLess(key(s[j]), key(s[0])); }
  }

  lemma {:induction false} InsertStableSorted<T>(key: T -> Key, x: T, s: seq<T>)
    requires SortedBy(key, s)
    ensures SortedBy(key, InsertStable(key, x, s))
  {
    hide KeyLess;
    if s != [] {
      if KeyLess(key(x), key(s[0])) {
        forall y | y in s ensures !KeyLess(key(y), key(x)) { NoneBelow(key, x, s, y); }
      } else {
        var tail := InsertStable(key, x, s[1..]);
        InsertStableSorted(key, x, s[1..]);
        InsertStableItems(key, x, s[1..]);
        forall j | 0 <= j < |tail|
          ensures !KeyLess(key(tail[j]), key(s[0]))
        {
          InsertStableMember(key, x, s[1..], tail[j]);
          if tail[j] in s[1..] {
            var k :| 0 <= k < |s[1..]| && s[1..][k] == tail[j];
            assert s[k + 1] == tail[j];
            assert !KeyLess(key(s[k + 1]), key(s[0]));
          } else {
            assert tail[j] == x;
          }
        }
      }
    }
  }

  lemma {:induction false} SortBySorted<T>(key: T -> Key, s: seq<T>)
    ensures SortedBy(key, SortBy(key, s))
    ensures multiset(SortBy(key, s)) == multiset(s)
  {
    hide KeyLess, SortedBy;
    if s == [] {
      assert SortedBy(key, []) by { SortedEmpty(key); }
    } else {
      var n := |s| - 1;
      SortBySorted(key, s[..n]);
      InsertStableSorted(key, s[n], SortBy(key, s[..n]));
      InsertStableItems(key, s[n], SortBy(key, s[..n]));
      assert s == s[..n] + [s[n]];
    }
  }

  /** The items with key `k`, in order. */
  function WithKey<T>(key: T -> Key, k: Key, s: seq<T>): seq<T> {
    if s == [] then [] else (if key(s[0]) == k then [s[0]] else []) + WithKey(key, k, s[1..])
  }

  lemma {:induction false} NoneWithKey<T>(key: T -> Key, k: Key, s: seq<T>)
    requires forall y :: y in s ==> key(y) != k
    ensures WithKey(key, k, s) == []
  {
    if s != [] {
      assert s[0] in s;
      NoneWithKey(key, k, s[1..]);
    }
  }

  lemma {:induction false} WithKeySnoc<T>(key: T -> Key, k: Key, s: seq<T>, x: T)
    ensures WithKey(key, k, s + [x]) == WithKey(key, k, s) + (if key(x) == k then [x] else [])
  {
    if s == [] {
      assert [x][1..] == [] && s + [x] == [x];
    } else {
      assert (s + [x])[1..] == s[1..] + [x] && (s + [x])[0] == s[0];
      WithKeySnoc(key, k, s[1..], x);
      var (head, rest) := (if key(s[0]) == k then [s[0]] else [], WithKey(key, k, s[1..]));
      var last := if key(x) == k then [x] else [];
      assert head + (rest + last) == (head + rest) + last;
    }
  }

  /** An item goes behind all that have its key. */
  lemma {:induction false} InsertStableBehind<T>(key: T -> Key, k: Key, x: T, s: seq<T>)
    requires SortedBy(key, s)
    ensures WithKey(key, k, InsertStable(key, x, s)) == WithKey(key, k, s) + (if key(x) == k then [x] else [])
  {
    hide KeyLess;
    if s == [] || KeyLess(key(x), key(s[0])) {
      if key(x) == k {
        KeyLessTotal();
        forall y | y in s ensures key(y) != k {
          NoneBelow(key, x, s, y);
          var j :| 0 <= j < |s| && s[j] == y;
          assert j > 0 ==> !KeyLess(key(s[j]), key(s[0]));
        }
        NoneWithKey(key, k, s);
      }
    } else {
      InsertStableBehind(key, k, x, s[1..]);
    }
  }

  /** Items with equal keys keep their order. */
  lemma {:induction false} SortByStable<T>(key: T -> Key, k: Key, s: seq<T>)
    ensures WithKey(key, k, SortBy(key, s)) == WithKey(key, k, s)
  {
    hide KeyLess, SortedBy;
    if s != [] {
      var n := |s| - 1;
      SortByStable(key, k, s[..n]);
      SortBySorted(key, s[..n]);
      InsertStableBehind(key, k, s[n], SortBy(key, s[..n]));
      WithKeySnoc(key, k, s[..n], s[n]);
      assert s == s[..n] + [s[n]];
    }
  }

  lemma SortedEmpty<T>(key: T -> Key)
    ensures SortedBy(key, [])
  {
  }

  lemma {:induction false} SortByMembers<T>(key: T -> Key, s: seq<T>)
    ensures |SortBy(key, s)| == |s|
    ensures forall x :: x in SortBy(key, s) <==> x in s
  {
    SortBySorted(key, s);
    assert |multiset(s)| == |s|;
    assert |multiset(SortBy(key, s))| == |SortBy(key, s)|;
    forall x ensures x in SortBy(key, s) <==> x in s {
      assert x in multiset(s) <==> x in s;
      assert x in multiset(SortBy(key, s)) <==> x in SortBy(key, s);
    }
  }

  lemma {:induction false} SortByMember<T>(key: T -> Key, s: seq<T>, x: T)
    requires x in SortBy(key, s)
    ensures x in s
  {
    SortByMembers(key, s);
  }

  lemma PrefixMember<T>(s: seq<T>, n: nat, x: T)
    requires n <= |s| && x in s[..n]
    ensures x in s
  {
  }

  /** Two keys that order the items alike sort them alike. */
  lemma {:induction false} SortBySameOrder<T>(f: T -> Key, g: T -> Key, s: seq<T>)
    requires forall x, y :: x in s && y in s ==> KeyLess(f(x), f(y)) == KeyLess(g(x), g(y))
    ensures SortBy(f, s) == SortBy(g, s)
  {
    hide KeyLess;
    if s != [] {
      var n := |s| - 1;
      SortBySameOrder(f, g, s[..n]);
      var sorted := SortBy(f, s[..n]);
      forall y | y in sorted
        ensures KeyLess(f(s[n]), f(y)) == KeyLess(g(s[n]), g(y))
      {
        SortByMember(f, s[..n], y);
        PrefixMember(s, n, y);
        assert s[n] in s;
      }
      InsertSameOrder(f, g, s[n], sorted);
    }
  }

  lemma {:induction false} InsertSameOrder<T>(f: T -> Key, g: T -> Key, x: T, s: seq<T>)
    requires forall y :: y in s ==> KeyLess(f(x), f(y)) == KeyLess(g(x), g(y))
    ensures InsertStable(f, x, s) == InsertStable(g, x, s)
  {
    if s != [] { InsertSameOrder(f, g, x, s[1..]); }
  }

  // ---------------------------------------------------------------- ordered sets

  /** The keys of an ordered map: strictly ascending. */
  ghost predicate Ascending<T>(key: T -> Key, s: seq<T>) {
    forall i, j :: 0 <= i < j < |s| ==> KeyLess(key(s[i]), key(s[j]))
  }

  function InsertUnique<T(==)>(key: T -> Key, x: T, s: seq<T>): seq<T> {
    if s == [] || KeyLess(key(x), key(s[0])) then [x] + s
    else if x == s[0] then s
    else [s[0]] + InsertUnique(key, x, s[1..])
  }

  /** The distinct items of `s` in order. */
  function OrderedSet<T(==)>(key: T -> Key, s: seq<T>): seq<T> {
    if s == [] then [] else InsertUnique(key, s[|s| - 1], OrderedSet(key, s[..|s| - 1]))
  }

  ghost predicate Injective<T(!new)>(key: T -> Key) { forall x, y :: key(x) == key(y) ==> x == y }

  lemma {:induction false} InsertUniqueAscending<T(!new)>(key: T -> Key, x: T, s: seq<T>)
    requires Injective(key) && Ascending(key, s)
    ensures Ascending(key, InsertUnique(key, x, s))
    ensures forall y :: y in InsertUnique(key, x, s) <==> y in s || y == x
  {
    KeyLessTotal();
    if s != [] && !KeyLess(key(x), key(s[0])) && x != s[0] {
      InsertUniqueAscending(key, x, s[1..]);
      assert s == [s[0]] + s[1..];
      assert KeyLess(key(s[0]), key(x));
      var tail := InsertUnique(key, x, s[1..]);
      forall j | 0 <= j < |tail|
        ensures KeyLess(key(s[0]), key(tail[j]))
      {
        assert tail[j] in tail;
      }
    } else if s != [] && KeyLess(key(x), key(s[0])) {
      forall j | 0 <= j < |s|
        ensures KeyLess(key(x), key(s[j]))
      {
      }
    }
  }

  lemma {:induction false} OrderedSetAscending<T(!new)>(key: T -> Key, s: seq<T>)
    requires Injective(key)
    ensures Ascending(key, OrderedSet(key, s))
    ensures forall y :: y in OrderedSet(key, s) <==> y in s
    ensures |OrderedSet(key, s)| <= |s|
  {
    if s != [] {
      var n := |s| - 1;
      OrderedSetAscending(key, s[..n]);
      InsertUniqueAscending(key, s[n], OrderedSet(key, s[..n]));
      InsertUniqueGrows(key, s[n], OrderedSet(key, s[..n]));
      assert s == s[..n] + [s[n]];
    }
  }

  lemma {:induction false} InsertUniqueGrows<T>(key: T -> Key, x: T, s: seq<T>)
    ensures |InsertUnique(key, x, s)| <= |s| + 1
  {
    if s != [] { InsertUniqueGrows(key, x, s[1..]); }
  }

  lemma {:induction false} HeadIsLeast<T(!new)>(key: T -> Key, s: seq<T>)
    requires Ascending(key, s) && s != []
    ensures s[0] !in s[1..]
    ensures forall x :: x in s && x != s[0] ==> x in s[1..] && KeyLess(key(s[0]), key(x))
  {
    KeyLessTotal();
    assert s == [s[0]] + s[1..];
  }

  lemma EmptyOrMember<T>(s: seq<T>)
    ensures s == [] || s[0] in s
  {
  }

  /** Strictly ascending lists with the same members are the same list. */
  lemma {:induction false} AscendingUnique<T(!new)>(key: T -> Key, a: seq<T>, b: seq<T>)
    requires Ascending(key, a) && Ascending(key, b)
    requires forall x :: x in a <==> x in b
    ensures a == b
  {
    if a != [] {
      assert a[0] in b;
      assert b[0] in a;
      HeadIsLeast(key, a);
      HeadIsLeast(key, b);
      KeyLessTotal();
      assert a[0] == b[0];
      forall x ensures x in a[1..] <==> x in b[1..] {
        if x in a[1..] { assert x in a; }
        if x in b[1..] { assert x in b; }
      }
      AscendingUnique(key, a[1..], b[1..]);
      assert a == [a[0]] + a[1..] == b;
    } else {
      EmptyOrMember(b);
    }
  }

  /** The position of `x`. */
  function IndexOf<T(==)>(s: seq<T>, x: T): (i: nat)
    requires x in s
    ensures i < |s| && s[i] == x
  {
    if s[0] == x then 0 else 1 + IndexOf(s[1..], x)
  }

  /** In an ordered set, positions order items as the keys do. */
  lemma {:induction false} IndexOfMonotone<T(!new)>(key: T -> Key, s: seq<T>, x: T, y: T)
    requires Ascending(key, s) && x in s && y in s
    ensures IndexOf(s, x) < IndexOf(s, y) <==> KeyLess(key(x), key(y))
    ensures IndexOf(s, x) == IndexOf(s, y) <==> x == y
  {
    KeyLessTotal();
    var i, j := IndexOf(s, x), IndexOf(s, y);
    assert s[i] == x && s[j] == y;
    if i < j { assert KeyLess(key(s[i]), key(s[j])); }
    if j < i { assert KeyLess(key(s[j]), key(s[i])); }
  }
}
