/** Matching a hashed artifact against the games of a pack: which components agree, and which games they make up. */
module ArtifactMatch {
  import opened Bytes
  import opened Hex
  import opened Order
  import opened PackModel
  import opened PackHashes
  import opened PackRoutes

  /** What is known of one file of an artifact; reports call it by the name. */
  datatype Fingerprint = Fingerprint(hash: HashKey, name: str)

  // ---------------------------------------------------------------- one component against another

  predicate SameText(a: str, b: str) { AsciiLower(a) == AsciiLower(b) }

  predicate Disagree(ours: Option<str>, theirs: Option<str>) {
    ours.Some? && theirs.Some? && !SameText(ours.value, theirs.value)
  }

  predicate Agree(ours: Option<str>, theirs: Option<str>) {
    ours.Some? && theirs.Some? && SameText(ours.value, theirs.value)
  }

  function HashList(h: HashKey): seq<Option<str>> { [h.crc32, h.md5, h.sha1, h.sha256] }

  /** The scopes agree, or a file hashed whole stands for a track file. */
  predicate ScopesFit(a: HashKey, p: HashKey) { a.scope == p.scope || (a.scope == FULL_FILE && p.scope == TRACK_FILE) }

  /** Scope and size fit, some hash agrees, and none disagrees; a size of zero in the pack is unknown. */
  predicate ComponentMatches(a: HashKey, p: HashKey) {
    && ScopesFit(a, p) && (p.size == 0 || a.size == p.size)
    && (exists i :: 0 <= i < 4 && Agree(HashList(a)[i], HashList(p)[i]))
    && (forall i :: 0 <= i < 4 ==> !Disagree(HashList(a)[i], HashList(p)[i]))
  }

  /** Counts the agreeing hashes and gives up at the first disagreeing one. */
  method MatchComponent(a: HashKey, p: HashKey) returns (ok: bool)
    ensures ok <==> ComponentMatches(a, p)
  {
    if !ScopesFit(a, p) || (p.size != 0 && a.size != p.size) {
      return false;
    }
    var (ours, theirs) := (HashList(a), HashList(p));
    var agreements := 0;
    var i := 0;
    while i < 4
      invariant 0 <= i <= 4
      invariant agreements > 0 <==> exists k :: 0 <= k < i && Agree(ours[k], theirs[k])
      invariant forall k :: 0 <= k < i ==> !Disagree(ours[k], theirs[k])
    {
      if ours[i].Some? && theirs[i].Some? {
        if !SameText(ours[i].value, theirs[i].value) {
          assert Disagree(HashList(a)[i], HashList(p)[i]);
          return false;
        }
        agreements := agreements + 1;
      }
      i := i + 1;
    }
    return agreements > 0;
  }

  /** The same characters, letters in either case. */
  predicate SameLetters(a: str, b: str) {
    |a| == |b| && forall i :: 0 <= i < |a| ==>
      a[i] == b[i] || (0x41 <= a[i] <= 0x5A && b[i] == a[i] + 0x20) || (0x41 <= b[i] <= 0x5A && a[i] == b[i] + 0x20)
  }

  lemma {:induction false} SameTextMeans(a: str, b: str)
    ensures SameText(a, b) <==> SameLetters(a, b)
  {
    var (x, y) := (AsciiLower(a), AsciiLower(b));
    if |a| == |b| {
      forall i | 0 <= i < |a|
        ensures x[i] == y[i]
           <==> a[i] == b[i] || (0x41 <= a[i] <= 0x5A && b[i] == a[i] + 0x20) || (0x41 <= b[i] <= 0x5A && a[i] == b[i] + 0x20)
      {
      }
    }
  }

  predicate BothSame(a: Option<str>, p: Option<str>) { a.Some? && p.Some? && SameLetters(a.value, p.value) }

  predicate BothDiffer(a: Option<str>, p: Option<str>) { a.Some? && p.Some? && !SameLetters(a.value, p.value) }

  /** Which files a component of a pack accepts, hash by hash. */
  lemma {:induction false} ComponentMatchesMeans(a: HashKey, p: HashKey)
    ensures ComponentMatches(a, p) <==>
      && (a.scope == p.scope || (Spells(a.scope, "full_file") && Spells(p.scope, "track_file")))
      && (p.size == 0 || a.size == p.size)
      && (BothSame(a.crc32, p.crc32) || BothSame(a.md5, p.md5) || BothSame(a.sha1, p.sha1) || BothSame(a.sha256, p.sha256))
      && !BothDiffer(a.crc32, p.crc32) && !BothDiffer(a.md5, p.md5) && !BothDiffer(a.sha1, p.sha1)
      && !BothDiffer(a.sha256, p.sha256)
  {
    ScopesSpelled(a.scope);
    ScopesSpelled(p.scope);
    forall x: str, y: str ensures SameText(x, y) <==> SameLetters(x, y) { SameTextMeans(x, y); }
    hide SameText, SameLetters, Spells, Ascii;
    var (ours, theirs) := (HashList(a), HashList(p));
    assert ours[0] == a.crc32 && ours[1] == a.md5 && ours[2] == a.sha1 && ours[3] == a.sha256;
    assert theirs[0] == p.crc32 && theirs[1] == p.md5 && theirs[2] == p.sha1 && theirs[3] == p.sha256;
    assert (exists i :: 0 <= i < 4 && Agree(ours[i], theirs[i]))
      <==> Agree(ours[0], theirs[0]) || Agree(ours[1], theirs[1]) || Agree(ours[2], theirs[2]) || Agree(ours[3], theirs[3]);
  }

  lemma {:induction false} ScopesSpelled(scope: str)
    ensures scope == FULL_FILE <==> Spells(scope, "full_file")
    ensures scope == TRACK_FILE <==> Spells(scope, "track_file")
  {
  }

  // ---------------------------------------------------------------- the greedy assignment

  /** The first artifact component from `from` on that is not taken and matches. */
  function FirstFree(artifact: seq<Fingerprint>, taken: set<nat>, p: HashKey, from: nat): (r: Option<nat>)
    requires from <= |artifact|
    ensures r.Some? ==> from <= r.value < |artifact| && r.value !in taken && ComponentMatches(artifact[r.value].hash, p)
    ensures r.Some? ==> forall i :: from <= i < r.value && ComponentMatches(artifact[i].hash, p) ==> i in taken
    ensures r.None? ==> forall i :: from <= i < |artifact| && ComponentMatches(artifact[i].hash, p) ==> i in taken
    decreases |artifact| - from
  {
    if from == |artifact| then None
    else if from !in taken && ComponentMatches(artifact[from].hash, p) then Some(from)
    else FirstFree(artifact, taken, p, from + 1)
  }

  function With(taken: set<nat>, i: Option<nat>): set<nat> { match i case None => taken case Some(v) => taken + {v} }

  /** Each pack component in turn takes the first free artifact component that matches it. */
  function Assign(pack: seq<Component>, artifact: seq<Fingerprint>, taken: set<nat>): (r: seq<Option<nat>>)
    ensures |r| == |pack|
    decreases |pack|
  {
    if pack == [] then []
    else
      var i := FirstFree(artifact, taken, pack[0].hash, 0);
      [i] + Assign(pack[1..], artifact, With(taken, i))
  }

  function Taken(a: seq<Option<nat>>): set<nat> {
    if a == [] then {} else With({}, a[0]) + Taken(a[1..])
  }

  lemma {:induction false} TakenExact(a: seq<Option<nat>>, i: nat)
    ensures i in Taken(a) <==> Some(i) in a
  {
    if a != [] {
      TakenExact(a[1..], i);
      assert a == [a[0]] + a[1..];
    }
  }

  ghost predicate Fits(pack: seq<Component>, artifact: seq<Fingerprint>, k: nat, i: nat) {
    k < |pack| && i < |artifact| && ComponentMatches(artifact[i].hash, pack[k].hash)
  }

  /** A legal assignment: what is assigned matches, and nothing is assigned twice or was taken before. */
  ghost predicate Legal(pack: seq<Component>, artifact: seq<Fingerprint>, taken: set<nat>, a: seq<Option<nat>>) {
    && |a| == |pack|
    && (forall k :: 0 <= k < |a| && a[k].Some? ==> Suits(pack, artifact, taken, a, k))
    && (forall j, k :: 0 <= j < k < |a| && a[j].Some? && a[k].Some? ==> a[j].value != a[k].value)
  }

  ghost predicate Suits(pack: seq<Component>, artifact: seq<Fingerprint>, taken: set<nat>, a: seq<Option<nat>>, k: nat)
    requires k < |a| == |pack| && a[k].Some?
  {
    var i := a[k].value;
    i < |artifact| && i !in taken && ComponentMatches(artifact[i].hash, pack[k].hash)
  }

  /** A component that went without had every artifact component it matches taken by the ones before it. */
  ghost predicate Starved(pack: seq<Component>, artifact: seq<Fingerprint>, taken: set<nat>, a: seq<Option<nat>>, k: nat)
    requires k < |a| == |pack|
  {
    forall i :: 0 <= i < |artifact| && ComponentMatches(artifact[i].hash, pack[k].hash) ==>
      i in taken || Some(i) in a[..k]
  }

  lemma {:induction false} LegalCons(pack: seq<Component>, artifact: seq<Fingerprint>, taken: set<nat>, first: Option<nat>, rest: seq<Option<nat>>)
    requires pack != [] && Legal(pack[1..], artifact, With(taken, first), rest)
    requires first.Some? ==> first.value !in taken && Fits(pack, artifact, 0, first.value)
    ensures Legal(pack, artifact, taken, [first] + rest)
  {
    hide ComponentMatches;
    var a := [first] + rest;
    forall k | 0 <= k < |a| && a[k].Some? ensures Suits(pack, artifact, taken, a, k) {
      if k > 0 { assert Suits(pack[1..], artifact, With(taken, first), rest, k - 1); }
    }
    forall j, k | 0 <= j < k < |a| && a[j].Some? && a[k].Some? ensures a[j].value != a[k].value {
      assert Suits(pack[1..], artifact, With(taken, first), rest, k - 1);
    }
  }

  lemma {:induction false} AssignSound(pack: seq<Component>, artifact: seq<Fingerprint>, taken: set<nat>)
    ensures Legal(pack, artifact, taken, Assign(pack, artifact, taken))
    decreases |pack|
  {
    if pack != [] {
      hide ComponentMatches, FirstFree, Legal;
      var first := FirstFree(artifact, taken, pack[0].hash, 0);
      AssignSound(pack[1..], artifact, With(taken, first));
      LegalCons(pack, artifact, taken, first, Assign(pack[1..], artifact, With(taken, first)));
    } else {
      assert Assign(pack, artifact, taken) == [];
    }
  }

  /** Whoever goes without is starved. */
  lemma {:induction false} AssignStarves(pack: seq<Component>, artifact: seq<Fingerprint>, taken: set<nat>, k: nat)
    requires k < |pack| && Assign(pack, artifact, taken)[k].None?
    ensures Starved(pack, artifact, taken, Assign(pack, artifact, taken), k)
    decreases |pack|
  {
    hide ComponentMatches;
    var first := FirstFree(artifact, taken, pack[0].hash, 0);
    var more := With(taken, first);
    var (a, rest) := (Assign(pack, artifact, taken), Assign(pack[1..], artifact, more));
    assert a == [first] + rest;
    if k > 0 {
      AssignStarves(pack[1..], artifact, more, k - 1);
      hide Assign, FirstFree;
      assert a[..k] == [first] + rest[..k - 1];
    }
  }

  // ---------------------------------------------------------------- verifying one candidate

  datatype Quality = Exact | Partial

  datatype Evidence = Evidence(matched: nat, total: nat, layoutMatched: bool, missing: seq<Component>, unexpected: seq<str>)

  datatype Verification = Verification(quality: Quality, evidence: Evidence)

  function CountRequired(pack: seq<Component>, a: seq<Option<nat>>, onlyMatched: bool): nat
    requires |a| == |pack|
  {
    if pack == [] then 0
    else
      (if pack[0].required && (!onlyMatched || a[0].Some?) then 1 else 0) + CountRequired(pack[1..], a[1..], onlyMatched)
  }

  function Missing(pack: seq<Component>, a: seq<Option<nat>>): seq<Component>
    requires |a| == |pack|
  {
    if pack == [] then []
    else (if pack[0].required && a[0].None? then [pack[0]] else []) + Missing(pack[1..], a[1..])
  }

  /** Some required component that tells games apart was matched. */
  predicate Discriminated(pack: seq<Component>, a: seq<Option<nat>>)
    requires |a| == |pack|
  {
    exists k :: 0 <= k < |pack| && a[k].Some? && pack[k].required && pack[k].discriminating
  }

  /** The artifact components with a crc32 that no pack component took. */
  function Unexpected(artifact: seq<Fingerprint>, taken: set<nat>, from: nat): seq<str>
    requires from <= |artifact|
    decreases |artifact| - from
  {
    if from == |artifact| then []
    else
      (if from !in taken && artifact[from].hash.crc32.Some? then [artifact[from].name] else [])
      + Unexpected(artifact, taken, from + 1)
  }

  function Judge(pack: seq<Component>, artifact: seq<Fingerprint>, a: seq<Option<nat>>): Option<Verification>
    requires |a| == |pack|
  {
    if !Discriminated(pack, a) then None
    else
      var (matched, total) := (CountRequired(pack, a, true), CountRequired(pack, a, false));
      var unexpected := Unexpected(artifact, Taken(a), 0);
      var layout := matched == total && total > 0 && unexpected == [];
      Some(Verification(if layout then Exact else Partial, Evidence(matched, total, layout, Missing(pack, a), unexpected)))
  }

  function Verify(game: Game, artifact: seq<Fingerprint>): Option<Verification> {
    Judge(game.components, artifact, Assign(game.components, artifact, {}))
  }

  function SetOf(consumed: seq<bool>): (s: set<nat>)
    ensures forall i :: i in s <==> 0 <= i < |consumed| && consumed[i]
  {
    set i: nat | i < |consumed| && consumed[i]
  }

  method FindFree(artifact: seq<Fingerprint>, consumed: array<bool>, p: HashKey) returns (at: Option<nat>)
    requires consumed.Length == |artifact|
    ensures at == FirstFree(artifact, SetOf(consumed[..]), p, 0)
  {
    var i := 0;
    while i < |artifact|
      invariant 0 <= i <= |artifact|
      invariant FirstFree(artifact, SetOf(consumed[..]), p, 0) == FirstFree(artifact, SetOf(consumed[..]), p, i)
    {
      var ok := MatchComponent(artifact[i].hash, p);
      if !consumed[i] && ok {
        return Some(i);
      }
      i := i + 1;
    }
    return None;
  }

  /** What the pass over the pack components has counted so far. */
  datatype Tally = Tally(matched: nat, total: nat, discriminated: bool, missing: seq<Component>)

  function Counted(t: Tally, p: Component, found: bool): Tally {
    if !p.required then t
    else if found then Tally(t.matched + 1, t.total + 1, t.discriminated || p.discriminating, t.missing)
    else t.(total := t.total + 1, missing := t.missing + [p])
  }

  /** The counts of a whole assignment, added to `t`. */
  function Totals(t: Tally, pack: seq<Component>, a: seq<Option<nat>>): Tally
    requires |a| == |pack|
  {
    Tally(t.matched + CountRequired(pack, a, true), t.total + CountRequired(pack, a, false),
          t.discriminated || Discriminated(pack, a), t.missing + Missing(pack, a))
  }

  lemma {:induction false} TotalsStep(t: Tally, pack: seq<Component>, a: seq<Option<nat>>)
    requires |a| == |pack| > 0
    ensures Totals(t, pack, a) == Totals(Counted(t, pack[0], a[0].Some?), pack[1..], a[1..])
  {
    var (p, rest, more) := (pack[0], pack[1..], a[1..]);
    assert Discriminated(pack, a) <==> (a[0].Some? && p.required && p.discriminating) || Discriminated(rest, more) by {
      assert forall k :: 0 < k < |pack| ==> pack[k] == rest[k - 1] && a[k] == more[k - 1];
      assert forall k :: 0 <= k < |rest| ==> rest[k] == pack[k + 1] && more[k] == a[k + 1];
    }
    assert (t.missing + [p]) + Missing(rest, more) == t.missing + ([p] + Missing(rest, more));
    assert [] + Missing(rest, more) == Missing(rest, more);
  }

  lemma AssignStep(pack: seq<Component>, artifact: seq<Fingerprint>, taken: set<nat>)
    requires pack != []
    ensures var a := Assign(pack, artifact, taken);
      && a[0] == FirstFree(artifact, taken, pack[0].hash, 0)
      && a[1..] == Assign(pack[1..], artifact, With(taken, a[0]))
  {
  }

  /** One pass over the pack components with a flag per artifact component. */
  method VerifyCandidate(game: Game, artifact: seq<Fingerprint>) returns (result: Option<Verification>)
    ensures result == Verify(game, artifact)
  {
    hide ComponentMatches, CountRequired, Missing, Discriminated, Taken, Assign;
    var consumed, tally := AssignAll(game.components, artifact);
    ghost var a := Assign(game.components, artifact, {});
    if !tally.discriminated {
      return None;
    }
    var unexpected: seq<str> := [];
    var i := 0;
    assert [] + Unexpected(artifact, Taken(a), 0) == Unexpected(artifact, Taken(a), 0);
    while i < |artifact|
      invariant 0 <= i <= |artifact|
      invariant Unexpected(artifact, Taken(a), 0) == unexpected + Unexpected(artifact, Taken(a), i)
    {
      ghost var first := if i !in Taken(a) && artifact[i].hash.crc32.Some? then [artifact[i].name] else [];
      ghost var rest := Unexpected(artifact, Taken(a), i + 1);
      assert Unexpected(artifact, Taken(a), i) == first + rest;
      assert unexpected + (first + rest) == (unexpected + first) + rest;
      assert first == [] ==> unexpected + first == unexpected;
      if !consumed[i] && artifact[i].hash.crc32.Some? {
        unexpected := unexpected + [artifact[i].name];
      }
      i := i + 1;
    }
    assert unexpected + [] == unexpected;
    var layout := tally.matched == tally.total && tally.total > 0 && unexpected == [];
    return Some(Verification(if layout then Exact else Partial,
                             Evidence(tally.matched, tally.total, layout, tally.missing, unexpected)));
  }

  method AssignAll(pack: seq<Component>, artifact: seq<Fingerprint>) returns (flags: seq<bool>, tally: Tally)
    ensures var a := Assign(pack, artifact, {});
      && |flags| == |artifact| && SetOf(flags) == Taken(a)
      && tally == Tally(CountRequired(pack, a, true), CountRequired(pack, a, false), Discriminated(pack, a), Missing(pack, a))
  {
    hide ComponentMatches, CountRequired, Missing, Discriminated, Taken, Assign, Totals;
    var consumed := new bool[|artifact|](_ => false);
    tally := Tally(0, 0, false, []);
    ghost var a := Assign(pack, artifact, {});
    TotalsStart(pack, a);
    var k := 0;
    assert SetOf(consumed[..]) == {};
    assert pack[0..] == pack && a[0..] == a && a[..0] == [];
    while k < |pack|
      invariant 0 <= k <= |pack|
      invariant a[k..] == Assign(pack[k..], artifact, SetOf(consumed[..]))
      invariant SetOf(consumed[..]) == Taken(a[..k])
      invariant Totals(Tally(0, 0, false, []), pack, a) == Totals(tally, pack[k..], a[k..])
    {
      var at := FindFree(artifact, consumed, pack[k].hash);
      AssignStep(pack[k..], artifact, SetOf(consumed[..]));
      TotalsStep(tally, pack[k..], a[k..]);
      Tails(pack, a, k);
      ghost var before := SetOf(consumed[..]);
      if at.Some? {
        consumed[at.value] := true;
      }
      assert SetOf(consumed[..]) == With(before, at);
      TakenSnoc(a[..k], at);
      assert a[..k + 1] == a[..k] + [at];
      tally := Counted(tally, pack[k], at.Some?);
      k := k + 1;
    }
    assert pack[k..] == [] && a[k..] == [] && a[..k] == a;
    TotalsEnd(tally);
    flags := consumed[..];
  }

  lemma {:induction false} TotalsStart(pack: seq<Component>, a: seq<Option<nat>>)
    requires |a| == |pack|
    ensures Totals(Tally(0, 0, false, []), pack, a)
         == Tally(CountRequired(pack, a, true), CountRequired(pack, a, false), Discriminated(pack, a), Missing(pack, a))
    ensures Taken([]) == {}
  {
    assert [] + Missing(pack, a) == Missing(pack, a);
  }

  lemma {:induction false} TotalsEnd(t: Tally)
    ensures Totals(t, [], []) == t
  {
    assert t.missing + [] == t.missing;
  }

  lemma Tails(pack: seq<Component>, a: seq<Option<nat>>, k: nat)
    requires k < |pack| == |a|
    ensures pack[k..][0] == pack[k] && pack[k..][1..] == pack[k + 1..] && a[k..][0] == a[k] && a[k..][1..] == a[k + 1..]
  {
  }

  lemma {:induction false} TakenSnoc(a: seq<Option<nat>>, last: Option<nat>)
    ensures Taken(a + [last]) == With(Taken(a), last)
  {
    if a == [] {
      assert a + [last] == [last] && [last][1..] == [];
    } else {
      assert (a + [last])[1..] == a[1..] + [last];
      TakenSnoc(a[1..], last);
    }
  }

  // ---------------------------------------------------------------- what an exact verification means

  lemma {:induction false} AllRequiredMatched(pack: seq<Component>, a: seq<Option<nat>>)
    requires |a| == |pack|
    ensures CountRequired(pack, a, true) <= CountRequired(pack, a, false)
    ensures CountRequired(pack, a, true) == CountRequired(pack, a, false)
       <==> forall k :: 0 <= k < |pack| && pack[k].required ==> a[k].Some?
    ensures CountRequired(pack, a, false) > 0 <==> exists k :: 0 <= k < |pack| && pack[k].required
    decreases |pack|
  {
    if pack != [] {
      AllRequiredMatched(pack[1..], a[1..]);
      assert forall k :: 0 < k < |pack| ==> pack[k] == pack[1..][k - 1] && a[k] == a[1..][k - 1];
      assert forall k :: 0 <= k < |pack[1..]| ==> pack[1..][k] == pack[k + 1] && a[1..][k] == a[k + 1];
    }
  }

  lemma {:induction false} NothingUnexpected(artifact: seq<Fingerprint>, taken: set<nat>, from: nat)
    requires from <= |artifact|
    ensures Unexpected(artifact, taken, from) == []
       <==> forall i :: from <= i < |artifact| && artifact[i].hash.crc32.Some? ==> i in taken
    decreases |artifact| - from
  {
    if from < |artifact| {
      NothingUnexpected(artifact, taken, from + 1);
      var rest := Unexpected(artifact, taken, from + 1);
      assert Unexpected(artifact, taken, from) == [] <==> (from in taken || artifact[from].hash.crc32.None?) && rest == [];
      hide Unexpected;
    }
  }

  /** The assignment supplies every required component and uses up every artifact component with a crc32. */
  ghost predicate Complete(pack: seq<Component>, artifact: seq<Fingerprint>, a: seq<Option<nat>>) {
    && Legal(pack, artifact, {}, a)
    && (forall k :: 0 <= k < |pack| && pack[k].required ==> a[k].Some?)
    && (forall i :: 0 <= i < |artifact| && artifact[i].hash.crc32.Some? ==> Some(i) in a)
    && Discriminated(pack, a)
  }

  predicate IsExact(game: Game, artifact: seq<Fingerprint>) {
    Verify(game, artifact).Some? && Verify(game, artifact).value.quality == Exact
  }

  /** Exact says just that of the greedy assignment. */
  lemma {:induction false} ExactMeansComplete(game: Game, artifact: seq<Fingerprint>)
    ensures IsExact(game, artifact) <==> Complete(game.components, artifact, Assign(game.components, artifact, {}))
  {
    var pack := game.components;
    var a := Assign(pack, artifact, {});
    AssignSound(pack, artifact, {});
    AllRequiredMatched(pack, a);
    NothingUnexpected(artifact, Taken(a), 0);
    forall i: nat ensures i in Taken(a) <==> Some(i) in a { TakenExact(a, i); }
    hide Legal, Assign, CountRequired, Unexpected, Taken;
  }

  /** So an exact match comes with an assignment of all required components to distinct artifact components. */
  lemma {:induction false} ExactIsSound(game: Game, artifact: seq<Fingerprint>)
    requires IsExact(game, artifact)
    ensures exists a :: Complete(game.components, artifact, a)
  {
    ExactMeansComplete(game, artifact);
  }

  // ---------------------------------------------------------------- when the greedy assignment is enough

  /** The assignment supplies every required component and uses up every artifact component with a crc32 not taken before. */
  ghost predicate Supplies(pack: seq<Component>, artifact: seq<Fingerprint>, taken: set<nat>, a: seq<Option<nat>>) {
    && Legal(pack, artifact, taken, a)
    && (forall k :: 0 <= k < |pack| && pack[k].required ==> a[k].Some?)
    && (forall i: nat :: HasCrc(artifact, i) ==> i in taken || Some(i) in a)
  }

  predicate HasCrc(artifact: seq<Fingerprint>, i: nat) { i < |artifact| && artifact[i].hash.crc32.Some? }

  /** Whoever could take `v` can take `w` instead, or both may be left over. */
  ghost predicate Yields(pack: seq<Component>, artifact: seq<Fingerprint>, k: nat, w: nat) {
    Fits(pack, artifact, k, w) || (k < |pack| && !pack[k].required && !HasCrc(artifact, w))
  }

  /** Where one component can take `v` or a later `w`, a component behind it that can take `v` yields. */
  ghost predicate Nested(pack: seq<Component>, artifact: seq<Fingerprint>) {
    forall j: nat, k: nat, v: nat, w: nat ::
      j < k && v < w && Fits(pack, artifact, j, v) && Fits(pack, artifact, j, w) && Fits(pack, artifact, k, v)
      ==> Yields(pack, artifact, k, w)
  }

  /** An optional component shares no match with a required one behind it. */
  ghost predicate RequiredFirst(pack: seq<Component>, artifact: seq<Fingerprint>) {
    forall j: nat, k: nat, v: nat :: j < k && Fits(pack, artifact, j, v) && Fits(pack, artifact, k, v) && pack[k].required
      ==> pack[j].required
  }

  /** Among the matches of one component, those with a crc32 come first. */
  ghost predicate CrcFirst(pack: seq<Component>, artifact: seq<Fingerprint>) {
    forall k: nat, v: nat, w: nat :: v < w && Fits(pack, artifact, k, v) && Fits(pack, artifact, k, w) && HasCrc(artifact, w)
      ==> HasCrc(artifact, v)
  }

  ghost predicate Orderly(pack: seq<Component>, artifact: seq<Fingerprint>) {
    Nested(pack, artifact) && RequiredFirst(pack, artifact) && CrcFirst(pack, artifact)
  }

  /** `k` gives `v` up to the first component, for what that one had or for nothing. */
  function Traded(other: seq<Option<nat>>, k: nat, v: nat, swap: bool): seq<Option<nat>>
    requires 0 < k < |other|
  {
    other[k := if swap then other[0] else None][0 := Some(v)]
  }

  lemma {:induction false} TradeSupplies(pack: seq<Component>, artifact: seq<Fingerprint>, taken: set<nat>, other: seq<Option<nat>>, k: nat, v: nat, swap: bool)
    requires Supplies(pack, artifact, taken, other) && 0 < k < |pack| && other[k] == Some(v) && Fits(pack, artifact, 0, v)
    requires if swap then other[0].Some? && Fits(pack, artifact, k, other[0].value)
             else !pack[k].required && (other[0].Some? ==> !HasCrc(artifact, other[0].value))
    ensures Supplies(pack, artifact, taken, Traded(other, k, v, swap))
  {
    hide ComponentMatches, HasCrc;
    var better := Traded(other, k, v, swap);
    assert Suits(pack, artifact, taken, other, k);
    forall j | 0 <= j < |better| && better[j].Some? ensures Suits(pack, artifact, taken, better, j) {
      if j != 0 && j != k { assert Suits(pack, artifact, taken, other, j); }
      if j == k { assert Suits(pack, artifact, taken, other, 0); }
    }
    forall i: nat | HasCrc(artifact, i) && i !in taken ensures Some(i) in better {
      var j :| 0 <= j < |other| && other[j] == Some(i);
      assert better[0] == Some(v) && (swap ==> better[k] == other[0]) && (j != 0 && j != k ==> better[j] == other[j]);
    }
  }

  lemma {:induction false} MoveSupplies(pack: seq<Component>, artifact: seq<Fingerprint>, taken: set<nat>, other: seq<Option<nat>>, v: nat)
    requires Supplies(pack, artifact, taken, other) && pack != [] && Fits(pack, artifact, 0, v) && v !in taken
    requires Some(v) !in other && (other[0].Some? ==> !HasCrc(artifact, other[0].value))
    ensures Supplies(pack, artifact, taken, other[0 := Some(v)])
  {
    hide ComponentMatches, HasCrc;
    var better := other[0 := Some(v)];
    forall j | 0 <= j < |better| && better[j].Some? ensures Suits(pack, artifact, taken, better, j) {
      if j != 0 { assert Suits(pack, artifact, taken, other, j); }
    }
    forall i: nat | HasCrc(artifact, i) && i !in taken ensures Some(i) in better {
      var j :| 0 <= j < |other| && other[j] == Some(i);
      assert better[j] == other[j];
    }
  }

  /** A supply can be changed so that the first component takes what the greedy pass gives it. */
  lemma {:induction false} ExchangeFirst(pack: seq<Component>, artifact: seq<Fingerprint>, taken: set<nat>, other: seq<Option<nat>>)
    requires pack != [] && Orderly(pack, artifact) && Supplies(pack, artifact, taken, other)
    ensures exists better ::
      Supplies(pack, artifact, taken, better) && better[0] == FirstFree(artifact, taken, pack[0].hash, 0)
  {
    hide ComponentMatches, HasCrc;
    var first := FirstFree(artifact, taken, pack[0].hash, 0);
    if other[0].Some? { assert Suits(pack, artifact, taken, other, 0); }
    if first == other[0] || first.None? {
      return;
    }
    var v := first.value;
    assert Fits(pack, artifact, 0, v);
    if other[0].Some? { assert v < other[0].value && Fits(pack, artifact, 0, other[0].value); }
    if k :| 0 < k < |other| && other[k] == Some(v) {
      assert Suits(pack, artifact, taken, other, k);
      assert Fits(pack, artifact, k, v);
      var swap := other[0].Some? && Fits(pack, artifact, k, other[0].value);
      if other[0].Some? { assert Yields(pack, artifact, k, other[0].value); }
      TradeSupplies(pack, artifact, taken, other, k, v, swap);
      assert Traded(other, k, v, swap)[0] == first;
    } else {
      assert Some(v) !in other;
      MoveSupplies(pack, artifact, taken, other, v);
      assert other[0 := Some(v)][0] == first;
    }
  }

  lemma {:induction false} OrderlyRest(pack: seq<Component>, artifact: seq<Fingerprint>)
    requires Orderly(pack, artifact) && pack != []
    ensures Orderly(pack[1..], artifact)
  {
    var rest := pack[1..];
    assert forall k: nat :: k < |rest| ==> rest[k] == pack[k + 1];
    assert forall k: nat, v: nat :: Fits(rest, artifact, k, v) == Fits(pack, artifact, k + 1, v);
    hide ComponentMatches, HasCrc, Fits;
    assert forall k: nat, w: nat :: Yields(pack, artifact, k + 1, w) ==> Yields(rest, artifact, k, w);
  }

  lemma {:induction false} SuppliesRest(pack: seq<Component>, artifact: seq<Fingerprint>, taken: set<nat>, a: seq<Option<nat>>)
    requires pack != [] && |a| == |pack|
    ensures Supplies(pack, artifact, taken, a) ==> Supplies(pack[1..], artifact, With(taken, a[0]), a[1..])
    ensures
      (Supplies(pack[1..], artifact, With(taken, a[0]), a[1..])
        && (if a[0].Some? then Suits(pack, artifact, taken, a, 0) else !pack[0].required))
      ==> Supplies(pack, artifact, taken, a)
  {
  }

  /** An orderly game that can be supplied at all is supplied by the greedy pass. */
  lemma {:induction false} GreedySupplies(pack: seq<Component>, artifact: seq<Fingerprint>, taken: set<nat>, other: seq<Option<nat>>)
    requires Orderly(pack, artifact) && Supplies(pack, artifact, taken, other)
    ensures Supplies(pack, artifact, taken, Assign(pack, artifact, taken))
    decreases |pack|
  {
    if pack != [] {
      ExchangeFirst(pack, artifact, taken, other);
      var better :| Supplies(pack, artifact, taken, better) && better[0] == FirstFree(artifact, taken, pack[0].hash, 0);
      var a := Assign(pack, artifact, taken);
      SuppliesRest(pack, artifact, taken, better);
      OrderlyRest(pack, artifact);
      GreedySupplies(pack[1..], artifact, With(taken, a[0]), better[1..]);
      SuppliesRest(pack, artifact, taken, a);
    }
  }

  /** An orderly game is reported exact whenever a complete assignment exists. */
  lemma {:induction false} GreedySuffices(game: Game, artifact: seq<Fingerprint>)
    requires Orderly(game.components, artifact)
    ensures IsExact(game, artifact) <==> exists a :: Complete(game.components, artifact, a)
  {
    hide Verify, Orderly, Assign, ComponentMatches;
    var pack := game.components;
    var greedy := Assign(pack, artifact, {});
    ExactMeansComplete(game, artifact);
    if other :| Complete(pack, artifact, other) {
      CompleteSupplies(pack, artifact, other);
      GreedySupplies(pack, artifact, {}, other);
      CompleteSupplies(pack, artifact, greedy);
    }
  }

  /** Whether some required component tells games apart is up to the game alone. */
  predicate Telling(pack: seq<Component>) { exists k :: 0 <= k < |pack| && pack[k].required && pack[k].discriminating }

  lemma {:induction false} CompleteSupplies(pack: seq<Component>, artifact: seq<Fingerprint>, a: seq<Option<nat>>)
    ensures Complete(pack, artifact, a) <==> Supplies(pack, artifact, {}, a) && Telling(pack)
  {
    hide Suits;
    if Supplies(pack, artifact, {}, a) && Telling(pack) {
      var k :| 0 <= k < |pack| && pack[k].required && pack[k].discriminating;
      assert a[k].Some?;
      forall i | 0 <= i < |artifact| && artifact[i].hash.crc32.Some? ensures Some(i) in a { assert HasCrc(artifact, i); }
    }
  }

  // ---------------------------------------------------------------- and when it is not

  /** The greedy pass supplies what can be supplied. */
  ghost predicate GreedyRight(pack: seq<Component>, artifact: seq<Fingerprint>) {
    (exists a :: Supplies(pack, artifact, {}, a)) ==> Supplies(pack, artifact, {}, Assign(pack, artifact, {}))
  }

  ghost predicate Picks(at: seq<nat>, n: nat) {
    (forall i :: 0 <= i < |at| ==> at[i] < n) && forall i, j :: 0 <= i < j < |at| ==> at[i] < at[j]
  }

  /** Some of the items, in order. */
  function Picked<T>(s: seq<T>, at: seq<nat>): (r: seq<T>)
    requires forall i :: 0 <= i < |at| ==> at[i] < |s|
    ensures |r| == |at| && forall i :: 0 <= i < |at| ==> r[i] == s[at[i]]
  {
    seq(|at|, i requires 0 <= i < |at| => s[at[i]])
  }

  /** Leaving components out of an orderly game and artifact leaves them orderly. */
  lemma {:induction false} OrderlyPicked(pack: seq<Component>, artifact: seq<Fingerprint>, ks: seq<nat>, vs: seq<nat>)
    requires Orderly(pack, artifact) && Picks(ks, |pack|) && Picks(vs, |artifact|)
    ensures Orderly(Picked(pack, ks), Picked(artifact, vs))
  {
    var (some, part) := (Picked(pack, ks), Picked(artifact, vs));
    hide ComponentMatches;
    forall k: nat, v: nat ensures Fits(some, part, k, v) <==> k < |ks| && v < |vs| && Fits(pack, artifact, ks[k], vs[v]) { }
    forall v: nat ensures HasCrc(part, v) <==> v < |vs| && HasCrc(artifact, vs[v]) { }
    hide Fits, HasCrc;
    forall j: nat, k: nat, v: nat, w: nat
      | j < k && v < w && Fits(some, part, j, v) && Fits(some, part, j, w) && Fits(some, part, k, v)
      ensures Yields(some, part, k, w)
    {
      assert Yields(pack, artifact, ks[k], vs[w]);
    }
  }

  lemma {:induction false} CrowdedMissed(p: Component, q: Component, x: Fingerprint, y: Fingerprint)
    requires ComponentMatches(x.hash, p.hash) && ComponentMatches(y.hash, p.hash) && ComponentMatches(x.hash, q.hash)
    requires !ComponentMatches(y.hash, q.hash) && (q.required || y.hash.crc32.Some?)
    ensures Supplies([p, q], [x, y], {}, [Some(1), Some(0)])
    ensures !GreedyRight([p, q], [x, y])
  {
    var (pack, artifact, other) := ([p, q], [x, y], [Some(1), Some(0)]);
    hide ComponentMatches;
    assert other[0] == Some(1) && other[1] == Some(0);
    assert Supplies(pack, artifact, {}, other);
    assert FirstFree(artifact, {}, p.hash, 0) == Some(0);
    assert FirstFree(artifact, {0}, q.hash, 0) == None;
    assert pack[1..] == [q] && [q][1..] == [];
    assert With({}, Some(0)) == {0};
    assert Assign([q], artifact, {0}) == [None];
    var a := Assign(pack, artifact, {});
    assert a == [Some(0), None];
    assert a[1] == None && (y.hash.crc32.Some? ==> HasCrc(artifact, 1));
  }

  lemma {:induction false} OptionalMisses(p: Component, q: Component, x: Fingerprint)
    requires ComponentMatches(x.hash, p.hash) && ComponentMatches(x.hash, q.hash) && !p.required && q.required
    ensures Supplies([p, q], [x], {}, [None, Some(0)])
    ensures !GreedyRight([p, q], [x])
  {
    var (pack, artifact, other) := ([p, q], [x], [None, Some(0)]);
    hide ComponentMatches;
    assert other[0] == None && other[1] == Some(0);
    assert Supplies(pack, artifact, {}, other);
    assert FirstFree(artifact, {}, p.hash, 0) == Some(0);
    assert FirstFree(artifact, {0}, q.hash, 0) == None;
    assert pack[1..] == [q] && [q][1..] == [];
    assert With({}, Some(0)) == {0};
    assert Assign([q], artifact, {0}) == [None];
    var a := Assign(pack, artifact, {});
    assert a == [Some(0), None];
    assert a[1] == None;
  }

  lemma {:induction false} WithoutCrcMisses(p: Component, x: Fingerprint, y: Fingerprint)
    requires ComponentMatches(x.hash, p.hash) && ComponentMatches(y.hash, p.hash)
    requires x.hash.crc32.None? && y.hash.crc32.Some?
    ensures Supplies([p], [x, y], {}, [Some(1)])
    ensures !GreedyRight([p], [x, y])
  {
    var (pack, artifact, other) := ([p], [x, y], [Some(1)]);
    hide ComponentMatches;
    assert other[0] == Some(1);
    assert Supplies(pack, artifact, {}, other);
    assert FirstFree(artifact, {}, p.hash, 0) == Some(0);
    assert pack[1..] == [];
    var a := Assign(pack, artifact, {});
    assert a == [Some(0)];
    assert a[0] == Some(0) && HasCrc(artifact, 1);
  }

  ghost predicate SmallPart(pack: seq<Component>, artifact: seq<Fingerprint>, ks: seq<nat>, vs: seq<nat>) {
    Picks(ks, |pack|) && Picks(vs, |artifact|) && |ks| <= 2 && |vs| <= 2
  }

  ghost predicate PartMissed(pack: seq<Component>, artifact: seq<Fingerprint>) {
    exists ks, vs :: SmallPart(pack, artifact, ks, vs) && !GreedyRight(Picked(pack, ks), Picked(artifact, vs))
  }

  lemma {:induction false} CrowdedPart(pack: seq<Component>, artifact: seq<Fingerprint>)
    requires !Nested(pack, artifact)
    ensures PartMissed(pack, artifact)
  {
    hide ComponentMatches, GreedyRight, Supplies;
    var j: nat, k: nat, v: nat, w: nat :| j < k && v < w && Fits(pack, artifact, j, v) && Fits(pack, artifact, j, w)
      && Fits(pack, artifact, k, v) && !Yields(pack, artifact, k, w);
    CrowdedMissed(pack[j], pack[k], artifact[v], artifact[w]);
    assert SmallPart(pack, artifact, [j, k], [v, w]);
    assert Picked(pack, [j, k]) == [pack[j], pack[k]] && Picked(artifact, [v, w]) == [artifact[v], artifact[w]];
  }

  lemma {:induction false} OptionalPart(pack: seq<Component>, artifact: seq<Fingerprint>)
    requires !RequiredFirst(pack, artifact)
    ensures PartMissed(pack, artifact)
  {
    hide ComponentMatches, GreedyRight, Supplies;
    var j: nat, k: nat, v: nat :| j < k && Fits(pack, artifact, j, v) && Fits(pack, artifact, k, v) && pack[k].required
      && !pack[j].required;
    OptionalMisses(pack[j], pack[k], artifact[v]);
    assert SmallPart(pack, artifact, [j, k], [v]);
    assert Picked(pack, [j, k]) == [pack[j], pack[k]] && Picked(artifact, [v]) == [artifact[v]];
  }

  lemma {:induction false} WithoutCrcPart(pack: seq<Component>, artifact: seq<Fingerprint>)
    requires !CrcFirst(pack, artifact)
    ensures PartMissed(pack, artifact)
  {
    hide ComponentMatches, GreedyRight, Supplies;
    var k: nat, v: nat, w: nat :| v < w && Fits(pack, artifact, k, v) && Fits(pack, artifact, k, w) && HasCrc(artifact, w)
      && !HasCrc(artifact, v);
    WithoutCrcMisses(pack[k], artifact[v], artifact[w]);
    assert SmallPart(pack, artifact, [k], [v, w]);
    assert Picked(pack, [k]) == [pack[k]] && Picked(artifact, [v, w]) == [artifact[v], artifact[w]];
  }

  /** A game and artifact that are not orderly have a part of at most two components each that the greedy pass gets wrong. */
  lemma {:induction false} DisorderMissed(pack: seq<Component>, artifact: seq<Fingerprint>)
    requires !Orderly(pack, artifact)
    ensures PartMissed(pack, artifact)
  {
    hide Nested, RequiredFirst, CrcFirst, PartMissed;
    if !Nested(pack, artifact) {
      CrowdedPart(pack, artifact);
    } else if !RequiredFirst(pack, artifact) {
      OptionalPart(pack, artifact);
    } else {
      WithoutCrcPart(pack, artifact);
    }
  }

  /** The greedy pass is right about a game and an artifact and every part of them exactly when they are orderly. */
  lemma {:induction false} GreedyRightIff(pack: seq<Component>, artifact: seq<Fingerprint>)
    ensures Orderly(pack, artifact)
       <==> forall ks, vs | Picks(ks, |pack|) && Picks(vs, |artifact|) :: GreedyRight(Picked(pack, ks), Picked(artifact, vs))
  {
    hide Orderly, Supplies;
    if Orderly(pack, artifact) {
      forall ks, vs | Picks(ks, |pack|) && Picks(vs, |artifact|)
        ensures GreedyRight(Picked(pack, ks), Picked(artifact, vs))
      {
        OrderlyPicked(pack, artifact, ks, vs);
        if other :| Supplies(Picked(pack, ks), Picked(artifact, vs), {}, other) {
          GreedySupplies(Picked(pack, ks), Picked(artifact, vs), {}, other);
        }
      }
    } else {
      DisorderMissed(pack, artifact);
    }
  }

  /** Both sides have two components that count, and one of the game's tells games apart. */
  predicate TwoAgainstTwo(pack: seq<Component>, artifact: seq<Fingerprint>) {
    && |pack| == |artifact| == 2 && Telling(pack) && pack[0].required && pack[1].required
    && HasCrc(artifact, 0) && HasCrc(artifact, 1)
  }

  /**
   Two components against two: a complete assignment is missed exactly when the first of the artifact's matches both of
   the game's and the second only the first.
   */
  lemma {:induction false} PairMissedIff(game: Game, artifact: seq<Fingerprint>)
    requires TwoAgainstTwo(game.components, artifact)
    ensures (exists a :: Complete(game.components, artifact, a)) && !IsExact(game, artifact)
       <==> Fits(game.components, artifact, 0, 0) && Fits(game.components, artifact, 1, 0)
            && Fits(game.components, artifact, 0, 1) && !Fits(game.components, artifact, 1, 1)
  {
    hide ComponentMatches;
    var pack := game.components;
    var greedy := Assign(pack, artifact, {});
    if Orderly(pack, artifact) {
      GreedySuffices(game, artifact);
      assert Nested(pack, artifact) && HasCrc(artifact, 1);
    } else {
      assert Fits(pack, artifact, 0, 0) && Fits(pack, artifact, 1, 0) && Fits(pack, artifact, 0, 1) && !Fits(pack, artifact, 1, 1);
      var (p, q, x, y) := (pack[0], pack[1], artifact[0], artifact[1]);
      assert pack == [p, q] && artifact == [x, y];
      CrowdedMissed(p, q, x, y);
      CompleteSupplies(pack, artifact, [Some(1), Some(0)]);
      CompleteSupplies(pack, artifact, greedy);
      ExactMeansComplete(game, artifact);
    }
  }

  // ---------------------------------------------------------------- what the evidence says

  function RequiredAt(pack: seq<Component>): set<nat> { set k: nat | k < |pack| && pack[k].required }

  function MatchedAt(pack: seq<Component>, a: seq<Option<nat>>): set<nat>
    requires |a| == |pack|
  {
    set k: nat | k < |pack| && pack[k].required && a[k].Some?
  }

  function MissingAt(pack: seq<Component>, a: seq<Option<nat>>): set<nat>
    requires |a| == |pack|
  {
    set k: nat | k < |pack| && pack[k].required && a[k].None?
  }

  /** The files with a crc32, of the first `n`, that are not assigned. */
  function UnusedAt(artifact: seq<Fingerprint>, a: seq<Option<nat>>): set<nat> {
    set k: nat | k < |artifact| && artifact[k].hash.crc32.Some? && Some(k) !in a
  }

  /** `ks` are the members of `at` in ascending order. */
  ghost predicate Lists(ks: seq<nat>, at: set<nat>) {
    (forall k: nat :: k in ks <==> k in at) && forall i, j :: 0 <= i < j < |ks| ==> ks[i] < ks[j]
  }

  /** `r` holds the items of `s` at those positions, in order. */
  ghost predicate Holds<T(!new)>(s: seq<T>, at: set<nat>, r: seq<T>) {
    exists ks: seq<nat> :: Lists(ks, at) && (forall k :: k in ks ==> k < |s|) && r == Chosen(s, ks)
  }

  function Chosen<T>(s: seq<T>, ks: seq<nat>): (r: seq<T>)
    requires forall k :: k in ks ==> k < |s|
    ensures |r| == |ks| && forall i :: 0 <= i < |ks| ==> ks[i] in ks && r[i] == s[ks[i]]
  {
    seq(|ks|, i requires 0 <= i < |ks| => assert ks[i] in ks; s[ks[i]])
  }

  lemma {:induction false} ListsSnoc(ks: seq<nat>, at: set<nat>, n: nat)
    requires Lists(ks, at) && forall k :: k in ks ==> k < n
    ensures Lists(ks + [n], at + {n})
  {
    assert forall i :: 0 <= i < |ks| ==> ks[i] in ks;
  }

  lemma {:induction false} ChosenSnoc<T>(s: seq<T>, ks: seq<nat>, x: T)
    requires forall k :: k in ks ==> k < |s|
    ensures Chosen(s + [x], ks) == Chosen(s, ks)
    ensures Chosen(s + [x], ks + [|s|]) == Chosen(s, ks) + [x]
  {
    var (longer, more) := (s + [x], ks + [|s|]);
    assert forall k :: k in more ==> k in ks || k == |s|;
    assert forall i :: 0 <= i < |ks| ==> ks[i] in ks;
    assert forall i :: 0 <= i < |ks| ==> more[i] == ks[i] && longer[ks[i]] == s[ks[i]];
  }

  /** One more item at the end. */
  lemma {:induction false} HoldsSnoc<T(!new)>(s: seq<T>, at: set<nat>, r: seq<T>, x: T, chosen: bool)
    requires Holds(s, at, r)
    ensures Holds(s + [x], if chosen then at + {|s|} else at, if chosen then r + [x] else r)
  {
    var ks: seq<nat> :| Lists(ks, at) && (forall k :: k in ks ==> k < |s|) && r == Chosen(s, ks);
    ListsSnoc(ks, at, |s|);
    ChosenSnoc(s, ks, x);
    hide Lists, Chosen;
    var more := ks + [|s|];
    assert forall k :: k in more ==> k < |s + [x]|;
    assert forall k :: k in ks ==> k < |s + [x]|;
  }

  lemma {:induction false} HoldsNothing<T(!new)>()
    ensures Holds<T>([], {}, [])
  {
    assert Lists([], {}) && Chosen<T>([], []) == [];
  }

  lemma {:induction false} MissingSnoc(pack: seq<Component>, a: seq<Option<nat>>, p: Component, last: Option<nat>)
    requires |a| == |pack|
    ensures Missing(pack + [p], a + [last]) == Missing(pack, a) + (if p.required && last.None? then [p] else [])
  {
    if pack == [] {
      assert [p][1..] == [] && [last][1..] == [] && pack + [p] == [p] && a + [last] == [last];
    } else {
      assert (pack + [p])[1..] == pack[1..] + [p] && (a + [last])[1..] == a[1..] + [last];
      MissingSnoc(pack[1..], a[1..], p, last);
    }
  }

  /** The missing components are exactly the required ones without an assignment, in order. */
  lemma {:induction false} MissingExact(pack: seq<Component>, a: seq<Option<nat>>)
    requires |a| == |pack|
    ensures Holds(pack, MissingAt(pack, a), Missing(pack, a))
    decreases |pack|
  {
    hide Holds;
    if pack == [] {
      HoldsNothing<Component>();
      assert MissingAt(pack, a) == {};
    } else {
      var n := |pack| - 1;
      var (front, b, lacks) := (pack[..n], a[..n], pack[n].required && a[n].None?);
      assert front + [pack[n]] == pack && b + [a[n]] == a;
      MissingExact(front, b);
      HoldsSnoc(front, MissingAt(front, b), Missing(front, b), pack[n], lacks);
      MissingSnoc(front, b, pack[n], a[n]);
      assert MissingAt(pack, a) == if lacks then MissingAt(front, b) + {n} else MissingAt(front, b);
      assert Missing(front, b) + [] == Missing(front, b);
    }
  }

  lemma {:induction false} CountSnoc(pack: seq<Component>, a: seq<Option<nat>>, p: Component, last: Option<nat>, only: bool)
    requires |a| == |pack|
    ensures CountRequired(pack + [p], a + [last], only)
         == CountRequired(pack, a, only) + (if p.required && (!only || last.Some?) then 1 else 0)
  {
    if pack == [] {
      assert [p][1..] == [] && [last][1..] == [] && pack + [p] == [p] && a + [last] == [last];
    } else {
      assert (pack + [p])[1..] == pack[1..] + [p] && (a + [last])[1..] == a[1..] + [last];
      CountSnoc(pack[1..], a[1..], p, last, only);
    }
  }

  lemma {:induction false} RequiredSnoc(pack: seq<Component>, p: Component)
    ensures |RequiredAt(pack + [p])| == |RequiredAt(pack)| + if p.required then 1 else 0
  {
    var n := |pack|;
    assert RequiredAt(pack + [p]) == if p.required then RequiredAt(pack) + {n} else RequiredAt(pack);
    assert n !in RequiredAt(pack);
  }

  lemma {:induction false} MatchedSnoc(pack: seq<Component>, a: seq<Option<nat>>, p: Component, last: Option<nat>)
    requires |a| == |pack|
    ensures |MatchedAt(pack + [p], a + [last])| == |MatchedAt(pack, a)| + if p.required && last.Some? then 1 else 0
  {
    var (n, found) := (|pack|, p.required && last.Some?);
    assert MatchedAt(pack + [p], a + [last]) == if found then MatchedAt(pack, a) + {n} else MatchedAt(pack, a);
    assert n !in MatchedAt(pack, a);
  }

  /** The counts are the sizes of the sets. */
  lemma {:induction false} CountsExact(pack: seq<Component>, a: seq<Option<nat>>)
    requires |a| == |pack|
    ensures CountRequired(pack, a, false) == |RequiredAt(pack)| && CountRequired(pack, a, true) == |MatchedAt(pack, a)|
    decreases |pack|
  {
    if pack == [] {
      assert RequiredAt(pack) == {} && MatchedAt(pack, a) == {};
    } else {
      var n := |pack| - 1;
      var (front, b) := (pack[..n], a[..n]);
      hide RequiredAt, MatchedAt, CountRequired;
      CountsExact(front, b);
      CountSnoc(front, b, pack[n], a[n], false);
      CountSnoc(front, b, pack[n], a[n], true);
      RequiredSnoc(front, pack[n]);
      MatchedSnoc(front, b, pack[n], a[n]);
      assert front + [pack[n]] == pack && b + [a[n]] == a;
    }
  }

  function NamesOf(artifact: seq<Fingerprint>): (r: seq<str>)
    ensures |r| == |artifact| && forall i :: 0 <= i < |artifact| ==> r[i] == artifact[i].name
  {
    seq(|artifact|, i requires 0 <= i < |artifact| => artifact[i].name)
  }

  /** What of the first `end` files is not used. */
  lemma {:induction false} UnexpectedSnoc(artifact: seq<Fingerprint>, taken: set<nat>, from: nat, end: nat)
    requires from <= end < |artifact|
    ensures Unexpected(artifact[..end + 1], taken, from)
         == Unexpected(artifact[..end], taken, from) + (if end !in taken && HasCrc(artifact, end) then [artifact[end].name] else [])
    decreases end - from
  {
    if from < end { UnexpectedSnoc(artifact, taken, from + 1, end); }
  }

  lemma {:induction false} UnusedSnoc(artifact: seq<Fingerprint>, a: seq<Option<nat>>, n: nat)
    requires n < |artifact|
    ensures UnusedAt(artifact[..n + 1], a)
         == if Some(n) !in a && HasCrc(artifact, n) then UnusedAt(artifact[..n], a) + {n} else UnusedAt(artifact[..n], a)
  {
  }

  /** The unexpected names are those of the files with a crc32 that are not assigned, in order. */
  lemma {:induction false} UnexpectedExact(artifact: seq<Fingerprint>, a: seq<Option<nat>>, end: nat)
    requires end <= |artifact|
    ensures Holds(NamesOf(artifact[..end]), UnusedAt(artifact[..end], a), Unexpected(artifact[..end], Taken(a), 0))
    decreases end
  {
    hide Holds;
    if end == 0 {
      HoldsNothing<str>();
      assert UnusedAt(artifact[..end], a) == {} && NamesOf(artifact[..end]) == [];
    } else {
      var n := end - 1;
      var (front, all, unused) := (artifact[..n], artifact[..end], Some(n) !in a && HasCrc(artifact, n));
      UnexpectedExact(artifact, a, n);
      TakenExact(a, n);
      HoldsSnoc(NamesOf(front), UnusedAt(front, a), Unexpected(front, Taken(a), 0), artifact[n].name, unused);
      UnexpectedSnoc(artifact, Taken(a), 0, n);
      UnusedSnoc(artifact, a, n);
      hide UnusedAt, Unexpected, Taken;
      assert NamesOf(front) + [artifact[n].name] == NamesOf(all);
      assert Unexpected(front, Taken(a), 0) + [] == Unexpected(front, Taken(a), 0);
    }
  }

  /** The evidence of a verified candidate, said of an assignment. */
  ghost predicate EvidenceOf(pack: seq<Component>, artifact: seq<Fingerprint>, a: seq<Option<nat>>, e: Evidence)
    requires |a| == |pack|
  {
    && e.matched == |MatchedAt(pack, a)| && e.total == |RequiredAt(pack)|
    && Holds(pack, MissingAt(pack, a), e.missing)
    && Holds(NamesOf(artifact), UnusedAt(artifact, a), e.unexpected)
    && (e.layoutMatched <==> e.matched == e.total > 0 && e.unexpected == [])
  }

  /** A candidate is verified when a required component that tells games apart was found; its evidence says what was. */
  lemma {:induction false} VerificationMeans(game: Game, artifact: seq<Fingerprint>)
    ensures var (pack, v) := (game.components, Verify(game, artifact));
      var a := Assign(pack, artifact, {});
      && (v.Some? <==> exists k :: 0 <= k < |pack| && pack[k].required && pack[k].discriminating && a[k].Some?)
      && (v.Some? ==> EvidenceOf(pack, artifact, a, v.value.evidence)
                      && (v.value.quality == Exact <==> v.value.evidence.layoutMatched))
  {
    var pack := game.components;
    var a := Assign(pack, artifact, {});
    CountsExact(pack, a);
    MissingExact(pack, a);
    UnexpectedExact(artifact, a, |artifact|);
    assert artifact[..|artifact|] == artifact;
    hide Assign, CountRequired, Missing, Unexpected, Taken, Holds, RequiredAt, MatchedAt, MissingAt, UnusedAt;
  }

  // ---------------------------------------------------------------- a game that is missed

  const SHARED_CRC: str := [0x61, 0x61, 0x61, 0x61, 0x61, 0x61, 0x61, 0x61]

  function Sized(size: u64): HashKey { HashKey(size, FULL_FILE, Some(SHARED_CRC), None, None, None) }

  function Needed(size: u64): Component { Component(PrimaryPayload, 0, Sized(size), None, true, true, None, None) }

  lemma {:induction false} SizesDecide(ours: u64, theirs: u64)
    ensures ComponentMatches(Sized(ours), Sized(theirs)) <==> theirs == 0 || ours == theirs
  {
    assert Agree(HashList(Sized(ours))[0], HashList(Sized(theirs))[0]);
  }

  /** A component of unknown size comes first and takes the only artifact component the second one matches. */
  lemma {:induction false} GreedyMissesAssignment(game: Game)
    requires game.components == [Needed(0), Needed(4)]
    ensures var artifact := [Fingerprint(Sized(4), []), Fingerprint(Sized(5), [])];
      (exists a :: Complete(game.components, artifact, a)) && !IsExact(game, artifact)
  {
    var artifact := [Fingerprint(Sized(4), []), Fingerprint(Sized(5), [])];
    SizesDecide(4, 0);
    SizesDecide(5, 0);
    SizesDecide(4, 4);
    SizesDecide(5, 4);
    hide ComponentMatches;
    assert Telling(game.components) by { assert game.components[0].required && game.components[0].discriminating; }
    PairMissedIff(game, artifact);
  }

  /** Components with the same key are no obstacle. */
  lemma {:induction false} TwinsAreFound(game: Game)
    requires game.components == [Needed(4), Needed(4)]
    ensures IsExact(game, [Fingerprint(Sized(4), []), Fingerprint(Sized(4), [])])
  {
    var artifact := [Fingerprint(Sized(4), []), Fingerprint(Sized(4), [])];
    SizesDecide(4, 4);
    hide ComponentMatches;
    var pack, a: seq<Option<nat>> := game.components, [Some(0), Some(1)];
    assert a[0] == Some(0) && a[1] == Some(1);
    assert Telling(pack) by { assert pack[0].required && pack[0].discriminating; }
    assert Supplies(pack, artifact, {}, a);
    CompleteSupplies(pack, artifact, a);
    PairMissedIff(game, artifact);
  }
}
