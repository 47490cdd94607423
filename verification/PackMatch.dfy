/** Matching an artifact against a pack: candidates through the route index, and the best tier of those that verify. */
module PackMatch {
  import opened Bytes
  import opened Hex
  import opened Order
  import opened PackModel
  import opened PackRoutes
  import opened PackIndex
  import opened PackScan
  import opened ArtifactMatch

  datatype Status = Matched | Ambiguous | Unidentified

  datatype Match = Match(quality: Quality, game: Game, evidence: Evidence)

  datatype Outcome = Outcome(status: Status, quality: Option<Quality>, matches: seq<Match>)

  // ---------------------------------------------------------------- candidates

  function GamesOf(hits: seq<(u32, u16)>): (r: seq<u32>)
    ensures |r| == |hits| && forall i :: 0 <= i < |hits| ==> r[i] == hits[i].0
  {
    seq(|hits|, i requires 0 <= i < |hits| => hits[i].0)
  }

  predicate Routable(f: Fingerprint) { f.hash.crc32.Some? && f.hash.size != 0 }

  /** The games the routable components lead to, in the order they come up. */
  function RoutedGames(pack: Pack, artifact: seq<Fingerprint>): Option<seq<u32>> {
    if artifact == [] then Some([])
    else if !Routable(artifact[0]) then RoutedGames(pack, artifact[1..])
    else
      var hits :- Route(pack, artifact[0].hash.crc32.value, artifact[0].hash.size);
      var rest :- RoutedGames(pack, artifact[1..]);
      Some(GamesOf(hits) + rest)
  }

  function Candidates(games: seq<u32>): seq<u32> { OrderedSet(IdKey, games) }

  // ---------------------------------------------------------------- verification and the best tier

  function VerifiedGame(pack: Pack, artifact: seq<Fingerprint>, id: u32): Option<Match> {
    if id >= |pack.games| then None
    else
      var v :- Verify(pack.games[id], artifact);
      Some(Match(v.quality, pack.games[id], v.evidence))
  }

  function VerifiedAll(pack: Pack, artifact: seq<Fingerprint>, ids: seq<u32>): seq<Match> {
    if ids == [] then []
    else
      (match VerifiedGame(pack, artifact, ids[0]) case None => [] case Some(m) => [m]) + VerifiedAll(pack, artifact, ids[1..])
  }

  /** Exact is better than partial. */
  function Best(ms: seq<Match>): Quality { if exists m :: m in ms && m.quality == Exact then Exact else Partial }

  function Tier(ms: seq<Match>, q: Quality): seq<Match> {
    if ms == [] then [] else (if ms[0].quality == q then [ms[0]] else []) + Tier(ms[1..], q)
  }

  function MatchOrder(m: Match): Key { [m.game.platform, m.game.name] }

  function Report(verified: seq<Match>): Outcome {
    if verified == [] then Outcome(Unidentified, None, [])
    else
      var matches := SortBy(MatchOrder, Tier(verified, Best(verified)));
      Outcome(if |matches| > 1 then Ambiguous else Matched, Some(Best(verified)), matches)
  }

  function Identify(pack: Pack, artifact: seq<Fingerprint>): Option<Outcome> {
    var games :- RoutedGames(pack, artifact);
    Some(Report(VerifiedAll(pack, artifact, Candidates(games))))
  }

  // ---------------------------------------------------------------- as loops

  function Join(done: seq<u32>, rest: Option<seq<u32>>): Option<seq<u32>> {
    match rest
    case None => None
    case Some(r) => Some(done + r)
  }

  lemma {:induction false} OneMore(before: seq<u32>, games: seq<u32>, i: nat)
    requires i < |games|
    ensures Candidates(before + games[..i + 1]) == InsertUnique(IdKey, games[i], Candidates(before + games[..i]))
  {
    var s := before + games[..i + 1];
    assert s[|s| - 1] == games[i] && s[..|s| - 1] == before + games[..i];
  }

  /** Routes every component that can be routed and collects the games in an ordered set. */
  method CollectCandidates(pack: Pack, artifact: seq<Fingerprint>) returns (ids: Option<seq<u32>>)
    ensures ids == match RoutedGames(pack, artifact) case None => None case Some(games) => Some(Candidates(games))
  {
    hide Route, Candidates;
    ghost var games: seq<u32> := [];
    var found: seq<u32> := [];
    var i := 0;
    assert artifact[0..] == artifact;
    JoinNothing(RoutedGames(pack, artifact));
    assert found == Candidates(games) by { NoCandidates(); }
    while i < |artifact|
      invariant 0 <= i <= |artifact|
      invariant found == Candidates(games)
      invariant RoutedGames(pack, artifact) == Join(games, RoutedGames(pack, artifact[i..]))
    {
      var f := artifact[i];
      assert artifact[i..][0] == f && artifact[i..][1..] == artifact[i + 1..];
      if Routable(f) {
        var hits := RouteQuery(pack, f.hash.crc32.value, f.hash.size);
        if hits.None? {
          return None;
        }
        found := InsertEach(found, games, hits.value);
        JoinMore(games, GamesOf(hits.value), RoutedGames(pack, artifact[i + 1..]));
        games := games + GamesOf(hits.value);
      }
      i := i + 1;
    }
    assert games + [] == games;
    return Some(found);
  }

  method InsertEach(found: seq<u32>, ghost before: seq<u32>, hits: seq<(u32, u16)>) returns (ids: seq<u32>)
    requires found == Candidates(before)
    ensures ids == Candidates(before + GamesOf(hits))
  {
    ids := found;
    var i := 0;
    assert before + GamesOf(hits)[..0] == before;
    while i < |hits|
      invariant 0 <= i <= |hits|
      invariant ids == Candidates(before + GamesOf(hits)[..i])
    {
      ids := InsertUnique(IdKey, hits[i].0, ids);
      OneMore(before, GamesOf(hits), i);
      i := i + 1;
    }
    assert GamesOf(hits)[..i] == GamesOf(hits);
  }

  lemma NoCandidates()
    ensures Candidates([]) == []
  {
  }

  lemma {:induction false} JoinNothing(rest: Option<seq<u32>>)
    ensures Join([], rest) == rest
  {
    if rest.Some? { assert [] + rest.value == rest.value; }
  }

  lemma {:induction false} JoinMore(done: seq<u32>, more: seq<u32>, rest: Option<seq<u32>>)
    ensures Join(done, Join(more, rest)) == Join(done + more, rest)
  {
    if rest.Some? { assert done + (more + rest.value) == (done + more) + rest.value; }
  }

  method VerifyEach(pack: Pack, artifact: seq<Fingerprint>, candidates: seq<u32>) returns (verified: seq<Match>)
    ensures verified == VerifiedAll(pack, artifact, candidates)
  {
    hide VerifiedGame;
    verified := [];
    var i := 0;
    assert candidates[0..] == candidates;
    while i < |candidates|
      invariant 0 <= i <= |candidates|
      invariant VerifiedAll(pack, artifact, candidates) == verified + VerifiedAll(pack, artifact, candidates[i..])
    {
      assert candidates[i..][0] == candidates[i] && candidates[i..][1..] == candidates[i + 1..];
      var m := VerifyOne(pack, artifact, candidates[i]);
      if m.Some? {
        verified := verified + [m.value];
      }
      i := i + 1;
    }
  }

  method VerifyOne(pack: Pack, artifact: seq<Fingerprint>, id: u32) returns (m: Option<Match>)
    ensures m == VerifiedGame(pack, artifact, id)
  {
    hide Verify;
    if id >= |pack.games| {
      return None;
    }
    var v := VerifyCandidate(pack.games[id], artifact);
    if v.None? {
      return None;
    }
    return Some(Match(v.value.quality, pack.games[id], v.value.evidence));
  }

  method BestOf(verified: seq<Match>) returns (best: Quality)
    ensures best == Best(verified)
  {
    best := Partial;
    var i := 0;
    while i < |verified|
      invariant 0 <= i <= |verified|
      invariant best == Best(verified[..i])
    {
      BestStep(verified, i);
      if verified[i].quality == Exact {
        best := Exact;
      }
      i := i + 1;
    }
    assert verified[..i] == verified;
  }

  method MatchArtifact(pack: Pack, artifact: seq<Fingerprint>) returns (outcome: Option<Outcome>)
    ensures outcome == Identify(pack, artifact)
  {
    hide RoutedGames, Candidates, Verify, SortBy, Tier, VerifiedAll, Best;
    var candidates := CollectCandidates(pack, artifact);
    if candidates.None? {
      return None;
    }
    var verified := VerifyEach(pack, artifact, candidates.value);
    if verified == [] {
      return Some(Outcome(Unidentified, None, []));
    }
    var best := BestOf(verified);
    var matches := SortBy(MatchOrder, Tier(verified, best));
    return Some(Outcome(if |matches| > 1 then Ambiguous else Matched, Some(best), matches));
  }

  lemma {:induction false} BestStep(ms: seq<Match>, i: nat)
    requires i < |ms|
    ensures Best(ms[..i + 1]) == if ms[i].quality == Exact then Exact else Best(ms[..i])
  {
    assert ms[..i + 1] == ms[..i] + [ms[i]];
    if ms[i].quality == Exact { assert ms[i] in ms[..i + 1]; }
  }

  // ---------------------------------------------------------------- what the outcome means

  lemma {:induction false} TierExact(ms: seq<Match>, q: Quality, m: Match)
    ensures m in Tier(ms, q) <==> m in ms && m.quality == q
  {
    if ms != [] {
      TierExact(ms[1..], q, m);
      assert ms == [ms[0]] + ms[1..];
    }
  }

  lemma {:induction false} VerifiedExact(pack: Pack, artifact: seq<Fingerprint>, ids: seq<u32>, m: Match)
    ensures m in VerifiedAll(pack, artifact, ids) <==> exists id :: id in ids && VerifiedGame(pack, artifact, id) == Some(m)
  {
    hide VerifiedGame;
    if ids != [] {
      VerifiedExact(pack, artifact, ids[1..], m);
      assert ids == [ids[0]] + ids[1..];
    }
  }

  /**
   The report holds exactly the verified candidates of the best quality, sorted by platform and name; it is ambiguous
   just when there is more than one, and empty just when no candidate verifies.
   */
  lemma {:induction false} ReportMeaning(verified: seq<Match>)
    ensures var out := Report(verified);
      && (out.status == Unidentified <==> verified == [])
      && (out.status == Ambiguous <==> |out.matches| > 1)
      && (verified != [] ==>
            && out.quality == Some(Best(verified)) && out.matches != [] && SortedBy(MatchOrder, out.matches)
            && (forall m :: m in out.matches <==> m in verified && m.quality == Best(verified))
            && (Best(verified) == Exact <==> exists m :: m in verified && m.quality == Exact))
  {
    if verified != [] {
      var tier := Tier(verified, Best(verified));
      SortBySorted(MatchOrder, tier);
      SortByMembers(MatchOrder, tier);
      forall m ensures m in tier <==> m in verified && m.quality == Best(verified) { TierExact(verified, Best(verified), m); }
      hide SortBy, Tier, SortedBy;
      SomeBest(verified);
    }
  }

  lemma {:induction false} SomeBest(verified: seq<Match>)
    requires verified != []
    ensures exists m :: m in verified && m.quality == Best(verified)
  {
    if Best(verified) == Partial { assert verified[0] in verified && verified[0].quality != Exact; }
  }

  /** Matches by platform and then by name. */
  predicate MatchesInOrder(x: Match, y: Match) {
    || TextLess(x.game.platform, y.game.platform)
    || (x.game.platform == y.game.platform && !TextLess(y.game.name, x.game.name))
  }

  lemma {:induction false} TwoFields(a: Key, b: Key)
    requires |a| == |b| == 2
    ensures KeyLess(a, b) <==> TextLess(a[0], b[0]) || (a[0] == b[0] && TextLess(a[1], b[1]))
  {
    hide TextLess;
    assert !Lex(TextLess, a[1..][1..], b[1..][1..]);
    assert Lex(TextLess, a[1..], b[1..]) == (TextLess(a[1], b[1]) || (a[1] == b[1] && Lex(TextLess, a[1..][1..], b[1..][1..])));
  }

  lemma {:induction false} MatchNotBelow(x: Match, y: Match)
    requires !KeyLess(MatchOrder(y), MatchOrder(x))
    ensures MatchesInOrder(x, y)
  {
    TwoFields(MatchOrder(y), MatchOrder(x));
    TextLessTotal();
    hide KeyLess, TextLess;
  }

  /** The report is in order of platform and name. */
  lemma {:induction false} ReportInOrder(verified: seq<Match>, i: nat, j: nat)
    requires i < j < |Report(verified).matches|
    ensures MatchesInOrder(Report(verified).matches[i], Report(verified).matches[j])
  {
    var tier := Tier(verified, Best(verified));
    SortBySorted(MatchOrder, tier);
    hide KeyLess, SortBy, MatchesInOrder, MatchOrder, Tier, Best;
    MatchNotBelow(Report(verified).matches[i], Report(verified).matches[j]);
  }

  /** Every reported exact match has a complete assignment behind it. */
  lemma {:induction false} ExactReportIsSound(pack: Pack, artifact: seq<Fingerprint>, out: Outcome, m: Match)
    requires Identify(pack, artifact) == Some(out) && out.quality == Some(Exact) && m in out.matches
    ensures exists a :: Complete(m.game.components, artifact, a)
  {
    hide Verify, RoutedGames, Candidates, Report, Complete;
    var ids := Candidates(RoutedGames(pack, artifact).value);
    var verified := VerifiedAll(pack, artifact, ids);
    ReportMeaning(verified);
    assert NotEmpty(verified) by { EmptyReport(verified); }
    VerifiedExact(pack, artifact, ids, m);
    var id :| id in ids && VerifiedGame(pack, artifact, id) == Some(m);
    ExactIsSound(pack.games[id], artifact);
  }

  predicate NotEmpty(verified: seq<Match>) { verified != [] }

  lemma EmptyReport(verified: seq<Match>)
    ensures Report(verified).quality.Some? ==> NotEmpty(verified)
  {
  }

  // ---------------------------------------------------------------- no game is overlooked

  lemma {:induction false} RoutedHolds(pack: Pack, artifact: seq<Fingerprint>, k: nat, at: (u32, u16))
    requires k < |artifact| && Routable(artifact[k]) && RoutedGames(pack, artifact).Some?
    ensures Route(pack, artifact[k].hash.crc32.value, artifact[k].hash.size).Some?
    ensures at in Route(pack, artifact[k].hash.crc32.value, artifact[k].hash.size).value
        ==> at.0 in RoutedGames(pack, artifact).value
    decreases |artifact|
  {
    hide Route;
    if k > 0 {
      RoutedHolds(pack, artifact[1..], k - 1, at);
    } else {
      var hits := Route(pack, artifact[0].hash.crc32.value, artifact[0].hash.size).value;
      if at in hits {
        var i :| 0 <= i < |hits| && hits[i] == at;
        assert GamesOf(hits)[i] == at.0;
      }
    }
  }

  /** Some component of the artifact has that size and that crc32, in whatever case it is written. */
  ghost predicate Asks(artifact: seq<Fingerprint>, crc: bytes, size: u64) {
    exists k :: 0 <= k < |artifact| && AsksAt(artifact[k], crc, size)
  }

  predicate AsksAt(f: Fingerprint, crc: bytes, size: u64) {
    f.hash.crc32.Some? && f.hash.size == size && size != 0 && AsciiLower(f.hash.crc32.value) == Lower(crc)
  }

  /**
   On a sound pack, a game with a discriminating component of some size and crc32 is a candidate as soon as the artifact
   has a component with them.
   */
  lemma {:induction false} GameIsCandidate(pack: Pack, artifact: seq<Fingerprint>, crc: bytes, size: u64, g: nat, l: nat)
    requires |crc| == 4 && IsAt(pack.games, g, l) && g < 0x1_0000_0000
    requires pack.games[g].components[l].discriminating && Matches(pack.games[g].components[l], crc, size)
    ensures SoundPack(pack) && Asks(artifact, crc, size) && RoutedGames(pack, artifact).Some? ==>
      g in Candidates(RoutedGames(pack, artifact).value)
  {
    hide SoundPack, RoutedGames, Candidates, Matches, Lower, AsciiLower, Route, Places, TruncatedAll, IsAt;
    if SoundPack(pack) && Asks(artifact, crc, size) && RoutedGames(pack, artifact).Some? {
      var k :| 0 <= k < |artifact| && AsksAt(artifact[k], crc, size);
      var at := Truncated((g, l));
      DiscriminatingAnswered(pack, artifact[k].hash.crc32.value, crc, size, g, l);
      RoutedHolds(pack, artifact, k, at);
      CandidatesHold(RoutedGames(pack, artifact).value);
    }
  }

  lemma {:induction false} CandidatesHold(games: seq<u32>)
    ensures forall g :: g in Candidates(games) <==> g in games
  {
    SimpleKeysInjective();
    OrderedSetAscending(IdKey, games);
  }

  // ---------------------------------------------------------------- and none is there without cause

  /** A component of the game carries the size and crc32 of the file, in a hash that tells games apart. */
  ghost predicate Causes(pack: Pack, f: Fingerprint, g: nat) {
    f.hash.crc32.Some? && f.hash.size != 0
    && exists crc: bytes, l: nat ::
         ToBytes(AsciiLower(f.hash.crc32.value)) == Some(crc) && |crc| == 4 && ScanPlace(pack, crc, f.hash.size, (g, l))
  }

  lemma {:induction false} ReturnedIsPlace(pack: Pack, text: str, crc: bytes, size: u64, at: (u32, u16))
    requires ToBytes(AsciiLower(text)) == Some(crc) && Places(pack, crc, size).Some?
    requires Route(pack, text, size).Some? && at in Route(pack, text, size).value
    ensures |crc| == 4 && exists p :: p in Places(pack, crc, size).value && Truncated(p) == at
  {
    hide Places, ToBytes, AsciiLower;
    var places := Places(pack, crc, size).value;
    var i :| 0 <= i < |places| && TruncatedAll(places)[i] == at;
    assert places[i] in places && Truncated(places[i]) == at;
  }

  lemma {:induction false} ReturnedHasCause(pack: Pack, f: Fingerprint, at: (u32, u16))
    requires SoundPack(pack) && |pack.games| <= 0x1_0000_0000 && Routable(f)
    requires Route(pack, f.hash.crc32.value, f.hash.size).Some?
    requires at in Route(pack, f.hash.crc32.value, f.hash.size).value
    ensures Causes(pack, f, at.0)
  {
    hide SoundPack, Places, ToBytes, AsciiLower, NoRepeats, InOrder, ExactPlace, ScanPlace;
    var (text, size) := (f.hash.crc32.value, f.hash.size);
    var crc := ToBytes(AsciiLower(text)).value;
    hide Route;
    IndexAgreesWithScan(pack, crc, size);
    ReturnedIsPlace(pack, text, crc, size, at);
    var p :| p in Places(pack, crc, size).value && Truncated(p) == at;
    PlaceInPack(pack, crc, size, p);
    PlaceIsScanned(pack, crc, size, p);
    assert p == (at.0 as nat, p.1);
  }

  lemma {:induction false} RoutedHasCause(pack: Pack, artifact: seq<Fingerprint>, g: u32)
    requires SoundPack(pack) && |pack.games| <= 0x1_0000_0000
    requires RoutedGames(pack, artifact).Some? && g in RoutedGames(pack, artifact).value
    ensures exists k :: 0 <= k < |artifact| && Causes(pack, artifact[k], g)
    decreases |artifact|
  {
    hide SoundPack, Route, Causes;
    var rest := artifact[1..];
    if Routable(artifact[0]) {
      var hits := Route(pack, artifact[0].hash.crc32.value, artifact[0].hash.size).value;
      if g in GamesOf(hits) {
        var i :| 0 <= i < |hits| && GamesOf(hits)[i] == g;
        ReturnedHasCause(pack, artifact[0], hits[i]);
        return;
      }
    }
    RoutedHasCause(pack, rest, g);
    var k :| 0 <= k < |rest| && Causes(pack, rest[k], g);
    assert artifact[k + 1] == rest[k];
  }

  /** On a sound pack every candidate has a component that some file of the artifact asks for. */
  lemma {:induction false} CandidateHasCause(pack: Pack, artifact: seq<Fingerprint>, g: u32)
    requires SoundPack(pack) && |pack.games| <= 0x1_0000_0000
    requires RoutedGames(pack, artifact).Some? && g in Candidates(RoutedGames(pack, artifact).value)
    ensures exists k :: 0 <= k < |artifact| && Causes(pack, artifact[k], g)
  {
    hide SoundPack, Route, Causes, Candidates, RoutedGames;
    CandidatesHold(RoutedGames(pack, artifact).value);
    RoutedHasCause(pack, artifact, g);
  }
}
