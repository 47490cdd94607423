/** A game with more components than 16 bits number: it is written and read, and then a query names the wrong component. */
module PackWideGame {
  import opened Bytes
  import opened Varint
  import opened Hex
  import opened Order
  import opened PackFormat
  import opened PackModel
  import opened PackHashes
  import opened PackOwners
  import opened PackRoutes
  import opened PackTables
  import opened PackParse
  import opened PackBuild
  import opened PackIndex
  import opened PackSound
  import opened PackCodec
  import opened PackLimits

  // ---------------------------------------------------------------- the game

  const WIDE: nat := 0x1_0000

  const COMMON: Hash := Hash(1, FULL_FILE, Digests(Some([1, 1, 1, 1]), None, None, None))
  const LAST: Hash := Hash(2, FULL_FILE, Digests(Some([2, 2, 2, 2]), None, None, None))

  function ComponentOf(h: Hash, discriminating: bool): Component {
    Component(PrimaryPayload, 0, KeyOf(h), None, true, discriminating, None, None)
  }

  /** 65536 components that share a row, and one more with a row of its own. */
  function WideComponents(): (r: seq<Component>)
    ensures |r| == WIDE + 1
    ensures forall i :: 0 <= i < WIDE ==> r[i] == ComponentOf(COMMON, false)
    ensures r[WIDE] == ComponentOf(LAST, true)
  {
    seq(WIDE, _ => ComponentOf(COMMON, false)) + [ComponentOf(LAST, true)]
  }

  function WideGame(): Game {
    Game([], [], FromRedump, Unknown, [], false, [], [], None, None, None, None, None, None, WideComponents())
  }

  function WideRequest(): Request { Request([], FromRedump, [], [], [WideGame()]) }

  lemma {:induction false} WideSorted()
    ensures Sorted(WideRequest()) == [WideGame()]
  {
    hide WideGame;
    var games := [WideGame()];
    assert games[..0] == [] && SortBy(GameOrder, []) == [];
    assert InsertStable(GameOrder, games[0], []) == games;
  }

  lemma {:induction false} PlainStrings(cs: seq<Component>)
    requires forall c :: c in cs ==> c.filename == None && c.hash.scope == FULL_FILE
    ensures |ComponentStrings(cs)| == |cs| && forall s :: s in ComponentStrings(cs) ==> s == FULL_FILE
  {
    if cs != [] {
      assert cs[0] in cs;
      PlainStrings(cs[1..]);
    }
  }

  lemma {:induction false} WideComponentsAre(c: Component)
    requires c in WideComponents()
    ensures c == ComponentOf(COMMON, false) || c == ComponentOf(LAST, true)
  {
    var i :| 0 <= i < |WideComponents()| && WideComponents()[i] == c;
  }

  lemma {:induction false} WideKeys(c: Component)
    requires c in WideComponents()
    ensures c.filename == None && c.hash.scope == FULL_FILE && CanonicalHash(c.hash)
  {
    WideComponentsAre(c);
    PairsOfLower([1, 1, 1, 1]);
    PairsOfLower([2, 2, 2, 2]);
    hide WideComponents, Lower, Ascii, Pairs, IsHexOf;
  }

  lemma {:induction false} NamelessStrings(g: Game)
    requires g.name == [] && g.dumpTags == [] && g.alternateNames == [] && g.gameId == None && g.region == None
    requires g.language == None && g.revision == None && g.parent == None
    ensures AllStrings([g]) == [[]] + ComponentStrings(g.components)
  {
    hide ComponentStrings;
    assert AllStrings([g]) == GameStrings(g) + AllStrings([]) by { assert [g][1..] == []; }
  }

  lemma {:induction false} WideStrings()
    ensures |AllStrings([WideGame()])| == WIDE + 2
    ensures forall s :: s in AllStrings([WideGame()]) ==> |s| <= MAX_STRING
  {
    hide WideComponents, CanonicalHash, ComponentStrings, AllStrings, Ascii;
    forall c | c in WideComponents() ensures c.filename == None && c.hash.scope == FULL_FILE { WideKeys(c); }
    PlainStrings(WideComponents());
    NamelessStrings(WideGame());
    assert |FULL_FILE| == 9;
    FirstAndRest([], ComponentStrings(WideComponents()), FULL_FILE);
  }

  lemma FirstAndRest(first: str, rest: seq<str>, s: str)
    requires forall x :: x in rest ==> x == s
    ensures forall x :: x in [first] + rest ==> x == first || x == s
  {
  }

  lemma {:induction false} WideFits()
    ensures Fits(WideRequest()) && Canonical(WideRequest().games)
  {
    WideSorted();
    WideStrings();
    hide Sorted, AllStrings, WideComponents, CanonicalHash, Fits;
    assert AllComponents([WideGame()]) == WideComponents() by { assert WideComponents() + [] == WideComponents(); }
    forall c | c in WideComponents() ensures CanonicalHash(c.hash) { WideKeys(c); }
    hide AllComponents;
    SmallCountsFit(WideRequest());
  }

  // ---------------------------------------------------------------- what the query answers

  const ASKED: bytes := [2, 2, 2, 2]

  /** The pack holds the game, renumbered. */
  ghost predicate HoldsWide(pack: Pack) {
    SoundPack(pack) && |pack.games| == 1 && AllAlike(pack.games[0].components, WideComponents())
  }

  lemma {:induction false} WidePlace(pack: Pack, p: (nat, nat))
    requires HoldsWide(pack)
    ensures ExactPlace(pack, ASKED, 2, p) <==> p == (0, WIDE)
  {
    hide SoundPack, WideComponents, Lower, AllAlike, Routed, Offset;
    if IsAt(pack.games, p.0, p.1) { WideMatches(pack, p.1); }
    WideRouted(pack);
    WideMatches(pack, WIDE);
  }

  lemma {:induction false} WideRouted(pack: Pack)
    requires HoldsWide(pack)
    ensures IsAt(pack.games, 0, WIDE) && Routed(pack, Offset(pack.games, 0) + WIDE)
  {
    hide SoundPack, WideComponents, Alike, Routed, AllComponents;
    var cs := pack.games[0].components;
    assert Alike(cs[WIDE], WideComponents()[WIDE]);
    SameKey(cs[WIDE], WideComponents()[WIDE]);
    LocateOffset(pack.games, 0, WIDE, 0);
    DiscriminatingRouted(pack, WIDE);
  }

  lemma {:induction false} WideMatches(pack: Pack, l: nat)
    requires HoldsWide(pack) && l < |pack.games[0].components|
    ensures l <= WIDE && (Matches(pack.games[0].components[l], ASKED, 2) <==> l == WIDE)
  {
    hide SoundPack, WideComponents, Alike, Lower;
    var cs := pack.games[0].components;
    assert Alike(cs[l], WideComponents()[l]);
    SameKey(cs[l], WideComponents()[l]);
  }

  lemma SameKey(a: Component, b: Component)
    requires Alike(a, b)
    ensures a.hash == b.hash && a.discriminating == b.discriminating
  {
  }

  lemma {:induction false} AllAre<T(!new)>(s: seq<T>, x: T)
    requires forall y :: y in s <==> y == x
    ensures s != [] && forall i :: 0 <= i < |s| ==> s[i] == x
  {
    assert x in s;
    forall i | 0 <= i < |s| ensures s[i] == x { assert s[i] in s; }
  }

  lemma {:induction false} OnlyItem<T(!new)>(s: seq<T>, x: T)
    requires NoRepeats(s) && forall y :: y in s <==> y == x
    ensures s == [x]
  {
    assert |s| > 1 ==> s[0] != s[1];
    hide NoRepeats;
    AllAre(s, x);
  }

  /** The answer names a component that is not the one asked for. */
  ghost predicate Misrouted(pack: Pack) {
    && Route(pack, Lower(ASKED), 2) == Some([(0, 0)])
    && IsAt(pack.games, 0, 0) && !Matches(pack.games[0].components[0], ASKED, 2)
    && IsAt(pack.games, 0, WIDE) && Matches(pack.games[0].components[WIDE], ASKED, 2)
  }

  lemma {:induction false} WideAnswer(pack: Pack)
    requires HoldsWide(pack)
    ensures Misrouted(pack)
  {
    IndexAgreesWithScan(pack, ASKED, 2);
    TextOfBytes(ASKED);
    var places := Places(pack, ASKED, 2).value;
    hide SoundPack, Places, WideComponents, Lower, AsciiLower, ToBytes, InOrder, ExactPlace, Alike;
    forall p ensures p in places <==> p == (0, WIDE) { WidePlace(pack, p); }
    OnlyItem(places, (0, WIDE));
    assert TruncatedAll(places) == [(0, 0)];
    WideMatches(pack, 0);
    WideMatches(pack, WIDE);
  }

  /** The game is written, its bytes are accepted, and the accepted pack answers wrongly. */
  lemma {:induction false} WideGameMisrouted(json: Json)
    requires Faithful(json) && |json.write(ManifestOf(WideRequest()))| <= U64_MAX
    ensures exists b, pack ::
      EncodePack([], FromRedump, [], [], [WideGame()], json) == Some(b) && Parse(b, json) == Some(pack) && Misrouted(pack)
  {
    hide Canonical, Fits, EncodePack, Parse, WideComponents, Sorted, Faithful, SoundPack, Misrouted, AllAlike, ManifestOf;
    WideFits();
    RoundTrip(WideRequest(), json);
    var b := EncodePack([], FromRedump, [], [], [WideGame()], json).value;
    var pack := Parse(b, json).value;
    WideSorted();
    AcceptedIsSound(b, json);
    NumberedAlike(WideComponents(), 0);
    assert NormalAll([], [WideGame()])[0] == Normal([], WideGame());
    hide Numbered, NormalAll;
    WideAnswer(pack);
  }
}
