/** The cube: the name-sorted card list, the lookups built from it, its digest and the compact
    URL-safe encoding of card lists as varint-packed positions. */
module Cubes {
  import opened Wrappers
  import opened Bytes
  import opened Sequences
  import opened Orders
  import opened Cards
  import opened Database
  import Varint
  import Base64

  /** A card as the cube list describes it, before it has a position in the cube. */
  datatype RawCard = RawCard(name: string, setCode: string, collectorNumber: string)

  /** `byName` is ddraft's `cardsByName`, `indexOf` its `indexesByCard`, and `digestCache`
      the lazily computed `_digest`. */
  datatype Cube = Cube(
    cards: seq<Card>,
    byName: map<string, Card>,
    indexOf: map<Card, nat>,
    digestCache: Option<string>)

  datatype CubeError = NotInCube(name: string)

  function RawName(c: RawCard): string { c.name }

  function CardName(c: Card): string { c.name }

  /** The cube-list description a card came from. */
  function Printing(c: Card): RawCard { RawCard(c.name, c.setCode, c.collectorNumber) }

  /** Every card records its own position. */
  predicate Indexed(cards: seq<Card>)
  {
    forall i :: 0 <= i < |cards| ==> cards[i].index == i
  }

  /** The cube's cards: the loaded cards sorted by name, each given its position. */
  function SortedCards(raw: seq<RawCard>): (cards: seq<Card>)
    ensures |cards| == |raw|
    ensures Indexed(cards)
    ensures SortedBy(cards, CardName)
    ensures multiset(Map(cards, Printing)) == multiset(raw)
  {
    var sorted := SortBy(raw, RawName);
    var cards := seq(|sorted|, i requires 0 <= i < |sorted| =>
      Card(sorted[i].name, sorted[i].setCode, sorted[i].collectorNumber, i));
    assert Map(cards, Printing) == sorted;
    assert |sorted| == |multiset(sorted)| == |multiset(raw)| == |raw|;
    cards
  }

  /** `indexesByCard` once the first `n` cards were entered. */
  ghost predicate PositionsFilled(cards: seq<Card>, n: nat, indexOf: map<Card, nat>)
    requires n <= |cards|
  {
    && (forall i :: 0 <= i < n ==> cards[i] in indexOf)
    && (forall c :: c in indexOf ==> c.index < n && cards[c.index] == c && indexOf[c] == c.index)
  }

  /** `cardsByName` once the first `n` cards were entered: each name maps to the last of those
      cards that carries it. */
  ghost predicate NamesFilled(cards: seq<Card>, n: nat, byName: map<string, Card>)
    requires n <= |cards|
  {
    && (forall i :: 0 <= i < n ==> cards[i].name in byName)
    && (forall k :: k in byName ==>
          byName[k].index < n && cards[byName[k].index] == byName[k] && byName[k].name == k)
    && (forall k, j :: k in byName && byName[k].index < j < n ==> cards[j].name != k)
  }

  /** The invariant a constructed cube keeps. */
  ghost predicate Valid(cube: Cube)
  {
    && Indexed(cube.cards)
    && SortedBy(cube.cards, CardName)
    && PositionsFilled(cube.cards, |cube.cards|, cube.indexOf)
    && NamesFilled(cube.cards, |cube.cards|, cube.byName)
  }

  /** The part of the invariant that name lookups rely on. */
  ghost predicate NamesKnown(cube: Cube)
  {
    NamesFilled(cube.cards, |cube.cards|, cube.byName)
  }

  /** The part of the invariant that position lookups rely on. */
  ghost predicate PositionsKnown(cube: Cube)
  {
    PositionsFilled(cube.cards, |cube.cards|, cube.indexOf)
  }

  /** The constructor: sort, then enter every card under its name and its position. */
  method Build(raw: seq<RawCard>) returns (cube: Cube)
    ensures Valid(cube)
    ensures cube.cards == SortedCards(raw)
    ensures cube.digestCache == None
  {
    var cards := SortedCards(raw);
    var byName: map<string, Card> := map[];
    var indexOf: map<Card, nat> := map[];
    var i := 0;
    while i < |raw|
      invariant 0 <= i <= |cards|
      invariant PositionsFilled(cards, i, indexOf)
      invariant NamesFilled(cards, i, byName)
    {
      var card := cards[i];
      EnterCard(cards, i, byName, indexOf);
      byName := byName[card.name := card];
      indexOf := indexOf[card := i];
      i := i + 1;
    }
    cube := Cube(cards, byName, indexOf, None);
  }

  /** One turn of the constructor's loop keeps both lookups consistent with the cards entered. */
  lemma EnterCard(cards: seq<Card>, i: nat, byName: map<string, Card>, indexOf: map<Card, nat>)
    requires Indexed(cards) && i < |cards|
    requires PositionsFilled(cards, i, indexOf) && NamesFilled(cards, i, byName)
    ensures PositionsFilled(cards, i + 1, indexOf[cards[i] := i])
    ensures NamesFilled(cards, i + 1, byName[cards[i].name := cards[i]])
  {
  }

  /** The card called `name`; when several cards share the name, the last one in the cube. */
  function GetCard(cube: Cube, name: string): (r: Result<Card, CubeError>)
    requires NamesKnown(cube)
    ensures r.Success? <==> exists i :: 0 <= i < |cube.cards| && cube.cards[i].name == name
    ensures r.Success? ==>
      && r.value.name == name
      && r.value.index < |cube.cards|
      && cube.cards[r.value.index] == r.value
      && forall j :: r.value.index < j < |cube.cards| ==> cube.cards[j].name != name
    ensures r.Failure? ==> r.error == NotInCube(name)
  {
    if name in cube.byName then Success(cube.byName[name]) else Failure(NotInCube(name))
  }

  predicate UniqueNames(cards: seq<Card>)
  {
    forall i, j :: 0 <= i < j < |cards| ==> cards[i].name != cards[j].name
  }

  /** In a cube whose names are distinct, looking a card up by its name finds that very card. */
  lemma GetCardFindsEveryCard(cube: Cube, i: nat)
    requires NamesKnown(cube) && UniqueNames(cube.cards) && i < |cube.cards|
    ensures GetCard(cube, cube.cards[i].name) == Success(cube.cards[i])
  {
    var r := GetCard(cube, cube.cards[i].name);
    assert r.value.index == i;
  }

  /** `getRandomCards(count)`: `count` (at most all) cards, no cube position drawn twice, in any
      order. The draw itself is random and left to the caller. */
  ghost predicate IsRandomSample(sample: seq<Card>, cube: Cube, count: nat)
  {
    && |sample| == (if count < |cube.cards| then count else |cube.cards|)
    && multiset(sample) <= multiset(cube.cards)
  }

  // Digest

  function Names(cards: seq<Card>): seq<string> { Map(cards, CardName) }

  /** What is fed to the hash: the card names in sorted order, concatenated without separator. */
  function DigestInput(cards: seq<Card>): string
  {
    Flatten(SortBy(Names(cards), Identity))
  }

  /** The cached digest is the hash of the current card list, or not computed yet. */
  ghost predicate DigestCurrent(cube: Cube, hash: string -> string)
  {
    cube.digestCache.Some? ==> cube.digestCache.value == hash(DigestInput(cube.cards))
  }

  /** The `digest` getter: the digest, and the cube with the digest cached. */
  function ReadDigest(cube: Cube, hash: string -> string): (r: (string, Cube))
    ensures r.1 == cube.(digestCache := Some(r.0))
    ensures cube.digestCache.Some? ==> r.0 == cube.digestCache.value
  {
    match cube.digestCache
    case Some(d) => (d, cube)
    case None =>
      var d := hash(DigestInput(cube.cards));
      (d, cube.(digestCache := Some(d)))
  }

  /** Caching is invisible: a cube whose cache is current yields the hash of its names and stays
      current, and a second read returns the same digest and leaves the cube as it was. */
  lemma ReadDigestIsCached(cube: Cube, hash: string -> string)
    requires DigestCurrent(cube, hash)
    ensures ReadDigest(cube, hash).0 == hash(DigestInput(cube.cards))
    ensures DigestCurrent(ReadDigest(cube, hash).1, hash)
    ensures var (d, c) := ReadDigest(cube, hash); ReadDigest(c, hash) == (d, c)
  {
  }

  /** The digest's own sort does nothing for a cube, whose cards are already in name order. */
  lemma DigestInputOfSortedCards(cards: seq<Card>)
    requires SortedBy(cards, CardName)
    ensures DigestInput(cards) == Flatten(Names(cards))
  {
    var names := Names(cards);
    assert SortedBy(names, Identity);
    SortedStringsUnique(SortBy(names, Identity), names);
  }

  /** The digest depends only on which names the cube holds, counted with repetition. */
  lemma DigestInputIgnoresOrder(c1: seq<Card>, c2: seq<Card>)
    requires multiset(Names(c1)) == multiset(Names(c2))
    ensures DigestInput(c1) == DigestInput(c2)
  {
    SortedStringsUnique(SortBy(Names(c1), Identity), SortBy(Names(c2), Identity));
  }

  /** Reordering the loaded list changes neither the digest nor, therefore, whether the stored
      draft survives a reload. */
  lemma DigestIgnoresLoadOrder(raw1: seq<RawCard>, raw2: seq<RawCard>)
    requires multiset(raw1) == multiset(raw2)
    ensures DigestInput(SortedCards(raw1)) == DigestInput(SortedCards(raw2))
  {
    var c1, c2 := SortedCards(raw1), SortedCards(raw2);
    assert forall c :: RawName(Printing(c)) == CardName(c);
    assert Map(Map(c1, Printing), RawName) == Names(c1);
    assert Map(Map(c2, Printing), RawName) == Names(c2);
    MultisetMap(Map(c1, Printing), Map(c2, Printing), RawName);
    DigestInputIgnoresOrder(c1, c2);
  }

  /** Names are joined without separator, so two cubes with different names can feed the hash
      the same text: renaming "a" and "bc" to "ab" and "c" leaves the digest unchanged. */
  lemma DigestInputJoinsNames()
    ensures var c1 := [Card("a", "s", "1", 0), Card("bc", "s", "2", 1)];
            var c2 := [Card("ab", "s", "1", 0), Card("c", "s", "2", 1)];
            multiset(Names(c1)) != multiset(Names(c2)) && DigestInput(c1) == DigestInput(c2)
  {
    var c1 := [Card("a", "s", "1", 0), Card("bc", "s", "2", 1)];
    var c2 := [Card("ab", "s", "1", 0), Card("c", "s", "2", 1)];
    CollidingNames();
    TwoNames(c1);
    TwoNames(c2);
    assert multiset(Names(c1)) != multiset(Names(c2)) by {
      assert "a" in multiset(Names(c1));
      assert "a" != "ab" && "a" != "c";
    }
  }

  /** Both name pairs are in order, and they join to the same text. */
  lemma CollidingNames()
    ensures StrLe("a", "bc") && StrLe("ab", "c")
    ensures "a" + "bc" == "ab" + "c"
  {
    assert "a"[0] < "bc"[0];
    assert "ab"[0] < "c"[0];
  }

  /** The digest text of a two-card cube in name order is its two names joined. */
  lemma TwoNames(c: seq<Card>)
    requires |c| == 2 && StrLe(c[0].name, c[1].name)
    ensures Names(c) == [c[0].name, c[1].name]
    ensures DigestInput(c) == c[0].name + c[1].name
  {
    var names := [c[0].name, c[1].name];
    assert Names(c) == names;
    assert SortedBy(c, CardName);
    DigestInputOfSortedCards(c);
    assert Flatten([c[1].name]) == c[1].name by {
      assert [c[1].name][1..] == [];
    }
    assert names[1..] == [c[1].name];
  }

  /** `reload`: a stored digest that differs from the new cube's wipes the store; the digest is
      then recorded. Returns the new store and the cube with its digest cached. */
  function Reload(store: Store, cube: Cube, hash: string -> string): (r: (Store, Cube))
    ensures var d := ReadDigest(cube, hash).0;
      && r.1 == cube.(digestCache := Some(d))
      && Get(r.0, DigestKey) == Some(Text(d))
      && (Get(store, DigestKey) !in {None, Some(Text(d))} ==> r.0 == map[DigestKey := Text(d)])
      && (Get(store, DigestKey) in {None, Some(Text(d))} ==>
            forall k :: k != DigestKey ==> Get(r.0, k) == Get(store, k))
  {
    var (digest, loaded) := ReadDigest(cube, hash);
    var kept := if DigestKey in store && store[DigestKey] != Text(digest) then Clear() else store;
    (Set(kept, DigestKey, Text(digest)), loaded)
  }

  /** The stored draft survives a reload exactly when no digest was stored or the stored one
      matches the new cube. */
  lemma ReloadKeepsDraftIffSameCube(store: Store, cube: Cube, hash: string -> string)
    requires SeatsKey in store
    ensures var d := ReadDigest(cube, hash).0;
      SeatsKey in Reload(store, cube, hash).0 <==> Get(store, DigestKey) in {None, Some(Text(d))}
  {
    var d := ReadDigest(cube, hash).0;
    assert Get(Reload(store, cube, hash).0, SeatsKey) == (
      if Get(store, DigestKey) in {None, Some(Text(d))} then Get(store, SeatsKey) else None);
  }

  /** Reloading the same cube list a second time changes nothing. */
  lemma ReloadIsIdempotent(store: Store, cube: Cube, hash: string -> string)
    ensures var (s, c) := Reload(store, cube, hash); Reload(s, c, hash) == (s, c)
  {
    var (s, c) := Reload(store, cube, hash);
    assert s[DigestKey := s[DigestKey]] == s;
  }

  // Card-list codec

  /** The URL-safe variant of the base64 text: `+` becomes `.` and `/` becomes `_`. */
  function ToUrlSafe(s: string): (r: string)
    ensures |r| == |s|
    ensures forall i :: 0 <= i < |s| ==> r[i] != '+' && r[i] != '/'
  {
    seq(|s|, i requires 0 <= i < |s| => if s[i] == '+' then '.' else if s[i] == '/' then '_' else s[i])
  }

  function FromUrlSafe(s: string): (r: string)
    ensures |r| == |s|
    ensures forall i :: 0 <= i < |s| ==> r[i] != '.' && r[i] != '_'
  {
    seq(|s|, i requires 0 <= i < |s| => if s[i] == '.' then '+' else if s[i] == '_' then '/' else s[i])
  }

  /** The two rewritings undo each other on text free of `.` and `_`, as base64 text is. */
  lemma UrlSafeRoundTrip(s: string)
    requires forall i :: 0 <= i < |s| ==> s[i] != '.' && s[i] != '_'
    ensures FromUrlSafe(ToUrlSafe(s)) == s
  {
  }

  predicate UrlSafeChar(c: char)
  {
    (Base64.IsLetter(c) && c != '+' && c != '/') || c == '.' || c == '_' || c == '='
  }

  /** Card positions as one URL-safe token. */
  function EncodeIndexes(ns: seq<nat>): (token: string)
    ensures |token| % 4 == 0
    ensures forall i :: 0 <= i < |token| ==> UrlSafeChar(token[i])
  {
    var bytes := Varint.EncodeAll(ns);
    var text := Base64.Encode(bytes);
    Base64.EncodeAlphabet(bytes);
    Base64.WholeGroups(bytes);
    UrlSafeAlphabet(text);
    ToUrlSafe(text)
  }

  /** Rewriting base64 text leaves only URL-safe characters. */
  lemma UrlSafeAlphabet(text: string)
    requires forall i :: 0 <= i < |text| ==> Base64.IsLetter(text[i]) || text[i] == '='
    ensures forall i :: 0 <= i < |text| ==> UrlSafeChar(ToUrlSafe(text)[i])
  {
    forall i | 0 <= i < |text|
      ensures UrlSafeChar(ToUrlSafe(text)[i])
    {
      var c := text[i];
      assert ToUrlSafe(text)[i] == if c == '+' then '.' else if c == '/' then '_' else c;
    }
  }

  /** Card positions back from a token; `None` where the libraries would throw (malformed base64,
      a varint cut short). One position per byte below 128. */
  function DecodeIndexes(token: string): (r: Option<seq<nat>>)
    ensures Base64.Decode(FromUrlSafe(token)).None? ==> r.None?
    ensures Base64.Decode(FromUrlSafe(token)).Some? ==>
      (r.Some? <==> var b := Base64.Decode(FromUrlSafe(token)).value; |b| == 0 || b[|b| - 1] < 128)
    ensures r.Some? ==> |r.value| == Varint.Terminators(Base64.Decode(FromUrlSafe(token)).value)
  {
    match Base64.Decode(FromUrlSafe(token))
    case None => None
    case Some(bytes) =>
      match Varint.DecodeAll(bytes)
      case None => None
      case Some(ns) =>
        Varint.DecodeAllCount(bytes);
        Some(ns)
  }

  lemma BaseLettersAreNotUrlMarks(c: char)
    requires Base64.IsLetter(c) || c == '='
    ensures c != '.' && c != '_'
  {
  }

  /** Every list of positions survives the trip through a token. */
  lemma DecodeIndexesEncodeIndexes(ns: seq<nat>)
    ensures DecodeIndexes(EncodeIndexes(ns)) == Some(ns)
  {
    var bytes := Varint.EncodeAll(ns);
    var text := Base64.Encode(bytes);
    Base64.EncodeAlphabet(bytes);
    forall i | 0 <= i < |text|
      ensures text[i] != '.' && text[i] != '_'
    {
      BaseLettersAreNotUrlMarks(text[i]);
    }
    UrlSafeRoundTrip(text);
    Base64.DecodeEncode(bytes);
    Varint.DecodeAllEncodeAll(ns);
  }

  /** The cube position of each card, as `indexesByCard` records it. */
  function IndexesOf(cube: Cube, cards: seq<Card>): (ns: seq<nat>)
    requires forall c :: c in cards ==> c in cube.indexOf
    ensures |ns| == |cards|
    ensures PositionsKnown(cube) ==> forall i :: 0 <= i < |cards| ==>
      ns[i] == cards[i].index && ns[i] < |cube.cards| && cube.cards[ns[i]] == cards[i]
  {
    seq(|cards|, i requires 0 <= i < |cards| => cube.indexOf[cards[i]])
  }

  /** `encodeCards`. */
  function EncodeCards(cube: Cube, cards: seq<Card>): (token: string)
    requires forall c :: c in cards ==> c in cube.indexOf
    ensures |token| % 4 == 0
    ensures forall i :: 0 <= i < |token| ==> UrlSafeChar(token[i])
  {
    EncodeIndexes(IndexesOf(cube, cards))
  }

  /** `this.cards[index]`: `None` stands for JavaScript's `undefined` past the end. */
  function Lookup(cube: Cube, n: nat): (r: Option<Card>)
    ensures r.Some? <==> n < |cube.cards|
    ensures r.Some? ==> r.value in cube.cards
    ensures r.Some? && Indexed(cube.cards) ==> r.value.index == n
  {
    if n < |cube.cards| then Some(cube.cards[n]) else None
  }

  /** `decodeCards`: one entry per decoded position, `None` for a position outside the cube. */
  function DecodeCards(cube: Cube, token: string): (r: Option<seq<Option<Card>>>)
    ensures r.Some? <==> DecodeIndexes(token).Some?
    ensures r.Some? ==> |r.value| == |DecodeIndexes(token).value|
    ensures r.Some? ==> forall i :: 0 <= i < |r.value| ==>
      (r.value[i].Some? <==> DecodeIndexes(token).value[i] < |cube.cards|)
    ensures r.Some? && Indexed(cube.cards) ==> forall i :: 0 <= i < |r.value| ==>
      r.value[i].Some? ==> r.value[i].value.index == DecodeIndexes(token).value[i]
    ensures r.Some? ==> forall i :: 0 <= i < |r.value| && r.value[i].Some? ==>
      r.value[i].value == cube.cards[DecodeIndexes(token).value[i]]
  {
    match DecodeIndexes(token)
    case None => None
    case Some(ns) => Some(Map(ns, n => Lookup(cube, n)))
  }

  function Present(cards: seq<Card>): seq<Option<Card>>
  {
    Map(cards, c => Some(c))
  }

  /** Decoding an encoded card list gives back exactly that list. */
  lemma DecodeCardsEncodeCards(cube: Cube, cards: seq<Card>)
    requires PositionsKnown(cube)
    requires forall c :: c in cards ==> c in cube.indexOf
    ensures DecodeCards(cube, EncodeCards(cube, cards)) == Some(Present(cards))
  {
    var ns := IndexesOf(cube, cards);
    DecodeIndexesEncodeIndexes(ns);
    forall i | 0 <= i < |cards|
      ensures Lookup(cube, ns[i]) == Some(cards[i])
    {
      assert cards[i] in cube.indexOf;
    }
    assert Map(ns, n => Lookup(cube, n)) == Present(cards);
  }

  /** A cube's cards are exactly the keys of its position map. */
  lemma CubeCardsArePositioned(cube: Cube, c: Card)
    requires Valid(cube)
    ensures c in cube.indexOf <==> c in cube.cards
  {
    if c in cube.cards {
      var i :| 0 <= i < |cube.cards| && cube.cards[i] == c;
    }
  }
}
