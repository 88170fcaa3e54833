/** The image cache's fetch step: which card list a cache key names, and the grid picture that
    puts the cards' images side by side, five to a row. */
module ImageCache {
  import opened Wrappers
  import opened Cards
  import opened Cubes

  const CardWidth: nat := 745
  const CardHeight: nat := 1040
  /** Cards per row of the grid picture. */
  const GridColumns: nat := 5
  /** The key suffix that asks for the picture piled by mana value instead of the grid. */
  const PileSuffix: string := "?cmc"

  /** A cache key: the encoded card list, and which of the two pictures is wanted. */
  datatype ImageKey = Pile(token: string) | Grid(token: string)

  predicate EndsWith(s: string, suffix: string)
  {
    |suffix| <= |s| && s[|s| - |suffix|..] == suffix
  }

  /** The dispatch on `key.endsWith('?cmc')`: a pile key drops the suffix, a grid key is the token. */
  function ParseKey(key: string): (k: ImageKey)
    ensures k.Pile? <==> EndsWith(key, PileSuffix)
    ensures k.Pile? ==> key == k.token + PileSuffix
    ensures k.Grid? ==> k.token == key
  {
    if EndsWith(key, PileSuffix) then Pile(key[..|key| - |PileSuffix|]) else Grid(key)
  }

  /** Asking for the pile of a token gives back that token. */
  lemma PileKeyRoundTrip(token: string)
    ensures ParseKey(token + PileSuffix) == Pile(token)
  {
    assert (token + PileSuffix)[..|token|] == token;
  }

  /** Encoded card lists never hold `?`, so a bare token always asks for the grid. */
  lemma TokensAreGridKeys(cube: Cube, cards: seq<Card>)
    requires forall c :: c in cards ==> c in cube.indexOf
    ensures ParseKey(EncodeCards(cube, cards)) == Grid(EncodeCards(cube, cards))
  {
    NoMarkNoSuffix(EncodeCards(cube, cards));
  }

  lemma NoMarkNoSuffix(s: string)
    requires forall i :: 0 <= i < |s| ==> UrlSafeChar(s[i])
    ensures !EndsWith(s, PileSuffix)
  {
    if |PileSuffix| <= |s| {
      var i := |s| - |PileSuffix|;
      assert UrlSafeChar(s[i]);
      assert s[i] != '?';
    }
  }

  /** One card image placed on the canvas with its top-left corner at (`left`, `top`). */
  datatype Tile = Tile(imageUrl: string, left: nat, top: nat)

  datatype Picture = Picture(width: nat, height: nat, tiles: seq<Tile>)

  /** `Math.ceil(n / 5)`: the rows a grid of `n` cards needs. */
  function GridRows(n: nat): (rows: nat)
    ensures GridColumns * rows >= n
    ensures rows > 0 ==> GridColumns * (rows - 1) < n
  {
    (n + GridColumns - 1) / GridColumns
  }

  /** Where the `i`-th card of the grid goes: column `i % 5`, row `i / 5`. */
  function TileAt(c: Card, i: nat): (t: Tile)
    ensures t.imageUrl == ImageUrl(c)
    ensures t.left / CardWidth == i % GridColumns && t.left % CardWidth == 0
    ensures t.top / CardHeight == i / GridColumns && t.top % CardHeight == 0
    ensures t.left + CardWidth <= CardWidth * GridColumns
  {
    Tile(ImageUrl(c), CardWidth * (i % GridColumns), CardHeight * (i / GridColumns))
  }

  /** The grid picture of a card list: five card widths across and as many card heights down as
      there are rows, each card's PNG image at its grid cell. */
  function GridPicture(cards: seq<Card>): (p: Picture)
    ensures p.width == CardWidth * GridColumns
    ensures p.height == CardHeight * GridRows(|cards|)
    ensures |p.tiles| == |cards|
    ensures forall i :: 0 <= i < |cards| ==> p.tiles[i].imageUrl == ImageUrl(cards[i])
    ensures forall i :: 0 <= i < |cards| ==> p.tiles[i] == TileAt(cards[i], i)
  {
    Picture(CardWidth * GridColumns, CardHeight * GridRows(|cards|),
      seq(|cards|, i requires 0 <= i < |cards| => TileAt(cards[i], i)))
  }

  /** Every card image lies wholly inside the picture. */
  lemma TilesInsidePicture(cards: seq<Card>, i: nat)
    requires i < |cards|
    ensures var p := GridPicture(cards);
      p.tiles[i].left + CardWidth <= p.width && p.tiles[i].top + CardHeight <= p.height
  {
    var rows := GridRows(|cards|);
    assert i / GridColumns + 1 <= rows;
  }

  /** No two card images overlap. */
  lemma TilesDisjoint(cards: seq<Card>, i: nat, j: nat)
    requires i < j < |cards|
    ensures var t, u := GridPicture(cards).tiles[i], GridPicture(cards).tiles[j];
      t.left + CardWidth <= u.left || u.left + CardWidth <= t.left
      || t.top + CardHeight <= u.top || u.top + CardHeight <= t.top
  {
    if i / GridColumns == j / GridColumns {
      assert i % GridColumns < j % GridColumns;
    } else {
      assert i / GridColumns < j / GridColumns;
    }
  }

  /** The images fill the picture row by row, left to right. */
  lemma TilesInReadingOrder(cards: seq<Card>, i: nat, j: nat)
    requires i < j < |cards|
    ensures var t, u := GridPicture(cards).tiles[i], GridPicture(cards).tiles[j];
      t.top < u.top || (t.top == u.top && t.left < u.left)
  {
    if i / GridColumns == j / GridColumns {
      assert i % GridColumns < j % GridColumns;
    } else {
      assert i / GridColumns < j / GridColumns;
    }
  }

  /** The picture is no taller than it needs to be: its last row holds at least one card. */
  lemma PictureIsTight(cards: seq<Card>)
    requires |cards| > 0
    ensures exists i :: 0 <= i < |cards| && GridPicture(cards).tiles[i].top + CardHeight == GridPicture(cards).height
  {
    var n := |cards|;
    var i := n - 1;
    assert i / GridColumns + 1 == GridRows(n);
    assert GridPicture(cards).tiles[i].top + CardHeight == GridPicture(cards).height;
  }

  /** All entries present, i.e. every decoded position named a card of the cube. */
  function AllPresent(entries: seq<Option<Card>>): Option<seq<Card>>
  {
    if |entries| == 0 then Some([])
    else match (entries[0], AllPresent(entries[1..]))
      case (Some(c), Some(rest)) => Some([c] + rest)
      case _ => None
  }

  /** The grid branch of the fetch: decode the key and lay the cards out. `None` for a malformed
      key, or for a position outside the cube whose `imageUrl` ddraft then reads; ddraft throws
      in both cases. An empty token gives a picture with no rows. */
  function GridFetch(cube: Cube, key: string): (r: Option<Picture>)
    requires ParseKey(key).Grid?
    ensures r.Some? <==> (DecodeCards(cube, key).Some? &&
      forall i :: 0 <= i < |DecodeCards(cube, key).value| ==> DecodeCards(cube, key).value[i].Some?)
    ensures r.Some? ==> |r.value.tiles| == |DecodeCards(cube, key).value|
    ensures r.Some? ==> forall i :: 0 <= i < |r.value.tiles| ==>
      DecodeCards(cube, key).value[i].Some? &&
      r.value.tiles[i].imageUrl == ImageUrl(DecodeCards(cube, key).value[i].value)
    ensures r.Some? ==> r.value.width == CardWidth * GridColumns
    ensures r.Some? ==> r.value.height == CardHeight * GridRows(|r.value.tiles|)
    ensures r.Some? ==> forall i :: 0 <= i < |r.value.tiles| ==>
      DecodeCards(cube, key).value[i].Some? &&
      r.value.tiles[i] == TileAt(DecodeCards(cube, key).value[i].value, i)
  {
    match DecodeCards(cube, key)
    case None => None
    case Some(entries) =>
      AllPresentExact(entries);
      match AllPresent(entries)
      case None => None
      case Some(cards) => Some(GridPicture(cards))
  }

  lemma {:induction false} AllPresentExact(entries: seq<Option<Card>>)
    ensures AllPresent(entries).Some? <==> forall i :: 0 <= i < |entries| ==> entries[i].Some?
    ensures AllPresent(entries).Some? ==>
      |AllPresent(entries).value| == |entries| &&
      forall i :: 0 <= i < |entries| ==> AllPresent(entries).value[i] == entries[i].value
  {
    if |entries| > 0 {
      AllPresentExact(entries[1..]);
      if AllPresent(entries).Some? {
        var rest := AllPresent(entries[1..]).value;
        forall i | 0 <= i < |entries|
          ensures AllPresent(entries).value[i] == entries[i].value
        {
          if i > 0 {
            assert AllPresent(entries).value[i] == rest[i - 1];
          }
        }
      } else if entries[0].Some? {
        var i :| 0 <= i < |entries[1..]| && entries[1..][i].None?;
        assert entries[i + 1].None?;
      }
    }
  }

  /** Fetching the grid for an encoded card list shows exactly those cards, in order. */
  lemma GridFetchOfEncoded(cube: Cube, cards: seq<Card>)
    requires Valid(cube)
    requires forall c :: c in cards ==> c in cube.indexOf
    ensures ParseKey(EncodeCards(cube, cards)).Grid?
    ensures GridFetch(cube, EncodeCards(cube, cards)) == Some(GridPicture(cards))
  {
    var token := EncodeCards(cube, cards);
    TokensAreGridKeys(cube, cards);
    DecodeCardsEncodeCards(cube, cards);
    AllPresentExact(Present(cards));
    assert AllPresent(Present(cards)).value == cards;
  }
}
