/** A card of the cube: an immutable record with links to its Scryfall page and image. */
module Cards {

  /** `setCode` is ddraft's `set` field; `index` is the card's position in the cube's
      name-sorted card list. */
  datatype Card = Card(name: string, setCode: string, collectorNumber: string, index: nat)

  const CardPageBase: string := "https://scryfall.com/card/"
  const CardApiBase: string := "https://api.scryfall.com/cards/"
  const PngImageQuery: string := "?format=image&version=png"

  /** The Scryfall page of the printing. */
  function Url(c: Card): (u: string)
    ensures |u| > |CardPageBase| && u[..|CardPageBase|] == CardPageBase
    ensures u[|CardPageBase|..] == c.setCode + "/" + c.collectorNumber
  {
    CardPageBase + c.setCode + "/" + c.collectorNumber
  }

  /** The Scryfall API address of the printing's PNG image. */
  function ImageUrl(c: Card): (u: string)
    ensures |u| > |CardApiBase| + |PngImageQuery|
    ensures u[..|CardApiBase|] == CardApiBase && u[|u| - |PngImageQuery|..] == PngImageQuery
    ensures u[|CardApiBase|..|u| - |PngImageQuery|] == c.setCode + "/" + c.collectorNumber
  {
    CardApiBase + c.setCode + "/" + c.collectorNumber + PngImageQuery
  }

  /** Both links name the printing only: the card name and the cube position play no part, and
      the page link and the image link carry the same `set/collectorNumber` path. */
  lemma LinksDependOnPrintingOnly(c: Card, d: Card)
    requires c.setCode == d.setCode && c.collectorNumber == d.collectorNumber
    ensures Url(c) == Url(d) && ImageUrl(c) == ImageUrl(d)
    ensures Url(c)[|CardPageBase|..] == ImageUrl(d)[|CardApiBase|..|ImageUrl(d)| - |PngImageQuery|]
  {
    var path := c.setCode + "/" + c.collectorNumber;
    assert Url(c) == CardPageBase + path;
    assert ImageUrl(d) == CardApiBase + path + PngImageQuery;
  }

  /** Splitting `set + "/" + number` at its first slash recovers both parts when the set code
      itself holds no slash. */
  lemma {:induction false} PathSplits(s1: string, n1: string, s2: string, n2: string)
    requires '/' !in s1 && '/' !in s2
    requires s1 + "/" + n1 == s2 + "/" + n2
    ensures s1 == s2 && n1 == n2
  {
    var p1 := s1 + "/" + n1;
    var p2 := s2 + "/" + n2;
    FirstSlash(s1, n1);
    FirstSlash(s2, n2);
    assert |s1| == |s2|;
    assert s1 == p1[..|s1|] && s2 == p2[..|s2|];
    assert n1 == p1[|s1| + 1..] && n2 == p2[|s2| + 1..];
  }

  lemma FirstSlash(s: string, n: string)
    requires '/' !in s
    ensures (s + "/" + n)[|s|] == '/'
    ensures forall i :: 0 <= i < |s| ==> (s + "/" + n)[i] != '/'
  {
    forall i | 0 <= i < |s|
      ensures (s + "/" + n)[i] != '/'
    {
      assert (s + "/" + n)[i] == s[i];
    }
  }

  /** Set codes never contain a slash, so each link identifies the printing: two cards have the
      same page link, or the same image link, exactly when they share set and collector number. */
  lemma LinksIdentifyPrinting(c: Card, d: Card)
    requires '/' !in c.setCode && '/' !in d.setCode
    ensures Url(c) == Url(d) <==> (c.setCode == d.setCode && c.collectorNumber == d.collectorNumber)
    ensures ImageUrl(c) == ImageUrl(d) <==> (c.setCode == d.setCode && c.collectorNumber == d.collectorNumber)
  {
    var pc := c.setCode + "/" + c.collectorNumber;
    var pd := d.setCode + "/" + d.collectorNumber;
    assert Url(c) == CardPageBase + pc && Url(d) == CardPageBase + pd;
    assert ImageUrl(c) == CardApiBase + pc + PngImageQuery;
    assert ImageUrl(d) == CardApiBase + pd + PngImageQuery;
    if Url(c) == Url(d) {
      assert pc == Url(c)[|CardPageBase|..] == Url(d)[|CardPageBase|..] == pd;
      PathSplits(c.setCode, c.collectorNumber, d.setCode, d.collectorNumber);
    }
    if ImageUrl(c) == ImageUrl(d) {
      var u := ImageUrl(c);
      assert |pc| == |pd|;
      assert pc == u[|CardApiBase|..|CardApiBase| + |pc|];
      assert pd == ImageUrl(d)[|CardApiBase|..|CardApiBase| + |pd|];
      PathSplits(c.setCode, c.collectorNumber, d.setCode, d.collectorNumber);
    }
  }
}
