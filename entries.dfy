/** One venue page and its tap-list entries, as the scraper reads them. The
    page markup itself is not modelled: each entry arrives as the four strings
    the scraper takes from it (the italic style text, the details text, the
    anchor text and the anchor's link), and each page as the strings of its
    header together with its sections of entries. */
module Entries {
  import opened Text

  datatype Option<T> = None | Some(value: T)

  /** The strings of one `li` entry of a tap-list section. */
  datatype RawEntry = RawEntry(
    emText: string,       // text of the `em` element: "Style - Sub-style"
    detailsText: string,  // first text node of the `h6 span`: ABV, IBU, ... separated by bullets
    anchorText: string,   // text of the beer's `a` element
    href: string          // the `href` attribute of that element, relative to the site
  )

  /** The strings of one venue page: its header fields and its tap-list
      sections, each a list of entries in document order. */
  datatype RawPage = RawPage(
    url: string,
    nameText: string,
    addressText: string,
    phoneText: string,
    updatedAttr: string,
    sections: seq<seq<RawEntry>>
  )

  datatype Beer = Beer(
    name: string,
    style: string,
    subStyle: Option<string>,
    details: string,
    untappdUrl: string
  )

  datatype Venue = Venue(
    name: string,
    address: string,
    phone: string,
    updated: string,
    untappdUrl: string,
    beersOnTap: seq<Beer>
  )

  /** The link text the page appends to a venue's address. */
  const MapLink: string := " ( Map )"

  /** The separator between the parts of a beer's details: the bytes of a
      bullet in UTF-8, read back as three Latin-1 characters. */
  const Bullet: string := "\U{00E2}\U{0080}\U{00A2}"

  /** The site that the beer links are relative to. */
  const UntappdBase: string := "https://untappd.com"

  /** The address as displayed: stripped, then every ` ( Map )` taken out. */
  function CleanAddress(text: string): (r: string)
    ensures |r| <= |text|
  {
    RemoveAll(Strip(text), MapLink)
  }

  /** The beer's style: the text before the first hyphen, stripped. */
  function StyleOf(em: string): (r: string)
    ensures '-' !in r
    ensures Trimmed(r)
  {
    Strip(Split(em, '-')[0])
  }

  /** The beer's sub-style: the text between the first and the second
      hyphen, stripped, and nothing when there is no hyphen. */
  function SubStyleOf(em: string): (r: Option<string>)
    ensures r.None? <==> '-' !in em
    ensures r.Some? ==> '-' !in r.value
  {
    var parts := Split(em, '-');
    if |parts| > 1 then Some(Strip(parts[1])) else None
  }

  /** The details as shown: the part before the first bullet, stripped. */
  function Details(text: string): (r: string)
    ensures |r| <= |text|
  {
    Strip(BeforeFirst(text, Bullet))
  }

  /** The absolute link to the beer's page. */
  function BeerUrl(href: string): (r: string)
    ensures StartsWith(r, UntappdBase) && r[|UntappdBase|..] == href
  {
    UntappdBase + href
  }

  /** The record the scraper builds for one entry. */
  function ExtractBeer(e: RawEntry): (b: Beer)
    ensures b.name == e.anchorText
    ensures '-' !in b.style && (b.subStyle.None? <==> '-' !in e.emText)
    ensures StartsWith(b.untappdUrl, UntappdBase) && b.untappdUrl[|UntappdBase|..] == e.href
  {
    Beer(
      name := e.anchorText,
      style := StyleOf(e.emText),
      subStyle := SubStyleOf(e.emText),
      details := Details(e.detailsText),
      untappdUrl := BeerUrl(e.href)
    )
  }

  /** The record the scraper builds for a venue before reading its tap list. */
  function VenueOf(p: RawPage): (v: Venue)
    ensures v.name == p.nameText && v.phone == p.phoneText && v.updated == p.updatedAttr
    ensures v.untappdUrl == p.url && v.beersOnTap == []
    ensures |v.address| <= |p.addressText|
  {
    Venue(
      name := p.nameText,
      address := CleanAddress(p.addressText),
      phone := p.phoneText,
      updated := p.updatedAttr,
      untappdUrl := p.url,
      beersOnTap := []
    )
  }

  // ---------------------------------------------------------------------------
  // What the extraction promises

  /** The map link starts nowhere inside an address without an opening
      parenthesis, even where the two meet. */
  lemma MapLinkOnlyAtEnd(x: string)
    requires '(' !in x
    ensures forall k :: 0 <= k < |x| ==> !StartsWith((x + MapLink)[k..], MapLink)
  {
    var t := x + MapLink;
    forall k | 0 <= k < |x|
      ensures !StartsWith(t[k..], MapLink)
    {
      assert t[k + 1] != '(' by {
        if k + 1 < |x| {
          assert t[k + 1] == x[k + 1];
        } else {
          assert t[k + 1] == MapLink[0];
        }
      }
      assert MapLink[1] == '(';
      assert |t[k..]| >= 2 && t[k..][1] == t[k + 1];
    }
  }

  /** Nor does it start inside such an address when more text follows. */
  lemma MapLinkNotBefore(x: string, rest: string)
    requires '(' !in x
    ensures forall k :: 0 <= k < |x| ==> !StartsWith((x + MapLink + rest)[k..], MapLink)
  {
    MapLinkOnlyAtEnd(x);
    var t := x + MapLink + rest;
    forall k | 0 <= k < |x|
      ensures !StartsWith(t[k..], MapLink)
    {
      assert t[k..][..|MapLink|] == (x + MapLink)[k..][..|MapLink|];
    }
  }

  /** An address followed by the map link, with whitespace around the whole,
      comes out as the bare address, provided the address starts with a
      non-space character and holds no opening parenthesis. */
  lemma CleanAddressDropsMapLink(ws1: string, x: string, ws2: string)
    requires AllSpace(ws1) && AllSpace(ws2)
    requires x != [] && !IsSpace(x[0]) && '(' !in x
    ensures CleanAddress(ws1 + x + MapLink + ws2) == x
  {
    var y := x + MapLink;
    assert y[0] == x[0] && y[|y| - 1] == MapLink[7] == ')';
    assert ws1 + x + MapLink + ws2 == ws1 + y + ws2;
    StripPadded(ws1, y, ws2);
    MapLinkOnlyAtEnd(x);
    RemoveAllTrailing(x, MapLink);
  }

  /** A map link after text with no opening parenthesis is dropped
      wherever it stands, and the removal carries on in what follows it. */
  lemma RemoveMapLinkAt(x: string, y: string)
    requires '(' !in x
    ensures RemoveAll(x + MapLink + y, MapLink) == x + RemoveAll(y, MapLink)
  {
    var s := x + MapLink + y;
    MapLinkNotBefore(x, y);
    forall j | 0 <= j < |x| ensures !OccursAt(x + (MapLink + y), MapLink, j) {
      assert x + (MapLink + y) == s;
      OccursAtStart(s, MapLink, j);
    }
    assert (MapLink + y)[..|MapLink|] == MapLink;
    RemoveAllAt(x, MapLink + y, MapLink);
    assert (MapLink + y)[|MapLink|..] == y;
    ConcatAssoc(x, MapLink, y);
  }

  lemma LinkedIsTrimmed(x: string, y: string)
    requires x != [] && !IsSpace(x[0])
    requires y == [] || !IsSpace(y[|y| - 1])
    ensures Trimmed(x + MapLink + y)
  {
    var s := x + MapLink + y;
    assert s[0] == x[0];
    if y == [] {
      assert s[|s| - 1] == MapLink[7];
    } else {
      assert s[|s| - 1] == y[|y| - 1];
    }
  }

  /** So the address cleanup drops a map link that follows the start of the
      address, wherever it stands, and goes on with the rest. */
  lemma CleanAddressMapLinkAt(x: string, y: string)
    requires x != [] && !IsSpace(x[0]) && '(' !in x
    requires y == [] || !IsSpace(y[|y| - 1])
    ensures CleanAddress(x + MapLink + y) == x + RemoveAll(y, MapLink)
  {
    var s := x + MapLink + y;
    LinkedIsTrimmed(x, y);
    StripIs(s, 0, |s|);
    RemoveMapLinkAt(x, y);
  }

  /** Every map link is removed, not only the last: `A ( Map ) B ( Map )`
      becomes `A B`. */
  lemma CleanAddressTwoMapLinks(a: string, b: string)
    requires a != [] && !IsSpace(a[0]) && '(' !in a && '(' !in b
    ensures CleanAddress(a + MapLink + b + MapLink) == a + b
  {
    var y := b + MapLink;
    assert y[|y| - 1] == MapLink[7];
    assert a + MapLink + b + MapLink == a + MapLink + y;
    CleanAddressMapLinkAt(a, y);
    MapLinkOnlyAtEnd(b);
    RemoveAllTrailing(b, MapLink);
  }

  /** Stripping comes before the removal: an address that is nothing but the
      map link loses its leading space and is then no longer removed. */
  lemma CleanAddressBareMapLink()
    ensures CleanAddress(MapLink) == "( Map )"
  {
    var t := MapLink[1..];
    assert MapLink == [' '] + t;
    assert t[0] == '(' && t[|t| - 1] == ')';
    StripLeading([' '], t);
    assert forall i :: 0 <= i < |t| ==> !StartsWith(t[i..], MapLink);
    RemoveAllNone(t, MapLink);
    assert t == "( Map )";
  }

  /** The style is the stripped text before the first hyphen `i` (the end of
      the text when there is none), and there is a sub-style exactly when
      there is a hyphen. */
  lemma StyleBeforeFirstHyphen(em: string, i: nat)
    requires i <= |em| && '-' !in em[..i]
    requires i == |em| || em[i] == '-'
    ensures StyleOf(em) == Strip(em[..i])
    ensures SubStyleOf(em).None? <==> i == |em|
  {
    if i == |em| {
      assert em[..i] == em;
      SplitNone(em, '-');
    } else {
      SplitAt(em, '-', i);
    }
  }

  /** With hyphens at `i` and `j` and none between or before, the sub-style
      is the stripped text between them; whatever follows the second hyphen
      is ignored. */
  lemma SubStyleBetweenHyphens(em: string, i: nat, j: nat)
    requires i < j <= |em| && em[i] == '-'
    requires '-' !in em[..i] && '-' !in em[i + 1..j]
    requires j == |em| || em[j] == '-'
    ensures SubStyleOf(em) == Some(Strip(em[i + 1..j]))
  {
    SplitAt(em, '-', i);
    var parts := Split(em, '-');
    var rest := em[i + 1..];
    SliceOfSuffix(em, i + 1, j);
    SplitFirst(rest, '-', j - i - 1);
    assert |parts| > 1 && parts[1] == Split(rest, '-')[0];
    assert SubStyleOf(em) == Some(Strip(parts[1]));
  }

  /** The style is the stripped text before a first hyphen. */
  lemma StyleOfHyphenated(a: string, b: string)
    requires '-' !in a
    ensures StyleOf(a + ['-'] + b) == Strip(a)
  {
    PiecesOfConcat(a, '-', b);
    StyleBeforeFirstHyphen(a + ['-'] + b, |a|);
  }

  /** With exactly one hyphen, the sub-style is the stripped text after it. */
  lemma SubStyleOfHyphenated(a: string, b: string)
    requires '-' !in a && '-' !in b
    ensures SubStyleOf(a + ['-'] + b) == Some(Strip(b))
  {
    var em := a + ['-'] + b;
    PiecesOfConcat(a, '-', b);
    assert em[|a| + 1..|em|] == b;
    SubStyleBetweenHyphens(em, |a|, |em|);
  }

  /** With a second hyphen, the sub-style is the stripped text between the
      two, and what follows the second is ignored. */
  lemma SubStyleOfTwoHyphens(a: string, b: string, c: string)
    requires '-' !in a && '-' !in b
    ensures SubStyleOf(a + ['-'] + b + ['-'] + c) == Some(Strip(b))
  {
    var em := a + ['-'] + b + ['-'] + c;
    var i, j := |a|, |a| + 1 + |b|;
    PiecesOfConcat(a, '-', b + ['-'] + c);
    assert em == a + ['-'] + (b + ['-'] + c);
    PiecesOfConcat(b, '-', c);
    assert em[i + 1..j] == b && em[j] == '-';
    SubStyleBetweenHyphens(em, i, j);
  }

  /** A style text written as the page writes it, `style - sub-style` with
      any whitespace around the hyphen, gives back the two names. */
  lemma StyleAndSubStyle(style: string, ws1: string, ws2: string, sub: string)
    requires '-' !in style && '-' !in sub && Trimmed(style) && Trimmed(sub)
    requires AllSpace(ws1) && AllSpace(ws2)
    ensures StyleOf(style + ws1 + ['-'] + ws2 + sub) == style
    ensures SubStyleOf(style + ws1 + ['-'] + ws2 + sub) == Some(sub)
  {
    var a, b := style + ws1, ws2 + sub;
    ConcatAssoc(a + ['-'], ws2, sub);
    assert '-' !in ws1 && '-' !in ws2;
    StyleOfHyphenated(a, b);
    SubStyleOfHyphenated(a, b);
    StripTrailing(style, ws1);
    StripLeading(ws2, sub);
  }

  /** A third segment after a second hyphen is ignored. */
  lemma ExtraSegmentIgnored(style: string, ws1: string, sub: string, ws2: string, extra: string)
    requires '-' !in style && '-' !in sub && Trimmed(sub) && AllSpace(ws1) && AllSpace(ws2)
    ensures SubStyleOf(style + ['-'] + ws1 + sub + ws2 + ['-'] + extra) == Some(sub)
  {
    assert '-' !in ws1 && '-' !in ws2;
    var x := style + ['-'];
    ConcatAssoc(x, ws1, sub);
    ConcatAssoc(x, ws1 + sub, ws2);
    SubStyleOfTwoHyphens(style, ws1 + sub + ws2, extra);
    StripPadded(ws1, sub, ws2);
  }

  /** The details keep the stripped text before the first bullet; everything
      after it is dropped. */
  lemma DetailsBeforeBullet(pre: string, post: string)
    requires forall i :: 0 <= i < |pre| ==> !StartsWith((pre + Bullet + post)[i..], Bullet)
    ensures Details(pre + Bullet + post) == Strip(pre)
  {
    var s := pre + Bullet + post;
    assert s[|pre|..][..|Bullet|] == Bullet;
    BeforeFirstIs(s, Bullet, |pre|);
    assert s[..|pre|] == pre;
  }

  /** Without a bullet the details are the whole text, stripped. */
  lemma DetailsWithoutBullet(text: string)
    requires forall i :: 0 <= i < |text| ==> !StartsWith(text[i..], Bullet)
    ensures Details(text) == Strip(text)
  {
    BeforeFirstIs(text, Bullet, |text|);
    assert text[..|text|] == text;
  }

  /** No bullet starts inside a text without its first character. */
  lemma NoBulletWithin(pre: string, post: string)
    requires Bullet[0] !in pre
    ensures forall i :: 0 <= i < |pre| ==> !StartsWith((pre + Bullet + post)[i..], Bullet)
  {
    var s := pre + Bullet + post;
    forall i | 0 <= i < |pre|
      ensures !StartsWith(s[i..], Bullet)
    {
      assert s[i..][0] == pre[i];
    }
  }

  /** A details text as the page renders it, `abv • ibu`, keeps the part
      before the bullet. */
  lemma DetailsAsRendered(abv: string, rest: string)
    requires Bullet[0] !in abv && Trimmed(abv)
    ensures Details(abv + " " + Bullet + " " + rest) == abv
  {
    var pre, post := abv + " ", " " + rest;
    ConcatAssoc(pre + Bullet, " ", rest);
    NoBulletWithin(pre, post);
    DetailsBeforeBullet(pre, post);
    StripPadded([], abv, " ");
    assert [] + abv + " " == pre;
  }
}
