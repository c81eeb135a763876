/** The scraper's driver: reading every venue page and grouping its beers
    (`getBeers`), then laying out the site (`create_index_html`). Fetching the
    pages, parsing the markup, rendering the templates and touching the file
    system are not modelled: the pages come in as `RawPage` values, and the
    site comes out as the list of directory creations and file writes the
    program performs, each write carrying what its template is given. */
module BeerQuest {
  import opened Text
  import opened Entries
  import opened Ordering
  import opened Grouping

  /** The dictionary `getBeers` returns. */
  datatype Scraped = Scraped(
    venues: map<string, Venue>,
    types: map<string, Group>,
    typeKeys: seq<(string, string)>
  )

  /** What a written page is rendered from. */
  datatype Page =
    | TypePage(beerList: Group)      // `typePage.html` with one group: its style name and its beers
    | HomePage(data: Scraped)        // `index.html` with everything `getBeers` returned

  /** One effect on the file system. */
  datatype FsAction =
    | MakeDirs(path: string)
    | WriteFile(path: string, page: Page)

  /** The directory the site is written to. */
  const SiteDir: string := "../site/"

  /** The directory a style key's page goes in: the key, as one name, inside
      the site directory. */
  function TypeDir(key: string): (r: string)
    ensures SiteDir <= r && r[|SiteDir|..] == key
  {
    SiteDir + key
  }

  /** The file a style key's page is written to: `index.html` inside the
      key's directory. */
  function TypePagePath(key: string): (r: string)
    ensures r == TypeDir(key) + "/index.html"
  {
    SiteDir + key + "/index.html"
  }

  /** The file the home page is written to: `index.html` directly inside the
      site directory. */
  function HomePath(): (r: string)
    ensures SiteDir <= r && r[|SiteDir|..] == "index.html"
  {
    SiteDir + "index.html"
  }

  /** The sequences of `xss` one after the other. */
  function Flatten<T>(xss: seq<seq<T>>): (r: seq<T>)
  {
    if xss == [] then [] else Flatten(xss[..|xss| - 1]) + xss[|xss| - 1]
  }

  /** The entries of every page, page after page, section after section. */
  function AllEntries(pages: seq<RawPage>): (r: seq<RawEntry>)
    ensures forall e :: e in r <==> exists i :: 0 <= i < |pages| && e in Flatten(pages[i].sections)
  {
    if pages == [] then [] else AllEntries(pages[..|pages| - 1]) + Flatten(pages[|pages| - 1].sections)
  }

  /** `f` applied to each element of `s`, in order. */
  function MapSeq<A, B>(f: A -> B, s: seq<A>): (r: seq<B>)
    ensures |r| == |s| && forall i :: 0 <= i < |s| ==> r[i] == f(s[i])
  {
    if s == [] then [] else MapSeq(f, s[..|s| - 1]) + [f(s[|s| - 1])]
  }

  lemma MapSeqConcat<A, B>(f: A -> B, a: seq<A>, b: seq<A>)
    ensures MapSeq(f, a + b) == MapSeq(f, a) + MapSeq(f, b)
  {
    assert forall i :: 0 <= i < |a + b| ==> MapSeq(f, a + b)[i] == (MapSeq(f, a) + MapSeq(f, b))[i];
  }

  /** The beer records of the entries, in order. */
  function ExtractBeers(es: seq<RawEntry>): (r: seq<Beer>)
    ensures |r| == |es|
  {
    MapSeq(ExtractBeer, es)
  }

  lemma ExtractBeersConcat(a: seq<RawEntry>, b: seq<RawEntry>)
    ensures ExtractBeers(a + b) == ExtractBeers(a) + ExtractBeers(b)
  {
    MapSeqConcat(ExtractBeer, a, b);
  }

  lemma ExtractBeersStep(es: seq<RawEntry>, e: int)
    requires 0 <= e < |es|
    ensures ExtractBeers(es[..e + 1]) == ExtractBeers(es[..e]) + [ExtractBeer(es[e])]
  {
    assert es[..e + 1] == es[..e] + [es[e]];
    MapSeqConcat(ExtractBeer, es[..e], [es[e]]);
  }

  lemma FlattenStep<T>(xss: seq<seq<T>>, s: int)
    requires 0 <= s < |xss|
    ensures Flatten(xss[..s + 1]) == Flatten(xss[..s]) + xss[s]
  {
    assert xss[..s + 1][..s] == xss[..s];
  }

  lemma AllEntriesStep(pages: seq<RawPage>, i: int)
    requires 0 <= i < |pages|
    ensures AllEntries(pages[..i + 1]) == AllEntries(pages[..i]) + Flatten(pages[i].sections)
  {
    assert pages[..i + 1][..i] == pages[..i];
  }

  /** The beers of the first `s + 1` sections are those of the first `s`
      followed by those of section `s`. */
  lemma SectionBeersStep(sections: seq<seq<RawEntry>>, s: int)
    requires 0 <= s < |sections|
    ensures ExtractBeers(Flatten(sections[..s + 1])) == ExtractBeers(Flatten(sections[..s])) + ExtractBeers(sections[s])
  {
    FlattenStep(sections, s);
    ExtractBeersConcat(Flatten(sections[..s]), sections[s]);
  }

  /** The beers of the first `i + 1` pages are those of the first `i`
      followed by those of page `i`. */
  lemma PageBeersStep(pages: seq<RawPage>, i: int)
    requires 0 <= i < |pages|
    ensures ExtractBeers(AllEntries(pages[..i + 1])) == ExtractBeers(AllEntries(pages[..i])) + ExtractBeers(Flatten(pages[i].sections))
  {
    AllEntriesStep(pages, i);
    ExtractBeersConcat(AllEntries(pages[..i]), Flatten(pages[i].sections));
  }

  /** The body of the inner loop of `getBeers`: the beer record of one
      entry, added to the index. */
  method ReadEntry(index: StyleIndex, entry: RawEntry) returns (beer: Beer)
    requires index.Valid()
    modifies index
    ensures beer == ExtractBeer(entry)
    ensures index.Valid() && index.seen == old(index.seen) + [beer]
  {
    beer := ExtractBeer(entry);
    index.AddBeer(beer);
  }

  /** The inner loop of `getBeers` over the entries of one section: each
      beer is appended to the venue's tap list and added to the index. */
  method ReadSection(index: StyleIndex, onTap: seq<Beer>, section: seq<RawEntry>) returns (tap: seq<Beer>)
    requires index.Valid()
    modifies index
    ensures index.Valid() && index.seen == old(index.seen) + ExtractBeers(section)
    ensures tap == onTap + ExtractBeers(section)
  {
    tap := onTap;
    var e := 0;
    while e < |section|
      invariant 0 <= e <= |section|
      invariant index.Valid() && index.seen == old(index.seen) + ExtractBeers(section[..e])
      invariant tap == onTap + ExtractBeers(section[..e])
    {
      ExtractBeersStep(section, e);
      var beer := ReadEntry(index, section[e]);
      ConcatAssoc(onTap, ExtractBeers(section[..e]), [beer]);
      ConcatAssoc(old(index.seen), ExtractBeers(section[..e]), [beer]);
      tap := tap + [beer];
      e := e + 1;
    }
    assert section[..e] == section;
  }

  /** The middle loop of `getBeers` over the sections of one page's tap
      list. */
  method ReadSections(index: StyleIndex, sections: seq<seq<RawEntry>>) returns (tap: seq<Beer>)
    requires index.Valid()
    modifies index
    ensures index.Valid() && index.seen == old(index.seen) + ExtractBeers(Flatten(sections))
    ensures tap == ExtractBeers(Flatten(sections))
  {
    tap := [];
    var s := 0;
    while s < |sections|
      invariant 0 <= s <= |sections|
      invariant index.Valid() && index.seen == old(index.seen) + ExtractBeers(Flatten(sections[..s]))
      invariant tap == ExtractBeers(Flatten(sections[..s]))
    {
      SectionBeersStep(sections, s);
      ConcatAssoc(old(index.seen), ExtractBeers(Flatten(sections[..s])), ExtractBeers(sections[s]));
      tap := ReadSection(index, tap, sections[s]);
      s := s + 1;
    }
    assert sections[..s] == sections;
  }

  /** One venue page: the venue record built from its header, with the
      beers of its sections as its tap list. */
  method ReadPage(index: StyleIndex, page: RawPage) returns (venue: Venue)
    requires index.Valid()
    modifies index
    ensures index.Valid() && index.seen == old(index.seen) + ExtractBeers(Flatten(page.sections))
    ensures venue == VenueOf(page).(beersOnTap := ExtractBeers(Flatten(page.sections)))
  {
    venue := VenueOf(page);
    var tap := ReadSections(index, page.sections);
    venue := venue.(beersOnTap := venue.beersOnTap + tap);
  }

  /** `getBeers`: reads every entry of every page in document order, groups
      the beers by style key, and sorts the key list. The groups are those
      of `GroupBeers`; the key list holds the pairs of `FirstSeenKeys`,
      sorted by key, one per group; `venues` is never filled in (each
      page's venue record is built and then dropped). */
  method GetBeers(pages: seq<RawPage>) returns (data: Scraped)
    ensures data.venues == map[]
    ensures data.types == GroupBeers(ExtractBeers(AllEntries(pages)))
    ensures SortedByKey(data.typeKeys)
    ensures multiset(data.typeKeys) == multiset(FirstSeenKeys(ExtractBeers(AllEntries(pages))))
    ensures DistinctKeys(data.typeKeys) && KeySet(data.typeKeys) == data.types.Keys
  {
    var beersByVenue: map<string, Venue> := map[];
    var index := new StyleIndex();
    ReadPages(index, pages);
    index.Finish();
    data := Scraped(beersByVenue, index.beersByType, index.typeKeys);
  }

  /** The outer loop of `getBeers` over the venue pages. */
  method ReadPages(index: StyleIndex, pages: seq<RawPage>)
    requires index.Valid() && index.seen == []
    modifies index
    ensures index.Valid() && index.seen == ExtractBeers(AllEntries(pages))
  {
    var i := 0;
    while i < |pages|
      invariant 0 <= i <= |pages|
      invariant index.Valid() && index.seen == ExtractBeers(AllEntries(pages[..i]))
    {
      PageBeersStep(pages, i);
      var venue := ReadPage(index, pages[i]);
      i := i + 1;
    }
    assert pages[..i] == pages;
  }

  /** `create_index_html`: for each key pair in order, creates the key's
      directory and writes its type page from that group; then
      writes the home page from everything `getBeers` returned. */
  method CreateIndexHtml(data: Scraped) returns (actions: seq<FsAction>)
    requires forall p :: p in data.typeKeys ==> p.0 in data.types
    ensures |actions| == 2 * |data.typeKeys| + 1
    ensures forall i :: 0 <= i < |data.typeKeys| ==>
      && actions[2 * i] == MakeDirs(TypeDir(data.typeKeys[i].0))
      && actions[2 * i + 1] == WriteFile(TypePagePath(data.typeKeys[i].0), TypePage(data.types[data.typeKeys[i].0]))
    ensures actions[|actions| - 1] == WriteFile(HomePath(), HomePage(data))
    ensures DistinctKeys(data.typeKeys) && KeySet(data.typeKeys) == data.types.Keys ==>
      && (forall k :: k in data.types <==> MakeDirs(TypeDir(k)) in actions)
      && (forall i, j :: 0 <= i < j < |actions| && actions[i].MakeDirs? && actions[j].MakeDirs? ==> actions[i] != actions[j])
  {
    actions := [];
    var i := 0;
    while i < |data.typeKeys|
      invariant 0 <= i <= |data.typeKeys|
      invariant |actions| == 2 * i
      invariant forall j :: 0 <= j < i ==>
        && actions[2 * j] == MakeDirs(TypeDir(data.typeKeys[j].0))
        && actions[2 * j + 1] == WriteFile(TypePagePath(data.typeKeys[j].0), TypePage(data.types[data.typeKeys[j].0]))
    {
      var key := data.typeKeys[i];
      assert key in data.typeKeys;
      actions := actions + [MakeDirs(TypeDir(key.0))];
      actions := actions + [WriteFile(TypePagePath(key.0), TypePage(data.types[key.0]))];
      i := i + 1;
    }
    actions := actions + [WriteFile(HomePath(), HomePage(data))];
    if DistinctKeys(data.typeKeys) && KeySet(data.typeKeys) == data.types.Keys {
      SiteLayout(data, actions);
    }
  }

  // ---------------------------------------------------------------------------
  // The paths of the site

  /** Distinct keys get distinct directories. */
  lemma TypeDirInjective(a: string, b: string)
    requires TypeDir(a) == TypeDir(b)
    ensures a == b
  {
    assert a == TypeDir(a)[|SiteDir|..];
    assert b == TypeDir(b)[|SiteDir|..];
  }

  /** Distinct keys get distinct type pages, and no type page is the home
      page. */
  lemma TypePagePathInjective(a: string, b: string)
    ensures TypePagePath(a) == TypePagePath(b) ==> a == b
    ensures TypePagePath(a) != HomePath()
  {
    if TypePagePath(a) == TypePagePath(b) {
      assert |a| == |b|;
      assert a == TypePagePath(a)[|SiteDir|..|SiteDir| + |a|];
      assert b == TypePagePath(b)[|SiteDir|..|SiteDir| + |b|];
    }
    assert |TypePagePath(a)| > |HomePath()|;
  }

  /** The file a path names: the file system reads a run of slashes as one
      slash, so `../site//index.html` and `../site/index.html` name the same
      file. Every slash that follows a slash is dropped. */
  function Collapse(p: string): (r: string)
    ensures |r| <= |p|
    ensures p != [] ==> r != [] && r[0] == p[0]
    ensures NoDoubleSlash(r)
  {
    if |p| < 2 then p
    else if p[0] == '/' && p[1] == '/' then Collapse(p[1..])
    else
      var c := Collapse(p[1..]);
      assert forall i :: 1 <= i < |[p[0]] + c| ==> ([p[0]] + c)[i] == c[i - 1];
      [p[0]] + c
  }

  /** No slash follows another. */
  predicate NoDoubleSlash(p: string) {
    forall i :: 0 <= i < |p| - 1 ==> !(p[i] == '/' && p[i + 1] == '/')
  }

  /** The two paths name the same file. */
  predicate SameFile(p: string, q: string) {
    Collapse(p) == Collapse(q)
  }

  /** A path without doubled slashes is left as it is, so collapsing is
      idempotent. */
  lemma {:induction false} CollapseKeeps(p: string)
    requires NoDoubleSlash(p)
    ensures Collapse(p) == p
  {
    if |p| >= 2 {
      assert NoDoubleSlash(p[1..]) by {
        forall i | 0 <= i < |p[1..]| - 1 ensures !(p[1..][i] == '/' && p[1..][i + 1] == '/') {
          assert p[1..][i] == p[i + 1] && p[1..][i + 1] == p[i + 2];
        }
      }
      CollapseKeeps(p[1..]);
      assert p == [p[0]] + p[1..];
    }
  }

  /** A doubled slash names the same file as a single one. */
  lemma {:induction false} CollapseDouble(x: string, y: string)
    ensures Collapse(x + "//" + y) == Collapse(x + "/" + y)
  {
    var p, q := x + "//" + y, x + "/" + y;
    if x == [] {
      assert p[1..] == q;
    } else {
      assert p[0] == q[0] && p[1] == q[1];
      assert p[1..] == x[1..] + "//" + y;
      assert q[1..] == x[1..] + "/" + y;
      CollapseDouble(x[1..], y);
    }
  }

  /** The path of a key's type page has no doubled slash unless the key is
      empty. */
  lemma TypePagePathSingleSlashes(a: string)
    requires a != [] && '/' !in a
    ensures NoDoubleSlash(TypePagePath(a))
  {
    var p := TypePagePath(a);
    var tail := "/index.html";
    assert p == SiteDir + a + tail;
    forall i | 0 <= i < |p| - 1 ensures !(p[i] == '/' && p[i + 1] == '/') {
      if i + 1 < |SiteDir| {
        assert p[i] == SiteDir[i] && p[i + 1] == SiteDir[i + 1];
      } else if i < |SiteDir| + |a| {
        assert p[i + 1] == (a + tail)[i + 1 - |SiteDir|];
        if i + 1 < |SiteDir| + |a| {
          assert p[i + 1] == a[i + 1 - |SiteDir|];
          assert p[i + 1] in a;
        }
      } else {
        assert p[i + 1] == tail[i + 1 - |SiteDir| - |a|];
      }
    }
  }

  /** The empty key, which a style with no word character produces, has
      its type page at `../site//index.html`: the home page's file. */
  lemma EmptyKeyPageIsHomePage()
    ensures TypeDir([]) == SiteDir
    ensures SameFile(TypePagePath([]), HomePath())
  {
    assert TypePagePath([]) == "../site" + "//" + "index.html";
    assert HomePath() == "../site" + "/" + "index.html";
    CollapseDouble("../site", "index.html");
  }

  /** Every other key that a style gives has a type page of its own, and
      none of them is the home page's file. */
  lemma TypePagesAreDistinctFiles(a: string, b: string)
    requires a != [] && forall i :: 0 <= i < |a| ==> IsWordChar(a[i])
    requires b != [] && forall i :: 0 <= i < |b| ==> IsWordChar(b[i])
    ensures SameFile(TypePagePath(a), TypePagePath(b)) ==> a == b
    ensures !SameFile(TypePagePath(a), HomePath())
  {
    assert '/' !in a && '/' !in b;
    TypePagePathSingleSlashes(a);
    TypePagePathSingleSlashes(b);
    CollapseKeeps(TypePagePath(a));
    CollapseKeeps(TypePagePath(b));
    assert NoDoubleSlash(HomePath());
    CollapseKeeps(HomePath());
    TypePagePathInjective(a, b);
  }

  /** The layout `create_index_html` produces for the key list `keys`,
      reduced to what the lemmas below need: a directory creation for each
      key at an even position, a file write after each, and a file write
      last. */
  ghost predicate DirsThenWrites(keys: seq<(string, string)>, actions: seq<FsAction>) {
    && |actions| == 2 * |keys| + 1
    && (forall i :: 0 <= i < |keys| ==> actions[2 * i] == MakeDirs(TypeDir(keys[i].0)) && actions[2 * i + 1].WriteFile?)
    && actions[|actions| - 1].WriteFile?
  }

  /** In such a layout every directory creation is the one for some key. */
  lemma MakeDirsPosition(keys: seq<(string, string)>, actions: seq<FsAction>, n: int)
    requires DirsThenWrites(keys, actions)
    requires 0 <= n < |actions| && actions[n].MakeDirs?
    ensures n % 2 == 0 && n / 2 < |keys| && actions[n] == MakeDirs(TypeDir(keys[n / 2].0))
  {
    assert n / 2 < |keys| ==> actions[2 * (n / 2) + 1].WriteFile?;
  }

  /** The directories created are exactly those of the listed keys. */
  lemma DirsAreKeys(keys: seq<(string, string)>, actions: seq<FsAction>, k: string)
    requires DirsThenWrites(keys, actions)
    ensures MakeDirs(TypeDir(k)) in actions <==> k in KeySet(keys)
  {
    if k in KeySet(keys) {
      var p :| p in keys && p.0 == k;
      var i :| 0 <= i < |keys| && keys[i] == p;
      assert actions[2 * i] == MakeDirs(TypeDir(k));
    }
    if MakeDirs(TypeDir(k)) in actions {
      var n :| 0 <= n < |actions| && actions[n] == MakeDirs(TypeDir(k));
      MakeDirsPosition(keys, actions, n);
      TypeDirInjective(keys[n / 2].0, k);
      assert keys[n / 2] in keys;
    }
  }

  /** With distinct keys no directory is created twice. */
  lemma DirsOnce(keys: seq<(string, string)>, actions: seq<FsAction>, i: int, j: int)
    requires DirsThenWrites(keys, actions) && DistinctKeys(keys)
    requires 0 <= i < j < |actions| && actions[i].MakeDirs? && actions[j].MakeDirs?
    ensures actions[i] != actions[j]
  {
    MakeDirsPosition(keys, actions, i);
    MakeDirsPosition(keys, actions, j);
    if actions[i] == actions[j] {
      TypeDirInjective(keys[i / 2].0, keys[j / 2].0);
    }
  }

  lemma KeysAreGroups(data: Scraped)
    requires KeySet(data.typeKeys) == data.types.Keys
    ensures forall p :: p in data.typeKeys ==> p.0 in data.types
  {
    forall p | p in data.typeKeys ensures p.0 in data.types {
      assert p.0 in KeySet(data.typeKeys);
    }
  }

  /** What `create_index_html` does with a key list that names each group
      once: one directory per group, none created twice. */
  lemma SiteLayout(data: Scraped, actions: seq<FsAction>)
    requires DistinctKeys(data.typeKeys) && KeySet(data.typeKeys) == data.types.Keys
    requires DirsThenWrites(data.typeKeys, actions)
    ensures forall k :: k in data.types <==> MakeDirs(TypeDir(k)) in actions
    ensures forall i, j :: 0 <= i < j < |actions| && actions[i].MakeDirs? && actions[j].MakeDirs? ==> actions[i] != actions[j]
  {
    forall k ensures k in data.types <==> MakeDirs(TypeDir(k)) in actions {
      DirsAreKeys(data.typeKeys, actions, k);
    }
    forall i, j | 0 <= i < j < |actions| && actions[i].MakeDirs? && actions[j].MakeDirs?
      ensures actions[i] != actions[j]
    {
      DirsOnce(data.typeKeys, actions, i, j);
    }
  }

  /** `main`: scrapes the pages and lays out the site. Every group gets
      exactly one directory, no directory is created twice in one run, and
      the home page is written last. */
  method Run(pages: seq<RawPage>) returns (data: Scraped, actions: seq<FsAction>)
    ensures data.types == GroupBeers(ExtractBeers(AllEntries(pages)))
    ensures forall k :: k in data.types <==> MakeDirs(TypeDir(k)) in actions
    ensures forall i, j :: 0 <= i < j < |actions| && actions[i].MakeDirs? && actions[j].MakeDirs? ==> actions[i] != actions[j]
    ensures actions != [] && actions[|actions| - 1] == WriteFile(HomePath(), HomePage(data))
  {
    data := GetBeers(pages);
    KeysAreGroups(data);
    actions := CreateIndexHtml(data);
  }
}
