# beerquest in Dafny

A model of the scraper in `src/beerquest.py`. `getBeers` reads the tap-list
page of each venue. From every tap-list entry it builds a beer record: the
name, the style and sub-style from the hyphenated style line, the details
before the first bullet, and the absolute link to the beer. It groups the
beers by a style key, which is the style with every non-word character
removed. `beersByType` maps each key to a group: the style name it is shown
under and its beers. `typeKeys` lists one `(key, style)` pair per group and
is sorted by key at the end. `create_index_html` then creates one directory
per key, writes that key's type page, and writes the home page last. `main`
runs the two in sequence.

The project is made of these modules:

- `Text` (`text.dfy`) covers the Python string operations the scraper uses:
  - `str.strip` with Python's whitespace set;
  - `str.split('-')`;
  - the first segment of `re.split` on a literal;
  - `str.replace(pat, '')`;
  - `re.sub(r'\W+', '', s)` with an ASCII `\w`.

  Each comes with the lemmas that pin its result down.
- `Entries` (`entries.dfy`) holds the records and the per-entry extraction:
  the address cleanup, the style and sub-style split, the details, the beer
  link and the beer record.
- `Ordering` (`ordering.dfy`) covers Python's ordering of strings and the
  stable sort of `typeKeys` by key. The sort is an insertion sort, proved
  sorted and a permutation. A lemma shows that with distinct keys the sorted
  order is unique.
- `Grouping` (`grouping.dfy`) has the fold `GroupBeers`/`FirstSeenKeys`,
  which says what `beersByType` and `typeKeys` hold after a sequence of
  beers. It proves that the grouping is a partition by key that keeps
  document order, that the first style seen names the group, that keys are
  unique and match the groups, and that no beer is lost. The class
  `StyleIndex` holds the two fields the scraper updates in place. Its methods
  `AddBeer` and `Finish` are proved to keep to the fold.
- `BeerQuest` (`beerquest.dfy`) has the three nested loops of `getBeers` as
  methods over a `StyleIndex`. `create_index_html` is a loop that produces
  the list of file-system actions (directory creations and file writes),
  each write carrying what its template is rendered from. `main` is `Run`.

## Model

| member | source | states |
|---|---|---|
| Text.IsSpace | src/beerquest.py:64 | exactly the characters for which Python's `str.isspace()` holds, which are what `strip()` removes; none of them is a word character or the hyphen the style line is split on |
| Text.Strip | src/beerquest.py:64 | the result of `strip()` has no whitespace at either end and is no longer than its input |
| Text.TrimStart | src/beerquest.py:64 | leading whitespace removal: the result is a suffix of the input, everything cut off is whitespace, and the result does not start with whitespace |
| Text.TrimEnd | src/beerquest.py:64 | trailing whitespace removal: the result is a prefix of the input, everything cut off is whitespace, and the result does not end with whitespace |
| Text.StripIs | src/beerquest.py:64 | `strip()` returns exactly the slice between the leading and the trailing whitespace |
| Text.StripPadded | src/beerquest.py:84-86 | whitespace padding on both sides of a trimmed string is removed by `strip()` and nothing else is |
| Text.StripIdempotent | src/beerquest.py:64 | stripping twice is stripping once |
| Text.Split | src/beerquest.py:79 | `split('-')` returns at least one part, no part contains the separator, the parts joined with the separator give back the input, and there is exactly one part iff the input has no separator |
| Text.SplitJoin | src/beerquest.py:79 | joining separator-free parts and splitting again gives back the same parts (the other half of the round trip) |
| Text.SplitAt | src/beerquest.py:79 | the first part ends at the first separator, and the remaining parts are the split of the rest |
| Text.SplitNone | src/beerquest.py:79 | a string without the separator splits into itself alone |
| Text.BeforeFirst | src/beerquest.py:77 | the first segment of `re.split` on a literal is the longest prefix in which no occurrence of the separator starts, ending at an occurrence or at the end |
| Text.BeforeFirstIs | src/beerquest.py:77 | any cut point before which the separator does not occur and at which it does occur (or the text ends) is the first segment |
| Text.RemoveAll | src/beerquest.py:64 | `replace(pat, '')` never lengthens its input |
| Text.RemoveAllNone | src/beerquest.py:64 | a string in which the pattern does not occur is left unchanged |
| Text.RemoveAllAt | src/beerquest.py:64 | when the first occurrence of the pattern in `x + y` starts `y`, `replace` keeps `x`, drops that occurrence and carries on after it; with `RemoveAllNone` this fixes the result on every input |
| Text.RemoveAllTrailing | src/beerquest.py:64 | a single occurrence of the pattern at the very end is removed and the rest kept |
| Text.IsWordChar | src/beerquest.py:94 | the regex class `\w`, taken as ASCII letters, digits and `_`: a word character is ASCII and never a slash or a dot, so a key is one path segment |
| Text.WordCharsOnly | src/beerquest.py:94 | `re.sub(r'\W+', '', s)` keeps only word characters and never lengthens its input |
| Text.WordCharsOnlyMembers | src/beerquest.py:94 | a character is in the key iff it is in the input and is a word character |
| Text.WordCharsOnlyFixed | src/beerquest.py:94 | the normalisation leaves a string unchanged iff it is made of word characters only |
| Text.WordCharsOnlyIdempotent | src/beerquest.py:94 | normalising a key again does not change it |
| Text.WordCharsOnlyAppend | src/beerquest.py:94 | the normalisation works character by character: the key of a concatenation is the concatenation of the keys |
| Entries.CleanAddress | src/beerquest.py:64 | the cleaned address is no longer than the address text |
| Entries.CleanAddressDropsMapLink | src/beerquest.py:64 | a non-empty address that starts with a non-space, contains no `(`, is padded with whitespace and is followed by ` ( Map )` comes out as the bare address, e.g. `123 Main St ( Map )` gives `123 Main St`; `Text.RemoveAllAt` gives the general case |
| Entries.CleanAddressMapLinkAt | src/beerquest.py:64 | when the text before it is non-empty, starts with a non-space and contains no `(`, and the text after it is empty or ends with a non-space, a ` ( Map )` after the start of the address is dropped wherever it stands, and the rest is cleaned in turn; `Text.RemoveAllAt` gives the general case |
| Entries.CleanAddressTwoMapLinks | src/beerquest.py:64 | every ` ( Map )` is removed, not only the last: `A ( Map ) B ( Map )` gives `A B` |
| Entries.CleanAddressBareMapLink | src/beerquest.py:64 | stripping runs before the replacement, so a lone ` ( Map )` loses its leading space and is no longer matched |
| Entries.StyleOf | src/beerquest.py:79-84 | the style never contains a hyphen and has no surrounding whitespace |
| Entries.SubStyleOf | src/beerquest.py:79-85 | the sub-style is `None` exactly when the style line has no hyphen, and otherwise contains no hyphen |
| Entries.StyleBeforeFirstHyphen | src/beerquest.py:79-85 | the style is the stripped text before the first hyphen, and the sub-style is missing iff there is no hyphen |
| Entries.SubStyleBetweenHyphens | src/beerquest.py:79-85 | the sub-style is the stripped text between the first and the second hyphen (or the end) |
| Entries.StyleOfHyphenated | src/beerquest.py:79-84 | whatever follows the first hyphen does not affect the style |
| Entries.SubStyleOfHyphenated | src/beerquest.py:79-85 | with exactly one hyphen the sub-style is the stripped text after it |
| Entries.SubStyleOfTwoHyphens | src/beerquest.py:79-85 | segments after the second are ignored |
| Entries.StyleAndSubStyle | src/beerquest.py:79-85 | `Style - Sub` with any spacing around the hyphen gives exactly `Style` and `Sub`, e.g. `IPA - Double` |
| Entries.ExtraSegmentIgnored | src/beerquest.py:79-85 | a third segment after a second hyphen does not change the sub-style |
| Entries.Details | src/beerquest.py:77-86 | the details are no longer than the details text |
| Entries.DetailsBeforeBullet | src/beerquest.py:77-86 | the details are the stripped text before the first bullet |
| Entries.DetailsWithoutBullet | src/beerquest.py:77-86 | without a bullet the details are the whole text, stripped |
| Entries.DetailsAsRendered | src/beerquest.py:77-86 | for a text of the form `<abv> • <rest>` the details are the ABV part |
| Entries.BeerUrl | src/beerquest.py:87 | the link starts with `https://untappd.com`, and what follows is exactly the `href` |
| Entries.ExtractBeer | src/beerquest.py:82-88 | the beer's name is the anchor text, its style has no hyphen, its sub-style is missing iff the style line has no hyphen, and its link is the site prefix followed by the `href` |
| Entries.VenueOf | src/beerquest.py:62-69 | the venue record takes its name, phone, timestamp and URL unchanged, has an empty tap list, and its address is no longer than the address text |
| Ordering.StrLe | src/beerquest.py:107 | Python's `<=` on strings: code points compared from the left, a prefix ordered before every string that extends it |
| Ordering.StrLeReflexive | src/beerquest.py:107 | every key is `<=` itself |
| Ordering.StrLeTotal | src/beerquest.py:107 | any two keys are comparable |
| Ordering.StrLeAntisymmetric | src/beerquest.py:107 | keys that are each `<=` the other are equal |
| Ordering.StrLeTransitive | src/beerquest.py:107 | string `<=` is transitive |
| Ordering.InsertByKey | src/beerquest.py:107 | inserting one pair adds exactly that pair to the list |
| Ordering.InsertByKeySorted | src/beerquest.py:107 | inserting into a list sorted by key keeps it sorted |
| Ordering.SortByKey | src/beerquest.py:107 | `typeKeys.sort(key=lambda x: x[0])` returns a list sorted by key that is a permutation of its input |
| Ordering.SortedOrderIsUnique | src/beerquest.py:107 | with distinct keys there is only one sorted permutation, so the result does not depend on how the sort proceeds |
| Grouping.KeyOf | src/beerquest.py:94 | the style key contains word characters only |
| Grouping.AddToGroups | src/beerquest.py:97-104 | adding a beer creates the group for its key, named after its style, when the key is new. Otherwise it appends the beer to that group and keeps the group's name. No other group changes. |
| Grouping.AddToKeys | src/beerquest.py:97-98 | the pair `(key, style)` is appended exactly when the key is new |
| Grouping.GroupBeers | src/beerquest.py:93-104 | `beersByType` after reading the beers `bs` one at a time; what it holds is proved by `GroupIsBeersWithKey`, `BeerIsInItsGroup`, `GroupOnlyGrows` and `TotalIsBeersRead` |
| Grouping.FirstSeenKeys | src/beerquest.py:93-104 | `typeKeys` before the sort, after reading the beers `bs` one at a time; what it holds is proved by `KeysMatchGroups` |
| Grouping.ReadOneMore | src/beerquest.py:93-104 | reading one more beer is one step of each fold |
| Grouping.WithKey | src/beerquest.py:97-104 | the beers selected for a key all have that key |
| Grouping.GroupIsBeersWithKey | src/beerquest.py:97-104 | there is a group for a key iff some beer has it. That group holds exactly the beers with that key, in document order, and is named after the first of them. |
| Grouping.BeerIsInItsGroup | src/beerquest.py:97-104 | every beer read is in the group of its own key |
| Grouping.BeerInWithKey | src/beerquest.py:97-104 | every beer is among the beers selected for its own key |
| Grouping.WithKeyAppend | src/beerquest.py:97-104 | the beers with a key in two stretches of input are those of the first stretch followed by those of the second |
| Grouping.GroupOnlyGrows | src/beerquest.py:98-104 | once a group exists, later beers never change its name and are only appended after its beers |
| Grouping.AddKeepsKeysDescribe | src/beerquest.py:97-104 | after each beer the key list still names each group once, with the group's display name |
| Grouping.KeysMatchGroups | src/beerquest.py:97-99 | the keys in `typeKeys` are distinct, their set is the key set of `beersByType`, and each pair's style is its group's display name |
| Grouping.TotalIsBeersRead | src/beerquest.py:97-104 | the beers across all groups add up to the number of beers read |
| Grouping.PermutedKeys | src/beerquest.py:107 | sorting keeps the keys distinct and keeps the same key set |
| Grouping.OnceInDistinct | src/beerquest.py:107 | in a list with distinct keys every pair occurs once |
| Grouping.StyleIndex.constructor | src/beerquest.py:49-50 | both fields start empty |
| Grouping.StyleIndex.AddBeer | src/beerquest.py:93-104 | the in-place update of `typeKeys` and `beersByType` for one beer, which keeps the fields equal to the fold over the beers seen |
| Grouping.StyleIndex.Finish | src/beerquest.py:107 | the sort leaves the groups alone. It makes `typeKeys` sorted, a permutation of what it was, with distinct keys whose set is the groups' key set. |
| BeerQuest.AllEntries | src/beerquest.py:53-73 | the entries in the order the three loops visit them, page after page and section after section; an entry is read iff it stands in some section of some page |
| BeerQuest.ExtractBeers | src/beerquest.py:73-91 | one beer record per entry |
| BeerQuest.ReadEntry | src/beerquest.py:74-104 | the body of the inner loop: the entry's beer record is added to the index |
| BeerQuest.ReadSection | src/beerquest.py:73-104 | the loop over a section's entries extends both the venue's tap list and the beers seen by the section's beer records, in order |
| BeerQuest.ReadSections | src/beerquest.py:72-104 | the loop over a page's sections reads their entries in document order |
| BeerQuest.ReadPage | src/beerquest.py:62-104 | one page yields its venue record with the page's beers on tap, and adds those beers to the index |
| BeerQuest.ReadPages | src/beerquest.py:53-104 | the loop over the pages reads every entry of every page in order |
| BeerQuest.GetBeers | src/beerquest.py:47-113 | `venues` is empty. `types` is the grouping of all beers read in order. `typeKeys` is sorted by key, a permutation of the first-seen key pairs, with distinct keys whose set is the set of groups. |
| BeerQuest.CreateIndexHtml | src/beerquest.py:28-44 | for each key in order: create the key's directory, then write its type page from that group (its style name and its beers). The home page comes last, written from all the data. For a key list naming each group once, the directories created are exactly the groups and none is created twice. |
| BeerQuest.TypeDir | src/beerquest.py:32 | a key's directory: the key, as one name, directly inside `../site/`, so the key can be read back from the path |
| BeerQuest.TypePagePath | src/beerquest.py:34 | a key's type page: `index.html` inside the key's directory |
| BeerQuest.HomePath | src/beerquest.py:41 | the home page: `index.html` directly inside `../site/` |
| BeerQuest.TypeDirInjective | src/beerquest.py:32 | distinct keys get distinct directories |
| BeerQuest.TypePagePathInjective | src/beerquest.py:34-41 | as strings, distinct keys give distinct type-page paths and no type-page path is the home page's path |
| BeerQuest.Collapse | src/beerquest.py:34-41 | the file a path names: the result has no slash following a slash, keeps the first character, and is no longer than the path |
| BeerQuest.CollapseKeeps | src/beerquest.py:34-41 | a path without doubled slashes names itself, so collapsing is idempotent |
| BeerQuest.CollapseDouble | src/beerquest.py:34-41 | a doubled slash names the same file as a single one |
| BeerQuest.TypePagePathSingleSlashes | src/beerquest.py:34 | a non-empty key without a slash gives a type-page path without doubled slashes |
| BeerQuest.EmptyKeyPageIsHomePage | src/beerquest.py:32-44 | the empty key's directory is the site directory, and its type page is the home page's file, so the home page written last replaces it |
| BeerQuest.TypePagesAreDistinctFiles | src/beerquest.py:32-44 | non-empty keys made of word characters get type pages in distinct files, none of them the home page's file |
| BeerQuest.MakeDirsPosition | src/beerquest.py:30-38 | every directory creation in the layout is the one for the key at its position |
| BeerQuest.DirsAreKeys | src/beerquest.py:30-32 | a key's directory is created iff the key is listed |
| BeerQuest.DirsOnce | src/beerquest.py:30-32 | with distinct keys no directory is created twice |
| BeerQuest.KeysAreGroups | src/beerquest.py:37 | every listed key has a group to render |
| BeerQuest.SiteLayout | src/beerquest.py:28-44 | one directory per group, none twice |
| BeerQuest.Run | src/beerquest.py:116-118 | `main` groups every beer read and creates one directory per group, none twice, and the home page is the last file written, from the scraped data |

## Left out

- Fetching the venue pages (`requests.get`) and the hard-coded venue list. The pages are an input sequence, in the order the list gives.
- BeautifulSoup parsing. Each page comes in as the strings the scraper reads from it: the name, address and phone texts, the `data-time` attribute, and its sections of entries. Each entry is its `em` text, the first text node of its details span, its anchor text and its `href`. Lookups that fail in Python are not modelled: a missing element (`AttributeError`), an empty details span (`contents[0]` raising `IndexError`), or a first child of the span that is a tag rather than text.
- Jinja rendering. A written file is the value its template is given (`TypePage` with one group, or `HomePage` with all the data), not its HTML.
- BeerQuest.HomePage: the home page is given `types` as a Dafny map. The Python dict handed to `index.html` also keeps the order in which the groups were first seen, and the map does not.
- `os.makedirs` and file writes are recorded as a list of actions. Their failures are not modelled. `makedirs` raises when a key's directory already exists: on a later run it raises at the first listed key whose directory an earlier run created. The empty key (from a style with no word character, such as the style line `- Double`) has `../site/` as its directory. On a first run that call creates `../site` and succeeds. On a later run it raises. The model proves that one run never creates the same directory twice.
- BeerQuest.CreateIndexHtml: the actions are paths as strings. Which writes reach the same file is stated separately: `EmptyKeyPageIsHomePage` shows that the empty key's type page is written to the home page's file, and the home page written last replaces it. That type page is lost from the site.
- Text.WordCharsOnly: Python's `\w` also matches non-ASCII letters and digits. The model takes `\w` to be ASCII letters, digits and `_`.
- Entries.Details: the bullet separator is the three characters the code literally splits on (a UTF-8 bullet read as Latin-1). Whether the fetched text contains them depends on how the page is decoded, which is not modelled.
- Entries.Details: only the stripped text before the first bullet is kept. The program does not split ABV from IBU, and has no error path for a missing bullet.
- Directory names keep the key's case, and nothing in the output directory is deleted first.
- BeerQuest.SameFile: the model of which file a path names is that of a case-sensitive POSIX file system. On a case-insensitive one, keys that differ only in case (`PaleAle` and `Paleale`) name the same directory, and the second `makedirs` raises.
- BeerQuest.GetBeers: the venue record each page yields (`venuDict`) is built and then dropped, because `beersByVenue` is never written. The model builds it (`ReadPage`) and returns an empty `venues` map, as the code does.
- Uploading the site is done outside `src/beerquest.py` and is not part of this model.
