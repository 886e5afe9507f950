# InstantDoc search core, modelled in Dafny

InstantDoc is a Unity editor window that searches the local copy of the
Unity scripting reference. This project models the part of
`InstantDoc.cs` that does real work once the documentation folder is known:

- **The incremental indexer** (`IndexDoc`). The first tick takes the folder's
  file listing and drops the search page `30_search.html`. Every tick then
  adds at most 100 entries `identifier -> path` to a dictionary. The
  identifier is the file name with every `".html"` removed. A cursor
  (`searchIndex`) records how far the listing has been indexed.
- **The tiered partial-match search** (`Search`). The query is lower-cased
  and cut into `n - 2` partial terms: the whole query first, its first
  three characters last. Every key of the index goes into the first tier
  whose term it contains, unless an earlier tier already holds it. Each
  tier is sorted by key length, and the tiers are appended in order.
- **Pagination** (`MaxPageIndex` and the `PageIndex` setter). Pages hold
  30 results. The last page, number `count / 30`, holds `count % 30`
  results.

Modules, one per component:

- `Outcomes` (outcomes.dfy): the .NET exceptions that can occur, and the
  `Result`, `Outcome` and `Option` types that carry them.
- `Text` (text.dfy): `ToLower`, `Contains`, `Replace(".html", "")` and
  `FileInfo.Name`.
- `Paging` (paging.dfy): `MaxPageIndex`, `List.GetRange` and the page slice.
- `Indexing` (indexing.dfy): what the indexer computes. This covers the
  identifier, the filtered listing, the index built from a prefix of the
  listing, and the cursor's progress per tick.
- `Ranking` (ranking.dfy): the four phases of `Search`, plus the
  functions that define their results and the lemmas about those.
- `Window` (window.dfy): `class InstantDoc`. It holds the fields that these
  operations update in place, and it has the methods `IndexDoc`, `Search`
  and `SetPageIndex`.

Behaviour of the code worth knowing, which the model keeps:

- Tier 0 is the full lower-cased query and the last tier is its 3-character
  prefix (InstantDoc.cs:415-416): the longest match is listed first.
- A second file with the same identifier makes `Dictionary.Add` throw
  (InstantDoc.cs:394). It does not overwrite the first entry. The model
  returns `DuplicateKey`, with the cursor stopped at that path. Because the
  source never advances past that path, every later tick fails the same way.
- `List.Sort` is not stable (InstantDoc.cs:447), so only the order by
  length is promised within a tier.
- With an empty index, no tier list is ever allocated, and the sort at
  InstantDoc.cs:447 throws `NullReferenceException`. The result is not an
  empty list.
- When the number of results is an exact multiple of 30 (including 0), the
  last page is in range and empty (InstantDoc.cs:16, 28).

## Model

| member | source | states |
|---|---|---|
| `Text.Lower` | InstantDoc.cs:412 | `ToLower` keeps the length, leaves no upper-case letter and changes no other character |
| `Text.LowerPrefix` | InstantDoc.cs:412-416 | lower-casing a prefix of the query gives the prefix of the lower-cased query |
| `Text.LowerIdempotent` | InstantDoc.cs:412 | lower-casing twice is lower-casing once |
| `Text.Contains` | InstantDoc.cs:382 | `String.Contains`: a string contains only terms no longer than itself; it contains the empty term and itself |
| `Text.MissingChar` | InstantDoc.cs:382 | a string does not contain a term holding a character the string lacks |
| `Text.ContainsTail` | InstantDoc.cs:426 | a string that does not contain a term has no tail that contains it |
| `Text.ContainsPrefix` | InstantDoc.cs:426 | if a string contains a term, it contains every prefix of that term |
| `Text.RemoveAll` | InstantDoc.cs:395 | `Replace(pattern, "")` never makes a string longer |
| `Text.RemoveAllAbsent` | InstantDoc.cs:395 | a name without `pattern` is left unchanged by `Replace(pattern, "")` |
| `Text.RemoveHtmlSuffix` | InstantDoc.cs:395 | removing ".html" from `name + ".html"` gives back `name`, dots included, whenever `name` does not itself contain ".html" |
| `Text.NameStart` | InstantDoc.cs:395 | the file name starts right after the last separator, and no separator follows that point |
| `Text.FileName` | InstantDoc.cs:395 | `FileInfo.Name` is a suffix of the path |
| `Text.FileNameShape` | InstantDoc.cs:395 | the file name holds no separator, and a separator comes just before it unless it is the whole path |
| `Text.FileNameOfJoin` | InstantDoc.cs:395 | `FileInfo.Name` of `dir/sep/name` is `name` |
| `Paging.MaxPageIndex` | InstantDoc.cs:16 | the last page index `m` is the floor of `count / 30`: `30*m <= count < 30*(m+1)` |
| `Paging.PageLength` | InstantDoc.cs:28 | the setter asks for at most 30 results, and on the last page exactly the ones left up to `count` |
| `Paging.Page` | InstantDoc.cs:26-29 | a page that is in range holds at most 30 results, taken from `results` at offset `30*p` in order |
| `Paging.GetRange` | InstantDoc.cs:26-29 | `GetRange` succeeds exactly when `0 <= index`, `0 <= count` and `index + count <= |s|`; it then returns `count` elements starting at `index`; otherwise it throws |
| `Paging.PageInRange` | InstantDoc.cs:16-29 | the page slice succeeds iff `0 <= p <= MaxPageIndex`; pages before the last have 30 results and the last has `count % 30` |
| `Paging.PagesCover` | InstantDoc.cs:16-29 | pages `0..k-1` are the first `30*k` results; pages `0..MaxPageIndex` together are all the results, with no gap or overlap |
| `Paging.SixtyFiveResults` | InstantDoc.cs:16-29 | 65 results give MaxPageIndex 2 and pages of 30, 30 and 5 |
| `Paging.ExactMultipleLastPageEmpty` | InstantDoc.cs:16-29 | at an exact multiple of 30, the last page is in range and empty |
| `Indexing.Identifier` | InstantDoc.cs:395 | the key of a page: `FileInfo.Name` with every ".html" removed |
| `Indexing.IdentifierOfPage` | InstantDoc.cs:395 | the page `dir/Name.html` is indexed under `Name`, dotted names such as `Transform.Translate` included, whenever `Name` does not itself contain ".html" |
| `Indexing.MethodPage` | InstantDoc.cs:395 | the method page `.../Transform.Translate.html` is indexed under `Transform.Translate` |
| `Indexing.WithoutIgnored` | InstantDoc.cs:381-382 | the listing keeps exactly the paths that do not contain `30_search.html`, with the same multiplicities |
| `Indexing.WithoutIgnoredNone` | InstantDoc.cs:381-382 | a listing without the search page is kept whole, in its order |
| `Indexing.WithoutIgnoredAppend` | InstantDoc.cs:381-382 | the filter keeps the listing's order: filtering `a + b` gives the kept paths of `a`, then those of `b` |
| `Indexing.IndexOf` | InstantDoc.cs:394-397 | the dictionary after adding the entries of `paths` in order |
| `Indexing.IndexOfEntries` | InstantDoc.cs:394-397 | every entry maps an identifier to one of the indexed paths with that identifier |
| `Indexing.IndexOfHasIds` | InstantDoc.cs:394-397 | the identifier of every indexed path is a key |
| `Indexing.IndexOfStep` | InstantDoc.cs:394-397 | indexing one more path adds its identifier -> path entry |
| `Indexing.IndexOfKeys` | InstantDoc.cs:394-397 | the index keys are exactly the identifiers of the indexed paths |
| `Indexing.DistinctIdsPrefix` | InstantDoc.cs:394-397 | every prefix of a listing with distinct identifiers also has distinct identifiers |
| `Indexing.DistinctIdsSnoc` | InstantDoc.cs:394-397 | one more path keeps the identifiers distinct iff its identifier is not yet a key |
| `Indexing.NoClashWhenDistinct` | InstantDoc.cs:394-397 | with distinct identifiers, `Dictionary.Add` never meets an existing key |
| `Indexing.ClashBreaksDistinct` | InstantDoc.cs:394-397 | a path whose key is already present means the batch's identifiers are not distinct |
| `Indexing.IndexOfSize` | InstantDoc.cs:386-401 | the index has at most one entry per path; it has exactly one per path iff the identifiers are distinct |
| `Indexing.IndexOfLookup` | InstantDoc.cs:394-397 | with distinct identifiers, every path is stored under its identifier |
| `Indexing.IndexOfGrows` | InstantDoc.cs:386-401 | indexing further paths keeps every earlier entry |
| `Indexing.BatchEnd` | InstantDoc.cs:386-401 | one tick moves the cursor at most 100 paths and never past the end; it stops short of the end only after a full batch |
| `Indexing.CursorAfter` | InstantDoc.cs:386-404 | after any number of ticks, the cursor is never past the end of the listing |
| `Indexing.CursorAfterTicks` | InstantDoc.cs:386-404 | after `t` ticks, the cursor is at `min(100*t, n)` |
| `Indexing.TicksToComplete` | InstantDoc.cs:386-404 | `ceil(n/100)` ticks index all `n` paths, and further ticks change nothing |
| `Ranking.PartialTerms` | InstantDoc.cs:410-416 | a query of `n` characters gives `n-2` partial terms |
| `Ranking.PartialTermsShape` | InstantDoc.cs:410-416 | there are `n-2` terms; term `k` is the lower-cased prefix of `n-k` characters of the query; the first is the full lower-cased query and the last is its 3-character prefix; each term is a prefix of every earlier one |
| `Ranking.Hit` | InstantDoc.cs:426 | a key shorter than 3 characters is never listed |
| `Ranking.TierOf` | InstantDoc.cs:421-441 | the tier of a key is a term its lower-cased form contains, or none |
| `Ranking.FirstMatch` | InstantDoc.cs:421-441 | the tier chosen is a term the key contains, and the key contains no earlier term |
| `Ranking.TieredIffHit` | InstantDoc.cs:419-443 | a key lands in some tier iff its lower-cased form contains the query's lower-cased 3-character prefix |
| `Ranking.TierMembers` | InstantDoc.cs:419-443 | a tier holds exactly the enumerated keys whose first matching term is that tier, each as often as it is enumerated |
| `Ranking.TierSeqMultiset` | InstantDoc.cs:419-456 | the first `m` tiers, appended, hold exactly the keys whose tier is below `m` |
| `Ranking.FlattenMultiset` | InstantDoc.cs:446-456 | permuting each tier permutes the concatenation |
| `Ranking.FlattenTierMajor` | InstantDoc.cs:446-456 | appending length-sorted tiers in order gives a list that is tier-major and ordered by length within each tier |
| `Ranking.DistinctMultiset` | InstantDoc.cs:419 | the dictionary's keys, enumerated without repeats, each occur once |
| `Ranking.BuildPartialTerms` | InstantDoc.cs:410-416 | the loop that fills slot `(n-1)-i` with the prefix of length `i+1` yields the partial terms |
| `Ranking.EnumerateKeys` | InstantDoc.cs:419 | the keys are enumerated in some order, each exactly once |
| `Ranking.CollectTiers` | InstantDoc.cs:419-443 | after the matching loops, each tier list holds its tier's keys; with no keys, no list is allocated |
| `Ranking.SortByLength` | InstantDoc.cs:447 | `List.Sort` by `Length` gives a permutation sorted by length |
| `Ranking.InsertByLength` | InstantDoc.cs:447 | one sorting step adds a key to a length-sorted list and keeps it sorted |
| `Ranking.InsertedSorted` | InstantDoc.cs:447 | a key placed after the shorter-or-equal keys and before the longer ones keeps the list sorted |
| `Ranking.SortTiers` | InstantDoc.cs:446-447 | every tier is sorted by length and permuted; the sort throws `NullReference` iff some list was never allocated |
| `Ranking.Aggregate` | InstantDoc.cs:449-456 | the allocated tier lists are appended in tier order |
| `Ranking.RankedSearch` | InstantDoc.cs:407-456 | fails with `NullReference` iff the index is empty; otherwise every hit appears exactly once and nothing else appears, and the list is tier-major and length-ordered within each tier |
| `Ranking.AllAllocated` | InstantDoc.cs:452-456 | when every tier is allocated, the `null` test at line 454 skips nothing |
| `Ranking.RankingHolds` | InstantDoc.cs:445-456 | sorted permutations of the tiers, appended, have exactly-once and tier-major order |
| `Window.InstantDoc.constructor` | InstantDoc.cs:39-49 | a new window has no index and no results |
| `Window.InstantDoc.IndexDoc` | InstantDoc.cs:372-405 | the first tick filters the listing; each tick keeps the index equal to the entries before the cursor and moves the cursor to `BatchEnd`, or stops with `DuplicateKey` at a repeated identifier; earlier entries are unchanged; a finished index stays as it is |
| `Window.InstantDoc.AddBatch` | InstantDoc.cs:386-404 | the batch succeeds iff the identifiers up to `BatchEnd` are distinct; it reports done iff the cursor reached the end |
| `Window.InstantDoc.Search` | InstantDoc.cs:407-459 | records the query; throws `NullReference` iff the index is missing or empty, keeping the old results; otherwise stores the ranked hits (each once) and shows page 0 |
| `Window.InstantDoc.SetPageIndex` | InstantDoc.cs:19-31 | stores the index; shows the page iff `0 <= value <= MaxPageIndex`; otherwise the `GetRange` exception leaves the shown results unchanged |

## Left out

- `OnGUI`, `GenerateIfNecessary`, the GUI styles, the progress bars and the `'-'` to `'.'` display rewrite (InstantDoc.cs:78-279). These are presentation. Because of that, the caller's gates (query length > 2 and indexing finished) appear only as the `requires |query| > 2` of `Search`.
- `CheckDocDir`, `SearchHubPath`, `CheckHubPathValidity`, EditorPrefs, `Process.Start` and `Help.BrowseURL`. These probe the file system, persist settings or launch other programs.
- `Directory.GetFiles`: the listing of the documentation folder is the `files` parameter of `IndexDoc`.
- Registering and unregistering `EditorApplication.update`, and the `window == null` check. A tick is a call of `IndexDoc`. Its `Success(true)` result stands for the tick unregistering itself.
- `Text.Lower`: covers only the ASCII letters A-Z, not culture-dependent case mapping.
- `Text.FileName`: treats `/` and `\` as separators. It ignores drive prefixes and other platform rules of `FileInfo`.
- `Paging.MaxPageIndex`: uses integer division, not `Mathf.FloorToInt` of a float quotient. The two agree below 2^24 results.
- Sharing `searchPaths` and `searchIndex` with `SearchHubPath` (InstantDoc.cs:325-369), which writes both and sets `searchPaths` to null at line 368, while an indexing run may be registered at the same time (line 172). The model gives the indexer sole use of these fields, so it does not capture a hub search interleaved with indexing.
- 32-bit `int` limits on counts and indices are not modelled. Integers are unbounded.
- `Ranking.SortByLength`: models `List.Sort` only by its promise (sorted by length and a permutation). Its body is an insertion sort, and the list is sorted as a value rather than in place.
- `Text.RemoveAll`: has no lemma saying that no ".html" is left in the result. A single left-to-right pass of `Replace` does not promise that.
