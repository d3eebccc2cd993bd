# Shirt search engine, modelled in Dafny

The system is an in-memory shirt catalogue with a faceted search. A `SearchEngine` is built
once from a list of shirts. It keeps two read-only indexes: colour → shirts of that colour, and
size → shirts of that size. Each index is a LINQ `GroupBy`, so every group keeps catalogue order.

`Search(options)` works in four steps:

- It gathers the colour candidates: the index groups of the requested colours, in request order.
  An empty colour list means every colour in `Color.All`.
- It gathers the size candidates the same way.
- It intersects the two lists with LINQ `Intersect`.
- It summarises the intersection twice. `SizeCounts` has one entry per size in `Size.All` and
  `ColorCounts` one entry per colour. Values present in the results come first, in order of first
  appearance, and each counts the result shirts that have it. The absent values follow with count 0.

The project has four modules:

- `Linq` (`linq.dfy`) gives `GroupBy`, the per-key group `WithKey`, `Intersect` and `Except` their
  LINQ meaning over sequences. Grouping is stable. The set operators return distinct elements in
  order of first occurrence.
- `Shirts` (`shirts.dfy`) holds the data: `Shirt`, `SearchOptions`, `SearchResults` and the facet
  entry `FacetCount`, which stands for both `SizeCount` and `ColorCount`. Sizes and colours are
  type parameters.
- `Engine` (`engine.dfy`) holds the engine.
  - `SearchEngine` is a class whose fields are the two indexes and the two `All` lists.
  - The `foreach … AddRange` loops are the method `Collect`, proved equal to the function `Gather`.
  - The summary loop is the method `Summarize`, proved equal to a tally followed by
    `Except(All, …)`.
  - `Matching` is an independent reference definition: the catalogue shirts that pass both
    filters.
- `EngineTests` (`engine_tests.dfy`) restates the test suite.
  - The assertions of the test base class become predicates.
  - `RunTest` is proved to satisfy them for every catalogue and query.
  - Each test case in the fixture is proved to return its expected number of shirts.

The engine is generic in the size type `S` and the colour type `C`. `Size.All` and `Color.All`
are passed to the constructor. They must be an `Enumeration`: every value is listed, and none
twice. A shirt's identity is its value, and its `id` stands for the `Guid`. Statements that count
catalogue shirts assume the catalogue lists each shirt once (`NoDups(catalogue)`). The test
fixture meets that assumption.

The facet counts are taken from the intersection (`SearchEngine.cs:30-32`), and the model
follows that. So a size outside a non-empty size filter always counts 0. A "relax the opposite
filter" facet, as faceted-search front ends usually compute it, would instead count the shirts of
that size that pass the colour filter. For values inside the filter the two agree. That case is
the only one the tests check, and `Search` proves it.

## Model

| member | source | states |
|---|---|---|
| Linq.WithKey | ConstructionLine.CodingChallenge/SearchEngine.cs:15-16 | the group of key `k`: every element in it has key `k` and it is no longer than the source; its exact content is stated by `WithKeyMultiset` |
| Linq.WithKeyMultiset | ConstructionLine.CodingChallenge/SearchEngine.cs:15-16 | the group of key `k` holds each source element whose key is `k` exactly as often as the source does, and no other element |
| Linq.WithKeyMembers | ConstructionLine.CodingChallenge/SearchEngine.cs:15-16 | an element is in the group of `k` if and only if it is in the source and its key is `k` |
| Linq.GroupKeys | ConstructionLine.CodingChallenge/SearchEngine.cs:87 | the group keys are exactly the keys that occur in the source, each listed once |
| Linq.GroupBy | ConstructionLine.CodingChallenge/SearchEngine.cs:15-16 | `GroupBy(...).ToDictionary(...)` has an entry exactly for each key that occurs, and that entry is the key's elements in source order |
| Linq.GroupByPartition | ConstructionLine.CodingChallenge/SearchEngine.cs:15-16 | every source element lies in the group of its own key and in no other group |
| Linq.Retain | ConstructionLine.CodingChallenge/SearchEngine.cs:28 | `Intersect` (and `Except`): the result holds exactly the elements of the first list whose membership in the second is as asked, has no duplicates, and keeps order of first occurrence in the first list |
| Linq.Intersect | ConstructionLine.CodingChallenge/SearchEngine.cs:28 | an element is in `a.Intersect(b)` if and only if it is in both lists (order and distinctness from `Retain`) |
| Linq.Except | ConstructionLine.CodingChallenge/SearchEngine.cs:93 | an element is in `a.Except(b)` if and only if it is in `a` and not in `b` |
| Engine.Accepts | ConstructionLine.CodingChallenge/SearchEngine.cs:58 | the filter rule of a search: an empty filter admits every value, a non-empty one admits exactly the values it lists |
| Engine.Effective | ConstructionLine.CodingChallenge/SearchEngine.cs:58 | the list walked is the request, or `All` when the request is empty (also line 72 for sizes); over a complete `All`, a value is walked if and only if the filter admits it |
| Engine.Gather | ConstructionLine.CodingChallenge/SearchEngine.cs:59-66 | the candidate list: an element is in it if and only if it lies in the stored group of one of the listed keys |
| Engine.Collect | ConstructionLine.CodingChallenge/SearchEngine.cs:59-66 | the `foreach`/`TryGetValue`/`AddRange` loop computes `Gather`: the groups of the listed keys concatenated in key order, with missing keys adding nothing |
| Engine.GatherMultiplicity | ConstructionLine.CodingChallenge/SearchEngine.cs:60-66 | if `x` occurs `c` times under a single key, gathering yields `x` `c` times for every listing of that key |
| Engine.GatherGroupByMultiset | ConstructionLine.CodingChallenge/SearchEngine.cs:58-66 | gathering from a `GroupBy` index yields each catalogue shirt as often as it occurs times how often its key is listed (so a repeated filter value repeats candidates) |
| Engine.GatherGroupByMembers | ConstructionLine.CodingChallenge/SearchEngine.cs:58-66 | a shirt is gathered if and only if it is in the catalogue and its key is listed |
| Engine.GroupsCoverSource | ConstructionLine.CodingChallenge/SearchEngine.cs:15-16 | the groups of an index, taken together over all keys, are exactly the catalogue as a multiset: no shirt lost, none repeated |
| Engine.Matching | ConstructionLine.CodingChallenge/SearchEngine.cs:22-28 | reference result: a shirt is listed if and only if it is in the catalogue and passes both filters, where an empty filter passes everything; no duplicates when the catalogue has none |
| Engine.SizeFacet | ConstructionLine.CodingChallenge/SearchEngine.cs:32 | for results that are exactly the passing catalogue shirts, the results of size `v` number the catalogue shirts of size `v` that pass the colour filter when `v` passes the size filter, and 0 otherwise |
| Engine.ColorFacet | ConstructionLine.CodingChallenge/SearchEngine.cs:30 | the colour counterpart of `SizeFacet` |
| Engine.Tally | ConstructionLine.CodingChallenge/SearchEngine.cs:86-92 | the `GroupBy`/`Select` projection: one entry per key present in the results, in first-appearance order, each counting the results with that key |
| Engine.Summarize | ConstructionLine.CodingChallenge/SearchEngine.cs:86-96 | the summary lists the values present in the results in first-appearance order, then `All.Except(present)` in `All` order; every entry counts the results that have its value |
| Engine.SummaryCoversAll | ConstructionLine.CodingChallenge/SearchEngine.cs:93-96 | over a complete enumeration, that layout has exactly one entry per value, none twice, and as many entries as `All` |
| Engine.SameFacets | ConstructionLine.CodingChallenge/SearchResults.cs:17-32 | value-equality helper for the model's count entries, used by the wildcard methods: two count lists with the same values and counts at every position are the same list (the C# classes compare by reference, which the model does not represent) |
| Engine.SearchEngine.constructor | ConstructionLine.CodingChallenge/SearchEngine.cs:13-17 | the colour index is the `GroupBy` of the catalogue on colour and the size index the one on size |
| Engine.SearchEngine.SearchByColor | ConstructionLine.CodingChallenge/SearchEngine.cs:56-68 | the colour candidates are the index groups of the requested colours (all of `Color.All` when none requested) in request order; their multiplicities; a shirt is a candidate if and only if it is in the catalogue and passes the colour filter |
| Engine.SearchEngine.SearchBySize | ConstructionLine.CodingChallenge/SearchEngine.cs:70-82 | the size counterpart of `SearchByColor` |
| Engine.SearchEngine.BuildColorSummary | ConstructionLine.CodingChallenge/SearchEngine.cs:84-98 | one entry per colour of `Color.All`, none twice; present colours first, absent ones after with count 0; every count is the number of results of that colour |
| Engine.SearchEngine.BuildSizesSummary | ConstructionLine.CodingChallenge/SearchEngine.cs:100-114 | the size counterpart of `BuildColorSummary` |
| Engine.SearchEngine.Search | ConstructionLine.CodingChallenge/SearchEngine.cs:20-42 | the shirts are the `Intersect` of the colour and size candidates; a shirt is returned if and only if it is in the catalogue and passes both filters; no duplicates; the same multiset as `Matching`; one count entry per size and per colour, each the number of returned shirts with that value, which is the number of catalogue shirts with that value passing the other filter when the value passes its own filter, and 0 when it does not |
| Engine.WildcardSizes | ConstructionLine.CodingChallenge/SearchEngine.cs:72 | on one engine, an empty size filter gives the same results (shirts, order and both count lists) as listing every size |
| Engine.WildcardColors | ConstructionLine.CodingChallenge/SearchEngine.cs:58 | on one engine, an empty colour filter gives the same results as listing every colour |
| EngineTests.AssertResultsAsWritten | ConstructionLine.CodingChallenge.Tests/SearchEngineTestsBase.cs:9-28 | the completeness assertion as written: every shirt of the given list that is in the size and colour lists (no empty-means-all rule) has its id among the given list's ids |
| EngineTests.AssertResults | ConstructionLine.CodingChallenge.Tests/SearchEngineTestsBase.cs:17-27 | the completeness assertion as intended: every catalogue shirt passing both filters (empty meaning all) has its id among the results' ids |
| EngineTests.ExpectedSizeCount | ConstructionLine.CodingChallenge.Tests/SearchEngineTestsBase.cs:43-44 | the expected size count: the shirts of that size whose colour is in the colour list, at most the number of shirts |
| EngineTests.AssertSizeCounts | ConstructionLine.CodingChallenge.Tests/SearchEngineTestsBase.cs:31-49 | every size of the effective size filter has exactly one count entry, and its count is the expected size count under the effective colour filter |
| EngineTests.ExpectedColorCount | ConstructionLine.CodingChallenge.Tests/SearchEngineTestsBase.cs:64-65 | the expected colour count: the shirts of that colour whose size is in the size list, at most the number of shirts |
| EngineTests.AssertColorCounts | ConstructionLine.CodingChallenge.Tests/SearchEngineTestsBase.cs:52-70 | every colour of the effective colour filter has exactly one count entry, and its count is the expected colour count under the effective size filter |
| EngineTests.AssertResultsIsVacuous | ConstructionLine.CodingChallenge.Tests/SearchEngineTestsBase.cs:9-28 | the completeness assertion, applied to the result list, holds of every list whatsoever |
| EngineTests.AssertResultsMissesLostShirts | ConstructionLine.CodingChallenge.Tests/SearchEngineTests.cs:70 | an empty answer to "Black only" passes the assertion as called but fails completeness against the catalogue |
| EngineTests.ExpectedSizeCountIsMatching | ConstructionLine.CodingChallenge.Tests/SearchEngineTestsBase.cs:43-44 | the test's expected size count is the number of catalogue shirts of that size that pass the colour filter |
| EngineTests.ExpectedColorCountIsMatching | ConstructionLine.CodingChallenge.Tests/SearchEngineTestsBase.cs:64-65 | the test's expected colour count is the number of catalogue shirts of that colour that pass the size filter |
| EngineTests.SingleEntry | ConstructionLine.CodingChallenge.Tests/SearchEngineTestsBase.cs:40 | in a count list with distinct values, `SingleOrDefault` on a listed value finds exactly that one entry |
| EngineTests.NoEntry | ConstructionLine.CodingChallenge.Tests/SearchEngineTestsBase.cs:61 | a value that no entry carries selects no entry |
| EngineTests.RunTest | ConstructionLine.CodingChallenge.Tests/SearchEngineTests.cs:64-73 | for every duplicate-free catalogue and every query, the number of results is the number of matching catalogue shirts, completeness holds against the catalogue, and `AssertSizeCounts` and `AssertColorCounts` hold |
| EngineTests.FixtureWellFormed | ConstructionLine.CodingChallenge.Tests/SearchEngineTests.cs:12-21 | the tests' size and colour lists are complete and duplicate-free, and the fixture lists each shirt once |
| EngineTests.FixtureMatchCount | ConstructionLine.CodingChallenge.Tests/SearchEngineTests.cs:12-21 | the number of fixture shirts a query matches is the sum, over the six shirts, of whether each passes |
| EngineTests.MatchingPrefixStep | ConstructionLine.CodingChallenge/SearchEngine.cs:22-28 | adding one catalogue shirt adds one match exactly when that shirt passes both filters |
| EngineTests.YellowSmallMatches | ConstructionLine.CodingChallenge.Tests/SearchEngineTests.cs:25 | Yellow and Small match 0 fixture shirts |
| EngineTests.BlackSmallMatches | ConstructionLine.CodingChallenge.Tests/SearchEngineTests.cs:26 | Black and Small match 2 |
| EngineTests.BlackMediumMatches | ConstructionLine.CodingChallenge.Tests/SearchEngineTests.cs:27 | Black and Medium match 1 |
| EngineTests.WhiteSmallMatches | ConstructionLine.CodingChallenge.Tests/SearchEngineTests.cs:28 | White and Small match 0 |
| EngineTests.BlueOnlyMatches | ConstructionLine.CodingChallenge.Tests/SearchEngineTests.cs:42 | Blue in any size matches 1 |
| EngineTests.BlackOnlyMatches | ConstructionLine.CodingChallenge.Tests/SearchEngineTests.cs:43 | Black in any size matches 3 |
| EngineTests.WhiteOnlyMatches | ConstructionLine.CodingChallenge.Tests/SearchEngineTests.cs:44 | White in any size matches 0 |
| EngineTests.MediumOnlyMatches | ConstructionLine.CodingChallenge.Tests/SearchEngineTests.cs:54 | Medium in any colour matches 1 |
| EngineTests.SmallOnlyMatches | ConstructionLine.CodingChallenge.Tests/SearchEngineTests.cs:55 | Small in any colour matches 3 |
| EngineTests.TestColorAndSize | ConstructionLine.CodingChallenge.Tests/SearchEngineTests.cs:24-38 | the four colour-and-size cases return 0, 2, 1 and 0 shirts, and the completeness assertion (as intended) and both count assertions hold |
| EngineTests.TestColorOnly | ConstructionLine.CodingChallenge.Tests/SearchEngineTests.cs:41-50 | the colour-only cases return 1, 3 and 0 shirts, and the completeness assertion (as intended) and both count assertions hold |
| EngineTests.TestSizeOnly | ConstructionLine.CodingChallenge.Tests/SearchEngineTests.cs:53-61 | the size-only cases return 1 and 3 shirts, and the completeness assertion (as intended) and both count assertions hold |
| EngineTests.FacetCountsFollowResults | ConstructionLine.CodingChallenge/SearchEngine.cs:30-32 | for "Black and Small" the Medium entry is listed with count 0, although one Black shirt is Medium: the counts come from the intersection |

## Left out

- `RunInParallel` and the `Task` wrappers (`SearchEngine.cs:46-54`) are not modelled. Every task is built with `Task.FromResult`, so it is already complete and the faulted branch cannot fire. Each step is modelled as a sequential call.
- The shirt's name and the `DebuggerDisplay` attributes are display-only and left out. So are the failure messages of the test assertions.
- `Guid.NewGuid()` is modelled by distinct natural-number ids in the fixture.
- Shirt identity is the value (id, size, colour), not the object reference LINQ `Intersect` compares. With distinct ids the two agree.
- The `Size` and `Color` classes are not part of this model. Sizes and colours are type parameters, and `Size.All`/`Color.All` are constructor arguments assumed complete and duplicate-free.
- `SearchOptions` is modelled by its two lists only, a size list and a colour list; its source file is not part of this model.
- The engine indexes by `Color.Id`/`Size.Id` but summarises by the `Color`/`Size` object. The model assumes one object per id, so both are the same key.
- The public setters of `Shirt.Size` and `Shirt.Color` are not modelled. Shirts are immutable values, so a shirt changed after indexing is not represented.
- The `Assert.That(..., Is.Not.Null)` checks are not modelled. All lists are values and are never null.
- `Count` is a C# `int`; here it is a `nat`. A count never exceeds the catalogue's length, so 32-bit overflow is not modelled.
- Linq.GroupKeys: its contract states which keys it lists and that none repeats. The first-appearance order of the keys is fixed by its definition but is not stated as a separate property.

## Findings

| source | as written | input that shows it | evidently intended | confidence | as-written member | corrected member |
|---|---|---|---|---|---|---|
| ConstructionLine.CodingChallenge.Tests/SearchEngineTests.cs:70 | `AssertResults(results.Shirts, searchOptions)` walks the result list and looks each shirt up among the result list's own ids. It also tests the filters without the empty-means-all rule. So it can never fail. | The query "Black only" answered with no shirts at all passes it, although three catalogue shirts are Black. | Every catalogue shirt that passes both filters (empty meaning all) is among the results. | not executed | EngineTests.AssertResultsMissesLostShirts | EngineTests.RunTest |
