/**
 * The engine's test suite restated: the assertions of the test base class as
 * predicates, `RunTest` as a method proved to satisfy them, and the test cases
 * over the six-shirt catalogue with the expected result counts.
 */
module EngineTests {
  import opened Linq
  import opened Shirts
  import opened Engine

  /** The sizes the tests name. */
  datatype Size = Small | Medium | Large

  /** The colours the tests name. */
  datatype Color = Red | Black | Blue | Yellow | White

  /** `Size.All` for the tests' sizes. */
  const AllSizes: seq<Size> := [Small, Medium, Large]

  /** `Color.All` for the tests' colours. */
  const AllColors: seq<Color> := [Red, Black, Blue, Yellow, White]

  /** The fixture catalogue; the ids stand for the fresh Guids. */
  const Catalogue: seq<Shirt<Size, Color>> := [
    Shirt(0, Small, Red),
    Shirt(1, Medium, Black),
    Shirt(2, Large, Blue),
    Shirt(3, Small, Black),
    Shirt(4, Small, Black),
    Shirt(5, Large, Yellow)
  ]

  /** The ids of a list of shirts, in order. */
  function Ids<S, C>(shirts: seq<Shirt<S, C>>): (ids: seq<nat>) {
    seq(|shirts|, i requires 0 <= i < |shirts| => shirts[i].id)
  }

  /** The id of every listed shirt is among the list's ids. */
  lemma IdsOfMembers<S(!new), C(!new)>(shirts: seq<Shirt<S, C>>)
    ensures forall x :: x in shirts ==> x.id in Ids(shirts)
  {
    forall x | x in shirts ensures x.id in Ids(shirts) {
      var i :| 0 <= i < |shirts| && shirts[i] == x;
      assert Ids(shirts)[i] == x.id;
    }
  }

  /**
   * `AssertResults` as `RunTest` calls it: the list walked and the list whose ids are
   * looked up are both the result list, and the filters are matched without the
   * empty-means-all rule.
   */
  predicate AssertResultsAsWritten<S(==), C(==)>(shirts: seq<Shirt<S, C>>, options: SearchOptions<S, C>) {
    forall x :: x in shirts && x.size in options.sizes && x.color in options.colors ==> x.id in Ids(shirts)
  }

  /** As written, the completeness assertion holds of every list whatsoever. */
  lemma AssertResultsIsVacuous<S(!new), C(!new)>(shirts: seq<Shirt<S, C>>, options: SearchOptions<S, C>)
    ensures AssertResultsAsWritten(shirts, options)
  {
    IdsOfMembers(shirts);
  }

  /** The completeness assertion as intended: every catalogue shirt passing both filters is among the results. */
  predicate AssertResults<S(==,!new), C(==,!new)>(catalogue: seq<Shirt<S, C>>, results: seq<Shirt<S, C>>, options: SearchOptions<S, C>,
                                        sizeAll: seq<S>, colorAll: seq<C>) {
    forall x :: x in catalogue && x.size in Effective(options.sizes, sizeAll) && x.color in Effective(options.colors, colorAll)
      ==> x.id in Ids(results)
  }

  /** The query `Colors = { Black }, Sizes = { }`. */
  const BlackOnly: SearchOptions<Size, Color> := SearchOptions([], [Black])

  /** An engine that returned no shirts at all for "Black only" passes the assertion as written but not as intended. */
  lemma AssertResultsMissesLostShirts()
    ensures AssertResultsAsWritten([], BlackOnly)
    ensures !AssertResults(Catalogue, [], BlackOnly, AllSizes, AllColors)
  {
    var x := Catalogue[1];
    assert x in Catalogue && x.size in Effective(BlackOnly.sizes, AllSizes) && x.color in Effective(BlackOnly.colors, AllColors);
    assert Ids<Size, Color>([]) == [];
  }

  /** The test's expected size count: the shirts of this size whose colour is in the colour list. */
  function ExpectedSizeCount<S(==), C(==)>(shirts: seq<Shirt<S, C>>, size: S, colorFilter: seq<C>): (n: nat)
    ensures n <= |shirts|
  {
    if shirts == [] then 0
    else
      var x := shirts[|shirts| - 1];
      ExpectedSizeCount(shirts[..|shirts| - 1], size, colorFilter) + if x.size == size && x.color in colorFilter then 1 else 0
  }

  /** The test's expected colour count: the shirts of this colour whose size is in the size list. */
  function ExpectedColorCount<S(==), C(==)>(shirts: seq<Shirt<S, C>>, color: C, sizeFilter: seq<S>): (n: nat)
    ensures n <= |shirts|
  {
    if shirts == [] then 0
    else
      var x := shirts[|shirts| - 1];
      ExpectedColorCount(shirts[..|shirts| - 1], color, sizeFilter) + if x.color == color && x.size in sizeFilter then 1 else 0
  }

  /** `AssertSizeCounts`: every size of the (empty-means-all) size filter has exactly one entry, with the expected count. */
  predicate AssertSizeCounts<S(==,!new), C(==,!new)>(shirts: seq<Shirt<S, C>>, options: SearchOptions<S, C>, sizeCounts: seq<SizeCount<S>>,
                                           sizeAll: seq<S>, colorAll: seq<C>) {
    forall s :: s in Effective(options.sizes, sizeAll) ==>
      |WithKey(sizeCounts, ValueOf, s)| == 1 &&
      WithKey(sizeCounts, ValueOf, s)[0].count == ExpectedSizeCount(shirts, s, Effective(options.colors, colorAll))
  }

  /** `AssertColorCounts`: every colour of the (empty-means-all) colour filter has exactly one entry, with the expected count. */
  predicate AssertColorCounts<S(==,!new), C(==,!new)>(shirts: seq<Shirt<S, C>>, options: SearchOptions<S, C>, colorCounts: seq<ColorCount<C>>,
                                            sizeAll: seq<S>, colorAll: seq<C>) {
    forall c :: c in Effective(options.colors, colorAll) ==>
      |WithKey(colorCounts, ValueOf, c)| == 1 &&
      WithKey(colorCounts, ValueOf, c)[0].count == ExpectedColorCount(shirts, c, Effective(options.sizes, sizeAll))
  }

  /** The test's size count is the number of catalogue shirts of that size a colour filter lets through. */
  lemma {:induction false} ExpectedSizeCountIsMatching<S(!new), C(!new)>(shirts: seq<Shirt<S, C>>, size: S, colors: seq<C>, colorAll: seq<C>)
    requires Enumeration(colorAll)
    ensures ExpectedSizeCount(shirts, size, Effective(colors, colorAll)) == |Matching(shirts, [size], colors)|
  {
    if shirts != [] {
      ExpectedSizeCountIsMatching(shirts[..|shirts| - 1], size, colors, colorAll);
    }
  }

  /** The test's colour count is the number of catalogue shirts of that colour a size filter lets through. */
  lemma {:induction false} ExpectedColorCountIsMatching<S(!new), C(!new)>(shirts: seq<Shirt<S, C>>, color: C, sizes: seq<S>, sizeAll: seq<S>)
    requires Enumeration(sizeAll)
    ensures ExpectedColorCount(shirts, color, Effective(sizes, sizeAll)) == |Matching(shirts, sizes, [color])|
  {
    if shirts != [] {
      ExpectedColorCountIsMatching(shirts[..|shirts| - 1], color, sizes, sizeAll);
    }
  }

  /** In a list of facet entries whose values are all distinct, each listed value has exactly one entry. */
  lemma {:induction false} SingleEntry<K>(counts: seq<FacetCount<K>>, v: K, i: nat)
    requires NoDups(Values(counts))
    requires i < |counts| && counts[i].value == v
    ensures WithKey(counts, ValueOf, v) == [counts[i]]
  {
    var init := counts[..|counts| - 1];
    assert Values(init) == Values(counts)[..|counts| - 1];
    if i < |counts| - 1 {
      SingleEntry(init, v, i);
      assert Values(counts)[i] != Values(counts)[|counts| - 1];
    } else {
      forall j | 0 <= j < |init| ensures init[j].value != v {
        assert Values(counts)[j] != Values(counts)[i];
      }
      NoEntry(init, v);
    }
  }

  /** A value no entry carries has no entries. */
  lemma {:induction false} NoEntry<K>(counts: seq<FacetCount<K>>, v: K)
    requires forall j :: 0 <= j < |counts| ==> counts[j].value != v
    ensures WithKey(counts, ValueOf, v) == []
  {
    if counts != [] {
      NoEntry(counts[..|counts| - 1], v);
    }
  }

  /**
   * `RunTest`: builds the engine over `catalogue`, searches, and meets the three
   * assertions of the test base class (completeness as intended).
   */
  method RunTest<S(==,!new), C(==,!new)>(catalogue: seq<Shirt<S, C>>, sizeAll: seq<S>, colorAll: seq<C>, options: SearchOptions<S, C>)
    returns (results: SearchResults<S, C>)
    requires Enumeration(sizeAll) && Enumeration(colorAll)
    requires NoDups(catalogue)
    ensures |results.shirts| == |Matching(catalogue, options.sizes, options.colors)|
    ensures AssertResults(catalogue, results.shirts, options, sizeAll, colorAll)
    ensures AssertSizeCounts(catalogue, options, results.sizeCounts, sizeAll, colorAll)
    ensures AssertColorCounts(catalogue, options, results.colorCounts, sizeAll, colorAll)
  {
    var engine := new SearchEngine(catalogue, sizeAll, colorAll);
    results := engine.Search(options);
    assert |multiset(results.shirts)| == |multiset(Matching(catalogue, options.sizes, options.colors))|;
    IdsOfMembers(results.shirts);
    forall s | s in Effective(options.sizes, sizeAll)
      ensures |WithKey(results.sizeCounts, ValueOf, s)| == 1
      ensures WithKey(results.sizeCounts, ValueOf, s)[0].count == ExpectedSizeCount(catalogue, s, Effective(options.colors, colorAll))
    {
      assert s in Values(results.sizeCounts);
      var i :| 0 <= i < |results.sizeCounts| && Values(results.sizeCounts)[i] == s;
      SingleEntry(results.sizeCounts, s, i);
      ExpectedSizeCountIsMatching(catalogue, s, options.colors, colorAll);
    }
    forall c | c in Effective(options.colors, colorAll)
      ensures |WithKey(results.colorCounts, ValueOf, c)| == 1
      ensures WithKey(results.colorCounts, ValueOf, c)[0].count == ExpectedColorCount(catalogue, c, Effective(options.sizes, sizeAll))
    {
      assert c in Values(results.colorCounts);
      var i :| 0 <= i < |results.colorCounts| && Values(results.colorCounts)[i] == c;
      SingleEntry(results.colorCounts, c, i);
      ExpectedColorCountIsMatching(catalogue, c, options.sizes, sizeAll);
    }
  }

  /** The tests' vocabularies are complete and duplicate-free, and the fixture holds each shirt once. */
  lemma FixtureWellFormed()
    ensures Enumeration(AllSizes) && Enumeration(AllColors) && NoDups(Catalogue)
  {
    forall s: Size ensures s in AllSizes {
      match s
      case Small => assert AllSizes[0] == s;
      case Medium => assert AllSizes[1] == s;
      case Large => assert AllSizes[2] == s;
    }
    forall c: Color ensures c in AllColors {
      match c
      case Red => assert AllColors[0] == c;
      case Black => assert AllColors[1] == c;
      case Blue => assert AllColors[2] == c;
      case Yellow => assert AllColors[3] == c;
      case White => assert AllColors[4] == c;
    }
  }

  /** Whether fixture shirt `i` passes the filters: 1 if it does, 0 if not. */
  function Hit(sizes: seq<Size>, colors: seq<Color>, i: nat): (h: nat)
    requires i < |Catalogue|
  {
    if Accepts(sizes, Catalogue[i].size) && Accepts(colors, Catalogue[i].color) then 1 else 0
  }

  /** Extending a catalogue prefix by one shirt adds that shirt to the matches exactly when it passes. */
  lemma MatchingPrefixStep<S, C>(shirts: seq<Shirt<S, C>>, sizes: seq<S>, colors: seq<C>, n: nat)
    requires n < |shirts|
    ensures |Matching(shirts[..n + 1], sizes, colors)| ==
      |Matching(shirts[..n], sizes, colors)| + if Accepts(sizes, shirts[n].size) && Accepts(colors, shirts[n].color) then 1 else 0
  {
    assert shirts[..n + 1][..n] == shirts[..n];
  }

  /** The number of fixture shirts a query finds, shirt by shirt. */
  lemma FixtureMatchCount(sizes: seq<Size>, colors: seq<Color>)
    ensures |Matching(Catalogue, sizes, colors)| ==
      Hit(sizes, colors, 0) + Hit(sizes, colors, 1) + Hit(sizes, colors, 2) +
      Hit(sizes, colors, 3) + Hit(sizes, colors, 4) + Hit(sizes, colors, 5)
  {
    assert Catalogue[..0] == [] && Catalogue[..6] == Catalogue;
    MatchingPrefixStep(Catalogue, sizes, colors, 0);
    MatchingPrefixStep(Catalogue, sizes, colors, 1);
    MatchingPrefixStep(Catalogue, sizes, colors, 2);
    MatchingPrefixStep(Catalogue, sizes, colors, 3);
    MatchingPrefixStep(Catalogue, sizes, colors, 4);
    MatchingPrefixStep(Catalogue, sizes, colors, 5);
  }

  /** The fixture holds 0 shirts for Yellow and Small. */
  lemma YellowSmallMatches()
    ensures |Matching(Catalogue, [Small], [Yellow])| == 0
  {
    FixtureMatchCount([Small], [Yellow]);
  }

  /** The fixture holds 2 shirts for Black and Small. */
  lemma BlackSmallMatches()
    ensures |Matching(Catalogue, [Small], [Black])| == 2
  {
    FixtureMatchCount([Small], [Black]);
  }

  /** The fixture holds 0 shirts for White and Small. */
  lemma WhiteSmallMatches()
    ensures |Matching(Catalogue, [Small], [White])| == 0
  {
    FixtureMatchCount([Small], [White]);
  }

  /** The fixture holds 1 shirt for Black and Medium. */
  lemma BlackMediumMatches()
    ensures |Matching(Catalogue, [Medium], [Black])| == 1
  {
    FixtureMatchCount([Medium], [Black]);
  }

  /** The fixture holds 1 shirt for Blue in any size. */
  lemma BlueOnlyMatches()
    ensures |Matching(Catalogue, [], [Blue])| == 1
  {
    FixtureMatchCount([], [Blue]);
  }

  /** The fixture holds 3 shirts for Black in any size. */
  lemma BlackOnlyMatches()
    ensures |Matching(Catalogue, [], [Black])| == 3
  {
    FixtureMatchCount([], [Black]);
  }

  /** The fixture holds 0 shirts for White in any size. */
  lemma WhiteOnlyMatches()
    ensures |Matching(Catalogue, [], [White])| == 0
  {
    FixtureMatchCount([], [White]);
  }

  /** The fixture holds 1 shirt for Medium in any colour. */
  lemma MediumOnlyMatches()
    ensures |Matching(Catalogue, [Medium], [])| == 1
  {
    FixtureMatchCount([Medium], []);
  }

  /** The fixture holds 3 shirts for Small in any colour. */
  lemma SmallOnlyMatches()
    ensures |Matching(Catalogue, [Small], [])| == 3
  {
    FixtureMatchCount([Small], []);
  }

  /** `TestColorAndSize`: one colour and one size requested. */
  method TestColorAndSize(color: Color, size: Size) returns (results: SearchResults<Size, Color>)
    ensures color == Yellow && size == Small ==> |results.shirts| == 0
    ensures color == Black && size == Small ==> |results.shirts| == 2
    ensures color == Black && size == Medium ==> |results.shirts| == 1
    ensures color == White && size == Small ==> |results.shirts| == 0
    ensures AssertResults(Catalogue, results.shirts, SearchOptions([size], [color]), AllSizes, AllColors)
    ensures AssertSizeCounts(Catalogue, SearchOptions([size], [color]), results.sizeCounts, AllSizes, AllColors)
    ensures AssertColorCounts(Catalogue, SearchOptions([size], [color]), results.colorCounts, AllSizes, AllColors)
  {
    FixtureWellFormed();
    YellowSmallMatches();
    BlackSmallMatches();
    WhiteSmallMatches();
    BlackMediumMatches();
    results := RunTest(Catalogue, AllSizes, AllColors, SearchOptions([size], [color]));
  }

  /** `TestColorOnly`: one colour requested, every size admitted. */
  method TestColorOnly(color: Color) returns (results: SearchResults<Size, Color>)
    ensures color == Blue ==> |results.shirts| == 1
    ensures color == Black ==> |results.shirts| == 3
    ensures color == White ==> |results.shirts| == 0
    ensures AssertResults(Catalogue, results.shirts, SearchOptions([], [color]), AllSizes, AllColors)
    ensures AssertSizeCounts(Catalogue, SearchOptions([], [color]), results.sizeCounts, AllSizes, AllColors)
    ensures AssertColorCounts(Catalogue, SearchOptions([], [color]), results.colorCounts, AllSizes, AllColors)
  {
    FixtureWellFormed();
    BlueOnlyMatches();
    BlackOnlyMatches();
    WhiteOnlyMatches();
    results := RunTest(Catalogue, AllSizes, AllColors, SearchOptions([], [color]));
  }

  /** `TestSizeOnly`: one size requested, every colour admitted. */
  method TestSizeOnly(size: Size) returns (results: SearchResults<Size, Color>)
    ensures size == Medium ==> |results.shirts| == 1
    ensures size == Small ==> |results.shirts| == 3
    ensures AssertResults(Catalogue, results.shirts, SearchOptions([size], []), AllSizes, AllColors)
    ensures AssertSizeCounts(Catalogue, SearchOptions([size], []), results.sizeCounts, AllSizes, AllColors)
    ensures AssertColorCounts(Catalogue, SearchOptions([size], []), results.colorCounts, AllSizes, AllColors)
  {
    FixtureWellFormed();
    MediumOnlyMatches();
    SmallOnlyMatches();
    results := RunTest(Catalogue, AllSizes, AllColors, SearchOptions([size], []));
  }

  /**
   * The facet counts are taken from the results, not from the catalogue under the
   * colour filter alone: for "Black and Small" the Medium entry is 0, although one
   * black shirt is Medium.
   */
  method FacetCountsFollowResults() returns (results: SearchResults<Size, Color>)
    ensures forall i :: 0 <= i < |results.sizeCounts| && results.sizeCounts[i].value == Medium ==> results.sizeCounts[i].count == 0
    ensures Medium in Values(results.sizeCounts)
    ensures |Matching(Catalogue, [Medium], [Black])| == 1
  {
    FixtureWellFormed();
    BlackMediumMatches();
    var engine := new SearchEngine(Catalogue, AllSizes, AllColors);
    results := engine.Search(SearchOptions([Small], [Black]));
  }
}
