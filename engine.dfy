/**
 * The shirt search engine: two read-only indexes built once from the catalogue,
 * and `Search`, which gathers colour and size candidates from the indexes,
 * intersects them and counts the intersection per size and per colour.
 */
module Engine {
  import opened Linq
  import opened Shirts

  /** `all` lists every value of its type exactly once: the shape of `Size.All` and `Color.All`. */
  ghost predicate Enumeration<T(!new)>(all: seq<T>) {
    NoDups(all) && forall t :: t in all
  }

  /** Whether a filter admits a value: an empty filter admits every value. */
  predicate Accepts<K(==)>(filter: seq<K>, v: K) {
    |filter| == 0 || v in filter
  }

  /**
   * The list a search walks: the requested values, or `all` when none was requested.
   * Over a complete enumeration, walking it admits exactly the values the filter accepts.
   */
  function Effective<K(!new)>(requested: seq<K>, all: seq<K>): (r: seq<K>)
    ensures Enumeration(all) ==> forall v :: v in r ==> Accepts(requested, v)
    ensures Enumeration(all) ==> forall v :: Accepts(requested, v) ==> v in r
  {
    if |requested| > 0 then requested else all
  }

  /** `TryGetValue` on an index: the group stored for `k`, or nothing. */
  function Lookup<K, T>(index: map<K, seq<T>>, k: K): (r: seq<T>) {
    if k in index then index[k] else []
  }

  /** The groups stored for `keys`, concatenated in the order of `keys`; keys without a group add nothing. */
  function Gather<K, T>(index: map<K, seq<T>>, keys: seq<K>): (r: seq<T>)
    ensures forall x :: x in r ==> exists j :: 0 <= j < |keys| && x in Lookup(index, keys[j])
    ensures forall j, x :: 0 <= j < |keys| && x in Lookup(index, keys[j]) ==> x in r
  {
    if keys == [] then []
    else
      var init := keys[..|keys| - 1];
      assert forall j :: 0 <= j < |init| ==> init[j] == keys[j];
      Gather(index, init) + Lookup(index, keys[|keys| - 1])
  }

  /** The `foreach … AddRange` loop of `SearchByColorTask` and `SearchBySizeTask`. */
  method Collect<K, T>(index: map<K, seq<T>>, keys: seq<K>) returns (r: seq<T>)
    ensures r == Gather(index, keys)
  {
    r := [];
    for i := 0 to |keys|
      invariant r == Gather(index, keys[..i])
    {
      assert keys[..i + 1][..i] == keys[..i];
      if keys[i] in index {
        r := r + index[keys[i]];
      }
    }
    assert keys[..|keys|] == keys;
  }

  /** The group an index built by `GroupBy` stores for `k` holds the source elements with key `k`, as often as the source. */
  lemma LookupGroupBy<T, K(!new)>(xs: seq<T>, key: T -> K, k: K, x: T)
    ensures multiset(Lookup(GroupBy(xs, key), k))[x] == if key(x) == k then multiset(xs)[x] else 0
  {
    WithKeyMultiset(xs, key, k, x);
    if k !in GroupBy(xs, key) && key(x) == k {
      assert forall i :: 0 <= i < |xs| ==> xs[i] != x;
    }
  }

  /** `a * (b + d) == a * b + a * d` for a 0/1 increment `d`. */
  lemma MulStep(a: nat, b: nat, inc: bool)
    ensures a * (b + if inc then 1 else 0) == a * b + if inc then a else 0
  {
  }

  /** A product of naturals is positive exactly when both factors are. */
  lemma MulPositive(a: nat, b: nat)
    ensures a * b > 0 <==> a > 0 && b > 0
  {
  }

  /**
   * Gathering from an index in which `x` occurs `c` times under key `kx` and under no
   * other key yields `x` once for every listing of `kx`, `c` times each.
   */
  lemma {:induction false} GatherMultiplicity<K, T>(index: map<K, seq<T>>, keys: seq<K>, x: T, kx: K, c: nat)
    requires forall k :: multiset(Lookup(index, k))[x] == if k == kx then c else 0
    ensures multiset(Gather(index, keys))[x] == c * multiset(keys)[kx]
  {
    if keys != [] {
      var init, k := keys[..|keys| - 1], keys[|keys| - 1];
      assert keys == init + [k];
      assert multiset(keys)[kx] == multiset(init)[kx] + if kx == k then 1 else 0;
      assert Gather(index, keys) == Gather(index, init) + Lookup(index, k);
      assert multiset(Gather(index, keys))[x] == multiset(Gather(index, init))[x] + multiset(Lookup(index, k))[x];
      GatherMultiplicity(index, init, x, kx, c);
      MulStep(c, multiset(init)[kx], kx == k);
    }
  }

  /**
   * Gathering the groups of a `GroupBy` index yields each source element once for
   * every time its key is listed.
   */
  lemma GatherGroupByMultiset<T, K(!new)>(xs: seq<T>, key: T -> K, keys: seq<K>, x: T)
    ensures multiset(Gather(GroupBy(xs, key), keys))[x] == multiset(xs)[x] * multiset(keys)[key(x)]
  {
    forall k ensures multiset(Lookup(GroupBy(xs, key), k))[x] == if k == key(x) then multiset(xs)[x] else 0 {
      LookupGroupBy(xs, key, k, x);
    }
    GatherMultiplicity(GroupBy(xs, key), keys, x, key(x), multiset(xs)[x]);
  }

  /** A source element is gathered exactly when its key is listed. */
  lemma GatherGroupByMembers<T(!new), K(!new)>(xs: seq<T>, key: T -> K, keys: seq<K>)
    ensures forall x :: x in Gather(GroupBy(xs, key), keys) ==> x in xs && key(x) in keys
    ensures forall x :: x in xs && key(x) in keys ==> x in Gather(GroupBy(xs, key), keys)
  {
    forall x ensures x in Gather(GroupBy(xs, key), keys) <==> x in xs && key(x) in keys {
      GatherGroupByMultiset(xs, key, keys, x);
      MulPositive(multiset(xs)[x], multiset(keys)[key(x)]);
    }
  }

  /** The groups of a `GroupBy` index, taken together, are exactly the source: none lost, none repeated. */
  lemma GroupsCoverSource<T(!new), K(!new)>(xs: seq<T>, key: T -> K)
    ensures multiset(Gather(GroupBy(xs, key), GroupKeys(xs, key))) == multiset(xs)
  {
    var ks := GroupKeys(xs, key);
    forall x ensures multiset(Gather(GroupBy(xs, key), ks))[x] == multiset(xs)[x] {
      GatherGroupByMultiset(xs, key, ks, x);
      NoDupsMultiset(ks, key(x));
      if x in xs {
        var i :| 0 <= i < |xs| && xs[i] == x;
        assert key(xs[i]) in ks;
        assert multiset(ks)[key(x)] == 1;
      } else {
        assert multiset(xs)[x] == 0;
      }
    }
    assert multiset(Gather(GroupBy(xs, key), ks)) == multiset(xs);
  }

  /** The catalogue shirts a query with these filters must return, in catalogue order. */
  function Matching<S(==), C(==)>(shirts: seq<Shirt<S, C>>, sizes: seq<S>, colors: seq<C>): (r: seq<Shirt<S, C>>)
    ensures forall x :: x in r ==> x in shirts && Accepts(sizes, x.size) && Accepts(colors, x.color)
    ensures forall x :: x in shirts && Accepts(sizes, x.size) && Accepts(colors, x.color) ==> x in r
    ensures NoDups(shirts) ==> NoDups(r)
  {
    if shirts == [] then []
    else
      var init, x := shirts[..|shirts| - 1], shirts[|shirts| - 1];
      assert shirts == init + [x];
      assert NoDups(shirts) ==> NoDups(init) && x !in init;
      Matching(init, sizes, colors) + (if Accepts(sizes, x.size) && Accepts(colors, x.color) then [x] else [])
  }

  /** A sequence with no members is empty. */
  lemma NoMembersEmpty<T(!new)>(s: seq<T>)
    requires forall x :: x !in s
    ensures s == []
  {
    forall x ensures multiset(s)[x] == 0 {
      assert x !in s;
    }
    assert multiset(s) == multiset{};
    assert |s| == |multiset(s)| == 0;
  }

  /** A subsequence of a duplicate-free sequence has no duplicates. */
  lemma {:induction false} WithKeyNoDups<T, K>(xs: seq<T>, key: T -> K, k: K)
    requires NoDups(xs)
    ensures NoDups(WithKey(xs, key, k))
  {
    if xs != [] {
      var init, last := xs[..|xs| - 1], xs[|xs| - 1];
      assert xs == init + [last];
      assert NoDups(init) && last !in init;
      WithKeyNoDups(init, key, k);
      WithKeyMembers(init, key, k);
    }
  }

  /**
   * Facet arithmetic for a result list that is exactly the shirts of the catalogue
   * passing both filters: the number of results with size `v` is the number of
   * catalogue shirts of size `v` passing the colour filter when `v` passes the
   * size filter, and zero otherwise.
   */
  lemma SizeFacet<S(!new), C(!new)>(catalogue: seq<Shirt<S, C>>, options: SearchOptions<S, C>, results: seq<Shirt<S, C>>, v: S)
    requires NoDups(catalogue) && NoDups(results)
    requires forall x :: x in results <==> x in catalogue && Accepts(options.sizes, x.size) && Accepts(options.colors, x.color)
    ensures |WithKey(results, SizeOf, v)| ==
      if Accepts(options.sizes, v) then |Matching(catalogue, [v], options.colors)| else 0
  {
    var group := WithKey(results, SizeOf, v);
    WithKeyNoDups(results, SizeOf, v);
    WithKeyMembers(results, SizeOf, v);
    if Accepts(options.sizes, v) {
      SameElementsSameMultiset(group, Matching(catalogue, [v], options.colors));
    } else {
      NoMembersEmpty(group);
    }
  }

  /** The colour counterpart of `SizeFacet`. */
  lemma ColorFacet<S(!new), C(!new)>(catalogue: seq<Shirt<S, C>>, options: SearchOptions<S, C>, results: seq<Shirt<S, C>>, v: C)
    requires NoDups(catalogue) && NoDups(results)
    requires forall x :: x in results <==> x in catalogue && Accepts(options.sizes, x.size) && Accepts(options.colors, x.color)
    ensures |WithKey(results, ColorOf, v)| ==
      if Accepts(options.colors, v) then |Matching(catalogue, options.sizes, [v])| else 0
  {
    var group := WithKey(results, ColorOf, v);
    WithKeyNoDups(results, ColorOf, v);
    WithKeyMembers(results, ColorOf, v);
    if Accepts(options.colors, v) {
      SameElementsSameMultiset(group, Matching(catalogue, options.sizes, [v]));
    } else {
      NoMembersEmpty(group);
    }
  }

  /** The sizes (or colours) of a list of facet entries, in order. */
  function Values<K>(counts: seq<FacetCount<K>>): (vs: seq<K>)
    ensures |vs| == |counts|
    ensures forall i :: 0 <= i < |counts| ==> vs[i] == counts[i].value
  {
    seq(|counts|, i requires 0 <= i < |counts| => counts[i].value)
  }

  /** The grouping of the results projected to count entries: one per key present, in first-appearance order, with its group's size. */
  function Tally<T, K(==,!new)>(results: seq<T>, key: T -> K): (r: seq<FacetCount<K>>)
    ensures Values(r) == GroupKeys(results, key)
    ensures forall i :: 0 <= i < |r| ==> r[i].count == |WithKey(results, key, r[i].value)|
  {
    var ks := GroupKeys(results, key);
    seq(|ks|, i requires 0 <= i < |ks| => FacetCount(ks[i], |WithKey(results, key, ks[i])|))
  }

  /**
   * `BuildColorSummary` / `BuildSizesSummary`: the tally of the results, then a zero
   * entry for every value of `all` that the tally does not mention, in `all` order.
   * Every entry counts the results that have its value.
   */
  method Summarize<T, K(==,!new)>(results: seq<T>, key: T -> K, all: seq<K>) returns (summary: seq<FacetCount<K>>)
    ensures Values(summary) == GroupKeys(results, key) + Except(all, GroupKeys(results, key))
    ensures forall i :: 0 <= i < |summary| ==> summary[i].count == |WithKey(results, key, summary[i].value)|
  {
    summary := Tally(results, key);
    ghost var present := GroupKeys(results, key);
    assert Values(summary) == present;
    var absent := Except(all, Values(summary));
    for i := 0 to |absent|
      invariant Values(summary) == present + absent[..i]
      invariant forall j :: 0 <= j < |summary| ==> summary[j].count == |WithKey(results, key, summary[j].value)|
    {
      var v := absent[i];
      assert v !in present;
      WithKeyNonEmpty(results, key, v);
      summary := summary + [FacetCount(v, 0)];
      assert absent[..i + 1] == absent[..i] + [v];
    }
    assert absent[..|absent|] == absent;
  }

  /**
   * Over a complete enumeration, a summary laid out as `Summarize` lays it out has
   * one entry for every value and no value twice.
   */
  lemma SummaryCoversAll<T, K(!new)>(results: seq<T>, key: T -> K, all: seq<K>, summary: seq<FacetCount<K>>)
    requires Enumeration(all)
    requires Values(summary) == GroupKeys(results, key) + Except(all, GroupKeys(results, key))
    ensures NoDups(Values(summary))
    ensures forall v :: v in Values(summary)
    ensures |summary| == |all|
  {
    var present, absent := GroupKeys(results, key), Except(all, GroupKeys(results, key));
    var vs := Values(summary);
    forall i, j | 0 <= i < j < |vs| ensures vs[i] != vs[j] {
      if j < |present| {
        assert vs[i] == present[i] && vs[j] == present[j];
      } else if i >= |present| {
        assert vs[i] == absent[i - |present|] && vs[j] == absent[j - |present|];
      } else {
        assert vs[i] == present[i] && vs[j] == absent[j - |present|];
        assert vs[i] in present;
      }
    }
    forall v ensures v in vs {
      assert v in all;
      if v !in present {
        assert v in absent;
      }
    }
    SameElementsSameMultiset(vs, all);
  }

  /** The search engine over a fixed catalogue. */
  class SearchEngine<S(==,!new), C(==,!new)> {
    /** `_shirtsPerSize`: each size that occurs mapped to its shirts, in catalogue order. */
    const shirtsPerSize: map<S, seq<Shirt<S, C>>>
    /** `_shirtsPerColor`: each colour that occurs mapped to its shirts, in catalogue order. */
    const shirtsPerColor: map<C, seq<Shirt<S, C>>>
    /** `Size.All`. */
    const sizeAll: seq<S>
    /** `Color.All`. */
    const colorAll: seq<C>
    /** The catalogue the engine was built from. */
    ghost const catalogue: seq<Shirt<S, C>>

    /** The indexes are the two groupings of the catalogue; the vocabularies are complete. */
    ghost predicate Valid() {
      && shirtsPerColor == GroupBy(catalogue, ColorOf)
      && shirtsPerSize == GroupBy(catalogue, SizeOf)
      && Enumeration(sizeAll)
      && Enumeration(colorAll)
    }

    /** Builds the two indexes, one `GroupBy` over the catalogue each. */
    constructor (shirts: seq<Shirt<S, C>>, sizes: seq<S>, colors: seq<C>)
      requires Enumeration(sizes) && Enumeration(colors)
      ensures Valid()
      ensures catalogue == shirts && sizeAll == sizes && colorAll == colors
    {
      shirtsPerColor := GroupBy(shirts, ColorOf);
      shirtsPerSize := GroupBy(shirts, SizeOf);
      sizeAll, colorAll := sizes, colors;
      catalogue := shirts;
    }

    /**
     * `SearchByColorTask`: the colour index's groups for the requested colours (all
     * colours when none is requested), concatenated in request order.
     */
    method SearchByColor(colors: seq<C>) returns (r: seq<Shirt<S, C>>)
      requires Valid()
      ensures r == Gather(shirtsPerColor, Effective(colors, colorAll))
      ensures forall x :: multiset(r)[x] == multiset(catalogue)[x] * multiset(Effective(colors, colorAll))[x.color]
      ensures forall x :: x in r ==> x in catalogue && Accepts(colors, x.color)
      ensures forall x :: x in catalogue && Accepts(colors, x.color) ==> x in r
    {
      r := Collect(shirtsPerColor, Effective(colors, colorAll));
      forall x ensures multiset(r)[x] == multiset(catalogue)[x] * multiset(Effective(colors, colorAll))[x.color] {
        GatherGroupByMultiset(catalogue, ColorOf, Effective(colors, colorAll), x);
      }
      GatherGroupByMembers(catalogue, ColorOf, Effective(colors, colorAll));
    }

    /** `SearchBySizeTask`: the size counterpart of `SearchByColor`. */
    method SearchBySize(sizes: seq<S>) returns (r: seq<Shirt<S, C>>)
      requires Valid()
      ensures r == Gather(shirtsPerSize, Effective(sizes, sizeAll))
      ensures forall x :: multiset(r)[x] == multiset(catalogue)[x] * multiset(Effective(sizes, sizeAll))[x.size]
      ensures forall x :: x in r ==> x in catalogue && Accepts(sizes, x.size)
      ensures forall x :: x in catalogue && Accepts(sizes, x.size) ==> x in r
    {
      r := Collect(shirtsPerSize, Effective(sizes, sizeAll));
      forall x ensures multiset(r)[x] == multiset(catalogue)[x] * multiset(Effective(sizes, sizeAll))[x.size] {
        GatherGroupByMultiset(catalogue, SizeOf, Effective(sizes, sizeAll), x);
      }
      GatherGroupByMembers(catalogue, SizeOf, Effective(sizes, sizeAll));
    }

    /** `BuildColorSummary`: one entry per colour, counting the results of that colour. */
    method BuildColorSummary(results: seq<Shirt<S, C>>) returns (summary: seq<ColorCount<C>>)
      requires Valid()
      ensures Values(summary) == GroupKeys(results, ColorOf) + Except(colorAll, GroupKeys(results, ColorOf))
      ensures |summary| == |colorAll| && NoDups(Values(summary)) && forall c :: c in Values(summary)
      ensures forall i :: 0 <= i < |summary| ==> summary[i].count == |WithKey(results, ColorOf, summary[i].value)|
    {
      summary := Summarize(results, ColorOf, colorAll);
      SummaryCoversAll(results, ColorOf, colorAll, summary);
    }

    /** `BuildSizesSummary`: one entry per size, counting the results of that size. */
    method BuildSizesSummary(results: seq<Shirt<S, C>>) returns (summary: seq<SizeCount<S>>)
      requires Valid()
      ensures Values(summary) == GroupKeys(results, SizeOf) + Except(sizeAll, GroupKeys(results, SizeOf))
      ensures |summary| == |sizeAll| && NoDups(Values(summary)) && forall s :: s in Values(summary)
      ensures forall i :: 0 <= i < |summary| ==> summary[i].count == |WithKey(results, SizeOf, summary[i].value)|
    {
      summary := Summarize(results, SizeOf, sizeAll);
      SummaryCoversAll(results, SizeOf, sizeAll, summary);
    }

    /**
     * `Search`: the shirts passing both filters, each once, in the order of the
     * colour candidates; and for every size and every colour, the number of those
     * shirts that have it.
     */
    method Search(options: SearchOptions<S, C>) returns (r: SearchResults<S, C>)
      requires Valid()
      // the shirts: the intersection of the two candidate lists
      ensures r.shirts == Intersect(Gather(shirtsPerColor, Effective(options.colors, colorAll)),
                                    Gather(shirtsPerSize, Effective(options.sizes, sizeAll)))
      ensures forall x :: x in r.shirts ==> x in catalogue && Accepts(options.sizes, x.size) && Accepts(options.colors, x.color)
      ensures forall x :: x in catalogue && Accepts(options.sizes, x.size) && Accepts(options.colors, x.color) ==> x in r.shirts
      ensures NoDups(r.shirts)
      ensures NoDups(catalogue) ==> multiset(r.shirts) == multiset(Matching(catalogue, options.sizes, options.colors))
      // size counts: one per size, present sizes first, then the absent ones with 0 in `Size.All` order
      ensures Values(r.sizeCounts) == GroupKeys(r.shirts, SizeOf) + Except(sizeAll, GroupKeys(r.shirts, SizeOf))
      ensures |r.sizeCounts| == |sizeAll| && NoDups(Values(r.sizeCounts)) && forall s :: s in Values(r.sizeCounts)
      ensures forall i :: 0 <= i < |r.sizeCounts| ==> r.sizeCounts[i].count == |WithKey(r.shirts, SizeOf, r.sizeCounts[i].value)|
      ensures NoDups(catalogue) ==> forall i :: 0 <= i < |r.sizeCounts| ==>
        r.sizeCounts[i].count ==
          if Accepts(options.sizes, r.sizeCounts[i].value)
          then |Matching(catalogue, [r.sizeCounts[i].value], options.colors)|
          else 0
      // colour counts, symmetrically
      ensures Values(r.colorCounts) == GroupKeys(r.shirts, ColorOf) + Except(colorAll, GroupKeys(r.shirts, ColorOf))
      ensures |r.colorCounts| == |colorAll| && NoDups(Values(r.colorCounts)) && forall c :: c in Values(r.colorCounts)
      ensures forall i :: 0 <= i < |r.colorCounts| ==> r.colorCounts[i].count == |WithKey(r.shirts, ColorOf, r.colorCounts[i].value)|
      ensures NoDups(catalogue) ==> forall i :: 0 <= i < |r.colorCounts| ==>
        r.colorCounts[i].count ==
          if Accepts(options.colors, r.colorCounts[i].value)
          then |Matching(catalogue, options.sizes, [r.colorCounts[i].value])|
          else 0
    {
      var byColor := SearchByColor(options.colors);
      var bySize := SearchBySize(options.sizes);
      var shirts := Intersect(byColor, bySize);
      var colorSummary := BuildColorSummary(shirts);
      var sizesSummary := BuildSizesSummary(shirts);
      r := SearchResults(shirts, sizesSummary, colorSummary);
      if NoDups(catalogue) {
        SameElementsSameMultiset(shirts, Matching(catalogue, options.sizes, options.colors));
        forall i | 0 <= i < |sizesSummary|
          ensures sizesSummary[i].count ==
            if Accepts(options.sizes, sizesSummary[i].value)
            then |Matching(catalogue, [sizesSummary[i].value], options.colors)| else 0
        {
          SizeFacet(catalogue, options, shirts, sizesSummary[i].value);
        }
        forall i | 0 <= i < |colorSummary|
          ensures colorSummary[i].count ==
            if Accepts(options.colors, colorSummary[i].value)
            then |Matching(catalogue, options.sizes, [colorSummary[i].value])| else 0
        {
          ColorFacet(catalogue, options, shirts, colorSummary[i].value);
        }
      }
    }
  }

  /** Two facet lists listing the same values with the same counts are the same list. */
  lemma SameFacets<K>(a: seq<FacetCount<K>>, b: seq<FacetCount<K>>)
    requires Values(a) == Values(b)
    requires forall i :: 0 <= i < |a| && i < |b| ==> a[i].count == b[i].count
    ensures a == b
  {
    forall i | 0 <= i < |a| ensures a[i] == b[i] {
      assert Values(a)[i] == Values(b)[i];
    }
  }

  /**
   * Wildcard equivalence for sizes: on one engine, a query leaving the size filter
   * empty (`omitted`) and the same query listing every size (`listed`) give the very
   * same results: shirts, their order and both count lists.
   */
  method WildcardSizes<S(==,!new), C(==,!new)>(engine: SearchEngine<S, C>, colors: seq<C>)
    returns (omitted: SearchResults<S, C>, listed: SearchResults<S, C>)
    requires engine.Valid()
    ensures omitted == listed
  {
    omitted := engine.Search(SearchOptions([], colors));
    assert Effective([], engine.sizeAll) == Effective(engine.sizeAll, engine.sizeAll);
    listed := engine.Search(SearchOptions(engine.sizeAll, colors));
    assert omitted.shirts == listed.shirts;
    SameFacets(omitted.sizeCounts, listed.sizeCounts);
    SameFacets(omitted.colorCounts, listed.colorCounts);
  }

  /** Wildcard equivalence for colours: the colour counterpart of `WildcardSizes`. */
  method WildcardColors<S(==,!new), C(==,!new)>(engine: SearchEngine<S, C>, sizes: seq<S>)
    returns (omitted: SearchResults<S, C>, listed: SearchResults<S, C>)
    requires engine.Valid()
    ensures omitted == listed
  {
    omitted := engine.Search(SearchOptions(sizes, []));
    assert Effective([], engine.colorAll) == Effective(engine.colorAll, engine.colorAll);
    listed := engine.Search(SearchOptions(sizes, engine.colorAll));
    assert omitted.shirts == listed.shirts;
    SameFacets(omitted.sizeCounts, listed.sizeCounts);
    SameFacets(omitted.colorCounts, listed.colorCounts);
  }
}
