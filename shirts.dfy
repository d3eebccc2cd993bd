/**
 * The data the search engine works on: shirts, the query and the results bundle.
 * Sizes and colours are type parameters `S` and `C`; the engine never looks
 * inside them, it only compares them.
 */
module Shirts {

  /**
   * A catalogue shirt. `id` stands for the shirt's Guid and so for its identity:
   * two shirts are the same shirt exactly when they are equal values.
   */
  datatype Shirt<S, C> = Shirt(id: nat, size: S, color: C)

  /** The grouping key `x => x.Size`. */
  function SizeOf<S, C>(x: Shirt<S, C>): (s: S) {
    x.size
  }

  /** The grouping key `x => x.Color`. */
  function ColorOf<S, C>(x: Shirt<S, C>): (c: C) {
    x.color
  }

  /** One facet entry: a size or colour and the number of result shirts that have it. */
  datatype FacetCount<K> = FacetCount(value: K, count: nat)

  /** `SizeCount { Size, Count }`. */
  type SizeCount<S> = FacetCount<S>

  /** `ColorCount { Color, Count }`. */
  type ColorCount<C> = FacetCount<C>

  /** The key `c => c.Size` (or `c.Color`) of a facet entry. */
  function ValueOf<K>(c: FacetCount<K>): (v: K) {
    c.value
  }

  /** The query: sizes and colours to accept; an empty list accepts every value. */
  datatype SearchOptions<S, C> = SearchOptions(sizes: seq<S>, colors: seq<C>)

  /** The results bundle. */
  datatype SearchResults<S, C> = SearchResults(
    shirts: seq<Shirt<S, C>>,
    sizeCounts: seq<SizeCount<S>>,
    colorCounts: seq<ColorCount<C>>)
}
