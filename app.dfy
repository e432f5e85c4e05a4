/**
 * `recommend` of the main front-end: the ranked neighbours are turned into
 * display records, one per neighbour in rank order, each with the details
 * fetched for that neighbour's movie id.
 */
module App {
  import opened Wrappers
  import opened Ranking
  import opened Catalog
  import opened Metadata

  /** The dict appended for one neighbour (`desc` carries the overview). */
  datatype Item = Item(
    title: string,
    poster: string,
    desc: string,
    rating: Option<real>,
    year: Option<string>,
    genres: seq<JValue>,
    runtime: Option<int>)

  /** `item` shows `movie` with the details `d` fetched for it. */
  predicate Shows(item: Item, movie: Movie, d: Details) {
    item == Item(movie.title, d.poster, d.overview, d.rating, d.year, d.genres, d.runtime)
  }

  /** Every ranked column names a catalog row (`movies.iloc[i[0]]` does not raise). */
  predicate InCatalog(ranked: seq<Entry>, catalog: seq<Movie>) {
    forall k :: 0 <= k < |ranked| ==> ranked[k].0 < |catalog|
  }

  /**
   * The loop over the ranked neighbours: it fails exactly when some ranked
   * column has no catalog row, and otherwise yields one item per neighbour,
   * in rank order, item k showing the k-th neighbour with the details
   * fetched for its movie id.
   */
  method Assemble(catalog: seq<Movie>, ranked: seq<Entry>, net: int -> Response, py: Builtins)
    returns (r: Result<seq<Item>, Error>)
    ensures r.Success? <==> InCatalog(ranked, catalog)
    ensures r.Failure? ==> r.error == CatalogIndexOutOfRange
    ensures r.Success? ==> |r.value| == |ranked|
    ensures r.Success? ==> forall k :: 0 <= k < |ranked| ==>
      Shows(r.value[k], catalog[ranked[k].0], ExtractDetails(net(catalog[ranked[k].0].movieId), py))
  {
    var items: seq<Item> := [];
    var k := 0;
    while k < |ranked|
      invariant 0 <= k <= |ranked|
      invariant |items| == k
      invariant forall l :: 0 <= l < k ==> ranked[l].0 < |catalog|
      invariant forall l :: 0 <= l < k ==>
        Shows(items[l], catalog[ranked[l].0], ExtractDetails(net(catalog[ranked[l].0].movieId), py))
    {
      var j := ranked[k].0;
      if j >= |catalog| {
        return Failure(CatalogIndexOutOfRange);
      }
      var movie := catalog[j];
      var details := FetchDetails(net(movie.movieId), py);
      items := items + [Item(movie.title, details.poster, details.overview, details.rating,
                             details.year, details.genres, details.runtime)];
      k := k + 1;
    }
    return Success(items);
  }

  /**
   * `recommend`: the request fails as the lookup fails; otherwise it is the
   * loop over the at most five ranked neighbours.
   */
  method Recommend(catalog: seq<Movie>, similarity: seq<seq<Score>>, title: string,
                   net: int -> Response, py: Builtins)
    returns (r: Result<seq<Item>, Error>)
    ensures RankedFor(catalog, similarity, title).Failure? ==>
      r == Failure(RankedFor(catalog, similarity, title).error)
    ensures RankedFor(catalog, similarity, title).Success? ==>
      var ranked := RankedFor(catalog, similarity, title).value;
      && (r.Success? <==> InCatalog(ranked, catalog))
      && (r.Failure? ==> r.error == CatalogIndexOutOfRange)
      && (r.Success? ==> |r.value| == |ranked| <= 5)
      && (r.Success? ==> forall k :: 0 <= k < |ranked| ==>
            Shows(r.value[k], catalog[ranked[k].0], ExtractDetails(net(catalog[ranked[k].0].movieId), py)))
  {
    var lookup := RankedFor(catalog, similarity, title);
    if lookup.Failure? {
      return Failure(lookup.error);
    }
    r := Assemble(catalog, lookup.value, net, py);
  }
}
