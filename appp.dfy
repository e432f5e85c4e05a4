/**
 * `recommend` of the second front-end: the same lookup and ranking, with
 * the result returned as two parallel lists, titles and poster URLs. Its
 * poster lookup has no try block, so a failing call fails the request.
 */
module Appp {
  import opened Wrappers
  import opened Ranking
  import opened Catalog
  import opened Metadata

  /** The neighbour has a catalog row and its poster lookup does not raise. */
  predicate Resolves(e: Entry, catalog: seq<Movie>, net: int -> Response, py: Builtins) {
    e.0 < |catalog| && FetchPoster(net(catalog[e.0].movieId), py).Some?
  }

  /** The error the loop raises at a neighbour that does not resolve. */
  function FailureAt(e: Entry, catalog: seq<Movie>): Error {
    if e.0 < |catalog| then MetadataUnavailable else CatalogIndexOutOfRange
  }

  /** Position k holds the first neighbour that does not resolve. */
  ghost predicate FirstUnresolved(ranked: seq<Entry>, k: int, catalog: seq<Movie>, net: int -> Response, py: Builtins) {
    && 0 <= k < |ranked|
    && !Resolves(ranked[k], catalog, net, py)
    && (forall l :: 0 <= l < k ==> Resolves(ranked[l], catalog, net, py))
  }

  /**
   * The loop over the ranked neighbours: it succeeds exactly when every
   * neighbour resolves, with two lists of the neighbours' length whose
   * position k holds the k-th neighbour's title and poster; when it fails,
   * it fails with the error of the first neighbour that does not resolve,
   * whose position is returned in `bad`.
   */
  method Assemble(catalog: seq<Movie>, ranked: seq<Entry>, net: int -> Response, py: Builtins)
    returns (r: Result<(seq<string>, seq<string>), Error>, ghost bad: int)
    ensures r.Success? <==> forall k :: 0 <= k < |ranked| ==> Resolves(ranked[k], catalog, net, py)
    ensures r.Success? ==> |r.value.0| == |r.value.1| == |ranked|
    ensures r.Success? ==> forall k :: 0 <= k < |ranked| ==>
      && r.value.0[k] == catalog[ranked[k].0].title
      && r.value.1[k] == FetchPoster(net(catalog[ranked[k].0].movieId), py).value
    ensures r.Failure? ==> FirstUnresolved(ranked, bad, catalog, net, py) && r.error == FailureAt(ranked[bad], catalog)
  {
    bad := 0;
    var titles: seq<string> := [];
    var posters: seq<string> := [];
    var k := 0;
    while k < |ranked|
      invariant 0 <= k <= |ranked|
      invariant |titles| == |posters| == k
      invariant forall l :: 0 <= l < k ==> Resolves(ranked[l], catalog, net, py)
      invariant forall l :: 0 <= l < k ==>
        && titles[l] == catalog[ranked[l].0].title
        && posters[l] == FetchPoster(net(catalog[ranked[l].0].movieId), py).value
    {
      var j := ranked[k].0;
      if j >= |catalog| {
        return Failure(CatalogIndexOutOfRange), k;
      }
      var movie := catalog[j];
      titles := titles + [movie.title];
      var poster := FetchPoster(net(movie.movieId), py);
      if poster.None? {
        return Failure(MetadataUnavailable), k;
      }
      posters := posters + [poster.value];
      k := k + 1;
    }
    return Success((titles, posters)), 0;
  }

  /**
   * `recommend`: the request fails as the lookup fails; otherwise it is the
   * loop over the at most five ranked neighbours.
   */
  method Recommend(catalog: seq<Movie>, similarity: seq<seq<Score>>, title: string,
                   net: int -> Response, py: Builtins)
    returns (r: Result<(seq<string>, seq<string>), Error>)
    ensures RankedFor(catalog, similarity, title).Failure? ==>
      r == Failure(RankedFor(catalog, similarity, title).error)
    ensures RankedFor(catalog, similarity, title).Success? ==>
      var ranked := RankedFor(catalog, similarity, title).value;
      && (r.Success? <==> forall k :: 0 <= k < |ranked| ==> Resolves(ranked[k], catalog, net, py))
      && (r.Success? ==> |r.value.0| == |r.value.1| == |ranked| <= 5)
      && (r.Success? ==> forall k :: 0 <= k < |ranked| ==>
            && r.value.0[k] == catalog[ranked[k].0].title
            && r.value.1[k] == FetchPoster(net(catalog[ranked[k].0].movieId), py).value)
      && (r.Failure? ==>
            exists k :: FirstUnresolved(ranked, k, catalog, net, py) && r.error == FailureAt(ranked[k], catalog))
  {
    var lookup := RankedFor(catalog, similarity, title);
    if lookup.Failure? {
      return Failure(lookup.error);
    }
    ghost var bad;
    r, bad := Assemble(catalog, lookup.value, net, py);
  }
}
