/**
 * The loaded catalog and similarity matrix, and the part of `recommend`
 * that both front-ends share: resolving a title to its catalog position,
 * taking that row of the matrix, and ranking the row.
 */
module Catalog {
  import opened Wrappers
  import opened Ranking

  /** One catalog row: the external metadata id and the display title. */
  datatype Movie = Movie(movieId: int, title: string)

  /** The ways a recommendation request can fail. */
  datatype Error =
    | TitleNotFound          // no catalog title equals the request
    | RowMissing             // the matrix has no row at the title's position
    | CatalogIndexOutOfRange // a ranked column has no catalog row
    | MetadataUnavailable    // a poster lookup raised (only the variant without a try block)

  /**
   * `movies[movies['title'] == title].index[0]`: the first catalog position
   * holding the title, or nothing when no title is equal.
   */
  function FindTitle(catalog: seq<Movie>, title: string): (r: Option<nat>)
    ensures r.Some? ==> r.value < |catalog| && catalog[r.value].title == title
    ensures r.Some? ==> forall j :: 0 <= j < r.value ==> catalog[j].title != title
    ensures r.None? <==> forall j :: 0 <= j < |catalog| ==> catalog[j].title != title
  {
    if |catalog| == 0 then None
    else if catalog[0].title == title then Some(0)
    else match FindTitle(catalog[1..], title)
      case None => None
      case Some(j) => Some(j + 1)
  }

  /**
   * Title lookup, row fetch and ranking: the neighbours as (column, score)
   * pairs, or the error the lookup raises.
   */
  function RankedFor(catalog: seq<Movie>, similarity: seq<seq<Score>>, title: string): (r: Result<seq<Entry>, Error>)
    ensures r == Failure(TitleNotFound) <==> FindTitle(catalog, title).None?
    ensures r == Failure(RowMissing) <==> FindTitle(catalog, title).Some? && FindTitle(catalog, title).value >= |similarity|
    ensures r.Failure? ==> r.error == TitleNotFound || r.error == RowMissing
    ensures r.Success? ==>
      && FindTitle(catalog, title).Some? && FindTitle(catalog, title).value < |similarity|
      && |r.value| == Min(5, Max(0, |similarity[FindTitle(catalog, title).value]| - 1))
  {
    match FindTitle(catalog, title)
    case None => Failure(TitleNotFound)
    case Some(q) => if q < |similarity| then Success(Neighbours(similarity[q])) else Failure(RowMissing)
  }

  /**
   * When the title is found and has a row, there are min(5, max(0, N - 1))
   * neighbours, each a distinct column of the title's row with its own score;
   * scores do not increase, ties keep column order, and when the title's own
   * column scores strictly highest it is not among them.
   */
  lemma RankedForFacts(catalog: seq<Movie>, similarity: seq<seq<Score>>, title: string)
    requires FindTitle(catalog, title).Some? && FindTitle(catalog, title).value < |similarity|
    ensures RankedFor(catalog, similarity, title).Success?
    ensures var q := FindTitle(catalog, title).value;
      var row := similarity[q];
      var r := RankedFor(catalog, similarity, title).value;
      && |r| == Min(5, Max(0, |row| - 1))
      && (forall k :: 0 <= k < |r| ==> r[k].0 < |row| && r[k].1 == row[r[k].0])
      && (forall k, l :: 0 <= k < l < |r| ==> r[k].0 != r[l].0 && r[k].1 >= r[l].1)
      && (forall k, l :: 0 <= k < l < |r| && r[k].1 == r[l].1 ==> r[k].0 < r[l].0)
      && ((q < |row| && forall j :: 0 <= j < |row| && j != q ==> row[j] < row[q]) ==>
            forall k :: 0 <= k < |r| ==> r[k].0 != q)
  {
    var q := FindTitle(catalog, title).value;
    NeighboursRanked(similarity[q]);
    if q < |similarity[q]| && forall j :: 0 <= j < |similarity[q]| && j != q ==> similarity[q][j] < similarity[q][q] {
      StrictMaximumExcluded(similarity[q], q);
    }
  }
}
