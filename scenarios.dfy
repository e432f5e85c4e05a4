/** Small catalogs and rows that pin down the ranking. */
module Scenarios {
  import opened Wrappers
  import opened Ranking
  import opened Catalog

  /**
   * Three movies whose first row is [1.0, 0.9, 0.2]: asking for "A" drops
   * "A" itself and returns "B" then "C".
   */
  lemma ThreeMovieCatalog()
    ensures var catalog := [Movie(1, "A"), Movie(2, "B"), Movie(3, "C")];
      var similarity := [[1.0, 0.9, 0.2], [0.9, 1.0, 0.5], [0.2, 0.5, 1.0]];
      RankedFor(catalog, similarity, "A") == Success([(1, 0.9), (2, 0.2)])
  {
    DescendingRow(1.0, 0.9, 0.2);
    var catalog := [Movie(1, "A"), Movie(2, "B"), Movie(3, "C")];
    assert catalog[0].title == "A";
    assert FindTitle(catalog, "A") == Some(0);
  }

  /** A row with strictly descending scores keeps its order; the first column is dropped. */
  lemma DescendingRow(x: Score, y: Score, z: Score)
    requires x > y > z
    ensures Neighbours([x, y, z]) == [(1, y), (2, z)]
  {
    var row := [x, y, z];
    var e: seq<Entry> := [(0, x), (1, y), (2, z)];
    assert Enumerate(row) == e;
    assert Ranked(e) by {
      forall i, j | 0 <= i < j < |e| ensures Before(e[i], e[j]) { }
    }
    SortedRowOfRanked(row);
    assert Neighbours(row) == Slice(e, 1, 6);
  }

  /**
   * When the second column ties with the first, the stable sort ranks the
   * first column first, so it is the one dropped and the second column is
   * recommended: for the query at position 1, its own column comes back.
   */
  lemma TieAtTopKeepsSelf(x: Score, z: Score)
    requires x > z
    ensures Neighbours([x, x, z]) == [(1, x), (2, z)]
  {
    var row := [x, x, z];
    var e: seq<Entry> := [(0, x), (1, x), (2, z)];
    assert Enumerate(row) == e;
    assert Ranked(e) by {
      forall i, j | 0 <= i < j < |e| ensures Before(e[i], e[j]) { }
    }
    SortedRowOfRanked(row);
    assert Neighbours(row) == Slice(e, 1, 6);
  }

  /** A catalog of one movie gives no neighbours, and no error. */
  lemma SingleMovieCatalog(score: Score)
    ensures RankedFor([Movie(7, "Solo")], [[score]], "Solo") == Success([])
  {
  }
}
