/**
 * The neighbour ranking of `recommend`: the similarity row is paired with its
 * column indices, sorted by score in descending order with a stable sort, and
 * positions 1 to 5 of the sorted list are kept (the Python slice `[1:6]`).
 */
module Ranking {

  /** A similarity score; only comparisons between scores are used. */
  type Score = real

  /** One column of a similarity row: (column index, score). */
  type Entry = (nat, Score)

  /** Python's `list(enumerate(row))`. */
  function Enumerate(row: seq<Score>): (e: seq<Entry>)
    ensures |e| == |row|
    ensures forall i :: 0 <= i < |row| ==> e[i] == (i, row[i])
  {
    seq(|row|, i requires 0 <= i < |row| => (i, row[i]))
  }

  /** `a` is ranked strictly before `b`: higher score, or equal score and lower index. */
  predicate Before(a: Entry, b: Entry) {
    a.1 > b.1 || (a.1 == b.1 && a.0 < b.0)
  }

  /** Every entry comes strictly before every later one. */
  ghost predicate Ranked(l: seq<Entry>) {
    forall i, j :: 0 <= i < j < |l| ==> Before(l[i], l[j])
  }

  /** The column indices strictly increase, as they do in an enumerated row. */
  ghost predicate IndexAscending(l: seq<Entry>) {
    forall i, j :: 0 <= i < j < |l| ==> l[i].0 < l[j].0
  }

  /**
   * Inserts `x` in front of the first entry whose score is not greater than
   * its own, so that `x` stays ahead of later entries with an equal score.
   */
  function Insert(x: Entry, l: seq<Entry>): (r: seq<Entry>)
    ensures multiset(r) == multiset(l) + multiset{x}
    ensures |r| == |l| + 1
  {
    if |l| == 0 then [x]
    else if l[0].1 <= x.1 then [x] + l
    else
      assert l == [l[0]] + l[1..];
      [l[0]] + Insert(x, l[1..])
  }

  /** Stable sort by descending score: insertion sort from the last entry forward. */
  function SortDesc(s: seq<Entry>): (r: seq<Entry>)
    ensures multiset(r) == multiset(s)
    ensures |r| == |s|
  {
    if |s| == 0 then []
    else
      assert s == [s[0]] + s[1..];
      Insert(s[0], SortDesc(s[1..]))
  }

  /** Python's slice `s[lo:hi]` for non-negative bounds: both bounds are clamped to the length. */
  function Slice<T>(s: seq<T>, lo: nat, hi: nat): (r: seq<T>)
    ensures |r| == if lo <= hi && lo <= |s| then (if hi <= |s| then hi else |s|) - lo else 0
    ensures lo <= hi ==> forall k :: 0 <= k < |r| ==> r[k] == s[lo + k]
  {
    var h := if hi <= |s| then hi else |s|;
    var l := if lo <= h then lo else h;
    s[l..h]
  }

  /** The whole row, ranked. */
  function SortedRow(row: seq<Score>): seq<Entry>
  {
    SortDesc(Enumerate(row))
  }

  /** `sorted(list(enumerate(row)), reverse=True, key=lambda x: x[1])[1:6]`. */
  function Neighbours(row: seq<Score>): (r: seq<Entry>)
    ensures |r| == Min(5, Max(0, |row| - 1))
  {
    Slice(SortedRow(row), 1, 6)
  }

  function Min(a: int, b: int): int { if a <= b then a else b }

  function Max(a: int, b: int): int { if a >= b then a else b }

  // ---------------------------------------------------------------------------
  // The sort orders by descending score, ties by ascending index

  lemma {:induction false} InsertRanked(x: Entry, l: seq<Entry>)
    requires Ranked(l)
    requires forall e :: e in l ==> x.0 < e.0
    ensures Ranked(Insert(x, l))
  {
    if |l| == 0 {
    } else if l[0].1 <= x.1 {
      var r := [x] + l;
      forall i, j | 0 <= i < j < |r| ensures Before(r[i], r[j]) {
        if i == 0 {
          assert r[j] == l[j - 1] && l[j - 1] in l;
          assert l[0].1 >= l[j - 1].1 by {
            if j - 1 > 0 { assert Before(l[0], l[j - 1]); }
          }
        } else {
          assert r[i] == l[i - 1] && r[j] == l[j - 1];
        }
      }
    } else {
      var t := l[1..];
      assert Ranked(t) by {
        forall i, j | 0 <= i < j < |t| ensures Before(t[i], t[j]) {
          assert t[i] == l[i + 1] && t[j] == l[j + 1];
        }
      }
      assert forall e :: e in t ==> e in l;
      InsertRanked(x, t);
      var u := Insert(x, t);
      var r := [l[0]] + u;
      forall i, j | 0 <= i < j < |r| ensures Before(r[i], r[j]) {
        if i == 0 {
          assert r[j] == u[j - 1];
          assert u[j - 1] in multiset(u);
          assert u[j - 1] == x || u[j - 1] in t;
          if u[j - 1] != x {
            var m :| 0 <= m < |t| && t[m] == u[j - 1];
            assert l[m + 1] == t[m];
            assert Before(l[0], l[m + 1]);
          }
        } else {
          assert r[i] == u[i - 1] && r[j] == u[j - 1];
        }
      }
    }
  }

  /** Sorting a list whose indices ascend ranks it: scores descend, and ties keep index order. */
  lemma {:induction false} SortDescRanked(s: seq<Entry>)
    requires IndexAscending(s)
    ensures Ranked(SortDesc(s))
  {
    if |s| > 0 {
      var t := s[1..];
      assert IndexAscending(t) by {
        forall i, j | 0 <= i < j < |t| ensures t[i].0 < t[j].0 {
          assert t[i] == s[i + 1] && t[j] == s[j + 1];
        }
      }
      SortDescRanked(t);
      forall e | e in SortDesc(t) ensures s[0].0 < e.0 {
        assert e in multiset(t);
        var m :| 0 <= m < |t| && t[m] == e;
        assert s[m + 1] == e;
      }
      InsertRanked(s[0], SortDesc(t));
    }
  }

  // ---------------------------------------------------------------------------
  // The ranked permutation is unique

  /** Dropping the first entry keeps a list ranked. */
  lemma RankedTail(a: seq<Entry>)
    requires |a| > 0 && Ranked(a)
    ensures Ranked(a[1..])
  {
    var t := a[1..];
    forall i, j | 0 <= i < j < |t| ensures Before(t[i], t[j]) {
      assert t[i] == a[i + 1] && t[j] == a[j + 1];
    }
  }

  /** Two ranked lists with the same nonempty contents start with the same entry. */
  lemma RankedSameHead(a: seq<Entry>, b: seq<Entry>)
    requires |a| > 0 && |b| > 0
    requires multiset(a) == multiset(b)
    requires Ranked(a) && Ranked(b)
    ensures a[0] == b[0]
  {
    assert a[0] in multiset(b) && b[0] in multiset(a);
    var i :| 0 <= i < |a| && a[i] == b[0];
    var j :| 0 <= j < |b| && b[j] == a[0];
  }

  /**
   * Any two ranked lists holding the same entries are equal. So the sort
   * result does not depend on how it is computed: it is the one arrangement
   * of the row in (score descending, index ascending) order that Python's
   * stable `sorted(..., reverse=True)` also produces.
   */
  lemma {:induction false} RankedUnique(a: seq<Entry>, b: seq<Entry>)
    requires multiset(a) == multiset(b)
    requires Ranked(a) && Ranked(b)
    ensures a == b
  {
    assert |a| == |multiset(a)| == |multiset(b)| == |b|;
    if |a| > 0 {
      RankedSameHead(a, b);
      RankedTail(a);
      RankedTail(b);
      assert a == [a[0]] + a[1..] && b == [b[0]] + b[1..];
      assert multiset(a[1..]) == multiset(a) - multiset{a[0]};
      assert multiset(b[1..]) == multiset(b) - multiset{b[0]};
      RankedUnique(a[1..], b[1..]);
    }
  }

  /** The sorted row is the only ranked arrangement of the enumerated row. */
  lemma SortedRowIsTheRankedPermutation(row: seq<Score>, other: seq<Entry>)
    requires multiset(other) == multiset(Enumerate(row))
    requires Ranked(other)
    ensures other == SortedRow(row)
  {
    SortedRowFacts(row);
    RankedUnique(other, SortedRow(row));
  }

  /** A row whose enumeration is already ranked is left in place by the stable sort. */
  lemma SortedRowOfRanked(row: seq<Score>)
    requires Ranked(Enumerate(row))
    ensures SortedRow(row) == Enumerate(row)
  {
    SortedRowFacts(row);
    RankedUnique(Enumerate(row), SortedRow(row));
  }

  // ---------------------------------------------------------------------------
  // Facts about the sorted row and the kept neighbours

  /** The sorted row is a ranked permutation of the enumerated row. */
  lemma SortedRowFacts(row: seq<Score>)
    ensures multiset(SortedRow(row)) == multiset(Enumerate(row))
    ensures |SortedRow(row)| == |row|
    ensures Ranked(SortedRow(row))
    ensures forall k :: 0 <= k < |row| ==>
      SortedRow(row)[k].0 < |row| && SortedRow(row)[k].1 == row[SortedRow(row)[k].0]
  {
    var e := Enumerate(row);
    SortDescRanked(e);
    var s := SortedRow(row);
    forall k | 0 <= k < |row| ensures s[k].0 < |row| && s[k].1 == row[s[k].0] {
      assert s[k] in multiset(e);
      var m :| 0 <= m < |e| && e[m] == s[k];
    }
  }

  /**
   * Every neighbour is a column of the row with its own score, no column
   * appears twice, scores do not increase along the list, and equal scores
   * keep ascending column order.
   */
  lemma NeighboursRanked(row: seq<Score>)
    ensures forall k :: 0 <= k < |Neighbours(row)| ==>
      Neighbours(row)[k].0 < |row| && Neighbours(row)[k].1 == row[Neighbours(row)[k].0]
    ensures forall k, l :: 0 <= k < l < |Neighbours(row)| ==>
      Neighbours(row)[k].0 != Neighbours(row)[l].0
    ensures forall k, l :: 0 <= k < l < |Neighbours(row)| ==>
      Neighbours(row)[k].1 >= Neighbours(row)[l].1
    ensures forall k, l :: 0 <= k < l < |Neighbours(row)| && Neighbours(row)[k].1 == Neighbours(row)[l].1 ==>
      Neighbours(row)[k].0 < Neighbours(row)[l].0
  {
    SortedRowFacts(row);
    var s, n := SortedRow(row), Neighbours(row);
    forall k, l | 0 <= k < l < |n| ensures Before(n[k], n[l]) {
      assert n[k] == s[1 + k] && n[l] == s[1 + l];
    }
  }

  /** The first-ranked column of the whole row is never among the neighbours. */
  lemma TopRankedDropped(row: seq<Score>)
    requires |row| > 0
    ensures forall k :: 0 <= k < |Neighbours(row)| ==> Neighbours(row)[k].0 != SortedRow(row)[0].0
  {
    SortedRowFacts(row);
    var s, n := SortedRow(row), Neighbours(row);
    forall k | 0 <= k < |n| ensures n[k].0 != s[0].0 {
      assert n[k] == s[1 + k];
      assert Before(s[0], s[1 + k]);
    }
  }

  /** The first-ranked entry carries the highest score of the row. */
  lemma TopIsMaximal(row: seq<Score>)
    requires |row| > 0
    ensures SortedRow(row)[0].0 < |row|
    ensures forall j :: 0 <= j < |row| ==> row[j] <= SortedRow(row)[0].1
  {
    SortedRowFacts(row);
    var s := SortedRow(row);
    forall j | 0 <= j < |row| ensures row[j] <= s[0].1 {
      assert (j, row[j]) in multiset(s) by {
        assert Enumerate(row)[j] == (j, row[j]);
      }
      var p :| 0 <= p < |s| && s[p] == (j, row[j]);
      if p > 0 {
        assert Before(s[0], s[p]);
      }
    }
  }

  /** When column q scores strictly higher than every other column (the usual self-similarity), q is not recommended. */
  lemma StrictMaximumExcluded(row: seq<Score>, q: nat)
    requires q < |row|
    requires forall j :: 0 <= j < |row| && j != q ==> row[j] < row[q]
    ensures forall k :: 0 <= k < |Neighbours(row)| ==> Neighbours(row)[k].0 != q
  {
    SortedRowFacts(row);
    TopRankedDropped(row);
    TopIsMaximal(row);
    var t := SortedRow(row)[0].0;
    assert SortedRow(row)[0].1 == row[t];
    assert row[t] >= row[q];
    assert t == q;
  }

  /**
   * The neighbours are a top-five: every column that is neither the dropped
   * first one nor a neighbour scores no higher than every neighbour.
   */
  lemma NeighboursAreTop(row: seq<Score>, j: nat)
    requires j < |row|
    requires j != SortedRow(row)[0].0
    requires forall k :: 0 <= k < |Neighbours(row)| ==> Neighbours(row)[k].0 != j
    ensures forall k :: 0 <= k < |Neighbours(row)| ==> row[j] <= Neighbours(row)[k].1
  {
    SortedRowFacts(row);
    var s, n := SortedRow(row), Neighbours(row);
    assert (j, row[j]) in multiset(s) by {
      assert Enumerate(row)[j] == (j, row[j]);
    }
    var p :| 0 <= p < |s| && s[p] == (j, row[j]);
    forall i | 1 <= i <= |n| ensures s[i] == n[i - 1] {
      assert n[i - 1] == s[1 + (i - 1)];
    }
    assert p >= 1 + |n|;
    forall k | 0 <= k < |n| ensures row[j] <= n[k].1 {
      assert n[k] == s[1 + k];
      assert Before(s[1 + k], s[p]);
    }
  }
}
