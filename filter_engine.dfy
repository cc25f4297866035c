/**
 * The sidebar filter of the dashboard and the reductions it displays over the
 * filtered view: the four summary metrics and the per-category counts.
 */
module FilterEngine {
  import opened Restaurants
  import Table

  /** The sidebar's choices: allowed cities and categories, and two thresholds. */
  datatype Selection = Selection(
    cities: set<string>,
    categories: set<string>,
    minRating: real,
    minReviews: int)

  /** A row is kept when all four sidebar conditions hold. */
  predicate Keeps(r: Restaurant, sel: Selection)
  {
    && r.city in sel.cities
    && r.category in sel.categories
    && r.rating >= sel.minRating
    && r.reviews >= sel.minReviews
  }

  /** The boolean mask the four conditions build, one entry per row. */
  function Mask(sel: Selection): Restaurant -> bool
  {
    r => Keeps(r, sel)
  }

  /** The filtered view: the rows of `df` the mask keeps, in table order. */
  function Filter(df: seq<Restaurant>, sel: Selection): (view: seq<Restaurant>)
    ensures |view| <= |df|
    ensures forall r :: r in view <==>
      && r in df
      && r.city in sel.cities
      && r.category in sel.categories
      && r.rating >= sel.minRating
      && r.reviews >= sel.minReviews
  {
    Table.WhereMembers(df, Mask(sel));
    Table.Where(df, Mask(sel))
  }

  /**
   * The filtered view is a subsequence of the table: every row meeting the four
   * conditions appears, in the original order, and no other row does.
   */
  lemma FilterIsSubsequence(df: seq<Restaurant>, sel: Selection)
    ensures exists idx :: Table.OrderedSelection(Filter(df, sel), df, Mask(sel), idx)
  {
    Table.KeptIndicesSelect(df, Mask(sel));
    assert Table.OrderedSelection(Filter(df, sel), df, Mask(sel), Table.KeptIndices(df, Mask(sel)));
  }

  /** A kept row appears in the view exactly as often as in the table. */
  lemma FilterMultiplicity(df: seq<Restaurant>, sel: Selection)
    ensures forall r :: multiset(Filter(df, sel))[r] == if Keeps(r, sel) then multiset(df)[r] else 0
  {
    Table.WhereMultiplicity(df, Mask(sel));
  }

  /** When every row meets the four conditions the view is the whole table. */
  lemma FilterKeepsWholeTable(df: seq<Restaurant>, sel: Selection)
    requires forall j :: 0 <= j < |df| ==>
      && df[j].city in sel.cities
      && df[j].category in sel.categories
      && df[j].rating >= sel.minRating
      && df[j].reviews >= sel.minReviews
    ensures Filter(df, sel) == df
  {
    Table.WhereAll(df, Mask(sel));
  }

  // ---------------------------------------------------------------------------
  // Summary metrics

  /** The four metric cards shown above the charts; means are absent for an empty view. */
  datatype Summary = Summary(
    count: nat,
    averageRating: Option<real>,
    totalReviews: nat,
    averageDistance: Option<real>)

  function Ratings(view: seq<Restaurant>): (col: seq<real>)
    ensures |col| == |view|
  {
    seq(|view|, i requires 0 <= i < |view| => view[i].rating)
  }

  function Distances(view: seq<Restaurant>): (col: seq<real>)
    ensures |col| == |view|
  {
    seq(|view|, i requires 0 <= i < |view| => view[i].distance)
  }

  function ReviewCounts(view: seq<Restaurant>): (col: seq<nat>)
    ensures |col| == |view|
  {
    seq(|view|, i requires 0 <= i < |view| => view[i].reviews)
  }

  /** Column sum; 0 for an empty column, as in pandas. */
  function Sum(xs: seq<real>): real
  {
    if xs == [] then 0.0 else Sum(xs[..|xs| - 1]) + xs[|xs| - 1]
  }

  function SumCounts(xs: seq<nat>): nat
  {
    if xs == [] then 0 else SumCounts(xs[..|xs| - 1]) + xs[|xs| - 1]
  }

  /** Column mean, absent for an empty column. */
  function Mean(xs: seq<real>): (m: Option<real>)
    ensures m.None? <==> xs == []
  {
    if xs == [] then None else Some(Sum(xs) / |xs| as real)
  }

  function Summarize(view: seq<Restaurant>): (s: Summary)
    ensures s.count == |view|
    ensures s.averageRating.None? <==> view == []
    ensures s.averageDistance.None? <==> view == []
  {
    Summary(|view|, Mean(Ratings(view)), SumCounts(ReviewCounts(view)), Mean(Distances(view)))
  }

  lemma {:induction false} SumAtLeast(xs: seq<real>, lo: real)
    requires forall i :: 0 <= i < |xs| ==> lo <= xs[i]
    ensures |xs| as real * lo <= Sum(xs)
  {
    if xs != [] {
      SumAtLeast(xs[..|xs| - 1], lo);
    }
  }

  lemma {:induction false} SumAtMost(xs: seq<real>, hi: real)
    requires forall i :: 0 <= i < |xs| ==> xs[i] <= hi
    ensures Sum(xs) <= |xs| as real * hi
  {
    if xs != [] {
      SumAtMost(xs[..|xs| - 1], hi);
    }
  }

  /** A mean lies within any bounds that hold of every entry. */
  lemma MeanWithin(xs: seq<real>, lo: real, hi: real)
    requires forall i :: 0 <= i < |xs| ==> lo <= xs[i] <= hi
    ensures Mean(xs).Some? ==> lo <= Mean(xs).value <= hi
  {
    MeanAtLeast(xs, lo);
    if xs != [] {
      SumAtMost(xs, hi);
      var n := |xs| as real;
      assert Sum(xs) / n <= hi by {
        assert Sum(xs) <= n * hi;
      }
    }
  }

  /** A mean is at least any lower bound that every entry meets. */
  lemma MeanAtLeast(xs: seq<real>, lo: real)
    requires forall i :: 0 <= i < |xs| ==> lo <= xs[i]
    ensures Mean(xs).Some? ==> lo <= Mean(xs).value
  {
    if xs != [] {
      SumAtLeast(xs, lo);
      var n := |xs| as real;
      assert Sum(xs) / n >= lo by {
        assert Sum(xs) >= n * lo;
      }
    }
  }

  lemma {:induction false} SumCountsAtLeast(xs: seq<nat>, lo: int)
    requires forall i :: 0 <= i < |xs| ==> lo <= xs[i]
    ensures |xs| * lo <= SumCounts(xs)
  {
    if xs != [] {
      SumCountsAtLeast(xs[..|xs| - 1], lo);
      assert |xs| * lo == (|xs| - 1) * lo + lo;
    }
  }

  /** With nothing selected the count is 0, "Total Reviews" is 0 and both means are absent. */
  lemma EmptyViewSummary()
    ensures Summarize([]) == Summary(0, None, 0, None)
  {
  }

  /** An empty city or category choice filters out every row. */
  lemma EmptyChoiceFiltersAll(df: seq<Restaurant>, sel: Selection)
    requires sel.cities == {} || sel.categories == {}
    ensures Filter(df, sel) == []
    ensures Summarize(Filter(df, sel)) == Summary(0, None, 0, None)
  {
    Table.WhereNone(df, Mask(sel));
  }

  /** The "Average Rating" card never shows less than the minimum-rating slider. */
  lemma AverageRatingAtLeastMin(df: seq<Restaurant>, sel: Selection)
    ensures var s := Summarize(Filter(df, sel));
      s.averageRating.Some? ==> s.averageRating.value >= sel.minRating
  {
    var view := Filter(df, sel);
    var col := Ratings(view);
    forall i | 0 <= i < |col|
      ensures sel.minRating <= col[i]
    {
      assert view[i] in view;
    }
    MeanAtLeast(col, sel.minRating);
  }

  /** The "Average Rating" card stays within [0, 5] when every rating does. */
  lemma AverageRatingInScale(view: seq<Restaurant>)
    requires forall i :: 0 <= i < |view| ==> 0.0 <= view[i].rating <= 5.0
    ensures var s := Summarize(view);
      s.averageRating.Some? ==> 0.0 <= s.averageRating.value <= 5.0
  {
    MeanWithin(Ratings(view), 0.0, 5.0);
  }

  /** "Total Reviews" is at least the count times the minimum-reviews slider. */
  lemma TotalReviewsAtLeastMin(df: seq<Restaurant>, sel: Selection)
    ensures var s := Summarize(Filter(df, sel));
      s.totalReviews >= s.count * sel.minReviews
  {
    var view := Filter(df, sel);
    var col := ReviewCounts(view);
    forall i | 0 <= i < |col|
      ensures sel.minReviews <= col[i]
    {
      assert view[i] in view;
    }
    SumCountsAtLeast(col, sel.minReviews);
  }

  // ---------------------------------------------------------------------------
  // Per-category counts (value_counts of the Category column)

  /** Number of rows per category present in the view. */
  function CategoryCounts(view: seq<Restaurant>): (counts: map<string, nat>)
    ensures forall c :: c in counts ==> 1 <= counts[c] <= |view|
  {
    if view == [] then map[]
    else
      var counts := CategoryCounts(view[..|view| - 1]);
      var c := view[|view| - 1].category;
      counts[c := (if c in counts then counts[c] else 0) + 1]
  }

  /** The positions of the rows of category `c`. */
  ghost function CategoryRows(view: seq<Restaurant>, c: string): set<nat>
  {
    set i | 0 <= i < |view| && view[i].category == c
  }

  /** The counted categories are exactly those present in the view. */
  lemma {:induction false} CategoryCountsKeys(view: seq<Restaurant>)
    ensures CategoryCounts(view).Keys == set r | r in view :: r.category
  {
    if view != [] {
      var n := |view| - 1;
      var prefix := view[..n];
      CategoryCountsKeys(prefix);
      assert view == prefix + [view[n]];
      assert (set r | r in view :: r.category) == (set r | r in prefix :: r.category) + {view[n].category};
    }
  }

  /** Each counted category's count is the number of rows of that category. */
  lemma {:induction false} CategoryCountsCorrect(view: seq<Restaurant>)
    ensures forall c :: c in CategoryCounts(view) ==> CategoryCounts(view)[c] == |CategoryRows(view, c)|
  {
    if view != [] {
      var n := |view| - 1;
      var prefix := view[..n];
      CategoryCountsCorrect(prefix);
      var counts := CategoryCounts(prefix);
      var last := view[n].category;
      forall c | c in CategoryCounts(view)
        ensures CategoryCounts(view)[c] == |CategoryRows(view, c)|
      {
        if c == last {
          assert n !in CategoryRows(prefix, c);
          assert CategoryRows(view, c) == CategoryRows(prefix, c) + {n};
          if c !in counts {
            CategoryCountsKeys(prefix);
            assert CategoryRows(prefix, c) == {};
          }
        } else {
          assert c in counts;
          assert CategoryRows(view, c) == CategoryRows(prefix, c);
        }
      }
    }
  }

  /** Sum of all the values of a map. */
  ghost function MapTotal(m: map<string, nat>): nat
    decreases |m.Keys|
  {
    if m == map[] then 0
    else
      var k :| k in m;
      m[k] + MapTotal(m - {k})
  }

  lemma {:induction false} MapTotalRemove(m: map<string, nat>, k: string)
    requires k in m
    ensures MapTotal(m) == m[k] + MapTotal(m - {k})
    decreases |m.Keys|
  {
    var k0 :| k0 in m && MapTotal(m) == m[k0] + MapTotal(m - {k0});
    if k0 != k {
      MapTotalRemove(m - {k0}, k);
      MapTotalRemove(m - {k}, k0);
      assert m - {k0} - {k} == m - {k} - {k0};
    }
  }

  /** Counting one more row of category `c` raises the total by one. */
  lemma MapTotalIncrement(m: map<string, nat>, c: string)
    ensures MapTotal(m[c := (if c in m then m[c] else 0) + 1]) == MapTotal(m) + 1
  {
    var m' := m[c := (if c in m then m[c] else 0) + 1];
    MapTotalRemove(m', c);
    if c in m {
      MapTotalRemove(m, c);
      assert m' - {c} == m - {c};
    } else {
      assert m' - {c} == m;
    }
  }

  /** The per-category counts add up to "Total Restaurants". */
  lemma {:induction false} CategoryCountsAddUp(view: seq<Restaurant>)
    ensures MapTotal(CategoryCounts(view)) == Summarize(view).count
  {
    if view != [] {
      var n := |view| - 1;
      CategoryCountsAddUp(view[..n]);
      MapTotalIncrement(CategoryCounts(view[..n]), view[n].category);
    }
  }
}
