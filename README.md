# Restaurant analytics dashboard — filter and recommender model

The dashboard (`dashboard.py`) loads a table of restaurants (city, name,
category, Google rating, review count, distance in meters, coordinates) and
holds two small pieces of table logic between its widgets and charts:

- the **filter engine**: the sidebar keeps the rows whose city and category are
  among the chosen ones and whose rating and review count reach two
  thresholds; the view keeps the table's row order. Four metric cards (count,
  average rating, total reviews, average distance) and a per-category count
  are computed from that view;
- the **recommender**: one city, one category and a maximum distance select
  rows; each is scored as `rating * 0.7 + reviews / maxReviews * 0.3`, with
  `maxReviews` the maximum within the selection; the five best scores are
  shown in descending order, or a "no restaurants found" warning when nothing
  is selected.

This project states both as pure Dafny functions over `seq<Restaurant>` and
proves what they promise:

- `restaurants.dfy`: the row record and an `Option` for absent means.
- `table.dfy`: selection by a boolean mask (`df[mask]`). The kept rows form a
  subsequence of the table: the passing rows, at increasing positions, each as
  often as in the table.
- `filter_engine.dfy`: the filter, the summary metrics and the per-category counts.
- `recommender.dfy`: the selection, the scoring, the ranking and the top five.

Ratings, distances and scores are exact `real`s, and review counts are `nat`s.

## Model

| member | source | states |
|---|---|---|
| `Table.Where` | dashboard.py:20-23 | the masked view never has more rows than the table |
| `Table.WhereMembers` | dashboard.py:20-23 | a value is in the masked view exactly when it is a row of the table that passes the mask |
| `Table.KeptIndicesSelect` | dashboard.py:20-23 | the masked view is the table's passing rows at strictly increasing positions; a position is taken exactly when its row passes |
| `Table.WhereMultiplicity` | dashboard.py:20-23 | each passing row occurs in the view as often as in the table; a failing row does not occur |
| `Table.WhereAll` | dashboard.py:20-23 | a mask every row passes returns the table unchanged |
| `Table.WhereNone` | dashboard.py:20-23 | a mask no row passes returns an empty view |
| `FilterEngine.Keeps` | dashboard.py:20-23 | the four-way conjunction of the sidebar mask; its meaning over a table is stated by `Filter`, `FilterIsSubsequence` and `FilterMultiplicity` |
| `FilterEngine.Filter` | dashboard.py:20-23 | a row is in the view exactly when it is in the table, its city and category are chosen, its rating is at least the minimum and its review count at least the minimum |
| `FilterEngine.FilterIsSubsequence` | dashboard.py:20-23 | the view is a subsequence of the table: every row meeting the four conditions appears, in table order, and no other row |
| `FilterEngine.FilterMultiplicity` | dashboard.py:20-23 | a kept row appears in the view exactly as often as in the table, a rejected one never |
| `FilterEngine.FilterKeepsWholeTable` | dashboard.py:20-23 | with all cities and categories chosen and both thresholds at or below every row's values, the view is the whole table |
| `FilterEngine.EmptyChoiceFiltersAll` | dashboard.py:20-21 | an empty city or category choice gives an empty view, count 0, total reviews 0 and absent means |
| `FilterEngine.Mean` | dashboard.py:31-33 | a column mean is absent exactly when the column is empty |
| `FilterEngine.Summarize` | dashboard.py:30-33 | "Total Restaurants" is the view's length; both averages are absent exactly when the view is empty |
| `FilterEngine.EmptyViewSummary` | dashboard.py:30-33 | the empty view summarises to count 0, total reviews 0 and no averages |
| `FilterEngine.MeanAtLeast` | dashboard.py:31-33 | a mean is at least any lower bound that every entry meets |
| `FilterEngine.MeanWithin` | dashboard.py:31-33 | a mean lies between any lower and upper bound that every entry meets |
| `FilterEngine.AverageRatingAtLeastMin` | dashboard.py:31 | the "Average Rating" card of the filtered view is never below the minimum-rating slider |
| `FilterEngine.AverageRatingInScale` | dashboard.py:31 | with all ratings in [0, 5] the average rating is in [0, 5] |
| `FilterEngine.TotalReviewsAtLeastMin` | dashboard.py:32 | "Total Reviews" is at least the count times the minimum-reviews slider |
| `FilterEngine.CategoryCounts` | dashboard.py:38 | `value_counts` of the Category column: every count is between 1 and the view's length; `CategoryCountsKeys`, `CategoryCountsCorrect` and `CategoryCountsAddUp` state what the counts are |
| `FilterEngine.CategoryCountsKeys` | dashboard.py:38 | the counted categories are exactly the categories present in the view |
| `FilterEngine.CategoryCountsCorrect` | dashboard.py:38 | each counted category's count is the number of rows of that category in the view |
| `FilterEngine.CategoryCountsAddUp` | dashboard.py:38 | the per-category counts add up to "Total Restaurants" |
| `Recommender.Matches` | dashboard.py:94-96 | the three-way conjunction of the recommender mask; its meaning over a table is stated by `Select` and `SelectMultiplicity` |
| `Recommender.Select` | dashboard.py:94-96 | a row is selected exactly when it is in the table with the chosen city, the chosen category and a distance within the maximum |
| `Recommender.SelectMultiplicity` | dashboard.py:94-96 | a matching row appears in the selection as often as in the table, a non-matching row never |
| `Recommender.MaxReviews` | dashboard.py:100 | the normaliser is the largest review count of the selection and is held by a selected row |
| `Recommender.ReviewTerm` | dashboard.py:100 | the review part of the score is never negative and is 0 exactly when the row has no reviews or the selection's maximum is 0; `ReviewTermBounds` bounds it by 0.3 |
| `Recommender.Score` | dashboard.py:100 | the score is at least `rating*0.7` and, for a review count within the maximum, at most `rating*0.7 + 0.3`; `ScoreMonotone` and `ScoresFollowFormula` state the rest |
| `Recommender.ReviewTermBounds` | dashboard.py:100 | the review term is in [0, 0.3], equals 0.3 exactly for a row holding a positive maximum, and is 0 for a row without reviews |
| `Recommender.ScoreMonotone` | dashboard.py:100 | a row with a rating and a review count at least as high never scores lower |
| `Recommender.ScoreAll` | dashboard.py:100 | the score column holds one entry per selected row, in order, scored against the selection's maximum |
| `Recommender.ScoresFollowFormula` | dashboard.py:100 | with a positive maximum each score is `rating*0.7 + reviews/max*0.3`, its review part in [0, 0.3] and 0.3 for the rows holding the maximum |
| `Recommender.ZeroReviewsScoreByRating` | dashboard.py:100 | when no selected row has reviews each score is `rating*0.7`, so ranking falls back to rating |
| `Recommender.ScoringExample` | dashboard.py:100 | review counts 0, 50, 100 with ratings 4.0, 4.5, 4.8 score 2.8, 3.3 and 3.66 |
| `Recommender.Insert` | dashboard.py:101 | inserting into a ranking gives a ranking with exactly one more entry |
| `Recommender.SortByScore` | dashboard.py:101 | the sort yields a permutation of the scored rows with non-increasing scores |
| `Recommender.Rank` | dashboard.py:101 | the top list has min(5, selection size) entries, non-increasing scores, is drawn without repetition from the scored selection, and each entry is a selected row with its own score |
| `Recommender.RankIsTopK` | dashboard.py:101 | every scored row left out of the top list scores no higher than any row in it |
| `Recommender.Recommend` | dashboard.py:99-110 | the warning is given exactly when the selection is empty; otherwise the cards are min(5, selection size) selected rows, each with its own score, in non-increasing score order, and equal `Rank` of the selection so that `RankIsTopK` applies to them |

## Left out

- Loading the CSV (dashboard.py:8) and the CSV export (dashboard.py:82-83): file I/O and serialisation done by pandas. The table is a parameter of every function.
- Streamlit widgets, layout and metric display (dashboard.py:10-17, 26-35, 89-91, 105-108): UI. The slider and multiselect values are the `Selection` and `Query` parameters.
- The Plotly charts, the review histogram binning (dashboard.py:40-56) and the per-city average rating feeding one chart (dashboard.py:47): rendering by a foreign library.
- The Folium map, its centre and its markers (dashboard.py:60-74): rendering, plus a float average of coordinates that nothing else uses.
- Display rounding (`round` at dashboard.py:31, 33, 107) and IEEE floating point: ratings, distances, means and scores are exact reals.
- Means of an empty view: pandas yields NaN and the card shows it; the model returns an absent value instead.
- The order of `value_counts` (dashboard.py:38): pandas lists categories by descending count; the model's `map` keeps the counts but not that order, which only the left-out bar chart uses.
- The order of rows with equal scores: `sort_values` uses pandas' default, non-stable sort, so no order among ties is promised. The model's insertion sort happens to keep table order for ties, but no contract states it.
- Recommender.ReviewTerm: when every selected row has 0 reviews the source divides 0 by 0 and every score is NaN (such rows then sort in no meaningful order). The model departs from the source here and takes the review term as 0, so ranking falls back to rating alone.
