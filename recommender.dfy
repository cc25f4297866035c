/**
 * The "Smart Restaurant Recommender": a single city, category and maximum
 * distance select rows; each selected row gets a weighted score of its rating
 * and its review count relative to the selection's maximum; the five best
 * scores are shown, or a warning when nothing is selected.
 */
module Recommender {
  import opened Restaurants
  import Table

  /** How many recommendations are shown (`head(5)`). */
  const TOP_K: nat := 5
  const RATING_WEIGHT: real := 0.7
  const REVIEW_WEIGHT: real := 0.3

  /** The recommender's own inputs, independent of the sidebar filter. */
  datatype Query = Query(city: string, category: string, maxDistance: real)

  /** A selected row together with its computed score. */
  datatype Scored = Scored(row: Restaurant, score: real)

  /** Either the "no restaurants found" warning or the ranked cards. */
  datatype Recommendation = NoMatches | Top(picks: seq<Scored>)

  predicate Matches(r: Restaurant, q: Query)
  {
    r.city == q.city && r.category == q.category && r.distance <= q.maxDistance
  }

  function Mask(q: Query): Restaurant -> bool
  {
    r => Matches(r, q)
  }

  /** The rows of the chosen city and category within the maximum distance, in table order. */
  function Select(df: seq<Restaurant>, q: Query): (sel: seq<Restaurant>)
    ensures |sel| <= |df|
    ensures forall r :: r in sel <==>
      r in df && r.city == q.city && r.category == q.category && r.distance <= q.maxDistance
  {
    Table.WhereMembers(df, Mask(q));
    Table.Where(df, Mask(q))
  }

  /** A matching row appears in the selection exactly as often as in the table. */
  lemma SelectMultiplicity(df: seq<Restaurant>, q: Query)
    ensures forall r :: multiset(Select(df, q))[r] == if Matches(r, q) then multiset(df)[r] else 0
  {
    Table.WhereMultiplicity(df, Mask(q));
  }

  /** The largest review count of a non-empty selection. */
  function MaxReviews(sel: seq<Restaurant>): (m: nat)
    requires sel != []
    ensures forall i :: 0 <= i < |sel| ==> sel[i].reviews <= m
    ensures exists i :: 0 <= i < |sel| && sel[i].reviews == m
  {
    if |sel| == 1 then sel[0].reviews
    else
      var m := MaxReviews(sel[..|sel| - 1]);
      if sel[|sel| - 1].reviews > m then sel[|sel| - 1].reviews else m
  }

  /**
   * The review part of the score: the review count normalised by the
   * selection's maximum, weighted by 0.3; 0 when that maximum is 0.
   */
  function ReviewTerm(reviews: nat, maxReviews: nat): (t: real)
    ensures 0.0 <= t
    ensures t == 0.0 <==> reviews == 0 || maxReviews == 0
  {
    if maxReviews == 0 then 0.0 else reviews as real / maxReviews as real * REVIEW_WEIGHT
  }

  /** The weighted score; the review count adds between 0 and 0.3 to the weighted rating. */
  function Score(r: Restaurant, maxReviews: nat): (score: real)
    ensures r.rating * 0.7 <= score
    ensures r.reviews <= maxReviews ==> score <= r.rating * 0.7 + 0.3
  {
    var term := ReviewTerm(r.reviews, maxReviews);
    assert r.reviews <= maxReviews ==> term <= REVIEW_WEIGHT by {
      if r.reviews <= maxReviews {
        ReviewTermBounds(r.reviews, maxReviews);
      }
    }
    r.rating * RATING_WEIGHT + term
  }

  /**
   * The review term lies in [0, 0.3]; it is 0.3 exactly for a row holding the
   * (positive) maximum and 0 for a row without reviews.
   */
  lemma ReviewTermBounds(reviews: nat, maxReviews: nat)
    requires reviews <= maxReviews
    ensures 0.0 <= ReviewTerm(reviews, maxReviews) <= 0.3
    ensures ReviewTerm(reviews, maxReviews) == 0.3 <==> reviews == maxReviews > 0
    ensures reviews == 0 ==> ReviewTerm(reviews, maxReviews) == 0.0
  {
    if maxReviews > 0 {
      var ratio := reviews as real / maxReviews as real;
      assert 0.0 <= ratio <= 1.0;
      assert ratio == 1.0 <==> reviews == maxReviews;
    }
  }

  /** A better rating with at least as many reviews never scores lower. */
  lemma ScoreMonotone(a: Restaurant, b: Restaurant, maxReviews: nat)
    requires a.rating <= b.rating && a.reviews <= b.reviews
    ensures Score(a, maxReviews) <= Score(b, maxReviews)
  {
    if maxReviews > 0 {
      var m := maxReviews as real;
      var x, y := a.reviews as real / m, b.reviews as real / m;
      var gap := (b.reviews - a.reviews) as real;
      assert gap / m >= 0.0;
      assert y - x == gap / m;
      assert ReviewTerm(a.reviews, maxReviews) == x * REVIEW_WEIGHT;
      assert ReviewTerm(b.reviews, maxReviews) == y * REVIEW_WEIGHT;
    }
  }

  /** The `Score` column: every selected row scored against the selection's maximum. */
  function ScoreAll(sel: seq<Restaurant>): (scored: seq<Scored>)
    requires sel != []
    ensures |scored| == |sel|
    ensures forall i :: 0 <= i < |sel| ==> scored[i] == Scored(sel[i], Score(sel[i], MaxReviews(sel)))
  {
    var m := MaxReviews(sel);
    seq(|sel|, i requires 0 <= i < |sel| => Scored(sel[i], Score(sel[i], m)))
  }

  /**
   * For a selection with some reviews, each score is rating * 0.7 plus the
   * review count over the maximum times 0.3; that review part is within
   * [0, 0.3] and is 0.3 for the rows holding the maximum.
   */
  lemma ScoresFollowFormula(sel: seq<Restaurant>)
    requires sel != [] && MaxReviews(sel) > 0
    ensures forall i :: 0 <= i < |sel| ==>
      var m := MaxReviews(sel);
      var reviewPart := ScoreAll(sel)[i].score - sel[i].rating * 0.7;
      && reviewPart == sel[i].reviews as real / m as real * 0.3
      && 0.0 <= reviewPart <= 0.3
      && (sel[i].reviews == m ==> reviewPart == 0.3)
  {
    forall i | 0 <= i < |sel| {
      ReviewTermBounds(sel[i].reviews, MaxReviews(sel));
    }
  }

  /** With no reviews anywhere in the selection, scores are the weighted ratings alone. */
  lemma ZeroReviewsScoreByRating(sel: seq<Restaurant>)
    requires sel != []
    requires forall i :: 0 <= i < |sel| ==> sel[i].reviews == 0
    ensures forall i :: 0 <= i < |sel| ==> ScoreAll(sel)[i].score == sel[i].rating * 0.7
  {
    var i :| 0 <= i < |sel| && sel[i].reviews == MaxReviews(sel);
  }

  /** Review counts 0, 50, 100 with ratings 4.0, 4.5, 4.8 score 2.8, 3.3 and 3.66. */
  lemma ScoringExample(a: Restaurant, b: Restaurant, c: Restaurant)
    requires a.reviews == 0 && a.rating == 4.0
    requires b.reviews == 50 && b.rating == 4.5
    requires c.reviews == 100 && c.rating == 4.8
    ensures MaxReviews([a, b, c]) == 100
    ensures ScoreAll([a, b, c]) == [Scored(a, 2.8), Scored(b, 3.3), Scored(c, 3.66)]
  {
    assert MaxReviews([a, b]) == 50 by {
      assert [a, b][..1] == [a];
    }
    assert [a, b, c][..2] == [a, b];
  }

  // ---------------------------------------------------------------------------
  // Ranking

  /** Scores never increase from front to back. */
  predicate NonIncreasing(s: seq<Scored>)
  {
    forall i, j :: 0 <= i < j < |s| ==> s[i].score >= s[j].score
  }

  function Insert(x: Scored, s: seq<Scored>): (t: seq<Scored>)
    requires NonIncreasing(s)
    ensures NonIncreasing(t)
    ensures multiset(t) == multiset(s) + multiset{x}
  {
    if s == [] || x.score >= s[0].score then [x] + s
    else
      assert s == [s[0]] + s[1..];
      assert NonIncreasing(s[1..]);
      var rest := Insert(x, s[1..]);
      BoundedByHead(s[0], rest, x, s[1..]);
      ConsRanking(s[0], rest);
      [s[0]] + rest
  }

  /** An entry scoring at least as much as every entry of a ranking can lead it. */
  lemma ConsRanking(h: Scored, rest: seq<Scored>)
    requires NonIncreasing(rest)
    requires forall j :: 0 <= j < |rest| ==> rest[j].score <= h.score
    ensures NonIncreasing([h] + rest)
  {
  }

  /** Inserting below the head keeps every entry of the rest at or under the head's score. */
  lemma BoundedByHead(h: Scored, rest: seq<Scored>, x: Scored, tail: seq<Scored>)
    requires multiset(rest) == multiset(tail) + multiset{x}
    requires forall j :: 0 <= j < |tail| ==> tail[j].score <= h.score
    requires x.score <= h.score
    ensures forall j :: 0 <= j < |rest| ==> rest[j].score <= h.score
  {
    forall j | 0 <= j < |rest|
      ensures rest[j].score <= h.score
    {
      assert rest[j] in multiset(rest);
      if rest[j] != x {
        assert rest[j] in tail;
      }
    }
  }

  /**
   * The rows ordered by descending score. Which of several equal-score rows
   * comes first is not promised.
   */
  function SortByScore(s: seq<Scored>): (t: seq<Scored>)
    ensures NonIncreasing(t)
    ensures multiset(t) == multiset(s)
  {
    if s == [] then []
    else
      assert s == [s[0]] + s[1..];
      Insert(s[0], SortByScore(s[1..]))
  }

  /**
   * The first min(5, |sel|) rows of the selection in descending score order,
   * each a distinct selected row carrying its own score.
   */
  function Rank(sel: seq<Restaurant>): (picks: seq<Scored>)
    requires sel != []
    ensures |picks| == if |sel| < TOP_K then |sel| else TOP_K
    ensures NonIncreasing(picks)
    ensures multiset(picks) <= multiset(ScoreAll(sel))
    ensures forall p :: p in picks ==> p.row in sel && p.score == Score(p.row, MaxReviews(sel))
  {
    var all := ScoreAll(sel);
    var ranked := SortByScore(all);
    assert |ranked| == |all| by {
      assert |multiset(ranked)| == |multiset(all)|;
    }
    var k := if |ranked| < TOP_K then |ranked| else TOP_K;
    PrefixOfRanking(ranked, k);
    ScoredRows(sel);
    DrawnFrom(ranked[..k], all);
    ranked[..k]
  }

  lemma DrawnFrom(picks: seq<Scored>, all: seq<Scored>)
    requires multiset(picks) <= multiset(all)
    ensures forall p :: p in picks ==> p in all
  {
    forall p | p in picks
      ensures p in all
    {
      assert p in multiset(picks);
    }
  }

  /**
   * The recommender: the "no restaurants found" warning exactly when the
   * selection is empty; otherwise the ranked picks of the selection.
   */
  function Recommend(df: seq<Restaurant>, q: Query): (rec: Recommendation)
    ensures rec.NoMatches? <==> Select(df, q) == []
    ensures rec.Top? ==>
      var sel := Select(df, q);
      && |rec.picks| == (if |sel| < TOP_K then |sel| else TOP_K)
      && NonIncreasing(rec.picks)
      && multiset(rec.picks) <= multiset(ScoreAll(sel))
      && forall p :: p in rec.picks ==> p.row in sel && p.score == Score(p.row, MaxReviews(sel))
    ensures rec.Top? ==> rec.picks == Rank(Select(df, q))
  {
    var sel := Select(df, q);
    if sel == [] then NoMatches else Top(Rank(sel))
  }

  /** Each scored entry is a selected row with its own score. */
  lemma ScoredRows(sel: seq<Restaurant>)
    requires sel != []
    ensures forall p :: p in ScoreAll(sel) ==> p.row in sel && p.score == Score(p.row, MaxReviews(sel))
  {
    forall p | p in ScoreAll(sel)
      ensures p.row in sel && p.score == Score(p.row, MaxReviews(sel))
    {
      var i :| 0 <= i < |ScoreAll(sel)| && ScoreAll(sel)[i] == p;
    }
  }

  /** A prefix of a ranking is a ranking drawn from it. */
  lemma PrefixOfRanking(ranked: seq<Scored>, k: nat)
    requires k <= |ranked| && NonIncreasing(ranked)
    ensures NonIncreasing(ranked[..k])
    ensures multiset(ranked) == multiset(ranked[..k]) + multiset(ranked[k..])
  {
    assert ranked == ranked[..k] + ranked[k..];
  }

  /**
   * The picks are the best of the selection: a selected row left out (or
   * picked fewer times than it occurs) scores no higher than any pick.
   */
  lemma RankIsTopK(sel: seq<Restaurant>)
    requires sel != []
    ensures forall p, s :: p in Rank(sel) && multiset(ScoreAll(sel))[s] > multiset(Rank(sel))[s] ==> s.score <= p.score
  {
    var ranked := SortByScore(ScoreAll(sel));
    var k := if |ranked| < TOP_K then |ranked| else TOP_K;
    assert Rank(sel) == ranked[..k];
    PrefixIsBest(ranked, k);
  }

  /** In a ranking, whatever lies past a prefix scores no higher than anything in it. */
  lemma PrefixIsBest(ranked: seq<Scored>, k: nat)
    requires k <= |ranked| && NonIncreasing(ranked)
    ensures forall p, s :: p in ranked[..k] && multiset(ranked)[s] > multiset(ranked[..k])[s] ==> s.score <= p.score
  {
    PrefixOfRanking(ranked, k);
    forall p, s | p in ranked[..k] && multiset(ranked)[s] > multiset(ranked[..k])[s]
      ensures s.score <= p.score
    {
      assert s in multiset(ranked[k..]);
      var j :| k <= j < |ranked| && ranked[j] == s;
      var i :| 0 <= i < k && ranked[i] == p;
    }
  }
}
