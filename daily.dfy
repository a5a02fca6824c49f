/**
 * The daily article rotation of the cron script: a fixed list of article titles,
 * indexed by the day's ordinal modulo its length.
 */
module DailyCron {
  import opened Wrappers

  /** `ARTICLES` */
  const Articles: seq<string> := ["Paris", "Locomotive \U{00E0} vapeur"]

  /** The `ValueError` raised on an empty list. */
  const EmptyListError := "ARTICLES list is empty \U{2014} add some Wikipedia titles first."

  /**
   * `_pick_article(target_date)`, with `target_date.toordinal()` as `ordinal`.
   * A positive divisor gives Python's `%` and Dafny's `%` the same result.
   */
  function PickArticle(articles: seq<string>, ordinal: int): (r: Result<string, string>)
    ensures r.Err? <==> articles == []
    ensures r.Err? ==> r.error == EmptyListError
    ensures r.Ok? ==> 0 <= ordinal % |articles| < |articles| && r.value == articles[ordinal % |articles|]
  {
    if articles == [] then Err(EmptyListError)
    else Ok(articles[ordinal % |articles|])
  }

  /** The pick is always one of the articles. */
  lemma PickIsAnArticle(articles: seq<string>, ordinal: int)
    requires articles != []
    ensures PickArticle(articles, ordinal).Ok? && PickArticle(articles, ordinal).value in articles
  {
  }

  /** Ordinals `len(ARTICLES)` days apart pick the same article. */
  lemma {:induction false} PickIsPeriodic(articles: seq<string>, ordinal: int, k: int)
    requires articles != []
    ensures PickArticle(articles, ordinal + k * |articles|) == PickArticle(articles, ordinal)
  {
    var n := |articles|;
    var q := ordinal / n;
    var r := ordinal % n;
    assert ordinal + k * n == (q + k) * n + r;
    assert (ordinal + k * n) % n == r by {
      DivModUnique(ordinal + k * n, n, q + k, r);
    }
  }

  /** Consecutive days walk through the list in order, wrapping after the last article. */
  lemma {:induction false} PickCycles(articles: seq<string>, ordinal: int)
    requires articles != []
    ensures var i := ordinal % |articles|;
      PickArticle(articles, ordinal + 1).value == articles[if i + 1 == |articles| then 0 else i + 1]
  {
    var n := |articles|;
    var q := ordinal / n;
    var i := ordinal % n;
    if i + 1 == n {
      DivModUnique(ordinal + 1, n, q + 1, 0);
    } else {
      DivModUnique(ordinal + 1, n, q, i + 1);
    }
  }

  /** Quotient and remainder are unique. */
  lemma DivModUnique(a: int, n: int, q: int, r: int)
    requires n > 0 && 0 <= r < n && a == q * n + r
    ensures a % n == r && a / n == q
  {
    var d := a / n - q;
    assert d * n == r - a % n;
    if d >= 1 {
      MulGrows(d, n);
    }
    if d <= -1 {
      MulGrows(-d, n);
    }
  }

  lemma MulGrows(d: int, n: int)
    requires d >= 1 && n > 0
    ensures d * n >= n
  {
  }

  /** With the shipped list, even ordinals pick "Paris" and odd ones "Locomotive à vapeur". */
  lemma ShippedRotation(ordinal: int)
    ensures PickArticle(Articles, ordinal) == Ok(if ordinal % 2 == 0 then "Paris" else "Locomotive \U{00E0} vapeur")
  {
  }
}
