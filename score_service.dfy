/** The `/get-score` handler: read the URL from the request body, run the
    scorer, average the per-category scores, pick a comment from the bucket of
    the rounded mean and answer with the score, the comment, the category
    details and the description. Any exception is a 500 answer. */
module ScoreService {
  import opened Wrappers
  import opened JsonValues

  const DetailKey: string := "评分"
  const ScoreKey: string := "分数"
  const DescriptionKey: string := "评价与建议"
  const UrlKey: string := "url"

  const MissingUrlError: string := "Missing URL parameter"
  const InternalError: string := "Internal server error"

  /** The mean `sum / count`, kept exact. */
  datatype Rational = Rational(num: int, den: nat)

  /** A comment is named by its bucket and its position in that bucket's pool;
      the texts themselves do not matter to the handler. */
  datatype Comment = Comment(bucket: int, index: nat)

  datatype Response =
    | Scored(score: Rational, comment: Comment, detail: Json, description: Json)
    | Failed(status: int, error: string)

  /** How many comments each bucket of the comment table holds. */
  const CommentPoolSizes: map<int, nat> :=
    map[10 := 4, 9 := 3, 8 := 2, 7 := 3, 6 := 4, 5 := 3, 4 := 3, 3 := 3, 2 := 4, 1 := 4, 0 := 6]

  /** The buckets are exactly 0 to 10, and none of them is empty. */
  lemma CommentPoolsCoverBuckets(k: int)
    ensures k in CommentPoolSizes <==> 0 <= k <= 10
    ensures k in CommentPoolSizes ==> CommentPoolSizes[k] > 0
  {
  }

  /** `k` is the integer nearest to `num / den`, the even one on a tie: what
      Python's `round` returns. */
  predicate IsRoundHalfEven(num: int, den: int, k: int)
    requires den > 0
  {
    var twice := 2 * (num - k * den);
    -den <= twice <= den && ((twice == den || twice == -den) ==> k % 2 == 0)
  }

  function RoundHalfEven(num: int, den: int): (k: int)
    requires den > 0
    ensures IsRoundHalfEven(num, den, k)
  {
    var q := (2 * num + den) / (2 * den);
    var rem := (2 * num + den) % (2 * den);
    DivisionSlack(num, den);
    if rem == 0 && q % 2 == 1 then q - 1 else q
  }

  /** The offset of `num / den` from the quotient used above, in halves. */
  lemma DivisionSlack(num: int, den: int)
    requires den > 0
    ensures var q := (2 * num + den) / (2 * den);
      var rem := (2 * num + den) % (2 * den);
      0 <= rem < 2 * den && 2 * (num - q * den) == rem - den
      && 2 * (num - (q - 1) * den) == rem + den
  {
    var q := (2 * num + den) / (2 * den);
    var rem := (2 * num + den) % (2 * den);
    assert 2 * num + den == q * (2 * den) + rem;
    assert q * (2 * den) == 2 * (q * den);
    assert (q - 1) * den == q * den - den;
  }

  /** Comparing multiples of a positive `den` compares the factors. */
  lemma MulCompare(x: int, y: int, den: int)
    requires den > 0
    ensures x < y <==> x * den < y * den
  {
    var d := y - x;
    assert y * den == x * den + d * den;
    if d > 0 {
      NonNegativeProduct(d - 1, den);
      assert d * den == (d - 1) * den + den;
    } else {
      NonNegativeProduct(-d, den);
      assert -d * den == -(d * den);
    }
  }

  lemma NonNegativeProduct(a: int, b: int)
    requires a >= 0 && b >= 0
    ensures a * b >= 0
  {
  }

  /** The rounding is the only integer with that property. */
  lemma RoundHalfEvenUnique(num: int, den: int, k: int)
    requires den > 0 && IsRoundHalfEven(num, den, k)
    ensures k == RoundHalfEven(num, den)
  {
    var r := RoundHalfEven(num, den);
    assert (r - 1) * den == r * den - den;
    assert (k - 1) * den == k * den - den;
    MulCompare(k, r - 1, den);
    MulCompare(r, k - 1, den);
  }

  /** A mean has a comment bucket exactly when it lies in [-1/2, 21/2]. */
  lemma BucketRange(num: int, den: int)
    requires den > 0
    ensures 0 <= RoundHalfEven(num, den) <= 10 <==> -den <= 2 * num <= 21 * den
  {
    var k := RoundHalfEven(num, den);
    var m := k * den;
    assert -den <= 2 * (num - m) <= den;
    assert (2 * (num - m) == den || 2 * (num - m) == -den) ==> k % 2 == 0;
    MulCompare(k, 0, den);
    MulCompare(k, -1, den);
    MulCompare(-1, k, den);
    MulCompare(10, k, den);
    MulCompare(11, k, den);
    MulCompare(k, 11, den);
  }

  /** A category's `分数` as `sum` adds it: an integer, or a boolean counted as
      1 or 0; anything else makes `sum` raise. */
  function ScoreOf(v: Option<Json>): Option<int>
  {
    match v
    case Some(JInt(i)) => Some(i)
    case Some(JBool(b)) => Some(if b then 1 else 0)
    case _ => None
  }

  /** `[e["分数"] for e in detail.values()]`, in the order of the categories;
      None when some category has no usable score. */
  function ScoreList(categories: seq<(string, Json)>): (r: Option<seq<int>>)
    ensures r.Some? <==> forall i :: 0 <= i < |categories| ==> ScoreOf(Lookup(categories[i].1, ScoreKey)).Some?
    ensures r.Some? ==> (|r.value| == |categories|
      && forall i :: 0 <= i < |categories| ==> ScoreOf(Lookup(categories[i].1, ScoreKey)) == Some(r.value[i]))
  {
    if categories == [] then Some([])
    else
      var init := ScoreList(categories[..|categories| - 1]);
      var last := ScoreOf(Lookup(categories[|categories| - 1].1, ScoreKey));
      if init.None? || last.None? then None else Some(init.value + [last.value])
  }

  function Sum(s: seq<int>): int
  {
    if s == [] then 0 else Sum(s[..|s| - 1]) + s[|s| - 1]
  }

  /** The full answer of the handler. `request` is the decoded request body
      (None when it is not JSON), `scorer` stands for `scorer.run` (None when it
      raises) and `choice` for the draw of `random.choice`. */
  function Respond(request: Option<Json>, scorer: string -> Option<Json>, choice: nat): (resp: Response)
    ensures resp.Failed? ==>
      (resp.status == 400 && resp.error == MissingUrlError) || (resp.status == 500 && resp.error == InternalError)
    ensures (resp.Failed? && resp.status == 400) <==> request.Some? && request.value.JObject? && !HasUrl(request)
    ensures resp.Scored? ==>
      HasUrl(request) && Lookup(request.value, UrlKey).value.JString?
      && var results := scorer(Lookup(request.value, UrlKey).value.s);
      results.Some? && resp == Grade(results.value, choice)
    ensures (HasUrl(request) && Lookup(request.value, UrlKey).value.JString?
             && scorer(Lookup(request.value, UrlKey).value.s).Some?) ==>
      resp == Grade(scorer(Lookup(request.value, UrlKey).value.s).value, choice)
  {
    if request.None? || !request.value.JObject? then Failed(500, InternalError)
    else
      var url := Lookup(request.value, UrlKey);
      if url.None? || !Truthy(url.value) then Failed(400, MissingUrlError)
      else if !url.value.JString? then Failed(500, InternalError)
      else match scorer(url.value.s)
        case None => Failed(500, InternalError)
        case Some(results) => Grade(results, choice)
  }

  /** The part of the handler after `scorer.run` has returned `results`: every
      missing key, wrong type, empty category object or unbucketed mean raises,
      which is the same 500 answer. */
  function Grade(results: Json, choice: nat): (resp: Response)
    ensures resp.Failed? ==> resp == Failed(500, InternalError)
    ensures resp.Scored? ==> GradedFrom(results, resp)
  {
    match Lookup(results, DetailKey)
    case None => Failed(500, InternalError)
    case Some(detail) =>
      if !detail.JObject? then Failed(500, InternalError)
      else match ScoreList(detail.members)
        case None => Failed(500, InternalError)
        case Some(scores) =>
          if |scores| == 0 then Failed(500, InternalError)
          else
            var k := RoundHalfEven(Sum(scores), |scores|);
            if k !in CommentPoolSizes then Failed(500, InternalError)
            else match Lookup(results, DescriptionKey)
              case None => Failed(500, InternalError)
              case Some(description) =>
                Scored(Rational(Sum(scores), |scores|), Comment(k, choice % CommentPoolSizes[k]),
                       detail, description)
  }

  /** The URL the handler reads, when the body is an object holding a truthy one. */
  predicate HasUrl(request: Option<Json>)
  {
    request.Some? && request.value.JObject?
    && var url := Lookup(request.value, UrlKey); url.Some? && Truthy(url.value)
  }

  /** A body object without a truthy `url` gets the 400 answer, whatever the
      scorer would have done: the scorer is never consulted. */
  lemma MissingUrlRejected(request: Option<Json>, scorer: string -> Option<Json>, other: string -> Option<Json>,
                           choice: nat, otherChoice: nat)
    requires request.Some? && request.value.JObject? && !HasUrl(request)
    ensures Respond(request, scorer, choice) == Respond(request, other, otherChoice) == Failed(400, MissingUrlError)
  {
  }

  /** A scorer failure is answered with 500. */
  lemma ScorerFailureIsInternalError(request: Option<Json>, scorer: string -> Option<Json>, choice: nat)
    requires HasUrl(request) && Lookup(request.value, UrlKey).value.JString?
    requires scorer(Lookup(request.value, UrlKey).value.s).None?
    ensures Respond(request, scorer, choice) == Failed(500, InternalError)
  {
  }

  /** A successful answer: the results carry a category object whose scores
      all exist, the score is their exact mean, the comment comes from the pool
      of the rounded mean, and the details and the description are the
      results' own, passed through unchanged. */
  predicate GradedFrom(results: Json, resp: Response)
    requires resp.Scored?
  {
    Lookup(results, DetailKey) == Some(resp.detail)
    && Lookup(results, DescriptionKey) == Some(resp.description)
    && resp.detail.JObject?
    && var scores := ScoreList(resp.detail.members);
    scores.Some? && |scores.value| == |resp.detail.members| > 0
    && resp.score == Rational(Sum(scores.value), |scores.value|)
    && IsRoundHalfEven(resp.score.num, resp.score.den, resp.comment.bucket)
    && resp.comment.bucket in CommentPoolSizes
    && resp.comment.index < CommentPoolSizes[resp.comment.bucket]
  }

  /** When the results hold a non-empty category object with usable scores and
      a description, they are scored exactly when the mean rounds into a
      bucket, that is when it lies in [-1/2, 21/2]: the scores are not checked
      against [0, 10], and a mean outside the buckets is a 500 answer. */
  lemma ScoredIffMeanInBuckets(results: Json, choice: nat, categories: seq<(string, Json)>, scores: seq<int>)
    requires Lookup(results, DetailKey) == Some(JObject(categories))
    requires ScoreList(categories) == Some(scores) && |scores| > 0
    requires Lookup(results, DescriptionKey).Some?
    ensures Grade(results, choice).Scored? <==> -|scores| <= 2 * Sum(scores) <= 21 * |scores|
  {
    var k := RoundHalfEven(Sum(scores), |scores|);
    BucketRange(Sum(scores), |scores|);
    CommentPoolsCoverBuckets(k);
  }

  /** Scores within [0, 10] add up to at most ten per category. */
  lemma {:induction false} SumWithinBounds(s: seq<int>)
    requires forall i :: 0 <= i < |s| ==> 0 <= s[i] <= 10
    ensures 0 <= Sum(s) <= 10 * |s|
  {
    if s != [] {
      var init := s[..|s| - 1];
      assert forall i :: 0 <= i < |init| ==> init[i] == s[i];
      SumWithinBounds(init);
    }
  }

  /** In particular results whose category scores all lie in [0, 10], the
      range the prompt asks for, are scored. */
  lemma InRangeScoresAreScored(results: Json, choice: nat, categories: seq<(string, Json)>, scores: seq<int>)
    requires Lookup(results, DetailKey) == Some(JObject(categories))
    requires ScoreList(categories) == Some(scores) && |scores| > 0
    requires Lookup(results, DescriptionKey).Some?
    requires forall i :: 0 <= i < |scores| ==> 0 <= scores[i] <= 10
    ensures Grade(results, choice).Scored?
    ensures 0 <= Grade(results, choice).score.num <= 10 * Grade(results, choice).score.den
  {
    SumWithinBounds(scores);
    ScoredIffMeanInBuckets(results, choice, categories, scores);
  }

  /** A category object without categories is a division by zero: 500. */
  lemma NoCategoriesIsInternalError(results: Json, choice: nat)
    requires Lookup(results, DetailKey) == Some(JObject([]))
    ensures Grade(results, choice) == Failed(500, InternalError)
  {
  }

  /** Six categories scored 3, 10, 8, 6, 0 and 10: the mean is 37/6, whose
      bucket is 6. */
  lemma SixCategoryExample()
    ensures Sum([3, 10, 8, 6, 0, 10]) == 37
    ensures RoundHalfEven(37, 6) == 6
  {
    assert [3, 10, 8, 6, 0, 10][..5] == [3, 10, 8, 6, 0];
    assert [3, 10, 8, 6, 0][..4] == [3, 10, 8, 6];
    assert [3, 10, 8, 6][..3] == [3, 10, 8];
    assert [3, 10, 8][..2] == [3, 10];
    assert [3, 10][..1] == [3];
    assert [3][..0] == [];
  }

  /** Ties go to the even neighbour: 5/2 rounds to 2 and 7/2 to 4. */
  lemma TieExamples()
    ensures RoundHalfEven(5, 2) == 2 && RoundHalfEven(7, 2) == 4 && RoundHalfEven(-1, 2) == 0
  {
  }
}
