/**
 * Reviews of a GitHub pull request: decoding the forge's review listing into
 * one current review per reviewer (GitHubPullRequest.getReviews), and encoding
 * a verdict as the review event that addReview posts.
 */
module GitHubReviews {
  import opened Wrappers
  import opened StringOrder

  /** A forge account, as resolved from a login name. */
  datatype User = User(id: string, userName: string)

  /** Review.Verdict: APPROVED, DISAPPROVED or NONE. */
  datatype Verdict = Approved | Disapproved | NoVerdict

  /** One element of the forge's review listing: author, commit_id and state. */
  datatype ReviewRecord = ReviewRecord(user: User, commitId: string, state: string)

  datatype Review = Review(reviewer: User, hash: string, verdict: Verdict)

  /** The forge's review state string as a verdict. */
  function ParseVerdict(state: string): (v: Verdict)
    ensures v == Approved <==> state == "APPROVED"
    ensures v == Disapproved <==> state == "REQUEST_CHANGES"
    ensures v == NoVerdict <==> state != "APPROVED" && state != "REQUEST_CHANGES"
  {
    match state
    case "APPROVED" => Approved
    case "REQUEST_CHANGES" => Disapproved
    case _ => NoVerdict
  }

  function ParseReview(rec: ReviewRecord): Review {
    Review(rec.user, rec.commitId, ParseVerdict(rec.state))
  }

  /** The listing decoded element by element, in the forge's (chronological) order. */
  function ParseReviews(recs: seq<ReviewRecord>): (reviews: seq<Review>)
    ensures |reviews| == |recs|
    ensures forall i :: 0 <= i < |recs| ==> reviews[i] == ParseReview(recs[i])
  {
    seq(|recs|, i requires 0 <= i < |recs| => ParseReview(recs[i]))
  }

  function ReviewerIds(reviews: seq<Review>): set<string> {
    set i | 0 <= i < |reviews| :: reviews[i].reviewer.id
  }

  /** No later review in the sequence is by the same reviewer as reviews[j]. */
  predicate IsLatest(reviews: seq<Review>, j: int)
    requires 0 <= j < |reviews|
  {
    forall k :: j < k < |reviews| ==> reviews[k].reviewer.id != reviews[j].reviewer.id
  }

  /**
   * The reviewer-id map after putting every review in order; a later put
   * overwrites an earlier one.
   */
  function LatestByReviewer(reviews: seq<Review>): (m: map<string, Review>)
    ensures forall id :: id in m ==> m[id].reviewer.id == id
    decreases |reviews|
  {
    if reviews == [] then map[]
    else
      var last := reviews[|reviews| - 1];
      LatestByReviewer(reviews[..|reviews| - 1])[last.reviewer.id := last]
  }

  /**
   * The map holds one entry per reviewer of the input, keyed by its id, and
   * that entry is the reviewer's last review in the input.
   */
  lemma LatestByReviewerSpec(reviews: seq<Review>)
    ensures LatestByReviewer(reviews).Keys == ReviewerIds(reviews)
    ensures forall id :: id in LatestByReviewer(reviews) ==>
              LatestByReviewer(reviews)[id].reviewer.id == id && LatestByReviewer(reviews)[id] in reviews
    ensures forall j :: 0 <= j < |reviews| && IsLatest(reviews, j) ==>
              reviews[j].reviewer.id in LatestByReviewer(reviews) &&
              LatestByReviewer(reviews)[reviews[j].reviewer.id] == reviews[j]
  {
    LatestKeys(reviews);
    LatestEntries(reviews);
    LatestIsLast(reviews);
  }

  lemma {:induction false} LatestKeys(reviews: seq<Review>)
    ensures LatestByReviewer(reviews).Keys == ReviewerIds(reviews)
    decreases |reviews|
  {
    if reviews != [] {
      var n := |reviews| - 1;
      var init := reviews[..n];
      LatestKeys(init);
      forall id | id in ReviewerIds(reviews) ensures id in ReviewerIds(init) + {reviews[n].reviewer.id} {
        var i :| 0 <= i < |reviews| && reviews[i].reviewer.id == id;
        if i < n { assert init[i] == reviews[i]; }
      }
      forall id | id in ReviewerIds(init) ensures id in ReviewerIds(reviews) {
        var i :| 0 <= i < |init| && init[i].reviewer.id == id;
        assert reviews[i] == init[i];
      }
      assert ReviewerIds(reviews) == ReviewerIds(init) + {reviews[n].reviewer.id};
    }
  }

  lemma {:induction false} LatestEntries(reviews: seq<Review>)
    ensures forall id :: id in LatestByReviewer(reviews) ==>
              LatestByReviewer(reviews)[id].reviewer.id == id && LatestByReviewer(reviews)[id] in reviews
    decreases |reviews|
  {
    if reviews != [] {
      var n := |reviews| - 1;
      var init := reviews[..n];
      var m, mi := LatestByReviewer(reviews), LatestByReviewer(init);
      assert m == mi[reviews[n].reviewer.id := reviews[n]];
      LatestEntries(init);
      forall id | id in m ensures m[id].reviewer.id == id && m[id] in reviews {
        if id != reviews[n].reviewer.id {
          var i :| 0 <= i < |init| && init[i] == mi[id];
          assert reviews[i] == mi[id];
        }
      }
    }
  }

  lemma {:induction false} LatestIsLast(reviews: seq<Review>)
    ensures forall j :: 0 <= j < |reviews| && IsLatest(reviews, j) ==>
              reviews[j].reviewer.id in LatestByReviewer(reviews) &&
              LatestByReviewer(reviews)[reviews[j].reviewer.id] == reviews[j]
    decreases |reviews|
  {
    if reviews != [] {
      var n := |reviews| - 1;
      var init := reviews[..n];
      var m, mi := LatestByReviewer(reviews), LatestByReviewer(init);
      assert m == mi[reviews[n].reviewer.id := reviews[n]];
      LatestIsLast(init);
      forall j | 0 <= j < |reviews| && IsLatest(reviews, j)
        ensures reviews[j].reviewer.id in m && m[reviews[j].reviewer.id] == reviews[j]
      {
        if j < n {
          assert init[j] == reviews[j];
          assert IsLatest(init, j);
          assert reviews[j].reviewer.id != reviews[n].reviewer.id;
        }
      }
    }
  }

  /**
   * r is the collapsed review list of `reviews`: strictly ascending by
   * reviewer id (hence one review per reviewer), the same reviewers as the
   * input, and for every reviewer the last of their reviews in input order,
   * whichever commit it was made on.
   */
  predicate IsCollapseOf(reviews: seq<Review>, r: seq<Review>) {
    && (forall i, j :: 0 <= i < j < |r| ==> Less(r[i].reviewer.id, r[j].reviewer.id))
    && ReviewerIds(r) == ReviewerIds(reviews)
    && (forall j :: 0 <= j < |reviews| && IsLatest(reviews, j) ==> reviews[j] in r)
  }

  /** The map's values in ascending order of their keys. */
  function EntriesByKey(m: map<string, Review>): (r: seq<Review>)
    ensures |r| == |m|
  {
    var keys := SortedKeys(m.Keys);
    seq(|keys|, i requires 0 <= i < |keys| => m[keys[i]])
  }

  /** Sorting the latest-review map by reviewer id yields the collapse. */
  lemma EntriesOfLatestAreCollapse(reviews: seq<Review>)
    ensures IsCollapseOf(reviews, EntriesByKey(LatestByReviewer(reviews)))
  {
    var m := LatestByReviewer(reviews);
    var keys := SortedKeys(m.Keys);
    var r := EntriesByKey(m);
    LatestEntries(reviews);
    assert forall i :: 0 <= i < |r| ==> r[i] == m[keys[i]] && r[i].reviewer.id == keys[i];
    EntriesSameReviewers(reviews, m, keys, r);
    EntriesHoldLatest(reviews, m, keys, r);
  }

  lemma EntriesSameReviewers(reviews: seq<Review>, m: map<string, Review>, keys: seq<string>, r: seq<Review>)
    requires m == LatestByReviewer(reviews)
    requires forall k :: k in keys <==> k in m
    requires |r| == |keys| && forall i :: 0 <= i < |r| ==> r[i].reviewer.id == keys[i]
    ensures ReviewerIds(r) == ReviewerIds(reviews)
  {
    LatestKeys(reviews);
    forall id | id in ReviewerIds(reviews) ensures id in ReviewerIds(r) {
      assert id in keys;
      var i :| 0 <= i < |keys| && keys[i] == id;
      assert r[i].reviewer.id == id;
    }
  }

  lemma EntriesHoldLatest(reviews: seq<Review>, m: map<string, Review>, keys: seq<string>, r: seq<Review>)
    requires m == LatestByReviewer(reviews)
    requires forall k :: k in keys <==> k in m
    requires |r| == |keys| && forall i :: 0 <= i < |r| ==> keys[i] in m && r[i] == m[keys[i]]
    ensures forall j :: 0 <= j < |reviews| && IsLatest(reviews, j) ==> reviews[j] in r
  {
    LatestIsLast(reviews);
    forall j | 0 <= j < |reviews| && IsLatest(reviews, j) ensures reviews[j] in r {
      var id := reviews[j].reviewer.id;
      assert id in keys;
      var i :| 0 <= i < |keys| && keys[i] == id;
      assert r[i] == reviews[j];
    }
  }

  /** GitHubPullRequest.getReviews, given the decoded review listing. */
  method GetReviews(recs: seq<ReviewRecord>) returns (r: seq<Review>)
    ensures IsCollapseOf(ParseReviews(recs), r)
    ensures |r| <= |recs|
  {
    var reviews := ParseReviews(recs);
    var reviewMap: map<string, Review> := map[];
    for i := 0 to |reviews|
      invariant reviewMap == LatestByReviewer(reviews[..i])
    {
      assert reviews[..i + 1][..i] == reviews[..i];
      reviewMap := reviewMap[reviews[i].reviewer.id := reviews[i]];
    }
    assert reviews[..|reviews|] == reviews;
    r := EntriesByKey(reviewMap);
    EntriesOfLatestAreCollapse(reviews);
    LatestKeys(reviews);
    IdsBound(reviews);
  }

  lemma {:induction false} IdsBound(reviews: seq<Review>)
    ensures |ReviewerIds(reviews)| <= |reviews|
    decreases |reviews|
  {
    if reviews != [] {
      var n := |reviews| - 1;
      IdsBound(reviews[..n]);
      assert ReviewerIds(reviews) <= ReviewerIds(reviews[..n]) + {reviews[n].reviewer.id} by {
        forall id | id in ReviewerIds(reviews) ensures id in ReviewerIds(reviews[..n]) + {reviews[n].reviewer.id} {
          var i :| 0 <= i < |reviews| && reviews[i].reviewer.id == id;
          if i < n { assert reviews[..n][i] == reviews[i]; }
        }
      }
      SubsetCard(ReviewerIds(reviews), ReviewerIds(reviews[..n]) + {reviews[n].reviewer.id});
    }
  }

  lemma SubsetCard<T>(a: set<T>, b: set<T>)
    requires a <= b
    ensures |a| <= |b|
  {
    assert b == a + (b - a);
  }

  /** The collapse is determined by the review list: two collapses are equal. */
  lemma CollapseUnique(reviews: seq<Review>, r1: seq<Review>, r2: seq<Review>)
    requires IsCollapseOf(reviews, r1) && IsCollapseOf(reviews, r2)
    ensures r1 == r2
  {
    var ids1 := seq(|r1|, i requires 0 <= i < |r1| => r1[i].reviewer.id);
    var ids2 := seq(|r2|, i requires 0 <= i < |r2| => r2[i].reviewer.id);
    forall x ensures x in ids1 <==> x in ids2 {
      if x in ids1 {
        var i :| 0 <= i < |r1| && ids1[i] == x;
        assert x in ReviewerIds(r1);
        var k :| 0 <= k < |r2| && r2[k].reviewer.id == x;
        assert ids2[k] == x;
      }
      if x in ids2 {
        var i :| 0 <= i < |r2| && ids2[i] == x;
        assert x in ReviewerIds(r2);
        var k :| 0 <= k < |r1| && r1[k].reviewer.id == x;
        assert ids1[k] == x;
      }
    }
    StrictlyAscendingUnique(ids1, ids2);
    forall i | 0 <= i < |r1| ensures r1[i] == r2[i] {
      assert ids1[i] == ids2[i];
      EntryIsLatest(reviews, r1, i);
      EntryIsLatest(reviews, r2, i);
    }
  }

  /** Each entry of a collapse is the last review of its reviewer. */
  lemma EntryIsLatest(reviews: seq<Review>, r: seq<Review>, i: int)
    requires IsCollapseOf(reviews, r) && 0 <= i < |r|
    ensures exists j :: 0 <= j < |reviews| && IsLatest(reviews, j) && r[i] == reviews[j]
  {
    var id := r[i].reviewer.id;
    assert id in ReviewerIds(r);
    var j0 :| 0 <= j0 < |reviews| && reviews[j0].reviewer.id == id;
    var j := LastOf(reviews, j0);
    assert reviews[j] in r;
    var p :| 0 <= p < |r| && r[p] == reviews[j];
    if p < i {
      LessAsymmetric(r[p].reviewer.id, r[i].reviewer.id);
    } else if i < p {
      LessAsymmetric(r[i].reviewer.id, r[p].reviewer.id);
    }
  }

  /** The position of the last review by the reviewer of reviews[j]. */
  lemma {:induction false} LastOf(reviews: seq<Review>, j: int) returns (last: int)
    requires 0 <= j < |reviews|
    ensures j <= last < |reviews| && IsLatest(reviews, last)
    ensures reviews[last].reviewer.id == reviews[j].reviewer.id
    decreases |reviews| - j
  {
    if IsLatest(reviews, j) {
      last := j;
    } else {
      var k :| j < k < |reviews| && reviews[k].reviewer.id == reviews[j].reviewer.id;
      last := LastOf(reviews, k);
    }
  }

  function ExampleReviews(): seq<Review> {
    [Review(User("1", "alice"), "c1", Approved),
     Review(User("2", "bob"), "c1", Approved),
     Review(User("1", "alice"), "c2", Disapproved)]
  }

  function ExampleCollapse(): seq<Review> {
    [Review(User("1", "alice"), "c2", Disapproved), Review(User("2", "bob"), "c1", Approved)]
  }

  lemma ExampleParsed()
    ensures ParseReviews([
      ReviewRecord(User("1", "alice"), "c1", "APPROVED"),
      ReviewRecord(User("2", "bob"), "c1", "APPROVED"),
      ReviewRecord(User("1", "alice"), "c2", "REQUEST_CHANGES")]) == ExampleReviews()
  {
  }

  lemma ExampleIsCollapse()
    ensures IsCollapseOf(ExampleReviews(), ExampleCollapse())
  {
    var reviews, expected := ExampleReviews(), ExampleCollapse();
    assert Less("1", "2");
    assert expected[0].reviewer.id == "1" && expected[1].reviewer.id == "2";
    assert reviews[1].reviewer.id == "2" && reviews[2].reviewer.id == "1";
    forall id | id in ReviewerIds(expected) ensures id in ReviewerIds(reviews) {
      var i :| 0 <= i < |expected| && expected[i].reviewer.id == id;
    }
    forall id | id in ReviewerIds(reviews) ensures id in ReviewerIds(expected) {
      var i :| 0 <= i < |reviews| && reviews[i].reviewer.id == id;
    }
    assert reviews[2].reviewer.id == reviews[0].reviewer.id;
  }

  /**
   * Latest wins, and a review on an older commit still counts: A approves
   * commit c1, B approves c1, A then asks for changes on c2; the collapse is
   * A's disapproval followed by B's approval of the older commit.
   */
  lemma LatestWinsExample(r: seq<Review>)
    requires IsCollapseOf(ParseReviews([
      ReviewRecord(User("1", "alice"), "c1", "APPROVED"),
      ReviewRecord(User("2", "bob"), "c1", "APPROVED"),
      ReviewRecord(User("1", "alice"), "c2", "REQUEST_CHANGES")]), r)
    ensures r == [Review(User("1", "alice"), "c2", Disapproved), Review(User("2", "bob"), "c1", Approved)]
  {
    ExampleParsed();
    ExampleIsCollapse();
    CollapseUnique(ExampleReviews(), r, ExampleCollapse());
  }

  /** The review event and body that addReview posts. */
  datatype ReviewQuery = ReviewQuery(event: string, body: Option<string>)

  const DisapprovedBody := "Disapproved by API function setApproval"
  const CommentBody := "Review comment by API function setApproval"

  /** The query GitHubPullRequest.addReview posts for a verdict. */
  function AddReviewQuery(v: Verdict): (q: ReviewQuery)
    ensures q.event == "APPROVE" <==> v == Approved
    ensures q.event == "REQUEST_CHANGES" <==> v == Disapproved
    ensures q.event == "COMMENT" <==> v == NoVerdict
    ensures q.body.Some? <==> v != Approved
  {
    match v
    case Approved => ReviewQuery("APPROVE", None)
    case Disapproved => ReviewQuery("REQUEST_CHANGES", Some(DisapprovedBody))
    case NoVerdict => ReviewQuery("COMMENT", Some(CommentBody))
  }

  /** Distinct verdicts are posted as distinct events. */
  lemma AddReviewEventInjective(v: Verdict, w: Verdict)
    ensures AddReviewQuery(v).event == AddReviewQuery(w).event <==> v == w
  {
  }
}
