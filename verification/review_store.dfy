/**
  The front end's course-review and review-reply lookups over their sample
  lists.
 */
module ReviewStore {
  import opened Wrappers
  import opened Seqs
  import opened Store
  import opened Accounts
  import opened Courses
  import opened CourseUtils

  /** A course review as the front end holds it; times are parsed timestamps in milliseconds. */
  datatype Review = Review(
    id: string,
    subjectId: string,
    author: Author,
    overallRating: real,
    attributes: Attributes,
    content: string,
    likesCount: int,
    createdAt: int,
    updatedAt: Option<int>,
    isLiked: bool,
    term: Option<Term>,
    repliesCount: Option<int>)

  /** A reply to a course review. */
  datatype Reply = Reply(
    id: string,
    reviewId: string,
    author: Author,
    replyToUser: Option<Author>,
    content: string,
    createdAt: int,
    likes: int,
    isLiked: bool,
    isDeleted: bool)

  /**
    `getReviewsBySubjectId`: every review of that course, each as often as
    stored, in store order; none for an unknown course.
   */
  function ReviewsBySubjectId(reviews: seq<Review>, subjectId: string): (r: seq<Review>)
    ensures forall x :: x in r <==> x in reviews && x.subjectId == subjectId
    ensures forall x {:trigger multiset(r)[x]} :: multiset(r)[x] == if x.subjectId == subjectId then multiset(reviews)[x] else 0
    ensures IsSubseq(r, reviews)
    ensures (forall x :: x in reviews ==> x.subjectId != subjectId) ==> r == []
  {
    Select(reviews, (x: Review) => x.subjectId == subjectId)
  }

  /** `getReviewById`: the first review with that id. */
  function ReviewById(reviews: seq<Review>, id: string): (r: Option<Review>)
    ensures r.None? <==> forall i :: 0 <= i < |reviews| ==> reviews[i].id != id
    ensures r.Some? ==> exists i :: 0 <= i < |reviews| && reviews[i] == r.value && r.value.id == id
                                   && forall j :: 0 <= j < i ==> reviews[j].id != id
  {
    Find(reviews, (x: Review) => x.id == id)
  }

  /**
    `getRepliesByReviewId`: every reply to that review, each as often as
    stored, in store order; none for an unknown review.
   */
  function RepliesByReviewId(replies: seq<Reply>, reviewId: string): (r: seq<Reply>)
    ensures forall x :: x in r <==> x in replies && x.reviewId == reviewId
    ensures forall x {:trigger multiset(r)[x]} :: multiset(r)[x] == if x.reviewId == reviewId then multiset(replies)[x] else 0
    ensures IsSubseq(r, replies)
    ensures (forall x :: x in replies ==> x.reviewId != reviewId) ==> r == []
  {
    Select(replies, (x: Reply) => x.reviewId == reviewId)
  }

  /**
    The reply lists follow the store: appending a reply extends its own
    review's list by that reply and leaves every other review's list as it
    was.
   */
  lemma RepliesAfterAppend(replies: seq<Reply>, x: Reply, reviewId: string)
    ensures RepliesByReviewId(replies + [x], reviewId) ==
            RepliesByReviewId(replies, reviewId) + (if x.reviewId == reviewId then [x] else [])
  {
    var p := (y: Reply) => y.reviewId == reviewId;
    FilterConcat(replies, [x], p);
    assert Filter([x], p) == (if x.reviewId == reviewId then [x] else []) by {
      FilterCons(x, [], p);
      assert [x] + [] == [x];
    }
  }
}
