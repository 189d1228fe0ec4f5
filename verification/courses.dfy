/**
  Courses, course reviews and review replies: the closed choice sets, the
  model defaults, the read-model payloads the serializers produce, the
  list filters of the view sets and the default orderings.

  Courses are keyed by an integer primary key; reviews and replies by an
  opaque id (a UUID in the source).
 */
module Courses {
  import opened Wrappers
  import opened Seqs
  import opened Decimal
  import opened Accounts
  import opened Queries
  import opened Keys

  // ---------------------------------------------------------------------
  // Closed choice sets
  // ---------------------------------------------------------------------

  /** The stored text of a choice is found back by searching the list of all choices. */
  function ParseChoice<E(==)>(all: seq<E>, text: E -> string, x: string): (r: Option<E>)
    ensures r.Some? ==> r.value in all && text(r.value) == x
    ensures r.None? ==> forall e :: e in all ==> text(e) != x
    decreases |all|
  {
    if |all| == 0 then None
    else if text(all[0]) == x then Some(all[0])
    else ParseChoice(all[1..], text, x)
  }

  /** With distinct texts, parsing a choice's text gives the choice back. */
  lemma ParseChoiceText<E>(all: seq<E>, text: E -> string, e: E)
    requires e in all
    requires DistinctTexts(all, text)
    ensures ParseChoice(all, text, text(e)) == Some(e)
  {
    var r := ParseChoice(all, text, text(e));
    var i :| 0 <= i < |all| && all[i] == e;
    var k :| 0 <= k < |all| && all[k] == r.value;
  }

  datatype Semester = Spring | Summer | Fall

  function SemesterText(s: Semester): string
  {
    match s
    case Spring => "spring"
    case Summer => "summer"
    case Fall => "fall"
  }

  const Semesters: seq<Semester> := [Spring, Summer, Fall]

  datatype Difficulty = VeryEasy | Easy | Medium | Hard | VeryHard

  function DifficultyText(d: Difficulty): string
  {
    match d
    case VeryEasy => "veryEasy"
    case Easy => "easy"
    case Medium => "medium"
    case Hard => "hard"
    case VeryHard => "veryHard"
  }

  const Difficulties: seq<Difficulty> := [VeryEasy, Easy, Medium, Hard, VeryHard]

  datatype Workload = Light | Moderate | Heavy | VeryHeavy

  function WorkloadText(w: Workload): string
  {
    match w
    case Light => "light"
    case Moderate => "moderate"
    case Heavy => "heavy"
    case VeryHeavy => "veryHeavy"
  }

  const Workloads: seq<Workload> := [Light, Moderate, Heavy, VeryHeavy]

  datatype Grading = Lenient | Balanced | Strict

  function GradingText(g: Grading): string
  {
    match g
    case Lenient => "lenient"
    case Balanced => "balanced"
    case Strict => "strict"
  }

  const Gradings: seq<Grading> := [Lenient, Balanced, Strict]

  datatype Gain = Low | Decent | High

  function GainText(g: Gain): string
  {
    match g
    case Low => "low"
    case Decent => "decent"
    case High => "high"
  }

  const Gains: seq<Gain> := [Low, Decent, High]

  /** A set's texts are pairwise distinct. */
  ghost predicate DistinctTexts<E>(all: seq<E>, text: E -> string)
  {
    forall i, j :: 0 <= i < j < |all| ==> text(all[i]) != text(all[j])
  }

  /**
    Each choice set lists its values once, with distinct texts that fit the
    10-character column.
   */
  lemma ChoicesClosed()
    ensures |Semesters| == 3 && |Difficulties| == 5 && |Workloads| == 4 && |Gradings| == 3 && |Gains| == 3
    ensures DistinctTexts(Semesters, SemesterText) && DistinctTexts(Difficulties, DifficultyText)
    ensures DistinctTexts(Workloads, WorkloadText) && DistinctTexts(Gradings, GradingText)
    ensures DistinctTexts(Gains, GainText)
    ensures forall s :: |SemesterText(s)| <= 10
    ensures forall d :: |DifficultyText(d)| <= 10
    ensures forall w :: |WorkloadText(w)| <= 10
    ensures forall g :: |GradingText(g)| <= 10
    ensures forall g :: |GainText(g)| <= 10
  {
  }

  /** Every value is listed, and parsing its text gives it back. */
  lemma SemesterParse(s: Semester)
    ensures s in Semesters && ParseChoice(Semesters, SemesterText, SemesterText(s)) == Some(s)
  {
    match s
    case Spring => assert s == Semesters[0];
    case Summer => assert s == Semesters[1];
    case Fall => assert s == Semesters[2];
    ChoicesClosed();
    ParseChoiceText(Semesters, SemesterText, s);
  }

  lemma SemesterParseOpt(s: Option<Semester>)
    ensures s.Some? ==> ParseChoice(Semesters, SemesterText, SemesterText(s.value)) == s
  {
    if s.Some? {
      SemesterParse(s.value);
    }
  }

  lemma DifficultyParse(d: Difficulty)
    ensures d in Difficulties && ParseChoice(Difficulties, DifficultyText, DifficultyText(d)) == Some(d)
  {
    match d
    case VeryEasy => assert d == Difficulties[0];
    case Easy => assert d == Difficulties[1];
    case Medium => assert d == Difficulties[2];
    case Hard => assert d == Difficulties[3];
    case VeryHard => assert d == Difficulties[4];
    ChoicesClosed();
    ParseChoiceText(Difficulties, DifficultyText, d);
  }

  lemma WorkloadParse(w: Workload)
    ensures w in Workloads && ParseChoice(Workloads, WorkloadText, WorkloadText(w)) == Some(w)
  {
    match w
    case Light => assert w == Workloads[0];
    case Moderate => assert w == Workloads[1];
    case Heavy => assert w == Workloads[2];
    case VeryHeavy => assert w == Workloads[3];
    ChoicesClosed();
    ParseChoiceText(Workloads, WorkloadText, w);
  }

  lemma GradingParse(g: Grading)
    ensures g in Gradings && ParseChoice(Gradings, GradingText, GradingText(g)) == Some(g)
  {
    match g
    case Lenient => assert g == Gradings[0];
    case Balanced => assert g == Gradings[1];
    case Strict => assert g == Gradings[2];
    ChoicesClosed();
    ParseChoiceText(Gradings, GradingText, g);
  }

  lemma GainParse(g: Gain)
    ensures g in Gains && ParseChoice(Gains, GainText, GainText(g)) == Some(g)
  {
    match g
    case Low => assert g == Gains[0];
    case Decent => assert g == Gains[1];
    case High => assert g == Gains[2];
    ChoicesClosed();
    ParseChoiceText(Gains, GainText, g);
  }

  // ---------------------------------------------------------------------
  // Rows
  // ---------------------------------------------------------------------

  datatype Attributes = Attributes(difficulty: Difficulty, workload: Workload, grading: Grading, gain: Gain)

  /** The model default of the four attribute columns, for courses and reviews alike. */
  const DefaultAttributes: Attributes := Attributes(Medium, Moderate, Balanced, Decent)

  datatype Course = Course(
    pk: nat, subjectId: string, subjectCode: string, title: string,
    termYear: nat, termSemester: Semester,
    ratingScore: real, ratingReviewsCount: nat,
    attributes: Attributes, teachers: seq<string>, department: string, lastUpdated: int)

  /** A course created with only its required columns: every other column takes its default. */
  function NewCourse(pk: nat, subjectId: string, subjectCode: string, title: string,
                     year: nat, semester: Semester, now: int): (c: Course)
    ensures c.ratingScore == 0.0 && c.ratingReviewsCount == 0
    ensures c.attributes == DefaultAttributes
    ensures c.teachers == [] && c.department == "" && c.lastUpdated == now
  {
    Course(pk, subjectId, subjectCode, title, year, semester, 0.0, 0, DefaultAttributes, [], "", now)
  }

  /** `term_year` is nullable and `term_semester` may be blank: a review's term is optional. */
  datatype Review = Review(
    id: string, course: nat, author: nat, overallRating: real,
    attributes: Attributes, content: string, likesCount: nat,
    createdAt: int, updatedAt: int,
    termYear: Option<nat>, termSemester: Option<Semester>,
    repliesCount: nat)

  function NewReview(id: string, course: nat, author: nat, content: string, now: int): (r: Review)
    ensures r.overallRating == 0.0 && r.attributes == DefaultAttributes
    ensures r.likesCount == 0 && r.repliesCount == 0
    ensures r.termYear.None? && r.termSemester.None?
    ensures r.createdAt == now && r.updatedAt == now
  {
    Review(id, course, author, 0.0, DefaultAttributes, content, 0, now, now, None, None, 0)
  }

  datatype Reply = Reply(
    id: string, review: string, author: nat, content: string, createdAt: int,
    likesCount: nat, replyToUser: Option<nat>, isDeleted: bool)

  function NewReply(id: string, review: string, author: nat, content: string, now: int): (r: Reply)
    ensures r.likesCount == 0 && r.replyToUser.None? && !r.isDeleted && r.createdAt == now
  {
    Reply(id, review, author, content, now, 0, None, false)
  }

  datatype CourseDb = CourseDb(courses: seq<Course>, reviews: seq<Review>, replies: seq<Reply>)

  /** `subject_id` is unique across courses. */
  predicate UniqueSubjects(cs: seq<Course>)
  {
    forall i, j :: 0 <= i < j < |cs| ==> cs[i].subjectId != cs[j].subjectId
  }

  /** Inserting a course whose `subject_id` is taken violates the unique constraint. */
  function AddCourse(cs: seq<Course>, c: Course): (r: Option<seq<Course>>)
    requires UniqueSubjects(cs)
    ensures r.None? <==> exists i :: 0 <= i < |cs| && cs[i].subjectId == c.subjectId
    ensures r.Some? ==> r.value == cs + [c] && UniqueSubjects(r.value)
  {
    if exists i :: 0 <= i < |cs| && cs[i].subjectId == c.subjectId then None
    else Some(cs + [c])
  }

  /** `SET_NULL` on the reply target, when the target is the deleted user. */
  function Forget(x: Reply, pk: nat): Reply
  {
    if x.replyToUser == Some(pk) then x.(replyToUser := None) else x
  }

  /** No review by `pk` carries the id `review`. */
  predicate ReviewSurvives(reviews: seq<Review>, review: string, pk: nat)
  {
    forall v :: v in reviews && v.id == review ==> v.author != pk
  }

  /** Forgetting the target loses nothing else: two replies that end alike agree on author and review. */
  lemma ForgetSameOrigin(x: Reply, y: Reply, pk: nat)
    requires Forget(x, pk) == Forget(y, pk)
    ensures x.author == y.author && x.review == y.review
  {
  }

  /** `Forget` applied to every reply, in order. */
  function ForgetAll(xs: seq<Reply>, pk: nat): (r: seq<Reply>)
    ensures |r| == |xs|
    ensures forall i :: 0 <= i < |xs| ==> r[i] == Forget(xs[i], pk)
  {
    seq(|xs|, i requires 0 <= i < |xs| => Forget(xs[i], pk))
  }

  /**
    Deleting a user: their reviews go (`CASCADE`), then every reply by them
    or under one of their reviews (`CASCADE`), and the replies left that
    were addressed to them forget the target (`SET_NULL`).
   */
  function DeleteUser(db: CourseDb, pk: nat): (r: CourseDb)
    ensures r.courses == db.courses
    ensures forall v :: v in r.reviews <==> v in db.reviews && v.author != pk
    ensures forall x :: x in r.replies ==> x.author != pk && x.replyToUser != Some(pk)
    ensures forall x :: x in r.replies ==> ReviewSurvives(db.reviews, x.review, pk)
    ensures forall x :: x in db.replies ==>
              (Forget(x, pk) in r.replies <==> x.author != pk && ReviewSurvives(db.reviews, x.review, pk))
  {
    var reviews := Filter(db.reviews, (v: Review) => v.author != pk);
    var kept := Filter(db.replies, (x: Reply) => x.author != pk && ReviewSurvives(db.reviews, x.review, pk));
    DeleteUserReplies(db, pk, kept);
    CourseDb(db.courses, reviews, ForgetAll(kept, pk))
  }

  lemma DeleteUserReplies(db: CourseDb, pk: nat, kept: seq<Reply>)
    requires forall x :: x in kept <==> x in db.replies && x.author != pk && ReviewSurvives(db.reviews, x.review, pk)
    ensures forall x :: x in ForgetAll(kept, pk) ==>
              x.author != pk && x.replyToUser != Some(pk) && ReviewSurvives(db.reviews, x.review, pk)
    ensures forall x :: x in db.replies ==>
              (Forget(x, pk) in ForgetAll(kept, pk) <==> x.author != pk && ReviewSurvives(db.reviews, x.review, pk))
  {
    var r := ForgetAll(kept, pk);
    forall y | y in r
      ensures y.author != pk && y.replyToUser != Some(pk) && ReviewSurvives(db.reviews, y.review, pk)
    {
      var i :| 0 <= i < |r| && r[i] == y;
      assert kept[i] in kept;
    }
    forall x | x in db.replies
      ensures Forget(x, pk) in r <==> x.author != pk && ReviewSurvives(db.reviews, x.review, pk)
    {
      if Forget(x, pk) in r {
        var i :| 0 <= i < |r| && r[i] == Forget(x, pk);
        assert kept[i] in kept;
        ForgetSameOrigin(x, kept[i], pk);
      }
      if x.author != pk && ReviewSurvives(db.reviews, x.review, pk) {
        var i :| 0 <= i < |kept| && kept[i] == x;
        assert r[i] == Forget(x, pk);
      }
    }
  }

  // ---------------------------------------------------------------------
  // Payloads
  // ---------------------------------------------------------------------

  datatype TermPayload = TermPayload(year: nat, semester: string)

  datatype RatingPayload = RatingPayload(score: real, reviewsCount: nat)

  datatype AttributesPayload = AttributesPayload(difficulty: string, workload: string, grading: string, gain: string)

  /** `get_attributes`: the four choices, as their stored texts. */
  function AttributesOut(a: Attributes): (p: AttributesPayload)
    ensures ParseChoice(Difficulties, DifficultyText, p.difficulty) == Some(a.difficulty)
    ensures ParseChoice(Workloads, WorkloadText, p.workload) == Some(a.workload)
    ensures ParseChoice(Gradings, GradingText, p.grading) == Some(a.grading)
    ensures ParseChoice(Gains, GainText, p.gain) == Some(a.gain)
  {
    DifficultyParse(a.difficulty);
    WorkloadParse(a.workload);
    GradingParse(a.grading);
    GainParse(a.gain);
    AttributesPayload(DifficultyText(a.difficulty), WorkloadText(a.workload), GradingText(a.grading), GainText(a.gain))
  }

  /** The payload determines the attributes: nothing is lost on the way out. */
  lemma AttributesOutInjective(a: Attributes, b: Attributes)
    requires AttributesOut(a) == AttributesOut(b)
    ensures a == b
  {
  }

  /** The defaults as the front end sees them. */
  lemma DefaultAttributesText()
    ensures AttributesOut(DefaultAttributes) == AttributesPayload("medium", "moderate", "balanced", "decent")
  {
  }

  datatype CoursePayload = CoursePayload(
    id: nat, subjectId: string, subjectCode: string, title: string,
    term: TermPayload, rating: RatingPayload, attributes: AttributesPayload,
    teachers: seq<string>, department: string, lastUpdated: int)

  /** `CourseSerializer`: flat columns regrouped into `term`, `rating` and `attributes`. */
  function CourseOut(c: Course): (p: CoursePayload)
    ensures p.term.year == c.termYear
    ensures ParseChoice(Semesters, SemesterText, p.term.semester) == Some(c.termSemester)
    ensures p.rating.score == c.ratingScore && p.rating.reviewsCount == c.ratingReviewsCount
    ensures p.attributes == AttributesOut(c.attributes)
    ensures p.id == c.pk && p.subjectId == c.subjectId && p.subjectCode == c.subjectCode && p.title == c.title
    ensures p.teachers == c.teachers && p.department == c.department && p.lastUpdated == c.lastUpdated
  {
    SemesterParse(c.termSemester);
    CoursePayload(c.pk, c.subjectId, c.subjectCode, c.title,
                  TermPayload(c.termYear, SemesterText(c.termSemester)),
                  RatingPayload(c.ratingScore, c.ratingReviewsCount),
                  AttributesOut(c.attributes), c.teachers, c.department, c.lastUpdated)
  }

  /** Two courses with the same payload are the same course. */
  lemma CourseOutInjective(a: Course, b: Course)
    requires CourseOut(a) == CourseOut(b)
    ensures a == b
  {
  }

  datatype ReviewPayload = ReviewPayload(
    id: string, course: nat, author: Author, overallRating: real,
    attributes: AttributesPayload, content: string, likesCount: nat,
    createdAt: int, updatedAt: int,
    termYear: Option<nat>, termSemester: string, repliesCount: nat)

  /** `CourseReviewSerializer`: the author becomes an Author payload; a blank semester stays blank. */
  function ReviewOut(d: Directory, v: Review): (p: ReviewPayload)
    requires v.author in d.users
    ensures p.author == AuthorPayloadFor(d, v.author)
    ensures p.attributes == AttributesOut(v.attributes)
    ensures p.termYear == v.termYear
    ensures v.termSemester.None? <==> p.termSemester == ""
    ensures v.termSemester.Some? ==> ParseChoice(Semesters, SemesterText, p.termSemester) == v.termSemester
    ensures p.id == v.id && p.course == v.course && p.content == v.content
    ensures p.likesCount == v.likesCount && p.repliesCount == v.repliesCount
    ensures p.createdAt == v.createdAt && p.updatedAt == v.updatedAt && p.overallRating == v.overallRating
  {
    ReviewPayload(v.id, v.course, AuthorPayloadFor(d, v.author), v.overallRating,
                  AttributesOut(v.attributes), v.content, v.likesCount, v.createdAt, v.updatedAt,
                  v.termYear, SemesterOut(v.termSemester), v.repliesCount)
  }

  /** The stored semester's text, or blank when there is none; the text reads back as the semester. */
  function SemesterOut(s: Option<Semester>): (t: string)
    ensures s.None? <==> t == ""
    ensures s.Some? ==> ParseChoice(Semesters, SemesterText, t) == s
  {
    SemesterParseOpt(s);
    if s.Some? then SemesterText(s.value) else ""
  }

  datatype ReplyPayload = ReplyPayload(
    id: string, review: string, author: Author, content: string, createdAt: int,
    likesCount: nat, replyToUser: Option<Author>, isDeleted: bool)

  /**
    `CourseReviewReplySerializer`: `replyToUser` is the target's Author
    payload when the stored key is truthy (set and not 0), else absent.
   */
  function ReplyOut(d: Directory, x: Reply): (p: ReplyPayload)
    requires x.author in d.users
    requires KeyTruthy(x.replyToUser) ==> x.replyToUser.value in d.users
    ensures p.author == AuthorPayloadFor(d, x.author)
    ensures p.replyToUser.None? <==> !KeyTruthy(x.replyToUser)
    ensures KeyTruthy(x.replyToUser) ==> p.replyToUser == Some(AuthorPayloadFor(d, x.replyToUser.value))
    ensures p.id == x.id && p.review == x.review && p.content == x.content && p.createdAt == x.createdAt
    ensures p.likesCount == x.likesCount && p.isDeleted == x.isDeleted
  {
    ReplyPayload(x.id, x.review, AuthorPayloadFor(d, x.author), x.content, x.createdAt, x.likesCount,
                 if KeyTruthy(x.replyToUser) then Some(AuthorPayloadFor(d, x.replyToUser.value)) else None,
                 x.isDeleted)
  }

  /**
    In a consistent directory every stored target is shown, and the ids in
    the payload read back as the stored author and target keys.
   */
  lemma ReplyOutKeys(d: Directory, x: Reply)
    requires d.Valid() && x.author in d.users
    requires x.replyToUser.Some? ==> x.replyToUser.value in d.users
    ensures KeyTruthy(x.replyToUser) ==> x.replyToUser.value in d.users
    ensures Value(ReplyOut(d, x).author.id) == x.author
    ensures ReplyOut(d, x).replyToUser.Some? <==> x.replyToUser.Some?
    ensures x.replyToUser.Some? ==> Value(ReplyOut(d, x).replyToUser.value.id) == x.replyToUser.value
  {
    if x.replyToUser.Some? {
      UserKeyTruthy(d, x.replyToUser);
    }
  }

  // ---------------------------------------------------------------------
  // Default orderings and list filters
  // ---------------------------------------------------------------------

  /** `ordering = ["-created_at"]`: reviews newest first. */
  function ReviewsNewestFirst(vs: seq<Review>): (r: seq<Review>)
    ensures forall i, j :: 0 <= i < j < |r| ==> r[i].createdAt >= r[j].createdAt
    ensures multiset(r) == multiset(vs)
  {
    SortBy(vs, (v: Review) => -v.createdAt)
  }

  /** `ordering = ["created_at"]`: replies oldest first. */
  function RepliesOldestFirst(xs: seq<Reply>): (r: seq<Reply>)
    ensures forall i, j :: 0 <= i < j < |r| ==> r[i].createdAt <= r[j].createdAt
    ensures multiset(r) == multiset(xs)
  {
    SortBy(xs, (x: Reply) => x.createdAt)
  }

  /**
    `?course=<id>`: the reviews of that course. The parameter is converted
    with Python's `int()` first, so padded or signed spellings of a key
    select the same reviews, and text that is not an integer is a server
    error.
   */
  function ReviewList(base: seq<Review>, course: Option<string>): (r: Listing<Review>)
    ensures !Given(course) ==> r == Rows(base)
    ensures Given(course) ==> (r.ServerError? <==> ParseInt(course.value, 10).None?)
    ensures Given(course) && r.Rows? ==>
              forall v :: v in r.rows <==> v in base && ParseInt(course.value, 10) == Some(v.course as int)
    ensures r.Rows? ==> IsSubseq(r.rows, base)
  {
    assert forall k: nat, s :: IntKey(s) == Some(NatToString(k)) <==> ParseInt(s, 10) == Some(k) by {
      forall k: nat, s { IntKeySelects(s, k); }
    }
    NarrowKey(base, course, IntKey, (v: Review) => Some(NatToString(v.course)))
  }

  /** Leading zeros in `?course=` do not change the list. */
  lemma ReviewListPadded(base: seq<Review>, k: nat, n: nat)
    ensures ReviewList(base, Some(Zeros(k) + NatToString(n))) == ReviewList(base, Some(NatToString(n)))
  {
    LeadingZerosParse(k, n);
    IntRoundTrip(n);
  }

  /**
    `?review=<id>`: the replies under that review. The parameter is parsed
    as a UUID first, so its hyphens, braces and letter case do not matter,
    and text that is not a UUID is a server error.
   */
  function ReplyList(base: seq<Reply>, review: Option<string>): (r: Listing<Reply>)
    ensures !Given(review) ==> r == Rows(base)
    ensures Given(review) ==> (r.ServerError? <==> ParseUuid(review.value).None?)
    ensures Given(review) && r.Rows? ==>
              forall x :: x in r.rows <==> x in base && x.review == CanonicalUuid(ParseUuid(review.value).value)
    ensures r.Rows? ==> IsSubseq(r.rows, base)
  {
    NarrowKey(base, review, UuidKey, (x: Reply) => Some(x.review))
  }

  /** The UUID of a review written without hyphens selects the same replies as its canonical text. */
  lemma ReplyListUnhyphenated(base: seq<Reply>, v: nat)
    requires v < UuidBound
    ensures ReplyList(base, Some(HexText(v, 32))) == ReplyList(base, Some(CanonicalUuid(v)))
  {
    UuidKeyUnhyphenated(v);
  }
}
