/**
  Front-end course helpers: clamping, rating validation, term ordering and
  term labels, and the two course cards' choice of which terms to show.
 */
module CourseUtils {
  import opened Wrappers
  import opened Seqs
  import opened Decimal
  import opened Courses

  // ---------------------------------------------------------------------
  // Clamping
  // ---------------------------------------------------------------------

  /** `Math.min(Math.max(value, min), max)`. */
  function Clamp(value: real, min: real, max: real): (r: real)
    ensures min <= max ==> min <= r <= max
    ensures min <= value <= max ==> r == value
    ensures r == value || r == min || r == max
    ensures r <= max
  {
    var raised := if value < min then min else value;
    if raised > max then max else raised
  }

  /** Clamping twice into the same non-empty range is clamping once. */
  lemma ClampIdempotent(value: real, min: real, max: real)
    requires min <= max
    ensures Clamp(Clamp(value, min, max), min, max) == Clamp(value, min, max)
  {
  }

  /** Clamping is monotone: it never reverses the order of two values. */
  lemma ClampMonotone(a: real, b: real, min: real, max: real)
    requires a <= b
    ensures Clamp(a, min, max) <= Clamp(b, min, max)
  {
  }

  const RatingMax: real := 10.0

  /**
    `validateRating`: a missing number (not a number, or NaN) is 0, and any
    other rating is clamped into [0, 10].
   */
  function ValidateRating(rating: Option<real>): (r: real)
    ensures 0.0 <= r <= RatingMax
    ensures rating.None? ==> r == 0.0
    ensures rating.Some? && 0.0 <= rating.value <= RatingMax ==> r == rating.value
    ensures rating.Some? && rating.value < 0.0 ==> r == 0.0
    ensures rating.Some? && rating.value > RatingMax ==> r == RatingMax
  {
    match rating
    case None => 0.0
    case Some(x) => Clamp(x, 0.0, RatingMax)
  }

  /** A validated rating passes validation unchanged, and validation keeps the order of ratings. */
  lemma ValidateRatingLaws(rating: Option<real>, a: real, b: real)
    requires a <= b
    ensures ValidateRating(Some(ValidateRating(rating))) == ValidateRating(rating)
    ensures ValidateRating(Some(a)) <= ValidateRating(Some(b))
  {
    ClampMonotone(a, b, 0.0, RatingMax);
  }

  /** The fill of star `index` (0-based, five stars): how much of it a 0..10 score covers, in percent. */
  function StarFill(score10: real, index: nat): (r: real)
    ensures 0.0 <= r <= 100.0
    ensures 0.0 <= score10 <= RatingMax && (index as real) + 1.0 <= score10 / 2.0 ==> r == 100.0
    ensures score10 / 2.0 <= index as real ==> r == 0.0
  {
    var score5 := Clamp(score10, 0.0, RatingMax) / 2.0;
    Clamp((score5 - index as real) * 100.0, 0.0, 100.0)
  }

  /** A higher score never fills a star less. */
  lemma StarFillMonotone(a: real, b: real, index: nat)
    requires a <= b
    ensures StarFill(a, index) <= StarFill(b, index)
  {
    ClampMonotone(a, b, 0.0, RatingMax);
    var sa := Clamp(a, 0.0, RatingMax) / 2.0;
    var sb := Clamp(b, 0.0, RatingMax) / 2.0;
    ClampMonotone((sa - index as real) * 100.0, (sb - index as real) * 100.0, 0.0, 100.0);
  }

  // ---------------------------------------------------------------------
  // Terms
  // ---------------------------------------------------------------------

  datatype Term = Term(year: int, semester: Semester)

  /** Spring 1, summer 2, fall 3. */
  function SemesterOrder(s: Semester): (o: int)
    ensures 1 <= o <= 3
  {
    match s
    case Spring => 1
    case Summer => 2
    case Fall => 3
  }

  /** `a` is no older than `b`: a later year, or the same year and a semester no earlier. */
  predicate NoOlder(a: Term, b: Term)
  {
    a.year > b.year || (a.year == b.year && SemesterOrder(a.semester) >= SemesterOrder(b.semester))
  }

  /** Most recent first. */
  predicate NewestFirst(s: seq<Term>)
  {
    forall i, j :: 0 <= i < j < |s| ==> NoOlder(s[i], s[j])
  }

  /** A sort key ascending from the newest term: year and semester packed into one number. */
  function Age(t: Term): int
  {
    -(t.year * 4 + SemesterOrder(t.semester))
  }

  lemma AgeOrder(a: Term, b: Term)
    ensures Age(a) <= Age(b) <==> NoOlder(a, b)
    ensures Age(a) == Age(b) <==> a == b
  {
    var oa, ob := SemesterOrder(a.semester), SemesterOrder(b.semester);
    if a.year > b.year {
      assert a.year * 4 >= b.year * 4 + 4;
    } else if a.year < b.year {
      assert b.year * 4 >= a.year * 4 + 4;
    }
  }

  /** Two terms each no older than the other are the same term. */
  lemma NoOlderAntisymmetric(a: Term, b: Term)
    requires NoOlder(a, b) && NoOlder(b, a)
    ensures a == b
  {
    AgeOrder(a, b);
  }

  /**
    `sortTerms`: a sorted copy (the input is a value and stays as it is),
    newest first, holding the same terms as the input.
   */
  function SortTerms(terms: seq<Term>): (r: seq<Term>)
    ensures multiset(r) == multiset(terms)
    ensures NewestFirst(r)
  {
    var r := SortBy(terms, Age);
    forall i, j | 0 <= i < j < |r| ensures NoOlder(r[i], r[j]) {
      AgeOrder(r[i], r[j]);
    }
    r
  }

  /** Two newest-first arrangements of the same terms start with the same term. */
  lemma NewestFirstHeads(a: seq<Term>, b: seq<Term>)
    requires multiset(a) == multiset(b) && |a| > 0
    requires NewestFirst(a) && NewestFirst(b)
    ensures |b| > 0 && a[0] == b[0]
  {
    assert |b| == |multiset(b)| == |a|;
    assert a[0] in multiset(b);
    var k :| 0 <= k < |b| && b[k] == a[0];
    assert b[0] in multiset(a);
    var m :| 0 <= m < |a| && a[m] == b[0];
    assert NoOlder(a[0], b[0]) by {
      if m > 0 {
        assert NoOlder(a[0], a[m]);
      }
    }
    assert NoOlder(b[0], a[0]) by {
      if k > 0 {
        assert NoOlder(b[0], b[k]);
      }
    }
    NoOlderAntisymmetric(a[0], b[0]);
  }

  /** Sequences with equal contents and equal heads have tails with equal contents. */
  lemma TailsSameTerms(a: seq<Term>, b: seq<Term>)
    requires multiset(a) == multiset(b) && |a| > 0 && |b| > 0 && a[0] == b[0]
    ensures multiset(a[1..]) == multiset(b[1..])
  {
    assert a == [a[0]] + a[1..];
    assert b == [b[0]] + b[1..];
    assert multiset(a) == multiset{a[0]} + multiset(a[1..]);
    assert multiset(b) == multiset{a[0]} + multiset(b[1..]);
    assert forall x :: multiset(a[1..])[x] == multiset(b[1..])[x] by {
      forall x ensures multiset(a[1..])[x] == multiset(b[1..])[x] {
        assert multiset(a)[x] == multiset(b)[x];
      }
    }
  }

  /**
    There is only one newest-first arrangement of a collection of terms, so
    any such arrangement of the input is what `SortTerms` returns.
   */
  lemma {:induction false} NewestFirstUnique(a: seq<Term>, b: seq<Term>)
    requires multiset(a) == multiset(b)
    requires NewestFirst(a) && NewestFirst(b)
    ensures a == b
    decreases |a|
  {
    if |a| == 0 {
      assert |b| == |multiset(b)| == 0;
    } else {
      NewestFirstHeads(a, b);
      TailsSameTerms(a, b);
      NewestFirstUnique(a[1..], b[1..]);
      assert a == [a[0]] + a[1..];
      assert b == [b[0]] + b[1..];
    }
  }

  lemma SortTermsUnique(terms: seq<Term>, other: seq<Term>)
    requires multiset(other) == multiset(terms) && NewestFirst(other)
    ensures other == SortTerms(terms)
  {
    NewestFirstUnique(other, SortTerms(terms));
  }

  /**
    `getLatestTerm`: the first term of the sorted copy, or nothing for an
    empty list.
   */
  function LatestTerm(terms: seq<Term>): (r: Option<Term>)
    ensures r.None? <==> |terms| == 0
    ensures r.Some? ==> r.value in terms
    ensures r.Some? ==> forall t :: t in terms ==> NoOlder(r.value, t)
  {
    var sorted := SortTerms(terms);
    if |sorted| == 0 then None
    else
      assert sorted[0] in multiset(terms);
      assert forall t :: t in terms ==> t in multiset(sorted);
      Some(sorted[0])
  }

  /** The latest term is the one term of the list that is no older than every other. */
  lemma LatestTermUnique(terms: seq<Term>, t: Term)
    requires t in terms && forall u :: u in terms ==> NoOlder(t, u)
    ensures LatestTerm(terms) == Some(t)
  {
    NoOlderAntisymmetric(t, LatestTerm(terms).value);
  }

  /** The integer's decimal text, a space, and the semester's label, whatever the language. */
  function FormatTerm(year: int, semester: Semester, semLabel: Semester -> string, language: string): (r: string)
    ensures |r| == |IntToString(year)| + 1 + |semLabel(semester)|
    ensures r[..|IntToString(year)|] == IntToString(year)
    ensures r[|IntToString(year)|] == ' '
    ensures r[|IntToString(year)| + 1..] == semLabel(semester)
  {
    var spacer := if |language| >= 2 && language[..2] == "zh" then " " else " ";
    IntToString(year) + spacer + semLabel(semester)
  }

  /** The spacer is the same for every language. */
  lemma FormatTermLanguageFree(year: int, semester: Semester, semLabel: Semester -> string, l1: string, l2: string)
    ensures FormatTerm(year, semester, semLabel, l1) == FormatTerm(year, semester, semLabel, l2)
  {
  }

  // ---------------------------------------------------------------------
  // What the course cards show
  // ---------------------------------------------------------------------

  /**
    The preview card's term: the latest of `terms` when there are any, else
    the single `term`; an absent list counts as empty.
   */
  function ShownTerm(terms: seq<Term>, term: Term): (r: Term)
    ensures |terms| == 0 ==> r == term
    ensures |terms| > 0 ==> r in terms && forall t :: t in terms ==> NoOlder(r, t)
  {
    match LatestTerm(terms)
    case None => term
    case Some(t) => t
  }

  /** The preview card's term text: "..." follows whenever `terms` is non-empty, even with one entry. */
  function ShownTermText(terms: seq<Term>, term: Term, semLabel: Semester -> string, language: string): (r: string)
    ensures |terms| > 0 ==> |r| >= 3 && r[|r| - 3..] == "..."
    ensures |terms| > 0 ==> r[..|r| - 3] == FormatTerm(ShownTerm(terms, term).year, ShownTerm(terms, term).semester, semLabel, language)
    ensures |terms| == 0 ==> r == FormatTerm(term.year, term.semester, semLabel, language)
  {
    var shown := ShownTerm(terms, term);
    FormatTerm(shown.year, shown.semester, semLabel, language) + (if |terms| > 0 then "..." else "")
  }

  /** The detailed card's term list: `terms` when non-empty, else just `term`, newest first. */
  function OrderedTerms(terms: seq<Term>, term: Term): (r: seq<Term>)
    ensures |terms| == 0 ==> r == [term]
    ensures |terms| > 0 ==> multiset(r) == multiset(terms)
    ensures NewestFirst(r)
  {
    var source := if |terms| > 0 then terms else [term];
    var r := SortTerms(source);
    if |terms| == 0 then
      NewestFirstUnique(r, [term]);
      r
    else r
  }

  /** Both cards agree: the detailed card's first term is the one the preview card shows. */
  lemma CardsAgree(terms: seq<Term>, term: Term)
    ensures |OrderedTerms(terms, term)| > 0
    ensures OrderedTerms(terms, term)[0] == ShownTerm(terms, term)
  {
    var r := OrderedTerms(terms, term);
    if |terms| > 0 {
      assert |r| == |multiset(r)| == |terms|;
      var s := ShownTerm(terms, term);
      assert r[0] in multiset(terms);
      assert s in multiset(r);
      var k :| 0 <= k < |r| && r[k] == s;
      assert NoOlder(r[0], s) by {
        if k > 0 {
          assert NoOlder(r[0], r[k]);
        }
      }
      NoOlderAntisymmetric(r[0], s);
    }
  }
}
