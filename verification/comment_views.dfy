/**
  What the forum post's comment list and comment cards show: main comments
  most-liked first and collapsed to the first three, the count of hidden
  ones, the set of expanded threads, and each card's placeholder, delete
  permission and like badge.
 */
module CommentViews {
  import opened Wrappers
  import opened Seqs
  import opened CommentStore
  import opened CardRules

  // ---------------------------------------------------------------------
  // Comment list
  // ---------------------------------------------------------------------

  /** The number of main comments shown while the list is collapsed. */
  const CollapsedCount: nat := 3

  /** Sort key of `(a, b) => b.likes - a.likes`: more likes sort earlier. */
  function NegLikes(c: Comment): int
  {
    -c.likes
  }

  predicate MostLikedFirst(s: seq<Comment>)
  {
    forall i, j :: 0 <= i < j < |s| ==> s[i].likes >= s[j].likes
  }

  /** The main comments sorted by likes, most first, by a stable sort. */
  function SortByLikes(mains: seq<Comment>): (r: seq<Comment>)
    ensures MostLikedFirst(r)
    ensures multiset(r) == multiset(mains)
  {
    var r := SortBy(mains, NegLikes);
    assert SortedBy(r, NegLikes);
    r
  }

  /** Comments with equal likes keep their store order. */
  lemma SortByLikesStable(mains: seq<Comment>, likes: int)
    ensures WithKey(SortByLikes(mains), NegLikes, -likes) == WithKey(mains, NegLikes, -likes)
  {
    SortStable(mains, NegLikes, -likes);
  }

  /** Sorting an already most-liked-first list changes nothing. */
  lemma SortByLikesSorted(mains: seq<Comment>)
    requires MostLikedFirst(mains)
    ensures SortByLikes(mains) == mains
  {
    SortBySorted(mains, NegLikes);
  }

  /** The main comments on display: all of them sorted, or only the first three. */
  function Displayed(mains: seq<Comment>, showAll: bool): (shown: seq<Comment>)
    ensures shown <= SortByLikes(mains)
    ensures forall c :: c in shown ==> c in mains
    ensures MostLikedFirst(shown)
    ensures showAll ==> |shown| == |mains|
    ensures !showAll ==> |shown| == if |mains| < CollapsedCount then |mains| else CollapsedCount
  {
    var sorted := SortByLikes(mains);
    assert forall c :: c in sorted ==> c in mains by {
      forall c | c in sorted ensures c in mains {
        assert c in multiset(sorted);
      }
    }
    if showAll then sorted else Take(sorted, CollapsedCount)
  }

  /** The rendered list: the header's total, the shown main comments and how many are hidden. */
  datatype CommentListView = CommentListView(total: nat, shown: seq<Comment>, hidden: int)

  /**
    The comment list of one post: the header counts every comment of the post;
    the main comments are sorted most-liked first and, unless the list is
    expanded, only the first three are shown.
   */
  function CommentList(comments: seq<Comment>, postId: string, showAll: bool): (v: CommentListView)
    ensures v.total == |CommentsOfPost(comments, postId)|
    ensures forall c :: c in v.shown ==> c in comments && c.postId == postId && IsMain(c)
    ensures MostLikedFirst(v.shown)
    ensures v.shown <= SortByLikes(SeparatedOfPost(comments, postId).0)
    ensures |v.shown| + v.hidden == |SeparatedOfPost(comments, postId).0|
    ensures showAll ==> v.hidden == 0
    ensures !showAll ==> |v.shown| <= CollapsedCount && (v.hidden > 0 ==> |v.shown| == CollapsedCount)
    ensures v.hidden >= 0
  {
    var separated := SeparatedOfPost(comments, postId);
    var shown := Displayed(separated.0, showAll);
    CommentListView(|separated.0| + |separated.1|, shown, |SortByLikes(separated.0)| - |shown|)
  }

  /** A shown main comment has at least as many likes as any hidden one. */
  lemma ShownOutrankHidden(comments: seq<Comment>, postId: string, showAll: bool, i: nat, j: nat)
    requires var v := CommentList(comments, postId, showAll);
             i < |v.shown| <= j < |SortByLikes(SeparatedOfPost(comments, postId).0)|
    ensures CommentList(comments, postId, showAll).shown[i].likes
            >= SortByLikes(SeparatedOfPost(comments, postId).0)[j].likes
  {
  }

  /** Expanding the list shows every main comment of the post. */
  lemma ExpandedShowsAll(comments: seq<Comment>, postId: string, c: Comment)
    requires c in comments && c.postId == postId && IsMain(c)
    ensures c in CommentList(comments, postId, true).shown
  {
    var mains := SeparatedOfPost(comments, postId).0;
    assert c in multiset(mains);
  }

  // ---------------------------------------------------------------------
  // Expanded threads
  // ---------------------------------------------------------------------

  /** `toggleMainCommentExpansion`: the main comment's thread flips between expanded and collapsed. */
  function ToggleExpansion(expanded: set<string>, id: string): (r: set<string>)
    ensures id in r <==> id !in expanded
    ensures forall other :: other != id ==> (other in r <==> other in expanded)
  {
    if id in expanded then expanded - {id} else expanded + {id}
  }

  /** Toggling the same thread twice restores the set. */
  lemma ToggleExpansionTwice(expanded: set<string>, id: string)
    ensures ToggleExpansion(ToggleExpansion(expanded, id), id) == expanded
  {
    var twice := ToggleExpansion(ToggleExpansion(expanded, id), id);
    assert forall x :: x in twice <==> x in expanded;
  }

  /** Toggles of two different threads commute. */
  lemma ToggleExpansionCommutes(expanded: set<string>, a: string, b: string)
    ensures ToggleExpansion(ToggleExpansion(expanded, a), b) == ToggleExpansion(ToggleExpansion(expanded, b), a)
  {
    var ab := ToggleExpansion(ToggleExpansion(expanded, a), b);
    var ba := ToggleExpansion(ToggleExpansion(expanded, b), a);
    assert forall x :: x in ab <==> x in ba;
  }

  // ---------------------------------------------------------------------
  // Comment cards
  // ---------------------------------------------------------------------

  /** The like button's number: shown only when positive. */
  function LikesBadge(likes: int): (r: Option<int>)
    ensures r.Some? <==> likes > 0
    ensures r.Some? ==> r.value == likes
  {
    if likes > 0 then Some(likes) else None
  }

  datatype CommentCardView =
    | DeletedComment
    | CommentShown(canDelete: bool, likes: Option<int>)

  /**
    A comment card: a deleted comment shows only the placeholder. With
    `strict` it is the standalone comment card, which also refuses a blank
    user id; otherwise it is the plain comment the comment list renders.
   */
  function CommentCard(c: Comment, userId: Option<string>, strict: bool): (v: CommentCardView)
    ensures v.DeletedComment? <==> c.isDeleted
    ensures v.CommentShown? ==> (v.likes.Some? <==> c.likes > 0)
    ensures v.CommentShown? && v.canDelete ==> userId == Some(c.author.id) && c.author.id != ""
    ensures v.CommentShown? && userId == Some(c.author.id) && !Text.AllSpace(c.author.id) ==> v.canDelete
    ensures v.CommentShown? && !strict ==> (v.canDelete <==> userId == Some(c.author.id) && c.author.id != "")
  {
    CanDeleteRelation(userId, c.author.id);
    if c.isDeleted then DeletedComment
    else
      var canDelete := if strict then CanDeleteTrimmed(userId, c.author.id) else CanDelete(userId, c.author.id);
      CommentShown(canDelete, LikesBadge(c.likes))
  }

  /** The two comment cards agree except for an author whose id is blank. */
  lemma CardsAgreeOffBlankIds(c: Comment, userId: Option<string>)
    requires !Text.AllSpace(c.author.id)
    ensures CommentCard(c, userId, true) == CommentCard(c, userId, false)
  {
    CanDeleteRelation(userId, c.author.id);
  }
}
