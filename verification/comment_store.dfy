/**
  The front end's forum-comment store: a flat list of comments in two
  levels, main comments (no parent) and sub-comments (with a parent), and
  the like toggle, delete and add over it.
 */
module CommentStore {
  import opened Wrappers
  import opened Seqs
  import opened Store
  import opened Accounts

  /** A comment as the front end holds it; `createdAt` is the parsed timestamp in milliseconds. */
  datatype Comment = Comment(
    id: string,
    postId: string,
    parentId: Option<string>,
    content: string,
    author: Author,
    replyToUser: Option<Author>,
    createdAt: int,
    likes: int,
    isLiked: bool,
    isDeleted: bool)

  /** `!comment.parentId`: no parent, or an empty one. */
  predicate IsMain(c: Comment)
  {
    c.parentId.None? || c.parentId.value == ""
  }

  function MainTest(): Comment -> bool
  {
    (c: Comment) => IsMain(c)
  }

  function SubTest(): Comment -> bool
  {
    (c: Comment) => !IsMain(c)
  }

  function CreatedAt(c: Comment): int
  {
    c.createdAt
  }

  predicate OldestFirst(s: seq<Comment>)
  {
    forall i, j :: 0 <= i < j < |s| ==> s[i].createdAt <= s[j].createdAt
  }

  /** `getCommentsByPostId`: the comments of that post, in store order. */
  function CommentsOfPost(comments: seq<Comment>, postId: string): (r: seq<Comment>)
    ensures forall c :: c in r <==> c in comments && c.postId == postId
    ensures IsSubseq(r, comments)
  {
    Select(comments, (c: Comment) => c.postId == postId)
  }

  /**
    `separateComments`: the main comments and the sub-comments, each as a
    sorted copy, oldest first; together they hold exactly the input.
   */
  function SeparateComments(comments: seq<Comment>): (r: (seq<Comment>, seq<Comment>))
    ensures forall c :: c in r.0 ==> IsMain(c)
    ensures forall c :: c in r.1 ==> !IsMain(c)
    ensures multiset(r.0) + multiset(r.1) == multiset(comments)
    ensures OldestFirst(r.0) && OldestFirst(r.1)
  {
    var mains := Filter(comments, MainTest());
    var subs := Filter(comments, SubTest());
    PartitionMultiset(comments, MainTest(), SubTest());
    SortedMembers(mains, CreatedAt);
    SortedMembers(subs, CreatedAt);
    (SortBy(mains, CreatedAt), SortBy(subs, CreatedAt))
  }

  /** Comments created at the same moment keep their store order after separating. */
  lemma SeparateStable(comments: seq<Comment>, t: int)
    ensures WithKey(SeparateComments(comments).0, CreatedAt, t) == WithKey(Filter(comments, MainTest()), CreatedAt, t)
    ensures WithKey(SeparateComments(comments).1, CreatedAt, t) == WithKey(Filter(comments, SubTest()), CreatedAt, t)
  {
    SortStable(Filter(comments, MainTest()), CreatedAt, t);
    SortStable(Filter(comments, SubTest()), CreatedAt, t);
  }

  /**
    `getSubCommentsByMainCommentId`: the direct replies to that comment
    only; a reply to one of its replies names another parent and is left out.
   */
  function SubCommentsOf(mainId: string, subs: seq<Comment>): (r: seq<Comment>)
    ensures forall c :: c in r <==> c in subs && c.parentId == Some(mainId)
    ensures IsSubseq(r, subs)
  {
    Select(subs, (c: Comment) => c.parentId == Some(mainId))
  }

  /** An element is in one of the two parts exactly when it is in the input. */
  lemma SeparateMembers(comments: seq<Comment>)
    ensures forall c :: c in SeparateComments(comments).0 <==> c in comments && IsMain(c)
    ensures forall c :: c in SeparateComments(comments).1 <==> c in comments && !IsMain(c)
  {
    var r := SeparateComments(comments);
    forall c ensures c in comments <==> c in r.0 || c in r.1 {
      assert c in comments <==> c in multiset(comments);
      assert c in r.0 <==> c in multiset(r.0);
      assert c in r.1 <==> c in multiset(r.1);
    }
  }

  /** `getSeparatedCommentsByPostId`: the comments of the post, separated. */
  function SeparatedOfPost(comments: seq<Comment>, postId: string): (r: (seq<Comment>, seq<Comment>))
    ensures forall c :: c in r.0 <==> c in comments && c.postId == postId && IsMain(c)
    ensures forall c :: c in r.1 <==> c in comments && c.postId == postId && !IsMain(c)
    ensures |r.0| + |r.1| == |CommentsOfPost(comments, postId)|
  {
    var own := CommentsOfPost(comments, postId);
    SeparateMembers(own);
    var r := SeparateComments(own);
    assert |multiset(r.0) + multiset(r.1)| == |multiset(own)|;
    r
  }

  // ---------------------------------------------------------------------
  // Likes, delete, add
  // ---------------------------------------------------------------------

  /** The like flag flipped and one like added or taken away, with no floor. */
  function ToggleLike(c: Comment): (r: Comment)
    ensures r.isLiked == !c.isLiked
    ensures r.likes == if r.isLiked then c.likes + 1 else c.likes - 1
    ensures r == c.(isLiked := r.isLiked, likes := r.likes)
  {
    var liked := !c.isLiked;
    c.(isLiked := liked, likes := c.likes + (if liked then 1 else -1))
  }

  /** Without a floor, toggling twice always gives the comment back. */
  lemma ToggleTwice(c: Comment)
    ensures ToggleLike(ToggleLike(c)) == c
  {
  }

  /** Unlike a post's count, a comment's count can go below zero. */
  lemma ToggleBelowZero(c: Comment)
    requires c.isLiked && c.likes == 0
    ensures ToggleLike(c).likes == -1
  {
  }

  function HasId(id: string): Comment -> bool
  {
    (c: Comment) => c.id == id
  }

  function NotId(id: string): Comment -> bool
  {
    (c: Comment) => c.id != id
  }

  /** `toggleCommentLike`: the first comment with the id toggled and returned, or nothing and no change. */
  function ToggleLikeById(comments: seq<Comment>, id: string): (r: (Option<Comment>, seq<Comment>))
    ensures r.0.None? <==> forall i :: 0 <= i < |comments| ==> comments[i].id != id
    ensures r.0.None? ==> r.1 == comments
    ensures r.0.Some? ==> var i := FindIndex(comments, HasId(id)).value;
                          r.1 == comments[i := ToggleLike(comments[i])] && r.0.value == r.1[i]
  {
    var r := UpdateFirst(comments, HasId(id), ToggleLike);
    if r.0.Some? then
      var i := FindIndex(comments, HasId(id)).value;
      assert r.1 == comments[i := ToggleLike(comments[i])];
      r
    else r
  }

  /** Toggling the same comment twice gives the store back. */
  lemma ToggleByIdTwice(comments: seq<Comment>, id: string)
    ensures ToggleLikeById(ToggleLikeById(comments, id).1, id).1 == comments
  {
    var once := ToggleLikeById(comments, id);
    if once.0.Some? {
      var i := FindIndex(comments, HasId(id)).value;
      assert forall j :: 0 <= j < i ==> once.1[j] == comments[j];
      assert once.1[i].id == id;
      assert FindIndex(once.1, HasId(id)) == Some(i) by {
        SameFirstIndex(comments, once.1, HasId(id), i);
      }
      ToggleTwice(comments[i]);
      assert once.1[i := ToggleLike(once.1[i])] == comments;
    }
  }

  /** Two sequences that agree before `i` and both match at `i` have their first match at `i`. */
  lemma SameFirstIndex<T>(a: seq<T>, b: seq<T>, p: T -> bool, i: nat)
    requires FindIndex(a, p) == Some(i) && i < |b| && p(b[i])
    requires forall j :: 0 <= j < i ==> b[j] == a[j]
    ensures FindIndex(b, p) == Some(i)
  {
  }

  /** `deleteComment`: the first comment with the id removed and true, or false and no change. */
  function DeleteComment(comments: seq<Comment>, id: string): (r: (bool, seq<Comment>))
    ensures !r.0 <==> forall i :: 0 <= i < |comments| ==> comments[i].id != id
    ensures !r.0 ==> r.1 == comments
    ensures r.0 ==> r.1 == RemoveAt(comments, FindIndex(comments, HasId(id)).value)
  {
    RemoveFirst(comments, HasId(id))
  }

  /** Deleting keeps every comment with another id, in order, and one fewer with this id. */
  lemma DeleteCommentOthers(comments: seq<Comment>, id: string)
    ensures Filter(DeleteComment(comments, id).1, NotId(id)) == Filter(comments, NotId(id))
    ensures DeleteComment(comments, id).0 ==>
              |Filter(DeleteComment(comments, id).1, HasId(id))| + 1 == |Filter(comments, HasId(id))|
  {
    RemoveFirstOthers(comments, HasId(id), NotId(id));
  }

  /** `addComment`: appended at the end and returned as given. */
  function AddComment(comments: seq<Comment>, c: Comment): (r: (Comment, seq<Comment>))
    ensures r.0 == c
    ensures |r.1| == |comments| + 1 && r.1[..|comments|] == comments && r.1[|comments|] == c
  {
    (c, Append(comments, c))
  }
}
