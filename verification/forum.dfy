/**
  Forum posts and comments on the server: the rows and their defaults,
  cascading deletion through the `post` and `parent` links, the payloads
  the serializers produce and the comment list filters.

  A comment is a main comment when it has no parent and a reply otherwise;
  the only link between comments is `parent`.
 */
module Forum {
  import opened Wrappers
  import opened Seqs
  import opened Decimal
  import opened Accounts
  import opened Queries
  import opened Keys

  datatype Post = Post(
    id: string, title: string, content: string, author: nat, createdAt: int,
    tags: seq<string>, language: string, likesCount: nat)

  datatype Comment = Comment(
    id: string, post: string, parent: Option<string>, content: string, author: nat,
    replyToUser: Option<nat>, createdAt: int, isDeleted: bool, likesCount: nat)

  predicate IsMain(c: Comment)
  {
    c.parent.None?
  }

  /** A post created with only its required columns. */
  function NewPost(id: string, title: string, content: string, author: nat, now: int): (p: Post)
    ensures p.tags == [] && p.language == "" && p.likesCount == 0 && p.createdAt == now
  {
    Post(id, title, content, author, now, [], "", 0)
  }

  /** A comment created with only its required columns: not deleted, no likes, no target. */
  function NewComment(id: string, post: string, parent: Option<string>, content: string, author: nat, now: int): (c: Comment)
    ensures !c.isDeleted && c.likesCount == 0 && c.replyToUser.None? && c.createdAt == now
    ensures IsMain(c) <==> parent.None?
  {
    Comment(id, post, parent, content, author, None, now, false, 0)
  }

  datatype ForumDb = ForumDb(posts: seq<Post>, comments: seq<Comment>)

  // ---------------------------------------------------------------------
  // Cascading deletion
  // ---------------------------------------------------------------------

  function Ids(cs: seq<Comment>): set<string>
  {
    set c | c in cs :: c.id
  }

  /** The comments whose parent is in `ids`. */
  function Children(cs: seq<Comment>, ids: set<string>): set<string>
  {
    set c | c in cs && c.parent.Some? && c.parent.value in ids :: c.id
  }

  /** A set of ids that contains every child of each of its members. */
  ghost predicate Closed(cs: seq<Comment>, ids: set<string>)
  {
    forall c :: c in cs && c.parent.Some? && c.parent.value in ids ==> c.id in ids
  }

  /**
    The ids `ON DELETE CASCADE` on `parent` removes along with `ids`: the
    smallest superset of `ids` that is closed under taking children.
   */
  function Doomed(cs: seq<Comment>, ids: set<string>): (r: set<string>)
    ensures ids <= r && Closed(cs, r)
    ensures r <= ids + Ids(cs)
    decreases |Ids(cs) - ids|
  {
    var next := ids + Children(cs, ids);
    if next <= ids then ids
    else
      assert Ids(cs) - ids == (Ids(cs) - next) + (next - ids);
      assert next - ids != {};
      Doomed(cs, next)
  }

  /** Nothing outside every closed superset of `ids` is removed: the cascade is the least one. */
  lemma {:induction false} DoomedLeast(cs: seq<Comment>, ids: set<string>, s: set<string>)
    requires ids <= s && Closed(cs, s)
    ensures Doomed(cs, ids) <= s
    decreases |Ids(cs) - ids|
  {
    var next := ids + Children(cs, ids);
    if !(next <= ids) {
      assert Ids(cs) - ids == (Ids(cs) - next) + (next - ids);
      assert next - ids != {};
      DoomedLeast(cs, next, s);
    }
  }

  /** The comments that survive removing the ids in `gone`. */
  function Without(cs: seq<Comment>, gone: set<string>): (r: seq<Comment>)
    ensures forall c :: c in r <==> c in cs && c.id !in gone
    ensures IsSubseq(r, cs)
  {
    FilterSubseq(cs, (c: Comment) => c.id !in gone);
    Filter(cs, (c: Comment) => c.id !in gone)
  }

  /**
    Deleting a comment removes it and, transitively, every reply under it;
    no surviving comment points at a removed parent.
   */
  function DeleteComment(db: ForumDb, id: string): (r: ForumDb)
    ensures r.posts == db.posts
    ensures forall c :: c in r.comments ==> c in db.comments && c.id != id
    ensures forall c :: c in r.comments && c.parent.Some? ==> c.parent.value !in Doomed(db.comments, {id})
    ensures forall c :: c in db.comments && c.id !in Doomed(db.comments, {id}) ==> c in r.comments
    ensures IsSubseq(r.comments, db.comments)
  {
    ForumDb(db.posts, Without(db.comments, Doomed(db.comments, {id})))
  }

  /** The ids of the comments on post `pid`. */
  function OnPost(cs: seq<Comment>, pid: string): set<string>
  {
    set c | c in cs && c.post == pid :: c.id
  }

  /**
    Deleting a post removes it, its comments, and every reply under a
    removed comment.
   */
  function DeletePost(db: ForumDb, pid: string): (r: ForumDb)
    ensures forall p :: p in r.posts <==> p in db.posts && p.id != pid
    ensures forall c :: c in r.comments ==> c in db.comments && c.post != pid
    ensures forall c :: c in r.comments && c.parent.Some? ==>
              c.parent.value !in Doomed(db.comments, OnPost(db.comments, pid))
    ensures forall c :: c in db.comments && c.id !in Doomed(db.comments, OnPost(db.comments, pid)) ==> c in r.comments
  {
    var gone := Doomed(db.comments, OnPost(db.comments, pid));
    ForumDb(Filter(db.posts, (p: Post) => p.id != pid), Without(db.comments, gone))
  }

  /** `SET_NULL` on the reply target, when the target is the deleted user. */
  function Forget(c: Comment, pk: nat): Comment
  {
    if c.replyToUser == Some(pk) then c.(replyToUser := None) else c
  }

  /** `Forget` applied to every comment, in place. */
  function ForgetAll(cs: seq<Comment>, pk: nat): (r: seq<Comment>)
    ensures |r| == |cs|
    ensures forall i :: 0 <= i < |r| ==> r[i] == Forget(cs[i], pk)
    ensures forall c :: c in cs ==> Forget(c, pk) in r
    ensures forall c :: c in r ==> exists d :: d in cs && c == Forget(d, pk)
  {
    var r := seq(|cs|, i requires 0 <= i < |cs| => Forget(cs[i], pk));
    assert forall c :: c in cs ==> Forget(c, pk) in r by {
      forall c | c in cs ensures Forget(c, pk) in r {
        var i :| 0 <= i < |cs| && cs[i] == c;
        assert r[i] == Forget(c, pk);
      }
    }
    assert forall c :: c in r ==> exists d :: d in cs && c == Forget(d, pk) by {
      forall c | c in r ensures exists d :: d in cs && c == Forget(d, pk) {
        var i :| 0 <= i < |r| && r[i] == c;
        assert cs[i] in cs;
      }
    }
    r
  }

  /** The ids of the comments written by `pk` or made on one of `pk`'s posts. */
  function OwnedBy(db: ForumDb, pk: nat): set<string>
  {
    set c | c in db.comments && (c.author == pk || exists p :: p in db.posts && p.author == pk && p.id == c.post) :: c.id
  }

  /**
    Deleting a user removes their posts and comments (`CASCADE`), the
    comments on their posts and every reply under a removed comment; the
    comments left that were addressed to them forget the target
    (`SET_NULL`).
   */
  function DeleteUser(db: ForumDb, pk: nat): (r: ForumDb)
    ensures forall p :: p in r.posts <==> p in db.posts && p.author != pk
    ensures IsSubseq(r.posts, db.posts)
    ensures |r.comments| == |Without(db.comments, Doomed(db.comments, OwnedBy(db, pk)))|
    ensures forall i :: 0 <= i < |r.comments| ==> r.comments[i].author != pk && r.comments[i].replyToUser != Some(pk)
    ensures forall c :: c in r.comments <==>
              exists d :: d in db.comments && d.id !in Doomed(db.comments, OwnedBy(db, pk)) && c == Forget(d, pk)
  {
    var gone := Doomed(db.comments, OwnedBy(db, pk));
    var kept := Without(db.comments, gone);
    DeleteUserComments(db, pk, gone, kept);
    FilterSubseq(db.posts, (p: Post) => p.author != pk);
    ForumDb(Filter(db.posts, (p: Post) => p.author != pk), ForgetAll(kept, pk))
  }

  /** The surviving comments, forgotten, are exactly the forgotten survivors; none is by or to the user. */
  lemma DeleteUserComments(db: ForumDb, pk: nat, gone: set<string>, kept: seq<Comment>)
    requires gone == Doomed(db.comments, OwnedBy(db, pk)) && kept == Without(db.comments, gone)
    ensures forall i :: 0 <= i < |ForgetAll(kept, pk)| ==>
              ForgetAll(kept, pk)[i].author != pk && ForgetAll(kept, pk)[i].replyToUser != Some(pk)
    ensures forall c :: c in ForgetAll(kept, pk) <==> exists d :: d in db.comments && d.id !in gone && c == Forget(d, pk)
  {
    var r := ForgetAll(kept, pk);
    forall i | 0 <= i < |r| ensures r[i].author != pk && r[i].replyToUser != Some(pk) {
      assert kept[i] in kept;
    }
  }

  /** A user who owns nothing and is nobody's reply target leaves the forum unchanged when deleted. */
  lemma DeleteUserUninvolved(db: ForumDb, pk: nat)
    requires forall p :: p in db.posts ==> p.author != pk
    requires forall c :: c in db.comments ==> c.author != pk && c.replyToUser != Some(pk)
    ensures DeleteUser(db, pk) == db
  {
    assert OwnedBy(db, pk) == {};
    DoomedLeast(db.comments, {}, {});
    FilterAll(db.posts, (p: Post) => p.author != pk);
    FilterAll(db.comments, (c: Comment) => c.id !in Doomed(db.comments, OwnedBy(db, pk)));
    var kept := Without(db.comments, Doomed(db.comments, OwnedBy(db, pk)));
    assert kept == db.comments;
    assert ForgetAll(kept, pk) == db.comments;
  }

  // ---------------------------------------------------------------------
  // Payloads
  // ---------------------------------------------------------------------

  datatype PostPayload = PostPayload(
    id: string, title: string, content: string, author: Author, createdAt: int,
    tags: seq<string>, likes: nat, comments: nat, isLiked: bool, language: string)

  /** The comments of post `pid`, main comments and replies, deleted or not. */
  function CommentsOf(cs: seq<Comment>, pid: string): seq<Comment>
  {
    Filter(cs, (c: Comment) => c.post == pid)
  }

  /**
    `ForumPostSerializer`: the author as an Author payload, `likes` from the
    counter, `comments` counting every comment of the post and `isLiked`
    always false.
   */
  function PostOut(d: Directory, cs: seq<Comment>, p: Post): (o: PostPayload)
    requires p.author in d.users
    ensures o.author == AuthorPayloadFor(d, p.author)
    ensures o.likes == p.likesCount
    ensures o.comments == |CommentsOf(cs, p.id)|
    ensures !o.isLiked
    ensures o.id == p.id && o.title == p.title && o.content == p.content && o.createdAt == p.createdAt
    ensures o.tags == p.tags && o.language == p.language
  {
    PostPayload(p.id, p.title, p.content, AuthorPayloadFor(d, p.author), p.createdAt,
                p.tags, p.likesCount, |CommentsOf(cs, p.id)|, false, p.language)
  }

  /**
    A field of a nested serializer read with `source="*"`: DRF looks the
    field's name up as an attribute of the row itself.
   */
  datatype NestedField = NestedField(name: string, required: bool)

  /** `AuthorSerializer`'s fields: `id` and `name` required, `avatar` optional and nullable. */
  const AuthorFields: seq<NestedField> :=
    [NestedField("id", true), NestedField("name", true), NestedField("avatar", false)]

  /** The attributes a `ForumPost` row answers to: its columns, its key and its relations. */
  const PostAttributes: set<string> :=
    {"pk", "id", "title", "content", "author", "author_id", "created_at", "tags", "language",
     "likes_count", "comments"}

  /**
    `Field.get_attribute` over the fields in order. A missing attribute is
    an error naming the field when the field is required. For an optional
    field the read goes on: the value is `None` when the field allows null
    (`avatar` does) and the field is skipped otherwise. The result lists the
    fields found on the row.
   */
  function ReadNested(fields: seq<NestedField>, attrs: set<string>): (r: Result<seq<string>, string>)
    ensures r.Success? <==> forall i :: 0 <= i < |fields| && fields[i].required ==> fields[i].name in attrs
    ensures r.Success? ==> forall n :: n in r.value <==> exists i :: 0 <= i < |fields| && fields[i].name == n && n in attrs
    ensures r.Failure? ==> exists i :: 0 <= i < |fields| && fields[i].required && fields[i].name !in attrs
                                     && fields[i].name == r.error
                                     && forall j :: 0 <= j < i && fields[j].required ==> fields[j].name in attrs
    decreases |fields|
  {
    if |fields| == 0 then Success([])
    else
      var f := fields[0];
      if f.name !in attrs && f.required then Failure(f.name)
      else
        match ReadNested(fields[1..], attrs)
        case Failure(e) =>
          assert forall i :: 1 <= i < |fields| ==> fields[i] == fields[1..][i - 1];
          Failure(e)
        case Success(names) =>
          assert forall i :: 1 <= i < |fields| ==> fields[i] == fields[1..][i - 1];
          Success(if f.name in attrs then [f.name] + names else names)
  }

  /**
    `ForumPostSerializer` as written: `author = AuthorSerializer(source="*")`
    reads the Author fields off the post before the overriding payload is
    put in, so a post that lacks a required Author field cannot be shown.
   */
  function PostOutAsWritten(d: Directory, cs: seq<Comment>, p: Post): (r: Result<PostPayload, string>)
    requires p.author in d.users
    ensures r.Failure? <==> exists f :: f in AuthorFields && f.required && f.name !in PostAttributes
    ensures r.Success? ==> r.value == PostOut(d, cs, p)
  {
    match ReadNested(AuthorFields, PostAttributes)
    case Failure(e) => Failure(e)
    case Success(_) => Success(PostOut(d, cs, p))
  }

  /** Every post fails: a `ForumPost` has no `name`, which `AuthorSerializer` requires. */
  lemma EveryPostFails(d: Directory, cs: seq<Comment>, p: Post)
    requires p.author in d.users
    ensures PostOutAsWritten(d, cs, p) == Failure("name")
  {
    assert AuthorFields[0].name in PostAttributes;
    assert AuthorFields[1].name !in PostAttributes;
  }

  /**
    In a consistent directory the post's author payload reads back as the
    stored author key, and its name is the name the author signs in with.
   */
  lemma PostOutAuthor(d: Directory, cs: seq<Comment>, p: Post)
    requires d.Valid() && p.author in d.users
    ensures Value(PostOut(d, cs, p).author.id) == p.author
    ensures PostOut(d, cs, p).author.name == DisplayName(d, p.author)
  {
    DisplayNameIsAuthorName(d, p.author);
  }

  /** The comment count is the main comments plus the replies. */
  lemma CommentCountSplits(cs: seq<Comment>, pid: string)
    ensures |CommentsOf(cs, pid)| ==
            |Filter(CommentsOf(cs, pid), IsMain)| + |Filter(CommentsOf(cs, pid), (c: Comment) => !IsMain(c))|
  {
    FilterSplitCount(CommentsOf(cs, pid), IsMain, (c: Comment) => !IsMain(c));
  }

  datatype CommentPayload = CommentPayload(
    id: string, content: string, author: Author, createdAt: int, likes: nat,
    isDeleted: bool, parentId: Option<string>, postId: string, replyToUser: Option<Author>)

  /**
    `ForumCommentSerializer`: `replyToUser` is the target's Author payload
    when the stored key is truthy (set and not 0), else absent.
   */
  function CommentOut(d: Directory, c: Comment): (o: CommentPayload)
    requires c.author in d.users
    requires KeyTruthy(c.replyToUser) ==> c.replyToUser.value in d.users
    ensures o.author == AuthorPayloadFor(d, c.author)
    ensures o.replyToUser.None? <==> !KeyTruthy(c.replyToUser)
    ensures KeyTruthy(c.replyToUser) ==> o.replyToUser == Some(AuthorPayloadFor(d, c.replyToUser.value))
    ensures o.parentId == c.parent && o.postId == c.post && o.likes == c.likesCount
    ensures o.id == c.id && o.content == c.content && o.createdAt == c.createdAt && o.isDeleted == c.isDeleted
  {
    CommentPayload(c.id, c.content, AuthorPayloadFor(d, c.author), c.createdAt, c.likesCount, c.isDeleted,
                   c.parent, c.post,
                   if KeyTruthy(c.replyToUser) then Some(AuthorPayloadFor(d, c.replyToUser.value)) else None)
  }

  /**
    In a consistent directory every stored target is shown, and the ids in
    the payload read back as the stored author and target keys.
   */
  lemma CommentOutKeys(d: Directory, c: Comment)
    requires d.Valid() && c.author in d.users
    requires c.replyToUser.Some? ==> c.replyToUser.value in d.users
    ensures KeyTruthy(c.replyToUser) ==> c.replyToUser.value in d.users
    ensures Value(CommentOut(d, c).author.id) == c.author
    ensures CommentOut(d, c).replyToUser.Some? <==> c.replyToUser.Some?
    ensures c.replyToUser.Some? ==> Value(CommentOut(d, c).replyToUser.value.id) == c.replyToUser.value
  {
    if c.replyToUser.Some? {
      UserKeyTruthy(d, c.replyToUser);
    }
  }

  // ---------------------------------------------------------------------
  // Orderings and the comment list filters
  // ---------------------------------------------------------------------

  /** `ordering = ["-created_at"]`: posts newest first. */
  function PostsNewestFirst(ps: seq<Post>): (r: seq<Post>)
    ensures forall i, j :: 0 <= i < j < |r| ==> r[i].createdAt >= r[j].createdAt
    ensures multiset(r) == multiset(ps)
  {
    SortBy(ps, (p: Post) => -p.createdAt)
  }

  /** `ordering = ["created_at"]`: comments oldest first. */
  function CommentsOldestFirst(cs: seq<Comment>): (r: seq<Comment>)
    ensures forall i, j :: 0 <= i < j < |r| ==> r[i].createdAt <= r[j].createdAt
    ensures multiset(r) == multiset(cs)
  {
    SortBy(cs, (c: Comment) => c.createdAt)
  }

  function PostKey(c: Comment): Option<string> { Some(c.post) }

  function ParentKey(c: Comment): Option<string> { c.parent }

  /** The canonical text of the UUID a query parameter names. */
  function UuidParam(param: Option<string>): string
    requires Given(param) && ParseUuid(param.value).Some?
  {
    CanonicalUuid(ParseUuid(param.value).value)
  }

  /**
    `?postId=` keeps the comments of that post, `?parentId=` the direct
    replies to that comment; given together they combine with AND. Each
    parameter is parsed as a UUID first, and one that is not a UUID is a
    server error.
   */
  function CommentList(base: seq<Comment>, postId: Option<string>, parentId: Option<string>): (r: Listing<Comment>)
    ensures r.ServerError? <==>
              || (Given(postId) && ParseUuid(postId.value).None?)
              || (Given(parentId) && ParseUuid(parentId.value).None?)
    ensures r.Rows? ==> forall c :: c in r.rows <==>
              && c in base
              && (Given(postId) ==> c.post == UuidParam(postId))
              && (Given(parentId) ==> c.parent == Some(UuidParam(parentId)))
    ensures !Given(postId) && !Given(parentId) ==> r == Rows(base)
    ensures r.Rows? ==> IsSubseq(r.rows, base)
  {
    match NarrowKey(base, postId, UuidKey, PostKey)
    case ServerError => ServerError
    case Rows(byPost) =>
      var r := NarrowKey(byPost, parentId, UuidKey, ParentKey);
      if r.Rows? then SubseqTrans(r.rows, byPost, base); r else r
  }

  /** Applying the two filters in the other order gives the same answer. */
  lemma CommentListOrderFree(base: seq<Comment>, postId: Option<string>, parentId: Option<string>)
    ensures CommentList(base, postId, parentId) ==
            AndThen(NarrowKey(base, parentId, UuidKey, ParentKey), postId, UuidKey, PostKey)
  {
    NarrowKeyCommutes(base, postId, UuidKey, PostKey, parentId, UuidKey, ParentKey);
  }

  /** A post's UUID written without hyphens selects the same comments as its canonical text. */
  lemma CommentListUnhyphenated(base: seq<Comment>, v: nat, parentId: Option<string>)
    requires v < UuidBound
    ensures CommentList(base, Some(HexText(v, 32)), parentId) == CommentList(base, Some(CanonicalUuid(v)), parentId)
  {
    UuidKeyUnhyphenated(v);
  }
}
