/**
  The front end's forum-post store: like toggling, add, partial update,
  delete and lookup by id over the post array, and the start-up merge of
  the posts saved in browser storage with the built-in seed posts.
 */
module PostStore {
  import opened Wrappers
  import opened Seqs
  import opened Store
  import opened Accounts

  /**
    A post as the front end holds it; `createdAt` is the parsed timestamp in
    milliseconds, and an absent `isLiked` reads as false.
   */
  datatype Post = Post(
    id: string,
    title: string,
    content: string,
    author: Author,
    createdAt: int,
    tags: seq<string>,
    likes: int,
    comments: int,
    isLiked: bool,
    language: string)

  function HasId(id: string): Post -> bool
  {
    (p: Post) => p.id == id
  }

  function NotId(id: string): Post -> bool
  {
    (p: Post) => p.id != id
  }

  // ---------------------------------------------------------------------
  // Likes
  // ---------------------------------------------------------------------

  /** The like flag flipped, and one like added or taken away, never below zero. */
  function ToggleLike(p: Post): (r: Post)
    ensures r.isLiked == !p.isLiked
    ensures r.likes >= 0
    ensures p.likes >= 0 && r.isLiked ==> r.likes == p.likes + 1
    ensures p.likes >= 1 && !r.isLiked ==> r.likes == p.likes - 1
    ensures r == p.(isLiked := r.isLiked, likes := r.likes)
  {
    var nextLiked := !p.isLiked;
    var nextLikes := p.likes + (if nextLiked then 1 else -1);
    p.(isLiked := nextLiked, likes := if nextLikes < 0 then 0 else nextLikes)
  }

  /**
    Toggling twice gives the post back, except for a post that is liked
    with no likes: its like count is clamped on the way down and comes back
    as one.
   */
  lemma ToggleTwice(p: Post)
    requires p.likes >= 0
    ensures ToggleLike(ToggleLike(p)) == p <==> !(p.isLiked && p.likes == 0)
  {
    if p.isLiked && p.likes == 0 {
      assert ToggleLike(ToggleLike(p)).likes == 1;
    }
  }

  /** `toggleLikeById`: the first post with the id toggled and returned, or nothing and no change. */
  function ToggleLikeById(posts: seq<Post>, id: string): (r: (Option<Post>, seq<Post>))
    ensures r.0.None? <==> forall i :: 0 <= i < |posts| ==> posts[i].id != id
    ensures r.0.None? ==> r.1 == posts
    ensures r.0.Some? ==> var i := FindIndex(posts, HasId(id)).value;
                          r.1 == posts[i := ToggleLike(posts[i])] && r.0.value == r.1[i]
    ensures (forall i :: 0 <= i < |posts| ==> posts[i].likes >= 0) ==>
              forall i :: 0 <= i < |r.1| ==> r.1[i].likes >= 0
  {
    var r := UpdateFirst(posts, HasId(id), ToggleLike);
    if r.0.Some? then
      var i := FindIndex(posts, HasId(id)).value;
      assert r.1 == posts[i := ToggleLike(posts[i])];
      r
    else r
  }

  // ---------------------------------------------------------------------
  // Add, update, delete, get
  // ---------------------------------------------------------------------

  /** `addPost`: appended at the end and returned as given. */
  function AddPost(posts: seq<Post>, post: Post): (r: (Post, seq<Post>))
    ensures r.0 == post
    ensures |r.1| == |posts| + 1 && r.1[..|posts|] == posts && r.1[|posts|] == post
  {
    (post, Append(posts, post))
  }

  /** The fields a `Partial<ForumPost>` supplies; a missing field is `None`. */
  datatype PostPatch = PostPatch(
    id: Option<string>,
    title: Option<string>,
    content: Option<string>,
    author: Option<Author>,
    createdAt: Option<int>,
    tags: Option<seq<string>>,
    likes: Option<int>,
    comments: Option<int>,
    isLiked: Option<bool>,
    language: Option<string>)

  const EmptyPatch := PostPatch(None, None, None, None, None, None, None, None, None, None)

  /** `Object.assign(post, updates)`: every supplied field overwritten, the others kept. */
  function Assign(p: Post, u: PostPatch): (r: Post)
    ensures r.id == u.id.GetOr(p.id) && r.title == u.title.GetOr(p.title)
    ensures r.content == u.content.GetOr(p.content) && r.author == u.author.GetOr(p.author)
    ensures r.createdAt == u.createdAt.GetOr(p.createdAt) && r.tags == u.tags.GetOr(p.tags)
    ensures r.likes == u.likes.GetOr(p.likes) && r.comments == u.comments.GetOr(p.comments)
    ensures r.isLiked == u.isLiked.GetOr(p.isLiked) && r.language == u.language.GetOr(p.language)
  {
    Post(u.id.GetOr(p.id), u.title.GetOr(p.title), u.content.GetOr(p.content), u.author.GetOr(p.author),
         u.createdAt.GetOr(p.createdAt), u.tags.GetOr(p.tags), u.likes.GetOr(p.likes),
         u.comments.GetOr(p.comments), u.isLiked.GetOr(p.isLiked), u.language.GetOr(p.language))
  }

  /** The later of two optional values: the second when it is supplied. */
  function Later<T>(a: Option<T>, b: Option<T>): Option<T>
  {
    if b.Some? then b else a
  }

  /** Two patches in a row, as one: the second wins wherever it supplies a field. */
  function Combine(u1: PostPatch, u2: PostPatch): PostPatch
  {
    PostPatch(Later(u1.id, u2.id), Later(u1.title, u2.title), Later(u1.content, u2.content),
              Later(u1.author, u2.author), Later(u1.createdAt, u2.createdAt), Later(u1.tags, u2.tags),
              Later(u1.likes, u2.likes), Later(u1.comments, u2.comments), Later(u1.isLiked, u2.isLiked),
              Later(u1.language, u2.language))
  }

  /** An empty patch changes nothing; assigning twice is assigning the combined patch once. */
  lemma AssignLaws(p: Post, u1: PostPatch, u2: PostPatch)
    ensures Assign(p, EmptyPatch) == p
    ensures Assign(Assign(p, u1), u2) == Assign(p, Combine(u1, u2))
    ensures Assign(Assign(p, u1), u1) == Assign(p, u1)
  {
  }

  /** `updatePost`: the first post with the id patched and returned, or nothing and no change. */
  function UpdatePost(posts: seq<Post>, id: string, u: PostPatch): (r: (Option<Post>, seq<Post>))
    ensures r.0.None? <==> forall i :: 0 <= i < |posts| ==> posts[i].id != id
    ensures r.0.None? ==> r.1 == posts
    ensures r.0.Some? ==> var i := FindIndex(posts, HasId(id)).value;
                          r.1 == posts[i := Assign(posts[i], u)] && r.0.value == r.1[i]
  {
    var r := UpdateFirst(posts, HasId(id), (p: Post) => Assign(p, u));
    if r.0.Some? then
      var i := FindIndex(posts, HasId(id)).value;
      assert r.1 == posts[i := Assign(posts[i], u)];
      r
    else r
  }

  /** `deletePost`: the first post with the id removed and true, or false and no change. */
  function DeletePost(posts: seq<Post>, id: string): (r: (bool, seq<Post>))
    ensures !r.0 <==> forall i :: 0 <= i < |posts| ==> posts[i].id != id
    ensures !r.0 ==> r.1 == posts
    ensures r.0 ==> r.1 == RemoveAt(posts, FindIndex(posts, HasId(id)).value)
  {
    RemoveFirst(posts, HasId(id))
  }

  /** Deleting keeps every post with another id, in order, and one fewer with this id. */
  lemma DeletePostOthers(posts: seq<Post>, id: string)
    ensures Filter(DeletePost(posts, id).1, NotId(id)) == Filter(posts, NotId(id))
    ensures DeletePost(posts, id).0 ==> |Filter(DeletePost(posts, id).1, HasId(id))| + 1 == |Filter(posts, HasId(id))|
  {
    RemoveFirstOthers(posts, HasId(id), NotId(id));
  }

  /** `getPostById`: the first post with the id. */
  function GetPostById(posts: seq<Post>, id: string): (r: Option<Post>)
    ensures r.None? <==> forall i :: 0 <= i < |posts| ==> posts[i].id != id
    ensures r.Some? ==> r.value in posts && r.value.id == id
  {
    Find(posts, HasId(id))
  }

  /** A post just added is found by its id when no earlier post has it. */
  lemma AddThenGet(posts: seq<Post>, post: Post)
    requires forall i :: 0 <= i < |posts| ==> posts[i].id != post.id
    ensures GetPostById(AddPost(posts, post).1, post.id) == Some(post)
  {
    AppendThenFind(posts, post, HasId(post.id));
  }

  // ---------------------------------------------------------------------
  // Start-up merge
  // ---------------------------------------------------------------------

  function Ids(posts: seq<Post>): set<string>
  {
    set p | p in posts :: p.id
  }

  /** Newest first: the negated timestamp ascends. */
  function Newness(p: Post): int
  {
    -p.createdAt
  }

  /**
    The stored posts together with the seed posts whose ids are not stored,
    sorted newest first (a stable sort, so equal timestamps keep the stored
    posts ahead of the seed posts).
   */
  function MergeWithSeed(stored: seq<Post>, seed: seq<Post>): (r: seq<Post>)
    ensures multiset(r) == multiset(stored + Filter(seed, (p: Post) => p.id !in Ids(stored)))
    ensures forall i, j :: 0 <= i < j < |r| ==> r[i].createdAt >= r[j].createdAt
  {
    var unseen := Filter(seed, (p: Post) => p.id !in Ids(stored));
    SortBy(stored + unseen, Newness)
  }

  /** Among posts of equal time, the stored ones come first and each group keeps its order. */
  lemma MergeStable(stored: seq<Post>, seed: seq<Post>, t: int)
    ensures WithKey(MergeWithSeed(stored, seed), Newness, t) ==
            WithKey(stored, Newness, t) + WithKey(Filter(seed, (p: Post) => p.id !in Ids(stored)), Newness, t)
  {
    var unseen := Filter(seed, (p: Post) => p.id !in Ids(stored));
    SortStable(stored + unseen, Newness, t);
    FilterConcat(stored, unseen, HasKey(Newness, t));
  }

  /** Every stored post survives the merge, and so does the id of every seed post. */
  lemma MergeKeepsIds(stored: seq<Post>, seed: seq<Post>)
    ensures forall p :: p in stored ==> p in MergeWithSeed(stored, seed)
    ensures Ids(MergeWithSeed(stored, seed)) == Ids(stored) + Ids(seed)
  {
    var unseen := Filter(seed, (p: Post) => p.id !in Ids(stored));
    var r := MergeWithSeed(stored, seed);
    assert forall p :: p in r <==> p in stored + unseen by {
      forall p ensures p in r <==> p in stored + unseen {
        assert p in r <==> p in multiset(r);
        assert p in stored + unseen <==> p in multiset(stored + unseen);
      }
    }
    forall id | id in Ids(stored) + Ids(seed) ensures id in Ids(r) {
      if id in Ids(stored) {
        var p :| p in stored && p.id == id;
        assert p in r;
      } else {
        var p :| p in seed && p.id == id;
        assert p in unseen;
        assert p in r;
      }
    }
  }

  /**
    What the store starts from: the seed posts when nothing usable is saved
    (no browser, no saved entry, or an entry that does not parse), else the
    merge of the saved posts with the seed.
   */
  function LoadPosts(saved: Option<seq<Post>>, seed: seq<Post>): (r: seq<Post>)
    ensures saved.None? ==> r == seed
    ensures saved.Some? ==> r == MergeWithSeed(saved.value, seed)
  {
    match saved
    case None => seed
    case Some(stored) => MergeWithSeed(stored, seed)
  }
}
