/**
 * The post routes of the API, as functions of the caller `token_required`
 * resolved and the `post` table. Every guarded route filters on
 * `author_id == current_user.id`; a `None` caller makes that dereference raise.
 * The writes return the table as committed; `Service.Store` performs them in place.
 */
module Posts {
  import opened Wrappers
  import opened Query
  import opened Table
  import opened Models

  /** `get_all_posts` (GET /post, not guarded): every post of every author, in id order. */
  function GetAllPosts(posts: seq<Post>): (r: Response)
    ensures r == AllPosts(posts)
  {
    AllPosts(posts)
  }

  /** `get_all_own_posts` (GET /post/own): exactly the caller's posts. */
  function GetAllOwnPosts(caller: Option<User>, posts: seq<Post>): (r: Response)
    ensures caller.None? ==> r == ServerError
    ensures caller.Some? ==>
      r.OwnPosts? && forall p :: p in r.posts <==> p in posts && p.authorId == caller.value.id
  {
    if caller.None? then ServerError
    else OwnPosts(Filter(posts, ByAuthor(caller.value.id)))
  }

  /** `get_one_post` (GET /post/<id>): the post with that id, only if the caller wrote it. */
  function GetOnePost(caller: Option<User>, posts: seq<Post>, postId: int): (r: Response)
    ensures caller.None? ==> r == ServerError
    ensures r.PostData? || r == PostNotFound || r == ServerError
    ensures r == PostNotFound <==>
      caller.Some? && forall p :: p in posts ==> !(p.id == postId && p.authorId == caller.value.id)
    ensures r.PostData? ==> r.post in posts && r.post.id == postId && r.post.authorId == caller.value.id
    ensures caller.Some? && (exists p :: p in posts && p.id == postId && p.authorId == caller.value.id) ==> r.PostData?
  {
    if caller.None? then ServerError
    else match First(posts, OwnedPost(postId, caller.value.id))
      case None => PostNotFound
      case Some(i) => PostData(posts[i])
  }

  /**
   * `create_post` (POST /post): appends a post with the body's title and text,
   * created at `now` and authored by the caller whatever the body says.
   */
  function CreatePost(caller: Option<User>, posts: seq<Post>, data: Json, now: int): (o: Outcome<Post>)
    ensures o.response.PostCreated? <==> caller.Some? && "title" in data && "body" in data
    ensures !o.response.PostCreated? ==> o == Outcome(ServerError, posts)
    ensures o.response.PostCreated? ==>
      var p := o.response.post;
      && o.rows == posts + [p]
      && p.title == data["title"] && p.body == data["body"]
      && p.createdAt == now && p.authorId == caller.value.id
      && forall q :: q in posts ==> q.id < p.id
  {
    if "title" !in data || "body" !in data || caller.None? then Outcome(ServerError, posts)
    else
      var p := Post(NextKey(posts, PostKey), data["title"], data["body"], now, caller.value.id);
      Outcome(PostCreated(p), posts + [p])
  }

  /**
   * `change_post` (PUT /post/<id>): rewrites the title and text of the
   * caller's post with that id. The body's fields are read only once the post is found.
   */
  function ChangePost(caller: Option<User>, posts: seq<Post>, postId: int, data: Json): (o: Outcome<Post>)
    ensures o.response.PostChanged? || o.response == PostNotFound || o.response == ServerError
    ensures caller.None? ==> o == Outcome(ServerError, posts)
    ensures o.response == PostNotFound <==>
      caller.Some? && forall p :: p in posts ==> !(p.id == postId && p.authorId == caller.value.id)
    ensures o.response.PostChanged? <==>
      caller.Some? && "title" in data && "body" in data &&
      exists p :: p in posts && p.id == postId && p.authorId == caller.value.id
    ensures !o.response.PostChanged? ==> o.rows == posts
    ensures o.response.PostChanged? ==>
      exists i :: IsFirst(posts, OwnedPost(postId, caller.value.id), i) &&
        o.response.post == posts[i].(title := data["title"], body := data["body"]) &&
        o.rows == Update(posts, PostKey, o.response.post)
  {
    if caller.None? then Outcome(ServerError, posts)
    else match First(posts, OwnedPost(postId, caller.value.id))
      case None => Outcome(PostNotFound, posts)
      case Some(i) =>
        if "title" !in data || "body" !in data then Outcome(ServerError, posts)
        else
          var p := posts[i].(title := data["title"], body := data["body"]);
          Outcome(PostChanged(p), Update(posts, PostKey, p))
  }

  /** `delete_post` (DELETE /post/<id>): deletes the caller's post with that id. */
  function DeletePost(caller: Option<User>, posts: seq<Post>, postId: int): (o: Outcome<Post>)
    ensures caller.None? ==> o == Outcome(ServerError, posts)
    ensures o.response == PostNotFound <==>
      caller.Some? && forall p :: p in posts ==> !(p.id == postId && p.authorId == caller.value.id)
    ensures !o.response.PostDeleted? ==> o.rows == posts
    ensures o.response.PostDeleted? ==>
      var p := o.response.post;
      && p in posts && p.id == postId && p.authorId == caller.value.id
      && forall q :: q in o.rows <==> q in posts && q.id != postId
    ensures caller.Some? && (exists p :: p in posts && p.id == postId && p.authorId == caller.value.id) ==>
      o.response.PostDeleted?
  {
    if caller.None? then Outcome(ServerError, posts)
    else match First(posts, OwnedPost(postId, caller.value.id))
      case None => Outcome(PostNotFound, posts)
      case Some(i) => Outcome(PostDeleted(posts[i]), Delete(posts, PostKey, postId))
  }

  /** A post created by the caller is the last entry of the caller's own listing, after the ones before it. */
  lemma CreatedPostIsOwn(caller: User, posts: seq<Post>, data: Json, now: int)
    requires "title" in data && "body" in data
    ensures var o := CreatePost(Some(caller), posts, data, now);
      GetAllOwnPosts(Some(caller), o.rows) ==
        OwnPosts(Filter(posts, ByAuthor(caller.id)) + [o.response.post])
  {
    var o := CreatePost(Some(caller), posts, data, now);
    FilterAppend(posts, o.response.post, ByAuthor(caller.id));
  }

  /**
   * In a keyed table, a change by the post's author replaces only that row and
   * keeps its id, creation time and author.
   */
  lemma ChangePostKeepsIdentity(caller: User, posts: seq<Post>, i: int, data: Json)
    requires Keyed(posts, PostKey) && 0 <= i < |posts| && posts[i].authorId == caller.id
    requires "title" in data && "body" in data
    ensures var o := ChangePost(Some(caller), posts, posts[i].id, data);
      && o.response.PostChanged?
      && o.rows == posts[i := o.response.post]
      && o.response.post.title == data["title"] && o.response.post.body == data["body"]
      && o.response.post.id == posts[i].id
      && o.response.post.createdAt == posts[i].createdAt
      && o.response.post.authorId == posts[i].authorId
  {
    var f := OwnedPost(posts[i].id, caller.id);
    assert IsFirst(posts, f, i);
    var k := First(posts, f).value;
    IsFirstUnique(posts, f, i, k);
    UpdateAt(posts, PostKey, i, posts[i].(title := data["title"], body := data["body"]));
  }

  /** In a keyed table, a delete by the post's author removes that row and keeps every other, in order. */
  lemma DeletePostRemovesOnlyTarget(caller: User, posts: seq<Post>, i: int)
    requires Keyed(posts, PostKey) && 0 <= i < |posts| && posts[i].authorId == caller.id
    ensures DeletePost(Some(caller), posts, posts[i].id) == Outcome(PostDeleted(posts[i]), posts[..i] + posts[i + 1..])
  {
    var f := OwnedPost(posts[i].id, caller.id);
    assert IsFirst(posts, f, i);
    var k := First(posts, f).value;
    IsFirstUnique(posts, f, i, k);
    DeleteAt(posts, PostKey, i);
  }

  /**
   * In a keyed table, a caller who did not write post `p` gets "Post not
   * found!" for it from every guarded post route, and the table is unchanged.
   */
  lemma OthersPostsAreNotFound(caller: User, posts: seq<Post>, p: Post, data: Json)
    requires Keyed(posts, PostKey) && p in posts && p.authorId != caller.id
    ensures GetOnePost(Some(caller), posts, p.id) == PostNotFound
    ensures ChangePost(Some(caller), posts, p.id, data) == Outcome(PostNotFound, posts)
    ensures DeletePost(Some(caller), posts, p.id) == Outcome(PostNotFound, posts)
  {
    forall q | q in posts
      ensures !(q.id == p.id && q.authorId == caller.id)
    {
      var a :| 0 <= a < |posts| && posts[a] == p;
      var b :| 0 <= b < |posts| && posts[b] == q;
      assert a != b ==> PostKey(posts[a]) != PostKey(posts[b]);
    }
  }

  /** Every caller's own listing is the public listing narrowed to that caller's posts, in the same order. */
  lemma OwnListingNarrowsPublic(caller: User, posts: seq<Post>)
    ensures GetAllPosts(posts).AllPosts?
    ensures GetAllOwnPosts(Some(caller), posts) == OwnPosts(Filter(GetAllPosts(posts).posts, ByAuthor(caller.id)))
  {
  }

  /** A created post was not listed before, and joins the end of the public listing. */
  lemma CreatedPostIsListed(caller: User, posts: seq<Post>, data: Json, now: int)
    requires "title" in data && "body" in data
    ensures var o := CreatePost(Some(caller), posts, data, now);
      && o.response.post !in GetAllPosts(posts).posts
      && GetAllPosts(o.rows) == AllPosts(GetAllPosts(posts).posts + [o.response.post])
  {
  }

  /** In a keyed table, a delete by the post's author takes exactly that post out of the public listing. */
  lemma DeletedPostIsUnlisted(caller: User, posts: seq<Post>, i: int)
    requires Keyed(posts, PostKey) && 0 <= i < |posts| && posts[i].authorId == caller.id
    ensures var before := GetAllPosts(posts).posts;
      var after := GetAllPosts(DeletePost(Some(caller), posts, posts[i].id).rows).posts;
      after == before[..i] + before[i + 1..] && posts[i] !in after
  {
    DeletePostRemovesOnlyTarget(caller, posts, i);
  }
}
