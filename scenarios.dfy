/** End-to-end scenarios of the API, composed from the gate, the login route and the handlers. */
module Scenarios {
  import opened Wrappers
  import opened Query
  import opened Table
  import opened Models
  import opened Foreign
  import opened Auth
  import opened Users
  import opened Posts

  /**
   * Register, log in, use the token: a user registered under a name nobody
   * else has can log in with the same credentials, and until the token
   * expires the gate hands every guarded route exactly that user.
   */
  lemma RegisterLoginAuthenticate(cfg: Config, users: seq<User>, data: Json, publicId: string, salt: string, now: int, later: int)
    requires cfg.passwords.Sound() && cfg.tokens.Sound()
    requires UniquePublicIds(users)
    requires "username" in data && "password" in data && data["username"] != "" && data["password"] != ""
    requires forall u :: u in users ==> u.username != data["username"] && u.publicId != publicId
    requires later <= now + TokenLifetime
    ensures var created := CreateUser(users, data, publicId, salt, cfg.passwords);
      && created.response.UserCreated?
      && var login := Login(cfg, Some(Credentials(data["username"], data["password"])), created.rows, now);
      && login == LoggedIn(Issue(cfg, publicId, now))
      && Authenticate(cfg, Some(login.token), later, created.rows) == Pass(Some(created.response.user))
  {
    var created := CreateUser(users, data, publicId, salt, cfg.passwords);
    var rows := created.rows;
    var u := created.response.user;
    var n := |users|;
    assert rows[n] == u;
    var auth := Credentials(data["username"], data["password"]);
    assert Verifies(cfg, rows, auth, n);
    var k := First(rows, HasUsername(auth.username)).value;
    IsFirstUnique(rows, HasUsername(auth.username), n, k);
    assert UniquePublicIds(rows) by {
      forall a, b | 0 <= a < b < |rows| ensures rows[a].publicId != rows[b].publicId {
        if b < n { assert rows[a] == users[a] && rows[b] == users[b]; }
        else { assert rows[a] in users; }
      }
    }
    IssuedTokenAuthenticates(cfg, rows, n, now, later);
  }

  /**
   * The first half of a post's life: once its author creates it, it is the
   * author's only post if they had none, and any other user gets "Post not
   * found!" for it.
   */
  lemma CreateThenRead(author: User, other: User, posts: seq<Post>, data: Json, now: int)
    requires Keyed(posts, PostKey)
    requires other.id != author.id && "title" in data && "body" in data
    requires forall p :: p in posts ==> p.authorId != author.id
    ensures var created := CreatePost(Some(author), posts, data, now);
      && created.response.PostCreated?
      && Keyed(created.rows, PostKey)
      && created.rows[|posts|] == created.response.post
      && GetAllOwnPosts(Some(author), created.rows) == OwnPosts([created.response.post])
      && GetOnePost(Some(other), created.rows, created.response.post.id) == PostNotFound
  {
    var created := CreatePost(Some(author), posts, data, now);
    var p := created.response.post;
    KeyedAppend(posts, PostKey, p);
    CreatedPostIsOwn(author, posts, data, now);
    FilterNone(posts, ByAuthor(author.id));
    OthersPostsAreNotFound(other, created.rows, p, data);
  }

  /**
   * A post's author edits it and reads back the edit: only that row changes,
   * and its id, creation time and author stay.
   */
  lemma EditThenRead(author: User, posts: seq<Post>, n: int, data: Json)
    requires Keyed(posts, PostKey) && 0 <= n < |posts| && posts[n].authorId == author.id
    requires "title" in data && "body" in data
    ensures var edited := posts[n].(title := data["title"], body := data["body"]);
      var changed := ChangePost(Some(author), posts, posts[n].id, data);
      && changed == Outcome(PostChanged(edited), posts[n := edited])
      && GetOnePost(Some(author), changed.rows, posts[n].id) == PostData(edited)
  {
    var edited := posts[n].(title := data["title"], body := data["body"]);
    ChangePostKeepsIdentity(author, posts, n, data);
    var rows := posts[n := edited];
    assert Keyed(rows, PostKey);
    var f := OwnedPost(posts[n].id, author.id);
    assert IsFirst(rows, f, n);
    IsFirstUnique(rows, f, n, First(rows, f).value);
  }

  /** A post's author deletes it and then gets "Post not found!" for it. */
  lemma DeleteThenRead(author: User, posts: seq<Post>, n: int)
    requires Keyed(posts, PostKey) && 0 <= n < |posts| && posts[n].authorId == author.id
    ensures var deleted := DeletePost(Some(author), posts, posts[n].id);
      && deleted.response == PostDeleted(posts[n])
      && GetOnePost(Some(author), deleted.rows, posts[n].id) == PostNotFound
  {
    var f := OwnedPost(posts[n].id, author.id);
    assert IsFirst(posts, f, n);
    IsFirstUnique(posts, f, n, First(posts, f).value);
  }

  /**
   * The life of a post, end to end: created by its author and seen as their
   * only post, hidden from another user, edited with its id, creation time and
   * author kept, deleted, and then not found.
   */
  lemma PostLifecycle(author: User, other: User, posts: seq<Post>, data: Json, edit: Json, now: int)
    requires Keyed(posts, PostKey)
    requires other.id != author.id
    requires forall p :: p in posts ==> p.authorId != author.id
    requires "title" in data && "body" in data && "title" in edit && "body" in edit
    ensures var created := CreatePost(Some(author), posts, data, now);
      var p := created.response.post;
      var edited := p.(title := edit["title"], body := edit["body"]);
      var changed := ChangePost(Some(author), created.rows, p.id, edit);
      && created.response.PostCreated?
      && GetAllOwnPosts(Some(author), created.rows) == OwnPosts([p])
      && GetOnePost(Some(other), created.rows, p.id) == PostNotFound
      && changed.response == PostChanged(edited)
      && GetOnePost(Some(author), changed.rows, p.id) == PostData(edited)
      && GetOnePost(Some(author), DeletePost(Some(author), changed.rows, p.id).rows, p.id) == PostNotFound
  {
    var created := CreatePost(Some(author), posts, data, now);
    CreateThenRead(author, other, posts, data, now);
    var n := |posts|;
    EditThenRead(author, created.rows, n, edit);
    var p := created.response.post;
    var rows := created.rows[n := p.(title := edit["title"], body := edit["body"])];
    KeyedReplace(created.rows, PostKey, n, p.(title := edit["title"], body := edit["body"]));
    DeleteThenRead(author, rows, n);
  }

  /**
   * Keys are not reserved after a delete, and deleting a user leaves their
   * posts behind: when an admin deletes the most recently registered user,
   * the next user to register gets that user's id, and with it that user's
   * posts in their own listing.
   */
  lemma RecycledIdInheritsPosts(admin: User, prefix: seq<User>, victim: User, posts: seq<Post>,
                                data: Json, publicId: string, salt: string, hasher: PasswordHasher)
    requires admin.admin
    requires Keyed(prefix, UserKey) && UniquePublicIds(prefix + [victim])
    requires victim.id == NextKey(prefix, UserKey)
    requires "username" in data && "password" in data && forall u :: u in prefix ==> u.publicId != publicId
    ensures var deleted := DeleteUser(Some(admin), prefix + [victim], victim.publicId);
      && deleted == Outcome(UserDeleted(victim), prefix)
      && var created := CreateUser(deleted.rows, data, publicId, salt, hasher);
      && created.response.UserCreated?
      && created.response.user.id == victim.id
      && GetAllOwnPosts(Some(created.response.user), posts) == GetAllOwnPosts(Some(victim), posts)
  {
    var users := prefix + [victim];
    var n := |prefix|;
    assert Keyed(users, UserKey) by {
      forall a, b | 0 <= a < b < |users| ensures UserKey(users[a]) < UserKey(users[b]) {
        if b == n { assert users[a] in prefix; }
      }
    }
    assert IsFirst(users, HasPublicId(victim.publicId), n) by {
      forall j | 0 <= j < n ensures users[j].publicId != victim.publicId {
        assert users[n] == victim;
      }
    }
    DeleteUserRemovesOnlyTarget(admin, users, victim.publicId, n);
    assert users[..n] + users[n + 1..] == prefix;
  }
}
