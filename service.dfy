/**
 * The application's shared state: the two tables, changed in place by the
 * routes that write. Each method is one guarded or writing route: it runs
 * `token_required` first where the route is guarded, then the handler, and
 * commits. A writing method's postcondition ties its answer and the new
 * tables to the handler's specification in `Users` or `Posts`; a guarded
 * read states the route's answer for each kind of token. The unguarded reads
 * (`get_all_posts`, `login`) are the functions `Posts.GetAllPosts` and
 * `Auth.Login` of the tables.
 */
module Service {
  import opened Wrappers
  import opened Query
  import opened Table
  import opened Models
  import opened Foreign
  import opened Auth
  import Users
  import Posts

  class Store {
    const cfg: Config
    var users: seq<User>
    var posts: seq<Post>

    /** Both tables in primary-key order, and public ids unique (`unique=True`). */
    ghost predicate Valid()
      reads this
    {
      Keyed(users, UserKey) && Keyed(posts, PostKey) && UniquePublicIds(users)
    }

    constructor (cfg: Config)
      ensures Valid() && users == [] && posts == []
      ensures this.cfg == cfg
    {
      this.cfg := cfg;
      users := [];
      posts := [];
    }

    /**
     * GET /user: `get_all_users` behind `token_required`. The full list goes
     * exactly to a request whose token names an admin; a token naming a
     * non-admin gets "No rights", and one naming nobody reaches a handler
     * that raises.
     */
    method GetAllUsers(header: Option<string>, now: int) returns (r: Response)
      requires Valid()
      ensures header.None? || header.value == "" ==> r == TokenMissing
      ensures header.Some? && header.value != "" && Claimed(cfg, header, now).None? ==> r == TokenInvalid
      ensures Claimed(cfg, header, now).Some? && (forall u :: u in users ==> !Names(cfg, header, now, u)) ==> r == ServerError
      ensures forall u :: u in users && Names(cfg, header, now, u) ==>
        (r.AllUsers? <==> u.admin) && (!u.admin ==> r == NoRights)
      ensures r.AllUsers? ==> r.users == users && exists u :: u in users && Names(cfg, header, now, u) && u.admin
    {
      var g := Authenticate(cfg, header, now, users);
      if g.Reject? {
        return g.response;
      }
      Resolved(header, now);
      r := Users.GetAllUsers(g.caller, users);
      if r.AllUsers? {
        assert Names(cfg, header, now, g.caller.value);
      }
    }

    /**
     * GET /user/<public_id>: `get_one_user` behind `token_required`. A token
     * naming an admin gets the user with that public id, or "User not found!"
     * exactly when no user holds it; a token naming a non-admin gets "No rights".
     */
    method GetOneUser(header: Option<string>, now: int, publicId: string) returns (r: Response)
      requires Valid()
      ensures header.None? || header.value == "" ==> r == TokenMissing
      ensures header.Some? && header.value != "" && Claimed(cfg, header, now).None? ==> r == TokenInvalid
      ensures Claimed(cfg, header, now).Some? && (forall u :: u in users ==> !Names(cfg, header, now, u)) ==> r == ServerError
      ensures forall u :: u in users && Names(cfg, header, now, u) ==>
        && (!u.admin ==> r == NoRights)
        && (u.admin ==> (r == UserNotFound <==> forall v :: v in users ==> v.publicId != publicId))
        && (u.admin ==> (r.UserData? <==> exists v :: v in users && v.publicId == publicId))
      ensures r.UserData? ==>
        && r.user in users && r.user.publicId == publicId
        && exists u :: u in users && Names(cfg, header, now, u) && u.admin
    {
      var g := Authenticate(cfg, header, now, users);
      if g.Reject? {
        return g.response;
      }
      Resolved(header, now);
      r := Users.GetOneUser(g.caller, users, publicId);
      if r.UserData? {
        assert Names(cfg, header, now, g.caller.value);
      }
    }

    /**
     * GET /post/own: `get_all_own_posts` behind `token_required`. A token
     * naming a user gets exactly the posts that user wrote.
     */
    method GetAllOwnPosts(header: Option<string>, now: int) returns (r: Response)
      requires Valid()
      ensures header.None? || header.value == "" ==> r == TokenMissing
      ensures header.Some? && header.value != "" && Claimed(cfg, header, now).None? ==> r == TokenInvalid
      ensures Claimed(cfg, header, now).Some? && (forall u :: u in users ==> !Names(cfg, header, now, u)) ==> r == ServerError
      ensures forall u :: u in users && Names(cfg, header, now, u) ==>
        && r.OwnPosts? && r.posts == Filter(posts, ByAuthor(u.id))
        && forall p :: p in r.posts <==> p in posts && p.authorId == u.id
    {
      var g := Authenticate(cfg, header, now, users);
      if g.Reject? {
        return g.response;
      }
      Resolved(header, now);
      r := Posts.GetAllOwnPosts(g.caller, posts);
    }

    /**
     * GET /post/<id>: `get_one_post` behind `token_required`. A token naming
     * a user gets that user's post with the id, or "Post not found!" exactly
     * when the user wrote no post with it.
     */
    method GetOnePost(header: Option<string>, now: int, postId: int) returns (r: Response)
      requires Valid()
      ensures header.None? || header.value == "" ==> r == TokenMissing
      ensures header.Some? && header.value != "" && Claimed(cfg, header, now).None? ==> r == TokenInvalid
      ensures Claimed(cfg, header, now).Some? && (forall u :: u in users ==> !Names(cfg, header, now, u)) ==> r == ServerError
      ensures forall u :: u in users && Names(cfg, header, now, u) ==>
        && (r == PostNotFound <==> forall p :: p in posts ==> !(p.id == postId && p.authorId == u.id))
        && (r.PostData? <==> exists p :: p in posts && p.id == postId && p.authorId == u.id)
      ensures r.PostData? ==>
        && r.post in posts && r.post.id == postId
        && exists u :: u in users && Names(cfg, header, now, u) && r.post.authorId == u.id
    {
      var g := Authenticate(cfg, header, now, users);
      if g.Reject? {
        return g.response;
      }
      Resolved(header, now);
      r := Posts.GetOnePost(g.caller, posts, postId);
      if r.PostData? {
        assert Names(cfg, header, now, g.caller.value);
      }
    }

    /** When the gate lets a request through, its caller is the user the token names, or None when it names nobody. */
    lemma Resolved(header: Option<string>, now: int)
      requires Valid() && Authenticate(cfg, header, now, users).Pass?
      ensures var g := Authenticate(cfg, header, now, users);
        && (g.caller.Some? ==> g.caller.value in users && Names(cfg, header, now, g.caller.value))
        && forall u :: u in users && Names(cfg, header, now, u) ==> g.caller == Some(u)
    {
      forall u | u in users && Names(cfg, header, now, u)
        ensures Authenticate(cfg, header, now, users) == Pass(Some(u))
      {
        NamedUserIsCaller(cfg, header, now, users, u);
      }
    }

    /** POST /user. */
    method CreateUser(data: Json, publicId: string, salt: string) returns (r: Response)
      requires Valid()
      modifies this
      ensures Valid() && posts == old(posts)
      ensures Outcome(r, users) == Users.CreateUser(old(users), data, publicId, salt, cfg.passwords)
    {
      if "password" !in data || "username" !in data {
        return ServerError;
      }
      var hashed := cfg.passwords.hash(data["password"], salt);
      if First(users, HasPublicId(publicId)).Some? {
        // the commit violates the unique constraint on public_id
        return ServerError;
      }
      var user := User(NextKey(users, UserKey), publicId, data["username"], hashed, false);
      KeyedAppend(users, UserKey, user);
      users := users + [user];
      r := UserCreated(user);
    }

    /** PUT /user/<public_id>. */
    method SetAdminUser(publicId: string) returns (r: Response)
      requires Valid()
      modifies this
      ensures Valid() && posts == old(posts)
      ensures Outcome(r, users) == Users.SetAdminUser(old(users), publicId)
    {
      var found := First(users, HasPublicId(publicId));
      if found.None? {
        return UserNotFound;
      }
      var i := found.value;
      var user := users[i].(admin := true);
      UpdateAt(users, UserKey, i, user);
      users := users[i := user];
      r := AdminRightsSet(user);
    }

    /** DELETE /user/<public_id>. */
    method DeleteUser(header: Option<string>, now: int, publicId: string) returns (r: Response)
      requires Valid()
      modifies this
      ensures Valid() && posts == old(posts)
      ensures var g := Authenticate(cfg, header, now, old(users));
        if g.Reject? then r == g.response && users == old(users)
        else Outcome(r, users) == Users.DeleteUser(g.caller, old(users), publicId)
    {
      var g := Authenticate(cfg, header, now, users);
      if g.Reject? {
        return g.response;
      }
      var caller := g.caller;
      if caller.None? {
        return ServerError;
      }
      if !caller.value.admin {
        return NoRights;
      }
      var found := First(users, HasPublicId(publicId));
      if found.None? {
        return UserNotFound;
      }
      var i := found.value;
      var user := users[i];
      DeleteAt(users, UserKey, i);
      KeyedRemove(users, UserKey, i);
      UniqueRemove(users, i);
      users := users[..i] + users[i + 1..];
      r := UserDeleted(user);
    }

    /** POST /post. */
    method CreatePost(header: Option<string>, now: int, data: Json) returns (r: Response)
      requires Valid()
      modifies this
      ensures Valid() && users == old(users)
      ensures var g := Authenticate(cfg, header, now, old(users));
        if g.Reject? then r == g.response && posts == old(posts)
        else Outcome(r, posts) == Posts.CreatePost(g.caller, old(posts), data, now)
    {
      var g := Authenticate(cfg, header, now, users);
      if g.Reject? {
        return g.response;
      }
      var caller := g.caller;
      if "title" !in data || "body" !in data || caller.None? {
        return ServerError;
      }
      var post := Post(NextKey(posts, PostKey), data["title"], data["body"], now, caller.value.id);
      KeyedAppend(posts, PostKey, post);
      posts := posts + [post];
      r := PostCreated(post);
    }

    /** PUT /post/<id>. */
    method ChangePost(header: Option<string>, now: int, postId: int, data: Json) returns (r: Response)
      requires Valid()
      modifies this
      ensures Valid() && users == old(users)
      ensures var g := Authenticate(cfg, header, now, old(users));
        if g.Reject? then r == g.response && posts == old(posts)
        else Outcome(r, posts) == Posts.ChangePost(g.caller, old(posts), postId, data)
    {
      var g := Authenticate(cfg, header, now, users);
      if g.Reject? {
        return g.response;
      }
      var caller := g.caller;
      if caller.None? {
        return ServerError;
      }
      var found := First(posts, OwnedPost(postId, caller.value.id));
      if found.None? {
        return PostNotFound;
      }
      if "title" !in data || "body" !in data {
        return ServerError;
      }
      var i := found.value;
      var post := posts[i].(title := data["title"], body := data["body"]);
      UpdateAt(posts, PostKey, i, post);
      posts := posts[i := post];
      r := PostChanged(post);
    }

    /** DELETE /post/<id>. */
    method DeletePost(header: Option<string>, now: int, postId: int) returns (r: Response)
      requires Valid()
      modifies this
      ensures Valid() && users == old(users)
      ensures var g := Authenticate(cfg, header, now, old(users));
        if g.Reject? then r == g.response && posts == old(posts)
        else Outcome(r, posts) == Posts.DeletePost(g.caller, old(posts), postId)
    {
      var g := Authenticate(cfg, header, now, users);
      if g.Reject? {
        return g.response;
      }
      var caller := g.caller;
      if caller.None? {
        return ServerError;
      }
      var found := First(posts, OwnedPost(postId, caller.value.id));
      if found.None? {
        return PostNotFound;
      }
      var i := found.value;
      var post := posts[i];
      DeleteAt(posts, PostKey, i);
      KeyedRemove(posts, PostKey, i);
      posts := posts[..i] + posts[i + 1..];
      r := PostDeleted(post);
    }
  }

  /** Removing a user keeps public ids unique. */
  lemma UniqueRemove(users: seq<User>, i: int)
    requires UniquePublicIds(users) && 0 <= i < |users|
    ensures UniquePublicIds(users[..i] + users[i + 1..])
  {
    var r := users[..i] + users[i + 1..];
    forall a, b | 0 <= a < b < |r| ensures r[a].publicId != r[b].publicId {
      var a' := if a < i then a else a + 1;
      var b' := if b < i then b else b + 1;
      assert r[a] == users[a'] && r[b] == users[b'];
    }
  }
}
