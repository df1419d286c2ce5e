/** The two tables of the blog (the `User` and `Post` models) and what a handler answers. */
module Models {
  /** A row of the `user` table. `password` holds the stored hash, never the plaintext. */
  datatype User = User(id: int, publicId: string, username: string, password: string, admin: bool)

  /** A row of the `post` table; `authorId` refers to `User.id`. `createdAt` is a timestamp in seconds. */
  datatype Post = Post(id: int, title: string, body: string, createdAt: int, authorId: int)

  function UserKey(u: User): (key: int) { u.id }
  function PostKey(p: Post): (key: int) { p.id }

  /** A JSON request body: an object whose fields are strings. */
  type Json = map<string, string>

  /** The filters the handlers pass to `filter_by`. */
  function HasPublicId(publicId: string): (f: User -> bool) { (u: User) => u.publicId == publicId }
  function HasUsername(username: string): (f: User -> bool) { (u: User) => u.username == username }
  function ByAuthor(authorId: int): (f: Post -> bool) { (p: Post) => p.authorId == authorId }
  function OwnedPost(postId: int, authorId: int): (f: Post -> bool) { (p: Post) => p.id == postId && p.authorId == authorId }

  /** The `unique=True` constraint on `User.public_id`. */
  ghost predicate UniquePublicIds(users: seq<User>) {
    forall i, j :: 0 <= i < j < |users| ==> users[i].publicId != users[j].publicId
  }

  /** What a request gets back, one constructor per distinct message of the API. */
  datatype Response =
    | TokenMissing          // 401, "Token is missing!"
    | TokenInvalid          // 401, "Token is invalid!"
    | CouldNotVerify        // 401 from the login route, with a Basic challenge
    | ServerError           // an exception no handler catches (HTTP 500); nothing is committed
    | NoRights              // "No rights to this action!"
    | UserNotFound          // "User not found!"
    | PostNotFound          // "Post not found!"
    | AllUsers(users: seq<User>)
    | UserData(user: User)
    | UserCreated(user: User)
    | AdminRightsSet(user: User)
    | UserDeleted(user: User)
    | LoggedIn(token: string)
    | AllPosts(posts: seq<Post>)
    | OwnPosts(posts: seq<Post>)
    | PostData(post: Post)
    | PostCreated(post: Post)
    | PostChanged(post: Post)
    | PostDeleted(post: Post)

  /** A handler's answer together with the table as committed after it. */
  datatype Outcome<T> = Outcome(response: Response, rows: seq<T>)
}
