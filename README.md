# flask_blog_rest_api, modelled in Dafny

A model of the blogging REST API in `app.py`: two tables, `user` and `post`,
the `token_required` gate that resolves an `x-access-token` header to the
calling user, the `login` route that issues 60-minute JWTs from Basic
credentials, the admin-gated user routes and the ownership-gated post routes.

- `wrappers.dfy` — `Option`, for Python's `None`.
- `query.dfy` — `filter_by(...).first()` (`First`) and `filter_by(...).all()` (`Filter`) over a table held in primary-key order.
- `table.dfy` — keyed tables (`Keyed`), the key SQLite gives an inserted row (`NextKey`), and `UPDATE`/`DELETE` by primary key (`Update`, `Delete`), with lemmas relating them to in-place edits of the sequence.
- `models.dfy` — the `User` and `Post` rows, the filters the handlers use, and `Response`: one constructor per distinct answer of the API.
- `foreign.dfy` — werkzeug's password hashing and PyJWT's codec as pairs of functions with a `Sound()` predicate stating what the application relies on; lemmas that need it take it as a hypothesis.
- `auth.dfy` — `token_required` (`Authenticate`) and `login` (`Login`).
- `users.dfy`, `posts.dfy` — every handler as a function of the resolved caller and the table; writes return the committed table.
- `service.dfy` — the `Store` class: the two tables as fields, one method per guarded or writing route, the writing ones proved to commit what the `Users` and `Posts` functions give, the guarded reads stating the route's answer for each kind of token.
- `scenarios.dfy` — end-to-end scenarios: register, log in and authenticate; a post's life from creation to deletion.

Behaviour kept as the code has it:

- A token signed with the key that carries a `public_id` but no `exp` is accepted at every clock time: the codec checks `exp` only when the claim is present, and the key is the literal `'dev'` (app.py:15).
- A token naming a public id that no user has passes the gate with a `None` caller (`.first()` does not raise). Every handler that receives it dereferences it and fails with an uncaught exception, modelled as `ServerError` with nothing committed. A 401 would be the usual answer here; the model follows the code.
- Registration (`POST /user`) and admin promotion (`PUT /user/<public_id>`) are not guarded.
- Usernames are not unique; `login` uses the first user with the name.
- Deleting a user leaves that user's posts in the table. Keys are not reserved after a delete (no `AUTOINCREMENT`), so when the most recently registered user is deleted, the next user to register gets the same id and, with it, the deleted user's posts.
- A request body that lacks a field the handler reads raises `KeyError`, modelled as `ServerError`. `change_post` reads the fields only after the post is found, so an unknown post is still "Post not found!".
- `public_id` is declared unique. A generated id that is already in use fails the commit, modelled as `ServerError`.
- New rows get the key SQLite gives a rowid table: one more than the largest key present, or 1 for an empty table.

## Model

| member | source | states |
|---|---|---|
| Query.First | app.py:91 | the first row matching the filter, or None exactly when no row matches |
| Query.Filter | app.py:212 | the filtered listing holds exactly the rows that match |
| Query.FilterAppend | app.py:212 | a row appended to the table ends the filtered listing exactly when it matches |
| Table.NextKey | app.py:140-141 | a new row's key is above every key in the table; it is 1 for an empty table, else the largest key plus one |
| Table.Delete | app.py:174 | after a delete by key, the table holds exactly the rows with another key |
| Table.Update | app.py:158-159 | an update by key replaces exactly the rows with that key and keeps the length |
| Table.DeleteAt | app.py:268 | in a keyed table, deleting the key of row i removes row i and nothing else |
| Auth.Authenticate | app.py:79-97 | missing or empty header gives "Token is missing!"; a token that fails to decode or has no public_id gives "Token is invalid!"; otherwise the handler gets the first user with the claimed public id, or None exactly when no user has it |
| Auth.AcceptedTokenUnexpired | app.py:89-93 | under a sound codec, the gate lets through only tokens that decode to a public id and, when they carry `exp`, have not passed it |
| Auth.TokenWithoutExpiryNeverExpires | app.py:87-91 | under a sound codec, a signed token with a public id and no `exp` resolves to the user holding that id at every clock time |
| Auth.NamedUserIsCaller | app.py:91-95 | with unique public ids, a token naming an existing user hands the handler exactly that user |
| Auth.IssuedTokenAuthenticates | app.py:192-194 | a token issued for a user resolves to that user until `exp` (60 minutes after issue) and is invalid after it |
| Auth.Login | app.py:180-197 | a token is issued iff Basic credentials with non-empty name and password are present and the first user with that name accepts the password; it carries that user's public id and expires 60 minutes after `now`; every other path is 401 |
| Users.GetAllUsers | app.py:106-114 | the full user list to an admin; "No rights" to a non-admin |
| Users.GetOneUser | app.py:117-128 | to an admin, the first user with the public id, or "User not found!" iff none has it; "No rights" to a non-admin |
| Users.CreateUser | app.py:131-144 | appends exactly one non-admin user with the given public id, the body's username and the hash of the body's password under a key above all others; a missing field or a used public id is an error with no change |
| Users.SetAdminUser | app.py:147-161 | sets admin on the first user with the public id; "User not found!" with no change iff none has it |
| Users.DeleteUser | app.py:164-177 | an admin's request deletes the first user with the public id whenever one exists and keeps every other row; "User not found!" iff none has it; a non-admin gets "No rights" with no change |
| Users.DeleteUserRemovesOnlyTarget | app.py:170-176 | in a keyed table the admin's delete leaves exactly the table without the matched row, in order |
| Users.SetAdminChangesOnlyTarget | app.py:154-159 | in a keyed table only the matched row changes, and only its admin flag |
| Users.SetAdminIdempotent | app.py:154-160 | granting admin rights twice answers and commits the same as once |
| Posts.OwnListingNarrowsPublic | app.py:202-214 | a caller's own listing is the public listing narrowed to that caller's posts, in the same order |
| Posts.CreatedPostIsListed | app.py:202-240 | a created post was not publicly listed before and ends the public listing after |
| Posts.DeletedPostIsUnlisted | app.py:260-272 | after the author's delete, the public listing is the earlier one without that post, in order |
| Posts.GetAllOwnPosts | app.py:209-214 | exactly the posts whose author is the caller |
| Posts.GetOnePost | app.py:217-226 | the post iff one has the id and the caller as author; "Post not found!" iff no post does |
| Posts.CreatePost | app.py:229-240 | appends one post with the body's title and text, created at `now`, authored by the caller, under a key above all others; a missing field is an error with no change |
| Posts.ChangePost | app.py:243-257 | rewrites title and body of the caller's post with that id; "Post not found!" with no change iff the caller has no such post |
| Posts.DeletePost | app.py:260-272 | deletes the caller's post with that id whenever one exists and keeps every other post; "Post not found!" with no change iff the caller has no such post |
| Posts.CreatedPostIsOwn | app.py:229-236 | a created post is the last entry of its author's own listing, after their earlier posts |
| Posts.ChangePostKeepsIdentity | app.py:247-254 | an edit replaces only the edited row and keeps its id, creation time and author |
| Posts.DeletePostRemovesOnlyTarget | app.py:263-269 | in a keyed table the author's delete leaves exactly the table without that row, in order |
| Posts.OthersPostsAreNotFound | app.py:217-272 | a caller gets "Post not found!" for another author's post from GET, PUT and DELETE, and the table is unchanged |
| Service.Store.GetAllUsers | app.py:106-114 | through `token_required` (app.py:79-97), no or an empty token gives "Token is missing!", an undecodable one "Token is invalid!", one naming nobody a server error; the full list goes exactly to a token naming an admin, and a token naming a non-admin gets "No rights" |
| Service.Store.GetOneUser | app.py:117-128 | the same gate answers; a token naming an admin gets the user with the public id, or "User not found!" iff nobody holds it; a non-admin gets "No rights" |
| Service.Store.GetAllOwnPosts | app.py:209-214 | the same gate answers; a token naming a user gets exactly the posts that user wrote, in id order |
| Service.Store.GetOnePost | app.py:217-226 | the same gate answers; a token naming a user gets a post iff that user wrote one with the id, and any post returned has the id and that user as author |
| Service.Store.CreateUser | app.py:134-144 | the user table afterwards is the one `create_user` commits; the invariant (keys ascending, unique public ids) holds; posts unchanged |
| Service.Store.SetAdminUser | app.py:150-161 | the in-place flag update commits what `set_admin_user` specifies; invariant kept; posts unchanged |
| Service.Store.DeleteUser | app.py:164-177 | a gate rejection leaves the user table unchanged; otherwise the in-place removal commits what `delete_user` specifies; posts unchanged |
| Service.Store.CreatePost | app.py:229-240 | a gate rejection changes nothing; otherwise the append commits what `create_post` specifies; users unchanged |
| Service.Store.ChangePost | app.py:243-257 | a gate rejection changes nothing; otherwise the in-place row update commits what `change_post` specifies; users unchanged |
| Service.Store.DeletePost | app.py:260-272 | a gate rejection changes nothing; otherwise the in-place removal commits what `delete_post` specifies; users unchanged |
| Scenarios.RegisterLoginAuthenticate | app.py:131-197 | a user registered under a new name logs in with the same credentials, and the token lets that user through the gate until it expires |
| Scenarios.CreateThenRead | app.py:209-240 | after creating a first post, it is the author's only post and other users get "Post not found!" for it |
| Scenarios.EditThenRead | app.py:217-257 | after an edit, the author reads back the post with the new title and body and the same id, creation time and author |
| Scenarios.DeleteThenRead | app.py:260-272 | after the author deletes a post, reading it back gives "Post not found!" |
| Scenarios.RecycledIdInheritsPosts | app.py:131-214 | after an admin deletes the most recently registered user, the next user to register gets that user's id and that user's posts in their own listing |
| Scenarios.PostLifecycle | app.py:209-272 | create, list, hide from others, edit with the creation time kept, delete, not found |

## Left out

- Flask routing, `jsonify`/`make_response` envelopes, HTTP status codes and the `index` route (app.py:101-104): answers are the `Response` datatype.
- Posts.GetAllPosts: `get_all_posts` (app.py:202-206) answers with the whole table unchanged, so its contract is that identity. What the route promises is stated by `Posts.CreatedPostIsListed`, `Posts.DeletedPostIsUnlisted` and `Posts.OwnListingNarrowsPublic`.
- A `public_id` claim that is not a string (JSON null, a number, a boolean) is not represented: `Payload.publicId` is a string or absent. Such a token, signed with the key, raises nothing in the gate's lookup, matches no user, and so reaches the handlers as a `None` caller (a server error), whereas the nearest modelled input, an absent claim, is "Token is invalid!".
- SQLAlchemy sessions and transactions, and the Marshmallow schemas: a handler's answer is paired with the table it commits; a raised exception commits nothing. Responses carry whole rows, including the stored password hash, as the schemas serialise them.
- JWT signing and password hashing internals: `Foreign.TokenCodec` and `Foreign.PasswordHasher` take them as given. Their promised behaviour is the `Sound()` hypothesis of the lemmas that need it. The codec's expiry boundary follows PyJWT 1.x, which accepts a token up to and including its `exp` second.
- `uuid.uuid4()`, the password salt and `datetime.utcnow()` are parameters. Time is whole seconds, so the microseconds PyJWT drops from `exp` do not appear.
- Exceptions the database itself could raise inside the `try` of `token_required`, other than a missing `public_id`.
- The `created_at` column default evaluated once at import (app.py:56): `create_post` always overrides it.
- Configuration and secret loading (app.py:13-18), and concurrency.
- The URL's `<post_id>` is an integer here. A non-numeric id, which matches no row and so always answers "Post not found!", is not represented.
- JSON bodies are maps of strings. Field values of other JSON types, and column length limits (which SQLite does not enforce), are not modelled.
- Users.CreateUser: "the stored password is never the plaintext" is stated as "the stored value is the hash of the password under the salt". That the hash differs from its input is werkzeug's property and is not modelled.
- Scenarios.RegisterLoginAuthenticate: does not cover a wrong password being refused. `Sound()` says nothing about passwords a hash does not match; `Auth.Login` states the refusal whenever the check fails.
