/**
 * Authentication: the `token_required` decorator that guards the protected
 * routes, and the `login` route that issues tokens.
 */
module Auth {
  import opened Wrappers
  import opened Query
  import opened Models
  import opened Foreign

  /** What `token_required` does with a request: answer it itself, or call the handler with `current_user`. */
  datatype Gate = Reject(response: Response) | Pass(caller: Option<User>)

  /**
   * The public id a request's `x-access-token` header vouches for: the header
   * is present and non-empty, the codec accepts it under the secret at `now`,
   * and the payload holds a `public_id` (reading a missing one raises).
   */
  function Claimed(cfg: Config, header: Option<string>, now: int): (claim: Option<string>) {
    if header.None? || header.value == "" then None
    else match cfg.tokens.decode(header.value, cfg.secret, now)
      case None => None
      case Some(p) => p.publicId
  }

  /**
   * `token_required`. A missing or empty header is "Token is missing!"; a
   * token that fails to decode or has no `public_id` is "Token is invalid!";
   * otherwise the handler runs with the first user holding the claimed public
   * id, which is None when no user holds it (`.first()` does not raise).
   */
  function Authenticate(cfg: Config, header: Option<string>, now: int, users: seq<User>): (g: Gate)
    ensures g.Reject? ==> g.response == TokenMissing || g.response == TokenInvalid
    ensures g == Reject(TokenMissing) <==> header.None? || header.value == ""
    ensures g.Pass? <==> Claimed(cfg, header, now).Some?
    ensures g.Pass? && g.caller.Some? ==>
      exists i :: IsFirst(users, HasPublicId(Claimed(cfg, header, now).value), i) && g.caller.value == users[i]
    ensures g.Pass? ==>
      (g.caller.None? <==> forall u :: u in users ==> u.publicId != Claimed(cfg, header, now).value)
  {
    if header.None? || header.value == "" then Reject(TokenMissing)
    else match Claimed(cfg, header, now)
      case None => Reject(TokenInvalid)
      case Some(publicId) =>
        match First(users, HasPublicId(publicId))
        case None => Pass(None)
        case Some(i) => Pass(Some(users[i]))
  }

  /** A token for `publicId` issued at `now`: the payload `{public_id, exp: now + 60 minutes}` signed with the secret. */
  function Issue(cfg: Config, publicId: string, now: int): (token: string) {
    cfg.tokens.encode(Payload(Some(publicId), Some(now + TokenLifetime)), cfg.secret)
  }

  /** The Basic credentials of a request (RFC 7617): a user id and a password. */
  datatype Credentials = Credentials(username: string, password: string)

  /** Row `i` is the account `login` looks up for `auth` and its stored hash accepts the password. */
  ghost predicate Verifies(cfg: Config, users: seq<User>, auth: Credentials, i: int) {
    IsFirst(users, HasUsername(auth.username), i) && cfg.passwords.check(users[i].password, auth.password)
  }

  /**
   * `login`. A token is issued exactly when Basic credentials with a non-empty
   * user id and password are present, a user has that name (the first one is
   * used), and its stored hash accepts the password; every other path is 401.
   * The token is issued for that user's public id.
   */
  function Login(cfg: Config, auth: Option<Credentials>, users: seq<User>, now: int): (r: Response)
    ensures r.LoggedIn? || r == CouldNotVerify
    ensures r.LoggedIn? <==>
      auth.Some? && auth.value.username != "" && auth.value.password != "" &&
      exists i :: Verifies(cfg, users, auth.value, i)
    ensures r.LoggedIn? ==>
      exists i :: Verifies(cfg, users, auth.value, i) && r.token == Issue(cfg, users[i].publicId, now)
  {
    if auth.None? || auth.value.username == "" || auth.value.password == "" then CouldNotVerify
    else match First(users, HasUsername(auth.value.username))
      case None => CouldNotVerify
      case Some(i) =>
        if cfg.passwords.check(users[i].password, auth.value.password) then
          assert Verifies(cfg, users, auth.value, i);
          LoggedIn(Issue(cfg, users[i].publicId, now))
        else
          assert forall k :: IsFirst(users, HasUsername(auth.value.username), k) ==> k == i by {
            forall k | IsFirst(users, HasUsername(auth.value.username), k) ensures k == i {
              IsFirstUnique(users, HasUsername(auth.value.username), i, k);
            }
          }
          CouldNotVerify
  }

  /**
   * Under a sound codec, every request the gate lets through carries a token
   * that decodes to a `public_id`, and, when the token carries an `exp`, one
   * that has not passed.
   */
  lemma AcceptedTokenUnexpired(cfg: Config, header: Option<string>, now: int, users: seq<User>)
    requires cfg.tokens.Sound()
    requires Authenticate(cfg, header, now, users).Pass?
    ensures cfg.tokens.decode(header.value, cfg.secret, now).Some?
    ensures cfg.tokens.decode(header.value, cfg.secret, now).value.publicId.Some?
    ensures var exp := cfg.tokens.decode(header.value, cfg.secret, now).value.exp;
      exp.Some? ==> now <= exp.value
  {
  }

  /**
   * Under a sound codec, a token signed with the secret that carries a
   * `public_id` but no `exp` lets the user holding that id through at every
   * clock time: the gate never rejects it as expired.
   */
  lemma TokenWithoutExpiryNeverExpires(cfg: Config, users: seq<User>, i: int, now: int)
    requires cfg.tokens.Sound()
    requires UniquePublicIds(users) && 0 <= i < |users|
    ensures Authenticate(cfg, Some(cfg.tokens.encode(Payload(Some(users[i].publicId), None), cfg.secret)), now, users)
      == Pass(Some(users[i]))
  {
    var token := cfg.tokens.encode(Payload(Some(users[i].publicId), None), cfg.secret);
    assert token != "";
    assert cfg.tokens.decode(token, cfg.secret, now) == Some(Payload(Some(users[i].publicId), None));
    NamedUserIsCaller(cfg, Some(token), now, users, users[i]);
  }

  /** The token in `header` is accepted at `now` and its `public_id` is the one `u` holds. */
  ghost predicate Names(cfg: Config, header: Option<string>, now: int, u: User) {
    Claimed(cfg, header, now) == Some(u.publicId)
  }

  /** When public ids are unique, a token naming a user resolves, through the gate, to exactly that user. */
  lemma NamedUserIsCaller(cfg: Config, header: Option<string>, now: int, users: seq<User>, u: User)
    requires UniquePublicIds(users) && u in users && Names(cfg, header, now, u)
    ensures Authenticate(cfg, header, now, users) == Pass(Some(u))
  {
    var j :| 0 <= j < |users| && users[j] == u;
    var g := Authenticate(cfg, header, now, users);
    var k :| IsFirst(users, HasPublicId(u.publicId), k) && g.caller.value == users[k];
    assert users[k].publicId == users[j].publicId;
  }

  /**
   * Under a sound codec, a token issued at `now` for a public id that exactly
   * one row holds lets its user through until the token expires, and is
   * rejected as invalid once it has.
   */
  lemma IssuedTokenAuthenticates(cfg: Config, users: seq<User>, i: int, now: int, later: int)
    requires cfg.tokens.Sound()
    requires UniquePublicIds(users) && 0 <= i < |users|
    ensures later <= now + TokenLifetime ==>
      Authenticate(cfg, Some(Issue(cfg, users[i].publicId, now)), later, users) == Pass(Some(users[i]))
    ensures later > now + TokenLifetime ==>
      Authenticate(cfg, Some(Issue(cfg, users[i].publicId, now)), later, users) == Reject(TokenInvalid)
  {
    var p := Payload(Some(users[i].publicId), Some(now + TokenLifetime));
    var token := Issue(cfg, users[i].publicId, now);
    assert token != "";
    assert cfg.tokens.decode(token, cfg.secret, later) == if p.Live(later) then Some(p) else None;
    if p.Live(later) {
      var g := Authenticate(cfg, Some(token), later, users);
      var k :| IsFirst(users, HasPublicId(users[i].publicId), k) && g.caller.value == users[k];
      assert k == i;
    }
  }
}
