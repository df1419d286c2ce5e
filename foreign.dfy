/**
 * The collaborators the application calls but does not implement: werkzeug's
 * password hashing and PyJWT's token codec. Each is a pair of functions taken
 * as given, together with a `Sound` predicate stating what the application
 * relies on them for; lemmas that need that behaviour take `Sound()` as a
 * hypothesis.
 */
module Foreign {
  import opened Wrappers

  /**
   * `generate_password_hash(password)` is `hash(password, salt)`, with the
   * random salt made a parameter; `check_password_hash(stored, password)` is
   * `check(stored, password)`.
   */
  datatype PasswordHasher = PasswordHasher(hash: (string, string) -> string, check: (string, string) -> bool)
  {
    /** A password always verifies against a hash made from it. */
    ghost predicate Sound() {
      forall password, salt :: check(hash(password, salt), password)
    }
  }

  /**
   * The JWT claims the application writes and reads: `public_id`, and `exp`
   * (RFC 7519, section 4.1.4) in seconds. Both are optional in a token; the
   * codec checks `exp` only when it is present.
   */
  datatype Payload = Payload(publicId: Option<string>, exp: Option<int>)
  {
    /** At clock time `now` the payload has not expired: it has no `exp`, or `now` is at most `exp`. */
    predicate Live(now: int) {
      exp.None? || now <= exp.value
    }
  }

  /**
   * `jwt.encode(payload, secret)` is `encode(payload, secret)`;
   * `jwt.decode(token, secret)` at clock time `now` is `decode(token, secret, now)`,
   * None standing for any exception it raises (bad signature, malformed, expired).
   */
  datatype TokenCodec = TokenCodec(encode: (Payload, string) -> string, decode: (string, string, int) -> Option<Payload>)
  {
    ghost predicate Sound() {
      // a token decodes, under the secret that signed it, to its payload while it is
      // live, and fails once its `exp` has passed (PyJWT 1.x rejects `exp < now`)
      (forall p: Payload, secret, now ::
        decode(encode(p, secret), secret, now) == if p.Live(now) then Some(p) else None) &&
      // an expired token is never accepted
      (forall t, secret, now :: decode(t, secret, now).Some? ==> decode(t, secret, now).value.Live(now)) &&
      // an issued token is never the empty string
      (forall p: Payload, secret :: encode(p, secret) != "")
    }
  }

  /** The application's configuration: `SECRET_KEY` and the two collaborators. */
  datatype Config = Config(secret: string, tokens: TokenCodec, passwords: PasswordHasher)

  /** A token is valid for 60 minutes after it is issued. */
  const TokenLifetime: int := 60 * 60
}
