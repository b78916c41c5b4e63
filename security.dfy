/**
 Password hashing and signed access tokens.

 The token is a JSON Web Token (RFC 7519) signed with HMAC SHA-256 ("HS256", section 3.2 of
 RFC 7518). The signature is modelled by recording the algorithm and key a token was signed
 with: a token verifies under a key exactly when it was signed with that key. The bcrypt
 hasher is modelled as an ideal salted one-way function: a digest remembers its salt and the
 password it was made from, and only `VerifyPassword` looks inside it.
 */
module Security {
  import opened Wrappers

  type UserId = int

  /** `SECRET_KEY`: process-wide configuration, fixed at startup. */
  type Key = string

  const Algorithm := "HS256"
  const AccessTokenExpireMinutes: nat := 30
  const SecondsPerMinute: nat := 60
  /** The default lifetime of a token, in seconds. */
  const DefaultExpirySeconds: nat := AccessTokenExpireMinutes * SecondsPerMinute

  /**
   The claims of a token: `sub` (section 4.1.2 of RFC 7519), this application's `purpose`
   and `exp` (section 4.1.4), a NumericDate in seconds. The subject `str(user_id)` is
   represented by the integer id itself.
   */
  datatype Claims = Claims(sub: Option<UserId>, purpose: Option<string>, exp: Option<int>)

  /** A compact JWT: either signed claims, or a string that is not a well-formed token. */
  datatype Token =
    | Signed(claims: Claims, algorithm: string, signingKey: Key)
    | Malformed(text: string)

  /** `jwt.ExpiredSignatureError` and the other `jwt.InvalidTokenError`s. */
  datatype DecodeError = ExpiredSignature | InvalidToken

  datatype Decoded = Decoded(claims: Claims) | Rejected(reason: DecodeError)

  // ---------------------------------------------------------------------------------------
  // Password hashing
  // ---------------------------------------------------------------------------------------

  /** A bcrypt digest: the fresh salt it embeds and what was hashed. */
  datatype Digest = Digest(salt: nat, preimage: string)

  /** `hash_password`: the salt stands for `bcrypt.gensalt()`'s random choice. */
  function HashPassword(plainPassword: string, salt: nat): (d: Digest)
    ensures d.salt == salt
    ensures VerifyPassword(plainPassword, d)
  {
    Digest(salt, plainPassword)
  }

  /**
   `verify_password`: bcrypt re-hashes the password under the salt the digest embeds and
   compares, so it accepts exactly the passwords whose hash under that salt is the digest.
   */
  predicate VerifyPassword(plainPassword: string, hashedPassword: Digest) {
    hashedPassword.preimage == plainPassword
  }

  /** A password verifies exactly when hashing it under the digest's own salt gives the digest. */
  lemma VerifyIffRehashMatches(plainPassword: string, hashedPassword: Digest)
    ensures VerifyPassword(plainPassword, hashedPassword) <==>
              hashedPassword == HashPassword(plainPassword, hashedPassword.salt)
  {
  }

  /** A digest made from one password rejects every other password. */
  lemma VerifyRejectsOtherPassword(plainPassword: string, other: string, salt: nat)
    requires plainPassword != other
    ensures !VerifyPassword(plainPassword, HashPassword(other, salt))
  {
  }

  /** Two calls with different salts give different digests for the same password. */
  lemma SaltsGiveDistinctDigests(plainPassword: string, salt1: nat, salt2: nat)
    requires salt1 != salt2
    ensures HashPassword(plainPassword, salt1) != HashPassword(plainPassword, salt2)
  {
  }

  // ---------------------------------------------------------------------------------------
  // Tokens
  // ---------------------------------------------------------------------------------------

  /**
   The lifetime `create_access_token` uses: `expires_delta or timedelta(minutes=30)`. Both
   `None` and a zero `timedelta` are falsy, so both fall back to the default.
   */
  function ExpiryDelta(expiresDelta: Option<int>): int {
    if expiresDelta.Some? && expiresDelta.value != 0 then expiresDelta.value
    else DefaultExpirySeconds
  }

  /**
   `create_access_token(data, expires_delta)` at time `now`: a copy of `data` with `exp`
   added or overwritten, signed with HS256 under `key`. The caller's claims are a value and
   cannot change.
   */
  function CreateAccessToken(data: Claims, expiresDelta: Option<int>, now: int, key: Key): (t: Token)
    ensures t.Signed? && t.algorithm == Algorithm && t.signingKey == key
    ensures t.claims.sub == data.sub && t.claims.purpose == data.purpose
    ensures expiresDelta == None || expiresDelta == Some(0) ==>
              t.claims.exp == Some(now + DefaultExpirySeconds)
    ensures expiresDelta.Some? && expiresDelta.value != 0 ==>
              t.claims.exp == Some(now + expiresDelta.value)
  {
    Signed(data.(exp := Some(now + ExpiryDelta(expiresDelta))), Algorithm, key)
  }

  /** The `exp` check: a token is expired once `now` has reached its `exp`. */
  predicate Expired(claims: Claims, now: int) {
    claims.exp.Some? && claims.exp.value <= now
  }

  /**
   `decode_access_token(token)` at time `now`: the signature and algorithm are checked first,
   then the expiry.
   */
  function DecodeAccessToken(token: Token, key: Key, now: int): (r: Decoded)
    ensures r.Decoded? ==> token.Signed? && r.claims == token.claims
    ensures token.Malformed? ==> r == Rejected(InvalidToken)
    ensures token.Signed? && (token.algorithm != Algorithm || token.signingKey != key) ==>
              r == Rejected(InvalidToken)
  {
    match token
    case Malformed(_) => Rejected(InvalidToken)
    case Signed(claims, algorithm, signingKey) =>
      if algorithm != Algorithm || signingKey != key then Rejected(InvalidToken)
      else if Expired(claims, now) then Rejected(ExpiredSignature)
      else Decoded(claims)
  }

  /** A fresh token decodes, before its `exp`, to the input claims plus that `exp`. */
  lemma CreateThenDecode(data: Claims, expiresDelta: Option<int>, now: int, key: Key, at: int)
    requires at < now + ExpiryDelta(expiresDelta)
    ensures DecodeAccessToken(CreateAccessToken(data, expiresDelta, now, key), key, at)
            == Decoded(data.(exp := Some(now + ExpiryDelta(expiresDelta))))
  {
  }

  /** From its `exp` on, a token is rejected as expired whatever its claims. */
  lemma DecodeAfterExpiry(data: Claims, expiresDelta: Option<int>, now: int, key: Key, at: int)
    requires at >= now + ExpiryDelta(expiresDelta)
    ensures DecodeAccessToken(CreateAccessToken(data, expiresDelta, now, key), key, at)
            == Rejected(ExpiredSignature)
  {
  }

  /** A negative `expires_delta` mints a token that is already expired. */
  lemma NegativeDeltaIsExpired(data: Claims, delta: int, now: int, key: Key)
    requires delta < 0
    ensures DecodeAccessToken(CreateAccessToken(data, Some(delta), now, key), key, now)
            == Rejected(ExpiredSignature)
  {
  }

  /** A token signed under another key is invalid, expired or not. */
  lemma ForeignKeyIsInvalid(data: Claims, expiresDelta: Option<int>, now: int, key: Key,
                            otherKey: Key, at: int)
    requires otherKey != key
    ensures DecodeAccessToken(CreateAccessToken(data, expiresDelta, now, key), otherKey, at)
            == Rejected(InvalidToken)
  {
  }
}
