/**
 The bearer-token guard that protected endpoints depend on: it decodes the token, reads its
 subject and re-fetches that user from the store on every call. It reads the users table and
 writes nothing.
 */
module AuthGuard {
  import opened Wrappers
  import opened Http
  import opened Security
  import opened Database

  /** The identity a protected handler receives. */
  datatype CurrentUser = CurrentUser(userId: UserId, email: string, firstName: string,
                                     lastName: string)

  const InvalidOrExpiredToken := BearerChallenge("Invalid or expired token")
  const InvalidTokenClaims := BearerChallenge("Invalid token claims")
  const UserNotFound := BearerChallenge("User not found")

  /** `get_current_user(token)` against the users table at time `now`. */
  function GetCurrentUser(token: Token, key: Key, now: int, users: map<UserId, UserRow>)
    : (r: Result<CurrentUser>)
    ensures DecodeAccessToken(token, key, now).Rejected? ==> r == Err(InvalidOrExpiredToken)
    ensures DecodeAccessToken(token, key, now).Decoded? && token.claims.sub.None? ==>
              r == Err(InvalidTokenClaims)
    ensures (DecodeAccessToken(token, key, now).Decoded? && token.claims.sub.Some? &&
             token.claims.sub.value !in users) ==> r == Err(UserNotFound)
    ensures r.Err? ==> r.error.status == Unauthorized && r.error.wwwAuthenticate == Some("Bearer")
    ensures r.Ok? ==>
              && DecodeAccessToken(token, key, now).Decoded?
              && token.claims.sub.Some?
              && var id := token.claims.sub.value;
                 id in users &&
                 r.value == CurrentUser(id, users[id].email, users[id].firstName, users[id].lastName)
  {
    match DecodeAccessToken(token, key, now)
    case Rejected(_) => Err(InvalidOrExpiredToken)
    case Decoded(claims) =>
      match claims.sub
      case None => Err(InvalidTokenClaims)
      case Some(userId) =>
        if userId !in users then Err(UserNotFound)
        else
          var row := users[userId];
          Ok(CurrentUser(userId, row.email, row.firstName, row.lastName))
  }

  /**
   A well-signed, unexpired token naming an existing user authenticates as that user;
   its `purpose` is never consulted.
   */
  lemma AuthenticatesIffLiveSubject(token: Token, key: Key, now: int, users: map<UserId, UserRow>)
    ensures GetCurrentUser(token, key, now, users).Ok? <==>
              token.Signed? && token.algorithm == Algorithm && token.signingKey == key &&
              !Expired(token.claims, now) && token.claims.sub.Some? && token.claims.sub.value in users
  {
  }

  /** Two tokens that differ only in their `purpose` claim get the same answer. */
  lemma PurposeIsIgnored(claims: Claims, purpose: Option<string>, algorithm: string,
                         signingKey: Key, key: Key, now: int, users: map<UserId, UserRow>)
    ensures GetCurrentUser(Signed(claims, algorithm, signingKey), key, now, users)
            == GetCurrentUser(Signed(claims.(purpose := purpose), algorithm, signingKey), key, now, users)
  {
  }

  /**
   Deleting a user invalidates every token naming them, although the token itself is still
   well-signed and unexpired: the guard re-fetches the row and answers "User not found".
   */
  lemma DeletedUserIsRejected(token: Token, key: Key, now: int, users: map<UserId, UserRow>)
    requires DecodeAccessToken(token, key, now).Decoded?
    requires token.claims.sub.Some?
    ensures GetCurrentUser(token, key, now, users - {token.claims.sub.value}) == Err(UserNotFound)
  {
  }

  /** An expired token is rejected whatever it claims and whoever exists. */
  lemma ExpiredTokenIsRejected(data: Claims, expiresDelta: Option<int>, issuedAt: int, key: Key,
                               now: int, users: map<UserId, UserRow>)
    requires now >= issuedAt + ExpiryDelta(expiresDelta)
    ensures GetCurrentUser(CreateAccessToken(data, expiresDelta, issuedAt, key), key, now, users)
            == Err(InvalidOrExpiredToken)
  {
    DecodeAfterExpiry(data, expiresDelta, issuedAt, key, now);
  }
}
