/**
 The authentication endpoints: signup, login, password-reset request and confirmation, and
 account deletion, over the users and credentials tables.
 */
module AuthRoutes {
  import opened Wrappers
  import opened Http
  import opened Security
  import opened Database
  import opened AuthGuard

  datatype SignupRequest = SignupRequest(email: string, firstName: string, lastName: string,
                                         password: string)

  /** The signup response: the new identity, and never the digest. */
  datatype SignupResponse = SignupResponse(userId: UserId, email: string, firstName: string,
                                           lastName: string)

  /** The OAuth2 password form: `username` carries the email. */
  datatype LoginForm = LoginForm(username: string, password: string)

  datatype LoginResponse = LoginResponse(accessToken: Token, tokenType: string)

  datatype RequestResetBody = RequestResetBody(email: string)

  datatype ResetPasswordBody = ResetPasswordBody(token: Token, newPassword: string)

  datatype Message = Message(message: string)

  /**
   What `request_reset` produces: the response body, and the reset token it hands to the
   out-of-band channel (the console log) when the email exists.
   */
  datatype ResetRequestOutcome = ResetRequestOutcome(response: Message, loggedToken: Option<Token>)

  const ResetTokenExpireMinutes: nat := 15
  const PasswordResetPurpose := "password_reset"
  const BearerTokenType := "bearer"

  const DuplicateEmail := Failure(Conflict, "A user with this email already exists")
  const InvalidCredentials := BearerChallenge("Invalid credentials")
  const ResetRequested := Message("If that email exists, a reset link has been sent")
  const InvalidOrExpiredResetToken := Failure(BadRequest, "Invalid or expired reset token")
  const InvalidResetToken := Failure(BadRequest, "Invalid reset token")
  const ResetUserNotFound := Failure(NotFound, "User not found")
  const PasswordHasBeenReset := Message("Password has been reset successfully")
  const AccountDeleted := Message("Account deleted successfully")

  /** The claims `login` signs for user `id`: `{"sub": str(id)}`. */
  function LoginClaims(id: UserId): Claims {
    Claims(Some(id), None, None)
  }

  /** The claims `request_reset` signs for user `id`. */
  function ResetClaims(id: UserId): Claims {
    Claims(Some(id), Some(PasswordResetPurpose), None)
  }

  /**
   `signup`: reject a taken email with 409; otherwise insert the user row and a credential
   row holding the digest of the password (the salt stands for bcrypt's random salt).
   */
  method Signup(conn: Connection, payload: SignupRequest, salt: nat) returns (r: Result<SignupResponse>)
    requires conn.Valid()
    modifies conn
    ensures conn.Valid()
    ensures conn.organizations == old(conn.organizations) && conn.roles == old(conn.roles)
    ensures conn.events == old(conn.events) && conn.registrations == old(conn.registrations)
    ensures EmailTaken(old(conn.users), payload.email) ==>
              && r == Err(DuplicateEmail)
              && conn.users == old(conn.users)
              && conn.credentials == old(conn.credentials)
    ensures !EmailTaken(old(conn.users), payload.email) ==>
              && r.Ok?
              && var id := r.value.userId;
                 && id > 0
                 && id !in old(conn.users)
                 && conn.users == old(conn.users)[id := UserRow(payload.email, payload.firstName,
                                                                payload.lastName, DefaultAvailability)]
                 && conn.credentials == old(conn.credentials)[id := HashPassword(payload.password, salt)]
                 && r.value == SignupResponse(id, payload.email, payload.firstName, payload.lastName)
  {
    var existing := UserIdByEmail(conn.users, payload.email);
    if existing.Some? {
      return Err(DuplicateEmail);
    }
    FreshIdExists(conn.users);
    var userId :| userId > 0 && userId !in conn.users;
    conn.users := conn.users[userId := UserRow(payload.email, payload.firstName, payload.lastName,
                                               DefaultAvailability)];
    conn.credentials := conn.credentials[userId := HashPassword(payload.password, salt)];
    return Ok(SignupResponse(userId, payload.email, payload.firstName, payload.lastName));
  }

  /**
   `login`: an unknown email, a missing credential and a wrong password all give the same
   401; success signs `{"sub": str(user_id)}` with the default 30-minute expiry.
   */
  function Login(users: map<UserId, UserRow>, credentials: map<UserId, Digest>, form: LoginForm,
                 now: int, key: Key): (r: Result<LoginResponse>)
    ensures r.Err? ==> r.error == InvalidCredentials
    ensures !EmailTaken(users, form.username) ==> r == Err(InvalidCredentials)
    ensures r.Ok? ==>
              && r.value.tokenType == "bearer"
              && var t := r.value.accessToken;
                 && t.Signed? && t.algorithm == Algorithm && t.signingKey == key
                 && t.claims.purpose == None
                 && t.claims.exp == Some(now + DefaultExpirySeconds)
                 && t.claims.sub.Some?
                 && var id := t.claims.sub.value;
                    && id in users && users[id].email == form.username
                    && id in credentials && VerifyPassword(form.password, credentials[id])
  {
    match UserIdByEmail(users, form.username)
    case None => Err(InvalidCredentials)
    case Some(userId) =>
      if userId !in credentials || !VerifyPassword(form.password, credentials[userId]) then
        Err(InvalidCredentials)
      else
        Ok(LoginResponse(CreateAccessToken(LoginClaims(userId), None, now, key), BearerTokenType))
  }

  /**
   `request_reset`: the response is the same whether or not the email exists, and no table
   changes. For an existing email a reset token with a 15-minute expiry is logged.
   */
  function RequestReset(users: map<UserId, UserRow>, body: RequestResetBody, now: int, key: Key)
    : (r: ResetRequestOutcome)
    ensures r.response == ResetRequested
    ensures r.loggedToken.Some? <==> EmailTaken(users, body.email)
    ensures r.loggedToken.Some? ==>
              var t := r.loggedToken.value;
              && t.Signed? && t.algorithm == Algorithm && t.signingKey == key
              && t.claims.purpose == Some(PasswordResetPurpose)
              && t.claims.exp == Some(now + ResetTokenExpireMinutes * SecondsPerMinute)
              && t.claims.sub.Some?
              && t.claims.sub.value in users && users[t.claims.sub.value].email == body.email
  {
    var token :=
      match UserIdByEmail(users, body.email)
      case None => None
      case Some(userId) =>
        Some(CreateAccessToken(ResetClaims(userId), Some(ResetTokenExpireMinutes * SecondsPerMinute),
                               now, key));
    ResetRequestOutcome(ResetRequested, token)
  }

  /**
   `reset_password`: a token that does not decode gives 400 "Invalid or expired reset
   token", one whose purpose is not "password_reset" gives 400 "Invalid reset token"; then
   the credential of user `sub` is replaced, or 404 when no credential row matches.
   */
  method ResetPassword(conn: Connection, body: ResetPasswordBody, now: int, key: Key, salt: nat)
    returns (r: Result<Message>)
    requires conn.Valid()
    modifies conn
    ensures conn.Valid()
    ensures conn.users == old(conn.users) && conn.organizations == old(conn.organizations)
    ensures conn.roles == old(conn.roles) && conn.events == old(conn.events)
    ensures conn.registrations == old(conn.registrations)
    ensures DecodeAccessToken(body.token, key, now).Rejected? ==>
              r == Err(InvalidOrExpiredResetToken) && conn.credentials == old(conn.credentials)
    ensures DecodeAccessToken(body.token, key, now).Decoded? &&
            body.token.claims.purpose != Some(PasswordResetPurpose) ==>
              r == Err(InvalidResetToken) && conn.credentials == old(conn.credentials)
    ensures DecodeAccessToken(body.token, key, now).Decoded? &&
            body.token.claims.purpose == Some(PasswordResetPurpose) ==>
              var sub := body.token.claims.sub;
              if sub.Some? && sub.value in old(conn.credentials) then
                && r == Ok(PasswordHasBeenReset)
                && conn.credentials == old(conn.credentials)[sub.value := HashPassword(body.newPassword, salt)]
              else
                r == Err(ResetUserNotFound) && conn.credentials == old(conn.credentials)
  {
    var decoded := DecodeAccessToken(body.token, key, now);
    if decoded.Rejected? {
      return Err(InvalidOrExpiredResetToken);
    }
    var claims := decoded.claims;
    if claims.purpose != Some(PasswordResetPurpose) {
      return Err(InvalidResetToken);
    }
    var userId := claims.sub;
    var digest := HashPassword(body.newPassword, salt);
    // UPDATE credentials ... WHERE user_id = ?: with no subject, or no row, nothing matches
    if userId.None? || userId.value !in conn.credentials {
      return Err(ResetUserNotFound);
    }
    conn.credentials := conn.credentials[userId.value := digest];
    return Ok(PasswordHasBeenReset);
  }

  /**
   `delete_account`: the guard runs first; on success the authenticated user's credential
   row and user row are removed, and nothing else.
   */
  method DeleteAccount(conn: Connection, token: Token, key: Key, now: int) returns (r: Result<Message>)
    requires conn.Valid()
    modifies conn
    ensures conn.Valid()
    ensures conn.organizations == old(conn.organizations) && conn.roles == old(conn.roles)
    ensures conn.events == old(conn.events) && conn.registrations == old(conn.registrations)
    ensures var current := GetCurrentUser(token, key, now, old(conn.users));
            if current.Err? then
              && r == Err(current.error)
              && conn.users == old(conn.users)
              && conn.credentials == old(conn.credentials)
            else
              && r == Ok(AccountDeleted)
              && current.value.userId in old(conn.users)
              && conn.users == old(conn.users) - {current.value.userId}
              && conn.credentials == old(conn.credentials) - {current.value.userId}
  {
    var currentUser := GetCurrentUser(token, key, now, conn.users);
    if currentUser.Err? {
      return Err(currentUser.error);
    }
    var userId := currentUser.value.userId;
    conn.credentials := conn.credentials - {userId};
    conn.users := conn.users - {userId};
    return Ok(AccountDeleted);
  }

  // ---------------------------------------------------------------------------------------
  // How the endpoints fit together
  // ---------------------------------------------------------------------------------------

  /** Under the UNIQUE email constraint, login succeeds exactly for a matching credential. */
  lemma LoginSucceedsIff(users: map<UserId, UserRow>, credentials: map<UserId, Digest>,
                         form: LoginForm, now: int, key: Key)
    requires EmailsUnique(users)
    ensures Login(users, credentials, form, now, key).Ok? <==>
              exists id :: id in users && users[id].email == form.username &&
                           id in credentials && VerifyPassword(form.password, credentials[id])
  {
    if r :| r in users && users[r].email == form.username &&
            r in credentials && VerifyPassword(form.password, credentials[r]) {
      UserIdByEmailUnique(users, r);
    }
  }

  /**
   A user who exists but has no credential, or gives a wrong password, gets exactly the
   answer an unknown email gets.
   */
  lemma LoginFailuresAreIndistinguishable(users: map<UserId, UserRow>,
                                          credentials: map<UserId, Digest>,
                                          form: LoginForm, now: int, key: Key, id: UserId)
    requires EmailsUnique(users)
    requires id in users && users[id].email == form.username
    requires id !in credentials || !VerifyPassword(form.password, credentials[id])
    ensures Login(users, credentials, form, now, key)
            == Login(map[], credentials, form, now, key)
            == Err(InvalidCredentials)
  {
    UserIdByEmailUnique(users, id);
  }

  /** A signup followed by a login with the same email and password yields a token for the new id. */
  lemma SignupThenLogin(users: map<UserId, UserRow>, credentials: map<UserId, Digest>,
                        payload: SignupRequest, salt: nat, id: UserId, now: int, key: Key)
    requires EmailsUnique(users) && !EmailTaken(users, payload.email) && id !in users
    ensures var users' := users[id := UserRow(payload.email, payload.firstName, payload.lastName,
                                              DefaultAvailability)];
            var credentials' := credentials[id := HashPassword(payload.password, salt)];
            Login(users', credentials', LoginForm(payload.email, payload.password), now, key)
            == Ok(LoginResponse(CreateAccessToken(LoginClaims(id), None, now, key), BearerTokenType))
  {
    var users' := users[id := UserRow(payload.email, payload.firstName, payload.lastName,
                                      DefaultAvailability)];
    assert EmailsUnique(users');
    UserIdByEmailUnique(users', id);
  }

  /**
   A login token authenticates its user at the guard until it expires.
   */
  lemma LoginTokenAuthenticates(users: map<UserId, UserRow>, credentials: map<UserId, Digest>,
                                form: LoginForm, now: int, key: Key, at: int)
    requires Login(users, credentials, form, now, key).Ok?
    requires at < now + DefaultExpirySeconds
    ensures var current := GetCurrentUser(Login(users, credentials, form, now, key).value.accessToken,
                                          key, at, users);
            current.Ok? && current.value.email == form.username
  {
  }

  /** A login token carries no purpose, so the reset endpoint refuses it as "Invalid reset token". */
  lemma LoginTokenIsNotAResetToken(users: map<UserId, UserRow>, credentials: map<UserId, Digest>,
                                   form: LoginForm, now: int, key: Key, at: int)
    requires Login(users, credentials, form, now, key).Ok?
    ensures var t := Login(users, credentials, form, now, key).value.accessToken;
            DecodeAccessToken(t, key, at).Decoded? ==> t.claims.purpose != Some(PasswordResetPurpose)
  {
  }

  /**
   The guard does not check `purpose`, so an unexpired reset token authenticates its user
   at every protected endpoint.
   */
  lemma ResetTokenAuthenticates(users: map<UserId, UserRow>, body: RequestResetBody, now: int,
                                key: Key, at: int)
    requires EmailTaken(users, body.email)
    requires at < now + ResetTokenExpireMinutes * SecondsPerMinute
    ensures GetCurrentUser(RequestReset(users, body, now, key).loggedToken.value, key, at, users).Ok?
  {
  }

  /** After a reset, the new password logs in and any other password does not. */
  lemma ResetThenLogin(users: map<UserId, UserRow>, credentials: map<UserId, Digest>, id: UserId,
                       newPassword: string, salt: nat, password: string, now: int, key: Key)
    requires EmailsUnique(users) && id in users
    ensures var credentials' := credentials[id := HashPassword(newPassword, salt)];
            Login(users, credentials', LoginForm(users[id].email, password), now, key).Ok?
            <==> password == newPassword
  {
    UserIdByEmailUnique(users, id);
  }
}
