# Volunteer-management API: a verified model of its request handlers

This project models the domain logic of a FastAPI/SQLite volunteer-management service:
users, their password credentials, organizations, the roles that make users admins or
volunteers of an organization, events, and registrations of users for events. It also covers
the generator that seeds the roles table.

The store is the class `Database.Connection`. It holds one map per table, keyed by the
table's primary key: `users`, `credentials`, `organizations`, `roles`, `events` and
`registrations`. Its `Valid()` predicate states three integrity facts:

- emails are unique;
- every credential belongs to an existing user;
- every registration row is stored under its own key.

Each request handler is one atomic transition of the store. A handler either commits all its
writes or, on an error, none. Handlers that write are methods with `modifies conn`. They
state every table's new value and keep `Valid()`. Read-only handlers are functions of the
tables they read, so lemmas can relate them to the writing handlers. Examples are
signup-then-login, create-then-get and delete-then-get.

HTTP errors are values: `Http.Result<T> = Ok(value) | Err(Error(status, detail,
wwwAuthenticate))`. The status numbers and `detail` texts are the ones the handlers raise. A
store error the handler does not catch becomes `StoreFailure`: an IntegrityError reaches the
framework as a 500, and nothing is committed.

Tokens are JSON Web Tokens (RFC 7519). A token carries:

- `sub`, from section 4.1.2. `login` writes `str(user_id)`; the model stores the integer id
  itself, and that mapping is one-to-one.
- an optional `purpose`.
- `exp`, from section 4.1.4, in integer seconds.

Tokens are signed with HS256 (section 3.2 of RFC 7518). A signature is modelled by recording
the algorithm and the key the token was signed with. A failed check answers with
`WWW-Authenticate: Bearer` (section 3 of RFC 6750).

The bcrypt hasher is modelled as an ideal salted digest: `Digest(salt, preimage)`. Only
`VerifyPassword` looks inside a digest, and the salt stands for bcrypt's random salt. Time,
the signing key and the salt are parameters.

Listing is shared by every endpoint that lists rows, in module `Listing`. It covers:

- `ORDER BY` an integer key, as `SortedKeys` with `Rank`;
- `LIMIT ? OFFSET ?`, as `Page`, `PageSize` and `Window`;
- `lower(...) LIKE '%q%'`, as `Lower` and `Contains`;
- ordering text under SQLite's binary collation, as `TextLe`.

## Model

| member | source | states |
|---|---|---|
| Security.HashPassword | api/utils/security.py:11-15 | the digest embeds the given salt, and `verify_password` accepts the hashed password against it |
| Security.VerifyIffRehashMatches | api/utils/security.py:18-23 | `verify_password` accepts a password exactly when hashing it under the salt embedded in the digest gives that digest, which is how bcrypt checks it |
| Security.VerifyRejectsOtherPassword | api/utils/security.py:18-23 | a digest of one password rejects every different password |
| Security.SaltsGiveDistinctDigests | api/utils/security.py:14 | hashing the same password under two different salts gives two different digests |
| Security.CreateAccessToken | api/utils/security.py:26-31 | the token is signed with HS256 under the key and keeps `sub` and `purpose` of the input claims; `exp` is now + 30 minutes when the delta is omitted or zero (a zero timedelta is falsy), and now + delta otherwise |
| Security.DecodeAccessToken | api/utils/security.py:34-36 | a malformed token, a different algorithm or a foreign key is InvalidToken; successful decoding returns exactly the token's claims |
| Security.CreateThenDecode | api/utils/security.py:26-36 | a fresh token decodes, before its `exp`, to the input claims with that `exp` added or overwritten |
| Security.DecodeAfterExpiry | api/utils/security.py:29-36 | from its `exp` on, a fresh token is rejected as ExpiredSignature |
| Security.NegativeDeltaIsExpired | api/utils/security.py:29 | a negative `expires_delta` mints a token that is already expired |
| Security.ForeignKeyIsInvalid | api/utils/security.py:31-36 | a token decoded under a key other than its signing key is InvalidToken, expired or not |
| Database.UserIdByEmail | api/routes/auth.py:23-26 | the `SELECT user_id ... WHERE email = ?` lookup finds a user with that email, and finds none exactly when no user has it |
| Database.UserIdByEmailUnique | api/utils/db_schema.py:6 | under the UNIQUE email constraint the lookup returns exactly the user holding that email |
| Database.FreshIdExists | api/routes/organization.py:84-91 | every table has a positive id that is not yet a key (the store's choice of a new `INTEGER PRIMARY KEY`) |
| Database.Connection.constructor | api/utils/db_schema.py:3-35 | a new store is empty and consistent |
| AuthGuard.GetCurrentUser | api/utils/auth.py:14-57 | a token that fails to decode gives 401 "Invalid or expired token"; one without `sub` gives 401 "Invalid token claims"; a `sub` naming no user gives 401 "User not found"; every failure is a 401 with `WWW-Authenticate: Bearer`; success returns id, email and names of exactly the row named by `sub` |
| AuthGuard.AuthenticatesIffLiveSubject | api/utils/auth.py:24-50 | the guard succeeds if and only if the token is signed with HS256 under the key, is unexpired and names an existing user |
| AuthGuard.PurposeIsIgnored | api/utils/auth.py:33-44 | two tokens that differ only in `purpose` get the same answer |
| AuthGuard.DeletedUserIsRejected | api/utils/auth.py:41-50 | once its user row is gone, a well-signed, unexpired token gets 401 "User not found" |
| AuthGuard.ExpiredTokenIsRejected | api/utils/auth.py:24-31 | a token past its `exp` gets 401 "Invalid or expired token", whatever its claims and whatever users exist |
| AuthRoutes.Signup | api/routes/auth.py:17-53 | a taken email gives 409 "A user with this email already exists" and changes nothing; otherwise it adds one user row under a fresh id (default availability Part-time) and one credential whose digest verifies the password; the response echoes id, email and names and has no digest field; other tables are unchanged |
| AuthRoutes.Login | api/routes/auth.py:56-92 | every failure is the same 401 "Invalid credentials" with the Bearer header; an unknown email fails; a success is a "bearer" token, signed with HS256 under the key, with no `purpose` and `exp` now + 30 minutes, whose `sub` is a user with that email and a credential verifying the password |
| AuthRoutes.RequestReset | api/routes/auth.py:95-119 | the response is the same message whether or not the email exists; a reset token is produced exactly when the email exists, and it names that user, has purpose "password_reset" and expires after 15 minutes |
| AuthRoutes.ResetPassword | api/routes/auth.py:122-156 | an undecodable token gives 400 "Invalid or expired reset token"; a purpose other than "password_reset" gives 400 "Invalid reset token"; then only the credential of `sub` is replaced by a digest of the new password, or, if no credential row matches, 404 "User not found"; no error path writes anything |
| AuthRoutes.DeleteAccount | api/routes/auth.py:159-179 | a guard failure is returned with nothing deleted; otherwise exactly the authenticated user's user row and credential row are removed |
| AuthRoutes.LoginSucceedsIff | api/routes/auth.py:68-92 | under unique emails, login succeeds if and only if some user with that email has a credential verifying the password |
| AuthRoutes.LoginFailuresAreIndistinguishable | api/routes/auth.py:72-89 | a missing credential or a wrong password gets exactly the response an unknown email gets |
| AuthRoutes.SignupThenLogin | api/routes/auth.py:34-92 | after a signup, logging in with that email and password returns a token for the new id |
| AuthRoutes.LoginTokenAuthenticates | api/routes/auth.py:91-92 | a login token authenticates its user at the guard until it expires |
| AuthRoutes.LoginTokenIsNotAResetToken | api/routes/auth.py:136-140 | a login token has no purpose, so reset_password refuses it as "Invalid reset token" |
| AuthRoutes.ResetTokenAuthenticates | api/routes/auth.py:112-117 | an unexpired reset token passes the guard of every protected endpoint, because the guard never checks `purpose` |
| AuthRoutes.ResetThenLogin | api/routes/auth.py:145-153 | after a reset, login succeeds with the new password and with no other |
| Listing.MinExists | api/routes/organization.py:44 | every non-empty set of keys has a least element |
| Listing.SortedKeys | api/routes/events.py:17 | `ORDER BY` an integer key lists each key of the set exactly once, in strictly increasing order |
| Listing.IncreasingCardinality | api/routes/organization.py:44 | a strictly increasing sequence has as many distinct keys as elements |
| Listing.SortedKeysRank | api/routes/organization.py:44 | the key at position k of the ascending order has exactly k smaller keys |
| Listing.RankBelowSize | api/routes/organization.py:44 | a key's position in the ascending order is less than the number of keys |
| Listing.Page | api/routes/event_registrations.py:65-66 | `LIMIT limit OFFSET skip` keeps rows skip, skip+1, … of the input, at most `limit` of them |
| Listing.PageConcatenation | api/routes/event_registrations.py:65-66 | the page of a rows at skip, followed by the page of b rows at skip + a, is the page of a + b rows at skip |
| Listing.Window | api/routes/organization.py:44 | `ORDER BY key LIMIT ? OFFSET ?` returns, in increasing order, exactly the keys whose rank lies in [skip, skip + limit), and at most `limit` of them |
| Listing.LowerIdempotent | api/routes/organization.py:38-41 | lowering an already lowered string changes nothing |
| Listing.TextLeTotal | api/routes/event_registrations.py:64 | helper for `LatestExists`: the binary text collation orders any two strings |
| Listing.TextLeTransitive | api/routes/event_registrations.py:64 | helper for `LatestExists`: the binary text collation is transitive |
| OrganizationRoutes.ListOrganizations | api/routes/organization.py:12-57 | each row is a stored organization matching the query (none or empty keeps all; otherwise the lowercased name or description contains the lowercased query); rows are in increasing id and shown as stored; row i has rank skip + i among the matches; every match ranked in [skip, skip + limit) appears; the count is the page size, at most `limit` |
| OrganizationRoutes.QueryIgnoresCase | api/routes/organization.py:36-42 | the search ignores ASCII case: two queries that lower to the same string match the same organizations, and a query matches exactly what its lowered form matches |
| OrganizationRoutes.EmptyQueryListsAll | api/routes/organization.py:36-47 | with no query or an empty one, skip 0 and a large enough limit, the listing covers every organization |
| OrganizationRoutes.CreateOrganization | api/routes/organization.py:60-107 | an unknown user gives 404 "User not found" and inserts nothing; otherwise one organization row under a fresh id, created by that user, plus exactly the role (user, new organization) = admin; a store failure, with nothing committed, happens only when the user already has a role at some id no organization holds yet, and creation succeeds whenever every role of the user belongs to an existing organization; users, credentials, events and registrations are unchanged |
| OrganizationRoutes.DeleteOrganization | api/routes/organization.py:110-158 | a missing organization gives 404; a requester who is not the creator gets 403; neither path changes anything; otherwise exactly that row is removed and its previous values are returned |
| OrganizationRoutes.UpdatedRow | api/routes/organization.py:206-209 | given fields replace, `None` keeps the old value, and the creator is unchanged |
| OrganizationRoutes.UpdateOrganization | api/routes/organization.py:161-226 | a missing organization gives 404; a requester without the admin role there gets 403 (being the creator does not matter); otherwise only that row is replaced by the merged row, which is returned |
| OrganizationRoutes.CreatorMayUpdate | api/routes/organization.py:92-100 | the admin role inserted at creation lets the creator pass the update's admin gate |
| OrganizationRoutes.DeletedOrganizationIsNotListed | api/routes/organization.py:147-151 | after removal an organization appears in no listing page |
| OrganizationRoutes.EmptyUpdateKeepsRow | api/routes/organization.py:206-209 | an update giving neither name nor description leaves the row as it was |
| OrganizationRolesRoutes.ListOrganizationUsers | api/routes/organization_roles.py:11-43 | every row is a role of that organization joined with its existing user; every such role appears; rows come once each, by increasing user id |
| OrganizationRolesRoutes.AddOrganizationUser | api/routes/organization_roles.py:46-93 | an unknown user gives 404 and an existing (user, organization) role gives 409 "User already has a role in this organization", both with no change; otherwise exactly that role is inserted and returned joined with the user; the organization's existence is not checked |
| OrganizationRolesRoutes.RemoveOrganizationUser | api/routes/organization_roles.py:96-146 | a pair the join does not find gives 404 with no change; otherwise exactly that role is deleted and returned with its previous level |
| OrganizationRolesRoutes.UpdateOrganizationUserRole | api/routes/organization_roles.py:149-201 | a pair the join does not find gives 404 with no change; otherwise only that role's level changes, to the one returned; the set of role keys never changes |
| OrganizationRolesRoutes.AddedMemberIsListed | api/routes/organization_roles.py:88-93 | after a successful add, the organization's listing shows the new member with its level |
| OrganizationRolesRoutes.RemovedMemberIsNotListed | api/routes/organization_roles.py:135-139 | after a removal, the organization's listing no longer shows that user |
| EventRoutes.ListEvents | api/routes/events.py:11-29 | every event exactly once, as stored, in increasing id |
| EventRoutes.GetEvent | api/routes/events.py:33-53 | 404 "Event not found" exactly when the id is missing; otherwise the stored event under that id |
| EventRoutes.AddEvent | api/routes/events.py:57-77 | one event is inserted under a fresh id, with exactly the payload's fields, and returned; nothing else changes |
| EventRoutes.MergedRow | api/routes/events.py:101-113 | each field given in the payload replaces the stored value, and each `None` keeps it |
| EventRoutes.UpdateEvent | api/routes/events.py:81-139 | a missing id gives 404 with no change; otherwise that event alone becomes the merged row (`organization_id` included), and the response carries the merged fields but the old `organization_id` |
| EventRoutes.DeleteEvent | api/routes/events.py:143-162 | a missing id gives 404 with no change; otherwise exactly that event is removed |
| EventRoutes.AddThenGet | api/routes/events.py:57-77 | an added event is found by `get_event` with the payload's fields |
| EventRoutes.DeleteThenGet | api/routes/events.py:143-162 | a deleted event is no longer found |
| EventRoutes.UpdateResponseMatchesStoreUnlessMoved | api/routes/events.py:115-139 | the update response equals what `get_event` reads afterwards if and only if the payload leaves `organization_id` as it was |
| EventRoutes.EmptyUpdateIsIdentity | api/routes/events.py:101-113 | an update with every field `None` leaves the event unchanged |
| EventRegistrationRoutes.LatestExists | api/routes/event_registrations.py:64 | every non-empty set of registrations has one with a latest registration time |
| EventRegistrationRoutes.LatestThenRest | api/routes/event_registrations.py:64 | a latest key followed by the other keys latest first lists all keys latest first, each once |
| EventRegistrationRoutes.LatestFirst | api/routes/event_registrations.py:64 | `ORDER BY registration_time DESC` lists each key once, with non-increasing time |
| EventRegistrationRoutes.RowsOfConcatenation | api/routes/event_registrations.py:67-77 | reading two key sequences one after the other gives the rows of their concatenation |
| EventRegistrationRoutes.ListEventRegistrations | api/routes/event_registrations.py:11-77 | a negative skip gives 400 "Skip cannot be negative", checked first; then a limit below 1 gives 400 "Limit must be at least 1"; the result is Ok exactly when neither applies; then every row is stored under its key and matches every given filter; keys are distinct; times do not increase; the count is the page size of the matches, at most `limit` |
| EventRegistrationRoutes.FirstPageListsEveryMatch | api/routes/event_registrations.py:52-66 | with skip 0 and a limit at least the number of matches, every matching registration is listed |
| EventRegistrationRoutes.PagesConcatenate | api/routes/event_registrations.py:64-66 | consecutive pages of a rows and b rows fit together into the page of a + b rows |
| EventRegistrationRoutes.GetEventRegistration | api/routes/event_registrations.py:80-119 | 404 "Registration not found" exactly when the key is missing; otherwise the record with exactly that organization, event and user |
| EventRegistrationRoutes.FullyFilteredListingIsLookup | api/routes/event_registrations.py:52-63 | with all three filters, the first page is the one record `get` finds, or empty when `get` gives 404 |
| EventRegistrationRoutes.CreateEventRegistration | api/routes/event_registrations.py:122-157 | an existing key gives 409 "Registration already exists" with no change; otherwise the payload is stored under its key and returned unchanged |
| EventRegistrationRoutes.DeleteEventRegistration | api/routes/event_registrations.py:160-208 | a missing key gives 404 with no change; otherwise exactly that record is removed and returned |
| EventRegistrationRoutes.CreateThenGet | api/routes/event_registrations.py:137-157 | a created registration is found by its key, and the table stays keyed |
| EventRegistrationRoutes.DeleteThenGet | api/routes/event_registrations.py:194-201 | a deleted registration is no longer found, and the table stays keyed |
| UserRoutes.ListUsers | api/routes/users.py:12-69 | each row is a stored user that matches both filters (query in the lowercased email, first or last name; exact availability); rows are in increasing id; row i has rank skip + i among the matches; every match ranked in [skip, skip + limit) appears; the count is the page size, at most `limit` |
| UserRoutes.QueryIgnoresCase | api/routes/users.py:42-47 | the search ignores ASCII case: two queries that lower to the same string match the same users, under any availability filter |
| UserRoutes.AvailabilityFilterIsExact | api/routes/users.py:50-54 | with an availability filter, every listed user has exactly that availability |
| UserRoutes.AvailabilityNarrowsQuery | api/routes/users.py:42-54 | the filters combine with AND: the matches of the query and the availability are those matches of the query alone that have that availability |
| UserRoutes.GetUser | api/routes/users.py:72-97 | 404 "User not found" exactly when the id is missing; otherwise the stored user under that id |
| UserRoutes.CreateUser | api/routes/users.py:100-124 | a taken email fails in the store (500) with no change; otherwise one row with the payload's fields under a fresh id and no credential, returned with that id |
| UserRoutes.CreateThenGet | api/routes/users.py:100-124 | a created user is found by `get_user` with the payload's fields |
| GenerateRolesData.Generate | api/utils/generate_roles_data.py:8-32 | exactly `num_records` tuples; tuple i has the i-th organization and user drawn; organizations lie in 1..20; each tuple is admin exactly when it is the first naming its organization |
| GenerateRolesData.Step | api/utils/generate_roles_data.py:20-30 | one iteration keeps the loop invariants: tuples follow the draws, admin-first holds, and `org_ids_with_admin` holds exactly the organizations drawn so far |
| GenerateRolesData.FirstIffNotSeen | api/utils/generate_roles_data.py:22-27 | for a run that already puts admins first, appending a tuple keeps that property if and only if the tuple is admin exactly when its organization was not drawn before |
| GenerateRolesData.AtMostOneAdmin | api/utils/generate_roles_data.py:22-27 | two admin tuples for the same organization are the same tuple |
| GenerateRolesData.EveryOrganizationHasAdmin | api/utils/generate_roles_data.py:22-27 | every organization that appears has an admin tuple at or before any of its tuples |
| GenerateRolesData.SubsetCardinality | api/utils/generate_roles_data.py:29 | helper for `DrawsBoundRecords`: a subset of a finite set of ids is no larger |
| GenerateRolesData.Interval | api/utils/generate_roles_data.py:13 | helper for `DrawsBoundRecords`: the ids lo..hi-1, exactly hi - lo of them |
| GenerateRolesData.DistinctCardinality | api/utils/generate_roles_data.py:29 | helper for `DrawsBoundRecords`: pairwise distinct user ids are as many as the records |
| GenerateRolesData.DrawsBoundRecords | api/utils/generate_roles_data.py:13-29 | distinct user ids in 1..100 exist only when `num_records` is at most 100 |

## Left out

- Cryptography. bcrypt and the JWT encoding are not modelled. The hasher is an ideal salted
  digest. The signer records its algorithm and key, so a signature verifies exactly under
  its own key.
- Security.VerifyRejectsOtherPassword: bcrypt works on the password's UTF-8 bytes. Older
  bcrypt versions read only the first 72 bytes, so two longer passwords sharing those bytes
  verify against each other's digest; newer versions raise ValueError for such passwords.
  The ideal digest models neither behaviour, and this lemma holds only for passwords of at
  most 72 bytes.
- AuthRoutes.ResetThenLogin: "no other password logs in" holds only for passwords of at most
  72 UTF-8 bytes, for the same bcrypt reason. The ValueError path of `hash_password` and
  `verify_password` for longer passwords is not part of this model.
- Time. `datetime.now` becomes the `now` parameter, in integer seconds. The decoder treats a
  token as expired once `exp <= now`. The leeway and sub-second truncation of the JWT library
  are not part of this model.
- Randomness. bcrypt's salt is a parameter. The generator's `random.choice` and
  `fake.unique.random_int` draws are input sequences. The caller guarantees that the user
  draws are distinct and lie in 1..100, as Faker's unique generator does.
  `GenerateRolesData.DrawsBoundRecords` shows that no such draws exist for more than 100
  records; Faker then raises, and that error is not modelled.
- Framework plumbing. This covers FastAPI routing, `Depends`, OAuth2 form and bearer-header
  extraction, and pydantic validation (`EmailStr`, `PositiveInt`). Inputs arrive already
  validated, and `Malformed` stands for any string that is not a well-formed token.
- The reset-token `print`. It is modelled as the `loggedToken` that `AuthRoutes.RequestReset`
  returns; no e-mail channel is modelled.
- SQLite itself. SQL text, connections, `commit` and rollback are not modelled. Each handler
  is one atomic transition. When the store allocates a new `INTEGER PRIMARY KEY` the model
  allows any positive id that is not yet a key.
- AuthGuard.DeletedUserIsRejected: `users.user_id` is `INTEGER PRIMARY KEY AUTOINCREMENT`, so
  SQLite never hands a deleted user's id to a later user. The model allows a later signup or
  `create_user` to take that id, and the deleted user's unexpired token would then
  authenticate the new user. The lemma holds in the store right after the deletion; the
  model does not capture the no-reuse guarantee.
- LIKE wildcards. A `%` or `_` inside a user's query is not given its SQL meaning; the search
  is plain substring search.
- Case folding. Both sides are folded with ASCII case folding, as SQLite's `lower` does.
  Python's Unicode `str.lower` on the query is not modelled.
- OrganizationRoutes.ListOrganizations: `skip` and `limit` are natural numbers. The handler
  does not validate them, and SQLite's treatment of negative values is not part of this model.
- UserRoutes.ListUsers: `skip` and `limit` are natural numbers, for the same reason.
- EventRegistrationRoutes.ListEventRegistrations: rows with equal registration times come in
  an order the store does not fix. The model chooses one such order without naming it. The
  listing is therefore a ghost function, and its contract says only "non-increasing time".
- OrganizationRolesRoutes.ListOrganizationUsers: the contract says only that rows are listed
  by increasing user id. The query has no `ORDER BY`, so its order is the store's choice.
- Schema inconsistencies. The repository's schema files disagree with the handlers, and the
  model uses one consistent store instead:
  - a `users(id, name)` table;
  - a NOT NULL `password_hash` that signup never fills;
  - no credentials table;
  - organizations without description or creator;
  - a join on `u.id` and `u.name`.
  In this model, the role join reports the user's first and last name.
- Cascades. Deleting an organization or an account removes only the rows the handler deletes.
  Whether the schema cascades to roles, events or registrations is not shown, so it is not
  modelled.
- Untaken checks. The guard does not check `purpose`, and the role endpoints do not check
  who calls them; the model follows the code as written. See `AuthGuard.PurposeIsIgnored` and
  `AuthRoutes.ResetTokenAuthenticates`.
- Scripts. The database creation, drop, populate and insert scripts, and the user and
  organization data generators, are file, database and print plumbing and are not part of
  this model.
