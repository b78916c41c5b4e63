/** The user endpoints: a searchable, filterable, paged listing, lookup by id, and creation. */
module UserRoutes {
  import opened Wrappers
  import opened Http
  import opened Listing
  import opened Security
  import opened Database

  /** The `User` response model. */
  datatype User = User(userId: UserId, email: string, firstName: string, lastName: string,
                       availability: Availability)

  datatype UserIn = UserIn(email: string, firstName: string, lastName: string,
                           availability: Availability)

  const UserNotFound := Failure(NotFound, "User not found")

  function AsUser(id: UserId, row: UserRow): User {
    User(id, row.email, row.firstName, row.lastName, row.availability)
  }

  /**
   The listing's filters, combined with AND: a non-empty query must occur, ignoring ASCII
   case, in the email, first name or last name; a given availability must match exactly.
   */
  predicate MatchesFilters(row: UserRow, query: Option<string>, availability: Option<Availability>) {
    && (|| query.None?
        || query.value == []
        || Contains(Lower(row.email), Lower(query.value))
        || Contains(Lower(row.firstName), Lower(query.value))
        || Contains(Lower(row.lastName), Lower(query.value)))
    && (availability.None? || row.availability == availability.value)
  }

  /** The search ignores ASCII case: two queries that fold alike match the same users. */
  lemma QueryIgnoresCase(row: UserRow, query: string, other: string,
                         availability: Option<Availability>)
    requires Lower(query) == Lower(other)
    ensures MatchesFilters(row, Some(query), availability) <==>
              MatchesFilters(row, Some(other), availability)
    ensures MatchesFilters(row, Some(query), availability) <==>
              MatchesFilters(row, Some(Lower(query)), availability)
  {
    LowerIdempotent(query);
    assert |query| == |Lower(query)| == |other|;
  }

  function MatchingIds(users: map<UserId, UserRow>, query: Option<string>,
                       availability: Option<Availability>): set<UserId>
  {
    set id | id in users && MatchesFilters(users[id], query, availability)
  }

  /**
   `list_users`: the users matching both filters, in ascending id order, skipping `skip` and
   keeping at most `limit` (the window of ranks [skip, skip + limit) among the matches).
   */
  function ListUsers(users: map<UserId, UserRow>, skip: nat, limit: nat, query: Option<string>,
                     availability: Option<Availability>): (r: seq<User>)
    ensures |r| == PageSize(|MatchingIds(users, query, availability)|, skip, limit) <= limit
    ensures forall i :: 0 <= i < |r| ==>
              && r[i].userId in users
              && MatchesFilters(users[r[i].userId], query, availability)
              && r[i] == AsUser(r[i].userId, users[r[i].userId])
              && Rank(MatchingIds(users, query, availability), r[i].userId) == skip + i
    ensures forall i, j :: 0 <= i < j < |r| ==> r[i].userId < r[j].userId
    ensures forall id :: id in users && MatchesFilters(users[id], query, availability) &&
                         skip <= Rank(MatchingIds(users, query, availability), id) < skip + limit ==>
              exists i :: 0 <= i < |r| && r[i].userId == id
  {
    var ids := Window(MatchingIds(users, query, availability), skip, limit);
    var r := seq(|ids|, i requires 0 <= i < |ids| => AsUser(ids[i], users[ids[i]]));
    assert forall i :: 0 <= i < |r| ==> r[i].userId == ids[i];
    r
  }

  /** Narrowing by availability never lists a user of another availability. */
  lemma AvailabilityFilterIsExact(users: map<UserId, UserRow>, skip: nat, limit: nat,
                                  query: Option<string>, availability: Availability)
    ensures var r := ListUsers(users, skip, limit, query, Some(availability));
            forall i :: 0 <= i < |r| ==> r[i].availability == availability
  {
  }

  /** Adding the availability filter keeps a subset of the matches of the query alone. */
  lemma AvailabilityNarrowsQuery(users: map<UserId, UserRow>, query: Option<string>,
                                 availability: Availability)
    ensures MatchingIds(users, query, Some(availability)) <= MatchingIds(users, query, None)
    ensures forall id :: id in MatchingIds(users, query, None) ==>
              (id in MatchingIds(users, query, Some(availability)) <==>
               users[id].availability == availability)
  {
    forall id | id in MatchingIds(users, query, Some(availability))
      ensures id in MatchingIds(users, query, None)
    {
    }
  }

  /** `get_user`: the stored user under that id, or 404 exactly when there is none. */
  function GetUser(users: map<UserId, UserRow>, userId: UserId): (r: Result<User>)
    ensures r.Err? <==> userId !in users
    ensures r.Err? ==> r.error == UserNotFound
    ensures r.Ok? ==> r.value.userId == userId && r.value == AsUser(userId, users[userId])
  {
    if userId !in users then Err(UserNotFound) else Ok(AsUser(userId, users[userId]))
  }

  function RowOf(payload: UserIn): UserRow {
    UserRow(payload.email, payload.firstName, payload.lastName, payload.availability)
  }

  /**
   `create_user`: one new user under a fresh id, with the payload's fields and no password.
   A duplicate email is rejected by the UNIQUE constraint and is not handled: it surfaces as
   a store failure and nothing changes.
   */
  method CreateUser(conn: Connection, payload: UserIn) returns (r: Result<User>)
    requires conn.Valid()
    modifies conn
    ensures conn.Valid()
    ensures conn.credentials == old(conn.credentials)
    ensures conn.organizations == old(conn.organizations) && conn.roles == old(conn.roles)
    ensures conn.events == old(conn.events) && conn.registrations == old(conn.registrations)
    ensures EmailTaken(old(conn.users), payload.email) ==>
              r == Err(StoreFailure) && conn.users == old(conn.users)
    ensures !EmailTaken(old(conn.users), payload.email) ==>
              && r.Ok?
              && r.value.userId > 0 && r.value.userId !in old(conn.users)
              && conn.users == old(conn.users)[r.value.userId := RowOf(payload)]
              && r.value == AsUser(r.value.userId, RowOf(payload))
  {
    if UserIdByEmail(conn.users, payload.email).Some? {
      return Err(StoreFailure);
    }
    FreshIdExists(conn.users);
    var userId :| userId > 0 && userId !in conn.users;
    conn.users := conn.users[userId := RowOf(payload)];
    return Ok(AsUser(userId, RowOf(payload)));
  }

  /** A created user is found again by `get_user`, with the payload's fields. */
  lemma CreateThenGet(users: map<UserId, UserRow>, userId: UserId, payload: UserIn)
    ensures GetUser(users[userId := RowOf(payload)], userId) == Ok(AsUser(userId, RowOf(payload)))
  {
  }
}
