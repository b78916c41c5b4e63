/**
 The relational store as one consistent set of keyed tables. Each request handler is one
 atomic transition of a `Connection`: it either commits all of its writes or none.
 */
module Database {
  import opened Wrappers
  import opened Listing
  import opened Security

  /** The `availability` column's allowed values; new rows default to 'Part-time'. */
  datatype Availability = FullTime | PartTime | Weekends | Evenings

  const DefaultAvailability := PartTime

  datatype UserRow = UserRow(email: string, firstName: string, lastName: string,
                             availability: Availability)

  datatype OrganizationRow = OrganizationRow(name: string, description: string,
                                             createdByUserId: UserId)

  /** `permission_level`: the CHECK constraint admits exactly 'admin' and 'volunteer'. */
  datatype PermissionLevel = Admin | Volunteer

  /** The roles table's composite primary key (user_id, organization_id). */
  datatype RoleKey = RoleKey(userId: UserId, organizationId: int)

  datatype EventRow = EventRow(name: string, description: string, location: string,
                               time: string, organizationId: int)

  /** An event registration row; `registrationTime` is an ISO 8601 text timestamp. */
  datatype Registration = Registration(userId: UserId, eventId: int, organizationId: int,
                                       registrationTime: string)

  /** The registrations table's composite key (organization_id, event_id, user_id). */
  datatype RegistrationKey = RegistrationKey(organizationId: int, eventId: int, userId: UserId)

  function KeyOf(r: Registration): RegistrationKey {
    RegistrationKey(r.organizationId, r.eventId, r.userId)
  }

  /** The UNIQUE constraint on `users.email`. */
  predicate EmailsUnique(users: map<UserId, UserRow>) {
    forall a, b :: a in users && b in users && users[a].email == users[b].email ==> a == b
  }

  predicate EmailTaken(users: map<UserId, UserRow>, email: string) {
    exists id :: id in users && users[id].email == email
  }

  /** Every registration row is stored under its own key. */
  predicate RegistrationsKeyed(registrations: map<RegistrationKey, Registration>) {
    forall k :: k in registrations ==> KeyOf(registrations[k]) == k
  }

  function FirstWithEmail(ids: seq<UserId>, users: map<UserId, UserRow>, email: string): (r: Option<UserId>)
    requires forall i :: 0 <= i < |ids| ==> ids[i] in users
    ensures r.Some? ==> r.value in ids && users[r.value].email == email
    ensures r.None? ==> forall id :: id in ids ==> users[id].email != email
  {
    if ids == [] then None
    else if users[ids[0]].email == email then Some(ids[0])
    else FirstWithEmail(ids[1..], users, email)
  }

  /**
   `SELECT user_id FROM users WHERE email = ?` followed by `fetchone()`: the matching row
   with the smallest id, if any (there is at most one under the UNIQUE constraint).
   */
  function UserIdByEmail(users: map<UserId, UserRow>, email: string): (r: Option<UserId>)
    ensures r.Some? ==> r.value in users && users[r.value].email == email
    ensures r.None? <==> !EmailTaken(users, email)
  {
    FirstWithEmail(SortedKeys(users.Keys), users, email)
  }

  /** Under the UNIQUE constraint, the lookup by email finds exactly the user with that email. */
  lemma UserIdByEmailUnique(users: map<UserId, UserRow>, id: UserId)
    requires EmailsUnique(users)
    requires id in users
    ensures UserIdByEmail(users, users[id].email) == Some(id)
  {
  }

  /** A table always has room for a fresh positive id. */
  lemma FreshIdExists<V>(table: map<int, V>)
    ensures exists id :: id > 0 && id !in table
  {
    var keys := SortedKeys(table.Keys);
    var id := if keys == [] || keys[|keys| - 1] < 0 then 1 else keys[|keys| - 1] + 1;
    assert id > 0 && id !in table;
  }

  /**
   An open connection to the store: one map per table, keyed by the table's primary key.
   The credentials table maps a user id to that user's password digest.
   */
  class Connection {
    var users: map<UserId, UserRow>
    var credentials: map<UserId, Digest>
    var organizations: map<int, OrganizationRow>
    var roles: map<RoleKey, PermissionLevel>
    var events: map<int, EventRow>
    var registrations: map<RegistrationKey, Registration>

    /**
     The store's integrity: emails are unique, every credential belongs to an existing
     user and every registration row sits under its own key.
     */
    ghost predicate Valid()
      reads this
    {
      && EmailsUnique(users)
      && credentials.Keys <= users.Keys
      && RegistrationsKeyed(registrations)
    }

    /** A freshly created, empty database. */
    constructor ()
      ensures Valid()
      ensures users == map[] && credentials == map[] && organizations == map[]
      ensures roles == map[] && events == map[] && registrations == map[]
    {
      users, credentials, organizations := map[], map[], map[];
      roles, events, registrations := map[], map[], map[];
    }
  }
}
