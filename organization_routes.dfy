/**
 The organization endpoints: a searchable, paged listing, and creation, deletion and update
 behind their permission gates.
 */
module OrganizationRoutes {
  import opened Wrappers
  import opened Http
  import opened Listing
  import opened Security
  import opened Database

  /** The `Organization` response model. */
  datatype Organization = Organization(organizationId: int, name: string, description: string,
                                       createdByUserId: UserId)

  datatype OrganizationCreate = OrganizationCreate(name: string, description: string,
                                                   userId: UserId)

  /** An update request: the requester, and the fields to replace (`None` keeps the old value). */
  datatype OrganizationUpdate = OrganizationUpdate(userId: UserId, name: Option<string>,
                                                   description: Option<string>)

  const OrganizationNotFound := Failure(NotFound, "Organization not found")
  const CreatorNotFound := Failure(NotFound, "User not found")
  const OnlyCreatorMayDelete :=
    Failure(Forbidden, "Only the organization creator can delete this organization")
  const OnlyAdminsMayUpdate :=
    Failure(Forbidden, "Only organization admins can update this organization")

  function AsOrganization(id: int, row: OrganizationRow): Organization {
    Organization(id, row.name, row.description, row.createdByUserId)
  }

  /** The search filter: no query, or an empty one, keeps every organization. */
  predicate MatchesQuery(row: OrganizationRow, query: Option<string>) {
    || query.None?
    || query.value == []
    || Contains(Lower(row.name), Lower(query.value))
    || Contains(Lower(row.description), Lower(query.value))
  }

  /** The search ignores ASCII case: two queries that fold alike match the same rows. */
  lemma QueryIgnoresCase(row: OrganizationRow, query: string, other: string)
    requires Lower(query) == Lower(other)
    ensures MatchesQuery(row, Some(query)) <==> MatchesQuery(row, Some(other))
    ensures MatchesQuery(row, Some(query)) <==> MatchesQuery(row, Some(Lower(query)))
  {
    LowerIdempotent(query);
    assert |query| == |Lower(query)| == |other|;
  }

  function MatchingIds(organizations: map<int, OrganizationRow>, query: Option<string>): set<int> {
    set id | id in organizations && MatchesQuery(organizations[id], query)
  }

  /**
   `list_organizations`: the organizations matching the query, in ascending id order,
   skipping `skip` of them and returning at most `limit` (the window of ranks
   [skip, skip + limit) among the matches).
   */
  function ListOrganizations(organizations: map<int, OrganizationRow>, skip: nat, limit: nat,
                             query: Option<string>): (r: seq<Organization>)
    ensures |r| == PageSize(|MatchingIds(organizations, query)|, skip, limit) <= limit
    ensures forall i :: 0 <= i < |r| ==>
              && r[i].organizationId in organizations
              && MatchesQuery(organizations[r[i].organizationId], query)
              && r[i] == AsOrganization(r[i].organizationId, organizations[r[i].organizationId])
              && Rank(MatchingIds(organizations, query), r[i].organizationId) == skip + i
    ensures forall i, j :: 0 <= i < j < |r| ==> r[i].organizationId < r[j].organizationId
    ensures forall id :: id in organizations && MatchesQuery(organizations[id], query) &&
                         skip <= Rank(MatchingIds(organizations, query), id) < skip + limit ==>
              exists i :: 0 <= i < |r| && r[i].organizationId == id
  {
    var ids := Window(MatchingIds(organizations, query), skip, limit);
    var r := seq(|ids|, i requires 0 <= i < |ids| => AsOrganization(ids[i], organizations[ids[i]]));
    assert forall i :: 0 <= i < |r| ==> r[i].organizationId == ids[i];
    r
  }

  /** With no query, or an empty one, the listing covers every organization. */
  lemma EmptyQueryListsAll(organizations: map<int, OrganizationRow>, query: Option<string>,
                           limit: nat)
    requires query == None || query == Some("")
    requires limit >= |organizations|
    ensures |ListOrganizations(organizations, 0, limit, query)| == |organizations|
    ensures forall id :: id in organizations ==>
              exists i :: 0 <= i < |organizations| &&
                          ListOrganizations(organizations, 0, limit, query)[i].organizationId == id
  {
    var matching := MatchingIds(organizations, query);
    assert forall id :: id in organizations ==> MatchesQuery(organizations[id], query);
    assert matching == organizations.Keys;
    forall id | id in organizations
      ensures Rank(matching, id) < limit
    {
      RankBelowSize(matching, id);
    }
  }

  /**
   `create_organization`: 404 for an unknown user; otherwise a fresh organization row
   created by that user plus the admin role (user, organization). Should a role row for
   that pair already exist, the role insert fails and nothing is committed.
   */
  method CreateOrganization(conn: Connection, payload: OrganizationCreate)
    returns (r: Result<Organization>)
    requires conn.Valid()
    modifies conn
    ensures conn.Valid()
    ensures conn.users == old(conn.users) && conn.credentials == old(conn.credentials)
    ensures conn.events == old(conn.events) && conn.registrations == old(conn.registrations)
    ensures payload.userId !in old(conn.users) ==> r == Err(CreatorNotFound)
    ensures r.Err? ==>
              conn.organizations == old(conn.organizations) && conn.roles == old(conn.roles)
    ensures payload.userId in old(conn.users) ==> r.Ok? || r == Err(StoreFailure)
    // the store failure needs a role of this user at an id no organization holds yet
    ensures r == Err(StoreFailure) ==>
              exists id :: id > 0 && id !in old(conn.organizations) &&
                           RoleKey(payload.userId, id) in old(conn.roles)
    ensures (&& payload.userId in old(conn.users)
             && forall id :: RoleKey(payload.userId, id) in old(conn.roles) ==>
                               id in old(conn.organizations))
            ==> r.Ok?
    ensures r.Ok? ==>
              var id := r.value.organizationId;
              && id > 0 && id !in old(conn.organizations)
              && conn.organizations == old(conn.organizations)[id := OrganizationRow(
                   payload.name, payload.description, payload.userId)]
              && conn.roles == old(conn.roles)[RoleKey(payload.userId, id) := Admin]
              && r.value == Organization(id, payload.name, payload.description, payload.userId)
  {
    if payload.userId !in conn.users {
      return Err(CreatorNotFound);
    }
    FreshIdExists(conn.organizations);
    var organizationId :| organizationId > 0 && organizationId !in conn.organizations;
    if RoleKey(payload.userId, organizationId) in conn.roles {
      // the primary key of roles rejects the insert; the organization insert is rolled back
      return Err(StoreFailure);
    }
    conn.organizations := conn.organizations[organizationId := OrganizationRow(
      payload.name, payload.description, payload.userId)];
    conn.roles := conn.roles[RoleKey(payload.userId, organizationId) := Admin];
    return Ok(Organization(organizationId, payload.name, payload.description, payload.userId));
  }

  /**
   `delete_organization`: 404 when missing, 403 unless the requester created it; otherwise
   that row alone is removed and its previous values are returned.
   */
  method DeleteOrganization(conn: Connection, organizationId: int, userId: UserId)
    returns (r: Result<Organization>)
    requires conn.Valid()
    modifies conn
    ensures conn.Valid()
    ensures conn.users == old(conn.users) && conn.credentials == old(conn.credentials)
    ensures conn.roles == old(conn.roles) && conn.events == old(conn.events)
    ensures conn.registrations == old(conn.registrations)
    ensures organizationId !in old(conn.organizations) ==>
              r == Err(OrganizationNotFound) && conn.organizations == old(conn.organizations)
    ensures organizationId in old(conn.organizations) ==>
              var row := old(conn.organizations)[organizationId];
              if row.createdByUserId != userId then
                r == Err(OnlyCreatorMayDelete) && conn.organizations == old(conn.organizations)
              else
                && r == Ok(AsOrganization(organizationId, row))
                && conn.organizations == old(conn.organizations) - {organizationId}
  {
    if organizationId !in conn.organizations {
      return Err(OrganizationNotFound);
    }
    var row := conn.organizations[organizationId];
    if row.createdByUserId != userId {
      return Err(OnlyCreatorMayDelete);
    }
    conn.organizations := conn.organizations - {organizationId};
    return Ok(AsOrganization(organizationId, row));
  }

  /** Does `userId` hold the admin role in the organization? */
  predicate IsAdmin(roles: map<RoleKey, PermissionLevel>, userId: UserId, organizationId: int) {
    RoleKey(userId, organizationId) in roles && roles[RoleKey(userId, organizationId)] == Admin
  }

  /** The row an update leaves: fields given in the payload replace, `None` keeps. */
  function UpdatedRow(row: OrganizationRow, payload: OrganizationUpdate): (r: OrganizationRow)
    ensures r.createdByUserId == row.createdByUserId
    ensures r.name == (if payload.name.Some? then payload.name.value else row.name)
    ensures r.description == (if payload.description.Some? then payload.description.value
                              else row.description)
  {
    row.(name := payload.name.GetOr(row.name), description := payload.description.GetOr(row.description))
  }

  /**
   `update_organization`: 404 when missing, 403 unless the requester holds the admin role
   there (whether they created it does not matter); otherwise name and description are
   merged into that row alone.
   */
  method UpdateOrganization(conn: Connection, organizationId: int, payload: OrganizationUpdate)
    returns (r: Result<Organization>)
    requires conn.Valid()
    modifies conn
    ensures conn.Valid()
    ensures conn.users == old(conn.users) && conn.credentials == old(conn.credentials)
    ensures conn.roles == old(conn.roles) && conn.events == old(conn.events)
    ensures conn.registrations == old(conn.registrations)
    ensures organizationId !in old(conn.organizations) ==>
              r == Err(OrganizationNotFound) && conn.organizations == old(conn.organizations)
    ensures organizationId in old(conn.organizations) ==>
              if !IsAdmin(old(conn.roles), payload.userId, organizationId) then
                r == Err(OnlyAdminsMayUpdate) && conn.organizations == old(conn.organizations)
              else
                var row' := UpdatedRow(old(conn.organizations)[organizationId], payload);
                && conn.organizations == old(conn.organizations)[organizationId := row']
                && r == Ok(AsOrganization(organizationId, row'))
  {
    if organizationId !in conn.organizations {
      return Err(OrganizationNotFound);
    }
    var row := conn.organizations[organizationId];
    var roleKey := RoleKey(payload.userId, organizationId);
    if roleKey !in conn.roles || conn.roles[roleKey] != Admin {
      return Err(OnlyAdminsMayUpdate);
    }
    var row' := UpdatedRow(row, payload);
    conn.organizations := conn.organizations[organizationId := row'];
    return Ok(AsOrganization(organizationId, row'));
  }

  /** The role `create_organization` inserts lets its creator pass the update gate. */
  lemma CreatorMayUpdate(roles: map<RoleKey, PermissionLevel>, userId: UserId, organizationId: int)
    ensures IsAdmin(roles[RoleKey(userId, organizationId) := Admin], userId, organizationId)
  {
  }

  /** A deleted organization no longer appears in any listing. */
  lemma DeletedOrganizationIsNotListed(organizations: map<int, OrganizationRow>,
                                       organizationId: int, skip: nat, limit: nat,
                                       query: Option<string>)
    ensures var listing := ListOrganizations(organizations - {organizationId}, skip, limit, query);
            forall i :: 0 <= i < |listing| ==> listing[i].organizationId != organizationId
  {
  }

  /** An update that gives neither field leaves the row as it was. */
  lemma EmptyUpdateKeepsRow(row: OrganizationRow, userId: UserId)
    ensures UpdatedRow(row, OrganizationUpdate(userId, None, None)) == row
  {
  }
}
