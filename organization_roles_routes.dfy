/**
 The organization-membership endpoints: each role row connects one user to one organization
 with a permission level, keyed by the pair (user, organization).
 */
module OrganizationRolesRoutes {
  import opened Http
  import opened Listing
  import opened Security
  import opened Database

  /**
   The `RoleAndUser` response: the role joined with its user. The response names the user;
   in the consistent store that name is the user's first and last name.
   */
  datatype RoleAndUser = RoleAndUser(userId: UserId, organizationId: int, firstName: string,
                                     lastName: string, permissionLevel: PermissionLevel)

  datatype RoleCreate = RoleCreate(userId: UserId, permissionLevel: PermissionLevel)

  const RoleUserNotFound := Failure(NotFound, "User not found")
  const RoleAlreadyExists := Failure(Conflict, "User already has a role in this organization")

  /** One row of `roles JOIN users`, reporting `level` for the role. */
  function Joined(users: map<UserId, UserRow>, key: RoleKey, level: PermissionLevel): RoleAndUser
    requires key.userId in users
  {
    RoleAndUser(key.userId, key.organizationId, users[key.userId].firstName,
                users[key.userId].lastName, level)
  }

  /** The role keys the join finds for an organization: its roles whose user exists. */
  predicate InJoin(users: map<UserId, UserRow>, roles: map<RoleKey, PermissionLevel>, key: RoleKey) {
    key in roles && key.userId in users
  }

  function MemberIds(users: map<UserId, UserRow>, roles: map<RoleKey, PermissionLevel>,
                     organizationId: int): set<UserId>
  {
    set id | id in users && RoleKey(id, organizationId) in roles
  }

  /** `e` is the join row of its user's role in the organization. */
  predicate IsJoinRow(users: map<UserId, UserRow>, roles: map<RoleKey, PermissionLevel>,
                      organizationId: int, e: RoleAndUser)
  {
    var key := RoleKey(e.userId, organizationId);
    InJoin(users, roles, key) && e == Joined(users, key, roles[key])
  }

  /** The join rows of the users `ids`, in that order. */
  function MembersAt(users: map<UserId, UserRow>, roles: map<RoleKey, PermissionLevel>,
                     organizationId: int, ids: seq<UserId>): (r: seq<RoleAndUser>)
    requires forall i :: 0 <= i < |ids| ==>
               ids[i] in users && RoleKey(ids[i], organizationId) in roles
    ensures |r| == |ids|
    ensures forall i :: 0 <= i < |r| ==>
              r[i].userId == ids[i] && IsJoinRow(users, roles, organizationId, r[i])
  {
    seq(|ids|, i requires 0 <= i < |ids| =>
        var key := RoleKey(ids[i], organizationId); Joined(users, key, roles[key]))
  }

  /**
   `list_organization_users`: every role of the organization whose user exists, joined with
   that user, once each (listed by ascending user id).
   */
  function ListOrganizationUsers(users: map<UserId, UserRow>, roles: map<RoleKey, PermissionLevel>,
                                 organizationId: int): (r: seq<RoleAndUser>)
    ensures forall i :: 0 <= i < |r| ==> IsJoinRow(users, roles, organizationId, r[i])
    ensures forall key :: InJoin(users, roles, key) && key.organizationId == organizationId ==>
              exists i :: 0 <= i < |r| && r[i].userId == key.userId
    ensures forall i, j :: 0 <= i < j < |r| ==> r[i].userId < r[j].userId
  {
    var ids := SortedKeys(MemberIds(users, roles, organizationId));
    assert forall i :: 0 <= i < |ids| ==>
             ids[i] in users && RoleKey(ids[i], organizationId) in roles by {
      forall i | 0 <= i < |ids|
        ensures ids[i] in users && RoleKey(ids[i], organizationId) in roles
      {
        assert ids[i] in ids;
      }
    }
    var r := MembersAt(users, roles, organizationId, ids);
    forall key | InJoin(users, roles, key) && key.organizationId == organizationId
      ensures exists i :: 0 <= i < |r| && r[i].userId == key.userId
    {
      assert key.userId in MemberIds(users, roles, organizationId);
      var i :| 0 <= i < |ids| && ids[i] == key.userId;
      assert r[i].userId == key.userId;
    }
    r
  }

  /**
   `add_organization_user`: 404 for an unknown user, 409 when the pair already has a role;
   otherwise the role is inserted. Neither the organization's existence nor the caller's
   rights are checked.
   */
  method AddOrganizationUser(conn: Connection, organizationId: int, payload: RoleCreate)
    returns (r: Result<RoleAndUser>)
    requires conn.Valid()
    modifies conn
    ensures conn.Valid()
    ensures conn.users == old(conn.users) && conn.credentials == old(conn.credentials)
    ensures conn.organizations == old(conn.organizations) && conn.events == old(conn.events)
    ensures conn.registrations == old(conn.registrations)
    ensures var key := RoleKey(payload.userId, organizationId);
            if payload.userId !in old(conn.users) then
              r == Err(RoleUserNotFound) && conn.roles == old(conn.roles)
            else if key in old(conn.roles) then
              r == Err(RoleAlreadyExists) && conn.roles == old(conn.roles)
            else
              && conn.roles == old(conn.roles)[key := payload.permissionLevel]
              && r == Ok(Joined(conn.users, key, payload.permissionLevel))
  {
    if payload.userId !in conn.users {
      return Err(RoleUserNotFound);
    }
    var key := RoleKey(payload.userId, organizationId);
    if key in conn.roles {
      return Err(RoleAlreadyExists);
    }
    conn.roles := conn.roles[key := payload.permissionLevel];
    return Ok(Joined(conn.users, key, payload.permissionLevel));
  }

  /**
   `remove_organization_user`: 404 unless the join finds the pair; otherwise exactly that role
   is deleted and returned with its previous level.
   */
  method RemoveOrganizationUser(conn: Connection, organizationId: int, userId: UserId)
    returns (r: Result<RoleAndUser>)
    requires conn.Valid()
    modifies conn
    ensures conn.Valid()
    ensures conn.users == old(conn.users) && conn.credentials == old(conn.credentials)
    ensures conn.organizations == old(conn.organizations) && conn.events == old(conn.events)
    ensures conn.registrations == old(conn.registrations)
    ensures var key := RoleKey(userId, organizationId);
            if !InJoin(old(conn.users), old(conn.roles), key) then
              r == Err(RoleUserNotFound) && conn.roles == old(conn.roles)
            else
              && conn.roles == old(conn.roles) - {key}
              && r == Ok(Joined(conn.users, key, old(conn.roles)[key]))
  {
    var key := RoleKey(userId, organizationId);
    if key !in conn.roles || userId !in conn.users {
      return Err(RoleUserNotFound);
    }
    var previous := Joined(conn.users, key, conn.roles[key]);
    conn.roles := conn.roles - {key};
    return Ok(previous);
  }

  /**
   `update_organization_user_role`: 404 unless the join finds the pair; otherwise only that
   role's level changes, to the one returned. A role is never created here.
   */
  method UpdateOrganizationUserRole(conn: Connection, organizationId: int, userId: UserId,
                                    level: PermissionLevel)
    returns (r: Result<RoleAndUser>)
    requires conn.Valid()
    modifies conn
    ensures conn.Valid()
    ensures conn.users == old(conn.users) && conn.credentials == old(conn.credentials)
    ensures conn.organizations == old(conn.organizations) && conn.events == old(conn.events)
    ensures conn.registrations == old(conn.registrations)
    ensures conn.roles.Keys == old(conn.roles).Keys
    ensures var key := RoleKey(userId, organizationId);
            if !InJoin(old(conn.users), old(conn.roles), key) then
              r == Err(RoleUserNotFound) && conn.roles == old(conn.roles)
            else
              && conn.roles == old(conn.roles)[key := level]
              && r == Ok(Joined(conn.users, key, level))
  {
    var key := RoleKey(userId, organizationId);
    if key !in conn.roles || userId !in conn.users {
      return Err(RoleUserNotFound);
    }
    conn.roles := conn.roles[key := level];
    return Ok(Joined(conn.users, key, level));
  }

  /** After a successful add, the listing of that organization shows the new member. */
  lemma AddedMemberIsListed(users: map<UserId, UserRow>, roles: map<RoleKey, PermissionLevel>,
                            organizationId: int, payload: RoleCreate)
    requires payload.userId in users
    requires RoleKey(payload.userId, organizationId) !in roles
    ensures var listing := ListOrganizationUsers(
              users, roles[RoleKey(payload.userId, organizationId) := payload.permissionLevel],
              organizationId);
            exists i :: 0 <= i < |listing| &&
              listing[i] == Joined(users, RoleKey(payload.userId, organizationId),
                                   payload.permissionLevel)
  {
    var key := RoleKey(payload.userId, organizationId);
    var roles' := roles[key := payload.permissionLevel];
    var listing := ListOrganizationUsers(users, roles', organizationId);
    assert InJoin(users, roles', key);
    var i :| 0 <= i < |listing| && listing[i].userId == key.userId;
  }

  /** After a removal, the listing of that organization no longer shows the user. */
  lemma RemovedMemberIsNotListed(users: map<UserId, UserRow>, roles: map<RoleKey, PermissionLevel>,
                                 organizationId: int, userId: UserId)
    ensures var listing := ListOrganizationUsers(
              users, roles - {RoleKey(userId, organizationId)}, organizationId);
            forall i :: 0 <= i < |listing| ==> listing[i].userId != userId
  {
  }
}
