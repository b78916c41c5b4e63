/**
 The seed-data generator for the roles table: each record draws an organization among the
 first twenty and a distinct user among the first hundred; the first record naming an
 organization makes its user the admin there, every later one a volunteer.
 */
module GenerateRolesData {
  import opened Listing
  import opened Database

  const UserNumber := 100
  const OrgNumber := 20

  /** One generated `(user_id, organization_id, permission_level)` tuple. */
  datatype RoleTuple = RoleTuple(userId: int, organizationId: int, permissionLevel: PermissionLevel)

  /** The organization of record `i` has not been drawn by an earlier record. */
  predicate FirstForOrganization(roles: seq<RoleTuple>, i: int)
    requires 0 <= i < |roles|
  {
    forall j :: 0 <= j < i ==> roles[j].organizationId != roles[i].organizationId
  }

  /** Admin exactly for the first record of each organization. */
  predicate AdminFirst(roles: seq<RoleTuple>) {
    forall i :: 0 <= i < |roles| ==> (roles[i].permissionLevel == Admin <==> FirstForOrganization(roles, i))
  }

  /** Record `i` carries the `i`-th user and organization drawn. */
  predicate FollowsDraws(roles: seq<RoleTuple>, orgDraws: seq<int>, userDraws: seq<int>) {
    && |roles| <= |orgDraws| && |roles| <= |userDraws|
    && forall i :: 0 <= i < |roles| ==>
         roles[i].userId == userDraws[i] && roles[i].organizationId == orgDraws[i]
  }

  /** `orgIdsWithAdmin` holds exactly the organizations among `drawn`. */
  ghost predicate SeenExactly(orgIdsWithAdmin: seq<int>, drawn: seq<int>) {
    forall x :: x in orgIdsWithAdmin <==> x in drawn
  }

  /**
   `generate_roles_data(num_records)`, with the random draws passed in: `orgDraws[i]` is the
   organization and `userDraws[i]` the user of record `i`. The user generator draws without
   repetition from 1..100.
   */
  method Generate(numRecords: nat, orgDraws: seq<int>, userDraws: seq<int>)
    returns (rolesData: seq<RoleTuple>)
    requires |orgDraws| == numRecords && |userDraws| == numRecords
    requires forall i :: 0 <= i < numRecords ==> 1 <= orgDraws[i] <= OrgNumber
    requires forall i :: 0 <= i < numRecords ==> 1 <= userDraws[i] <= UserNumber
    requires forall i, j :: 0 <= i < j < numRecords ==> userDraws[i] != userDraws[j]
    ensures |rolesData| == numRecords
    ensures forall i :: 0 <= i < numRecords ==>
              rolesData[i].userId == userDraws[i] && rolesData[i].organizationId == orgDraws[i]
    ensures forall i :: 0 <= i < numRecords ==> 1 <= rolesData[i].organizationId <= OrgNumber
    ensures AdminFirst(rolesData)
  {
    rolesData := [];
    var orgIdsWithAdmin: seq<int> := [];
    for k := 0 to numRecords
      invariant |rolesData| == k
      invariant FollowsDraws(rolesData, orgDraws, userDraws)
      invariant AdminFirst(rolesData)
      invariant SeenExactly(orgIdsWithAdmin, orgDraws[..k])
    {
      var organizationId := orgDraws[k];
      var permissionLevel;
      var seenBefore := orgIdsWithAdmin;
      if organizationId in orgIdsWithAdmin {
        permissionLevel := Volunteer;
      } else {
        permissionLevel := Admin;
        orgIdsWithAdmin := orgIdsWithAdmin + [organizationId];
      }
      var userId := userDraws[k];
      var t := RoleTuple(userId, organizationId, permissionLevel);
      Step(rolesData, seenBefore, orgIdsWithAdmin, orgDraws, userDraws, t);
      rolesData := rolesData + [t];
    }
  }

  /** One iteration of the generator keeps all four loop invariants. */
  lemma Step(roles: seq<RoleTuple>, seen: seq<int>, seen': seq<int>, orgDraws: seq<int>,
             userDraws: seq<int>, t: RoleTuple)
    requires |roles| < |orgDraws| && |roles| < |userDraws|
    requires FollowsDraws(roles, orgDraws, userDraws)
    requires AdminFirst(roles)
    requires SeenExactly(seen, orgDraws[..|roles|])
    requires t.organizationId == orgDraws[|roles|] && t.userId == userDraws[|roles|]
    requires t.permissionLevel == (if t.organizationId in seen then Volunteer else Admin)
    requires seen' == if t.organizationId in seen then seen else seen + [t.organizationId]
    ensures FollowsDraws(roles + [t], orgDraws, userDraws)
    ensures AdminFirst(roles + [t])
    ensures SeenExactly(seen', orgDraws[..|roles| + 1])
  {
    var drawn, drawn' := orgDraws[..|roles|], orgDraws[..|roles| + 1];
    assert drawn' == drawn + [t.organizationId];
    forall x ensures x in seen' <==> x in drawn' {
      assert x in drawn' <==> x in drawn || x == t.organizationId;
    }
    var roles' := roles + [t];
    forall i | 0 <= i < |roles'|
      ensures roles'[i].userId == userDraws[i] && roles'[i].organizationId == orgDraws[i]
    {
      if i < |roles| { assert roles'[i] == roles[i]; }
    }
    FirstIffNotSeen(roles, orgDraws, t);
  }

  /**
   Appending a record keeps `AdminFirst` exactly when the record is an admin if and only if
   its organization was not drawn before.
   */
  lemma FirstIffNotSeen(roles: seq<RoleTuple>, orgDraws: seq<int>, t: RoleTuple)
    requires |roles| <= |orgDraws|
    requires forall i :: 0 <= i < |roles| ==> roles[i].organizationId == orgDraws[i]
    requires AdminFirst(roles)
    ensures AdminFirst(roles + [t]) <==>
              (t.permissionLevel == Admin <==> t.organizationId !in orgDraws[..|roles|])
  {
    var roles' := roles + [t];
    var n := |roles|;
    assert roles'[n] == t;
    // the new record is the first of its organization exactly when that organization is unseen
    if t.organizationId in orgDraws[..n] {
      var j :| 0 <= j < n && orgDraws[j] == t.organizationId;
      assert roles'[j].organizationId == roles'[n].organizationId;
      assert !FirstForOrganization(roles', n);
    } else {
      forall j | 0 <= j < n ensures roles'[j].organizationId != t.organizationId {
        assert orgDraws[..n][j] == roles[j].organizationId;
      }
      assert FirstForOrganization(roles', n);
    }
    // the earlier records keep their level and their first-ness
    forall i | 0 <= i < n
      ensures roles'[i].permissionLevel == Admin <==> FirstForOrganization(roles', i)
    {
      assert roles'[i] == roles[i];
      assert forall j :: 0 <= j < i ==> roles'[j] == roles[j];
      assert FirstForOrganization(roles', i) <==> FirstForOrganization(roles, i);
    }
  }

  /** There is at most one admin per organization. */
  lemma AtMostOneAdmin(roles: seq<RoleTuple>, i: int, j: int)
    requires AdminFirst(roles)
    requires 0 <= i < |roles| && 0 <= j < |roles|
    requires roles[i].permissionLevel == Admin && roles[j].permissionLevel == Admin
    requires roles[i].organizationId == roles[j].organizationId
    ensures i == j
  {
    assert FirstForOrganization(roles, i) && FirstForOrganization(roles, j);
  }

  /** Every organization that appears has an admin record: its first appearance. */
  lemma {:induction false} EveryOrganizationHasAdmin(roles: seq<RoleTuple>, i: int)
    requires AdminFirst(roles)
    requires 0 <= i < |roles|
    ensures exists j :: 0 <= j <= i && roles[j].organizationId == roles[i].organizationId &&
                        roles[j].permissionLevel == Admin
    decreases i
  {
    if FirstForOrganization(roles, i) {
      assert roles[i].permissionLevel == Admin;
    } else {
      var j :| 0 <= j < i && roles[j].organizationId == roles[i].organizationId;
      EveryOrganizationHasAdmin(roles, j);
    }
  }

  /** A subset of a finite set of integers is no larger. */
  lemma {:induction false} SubsetCardinality(a: set<int>, b: set<int>)
    requires a <= b
    ensures |a| <= |b|
    decreases |a|
  {
    if a != {} {
      var y := Pick(a);
      SubsetCardinality(a - {y}, b - {y});
    }
  }

  /** The integers lo..hi-1. */
  function Interval(lo: int, hi: int): (r: set<int>)
    requires lo <= hi
    ensures forall x :: x in r <==> lo <= x < hi
    ensures |r| == hi - lo
    decreases hi - lo
  {
    if lo == hi then {} else Interval(lo, hi - 1) + {hi - 1}
  }

  /** Distinct values of a sequence are as many as its elements. */
  lemma {:induction false} DistinctCardinality(s: seq<int>)
    requires forall i, j :: 0 <= i < j < |s| ==> s[i] != s[j]
    ensures |set i | 0 <= i < |s| :: s[i]| == |s|
  {
    if s != [] {
      var init := s[..|s| - 1];
      DistinctCardinality(init);
      var last := s[|s| - 1];
      assert (set i | 0 <= i < |s| :: s[i]) == (set i | 0 <= i < |init| :: init[i]) + {last};
      assert last !in (set i | 0 <= i < |init| :: init[i]);
    }
  }

  /**
   Distinct users drawn from 1..100 run out after a hundred records: the generator can only
   satisfy its draws when `num_records` is at most 100.
   */
  lemma DrawsBoundRecords(numRecords: nat, userDraws: seq<int>)
    requires |userDraws| == numRecords
    requires forall i :: 0 <= i < numRecords ==> 1 <= userDraws[i] <= UserNumber
    requires forall i, j :: 0 <= i < j < numRecords ==> userDraws[i] != userDraws[j]
    ensures numRecords <= UserNumber
  {
    var drawn := set i | 0 <= i < |userDraws| :: userDraws[i];
    DistinctCardinality(userDraws);
    SubsetCardinality(drawn, Interval(1, UserNumber + 1));
  }
}
