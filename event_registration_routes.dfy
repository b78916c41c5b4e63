/**
 The event-registration endpoints. A registration is keyed by (organization, event, user); the
 listing filters on any of the three and pages through the matches latest first.
 */
module EventRegistrationRoutes {
  import opened Wrappers
  import opened Http
  import opened Listing
  import opened Security
  import opened Database

  const SkipNegative := Failure(BadRequest, "Skip cannot be negative")
  const LimitTooSmall := Failure(BadRequest, "Limit must be at least 1")
  const RegistrationNotFound := Failure(NotFound, "Registration not found")
  const RegistrationExists := Failure(Conflict, "Registration already exists")

  /** The listing's optional filters; an absent filter constrains nothing. */
  datatype Filters = Filters(organizationId: Option<int>, eventId: Option<int>, userId: Option<int>)

  predicate Matches(r: Registration, f: Filters) {
    && (f.organizationId.None? || r.organizationId == f.organizationId.value)
    && (f.eventId.None? || r.eventId == f.eventId.value)
    && (f.userId.None? || r.userId == f.userId.value)
  }

  function MatchingKeys(registrations: map<RegistrationKey, Registration>, f: Filters)
    : set<RegistrationKey>
  {
    set k | k in registrations && Matches(registrations[k], f)
  }

  function TimeOf(registrations: map<RegistrationKey, Registration>, k: RegistrationKey): string
    requires k in registrations
  {
    registrations[k].registrationTime
  }

  /** `k` has a latest registration time among the keys `ks`. */
  predicate IsLatest(registrations: map<RegistrationKey, Registration>, ks: set<RegistrationKey>,
                     k: RegistrationKey)
    requires ks <= registrations.Keys
  {
    k in ks && forall j :: j in ks ==> TextLe(TimeOf(registrations, j), TimeOf(registrations, k))
  }

  lemma {:induction false} LatestExists(registrations: map<RegistrationKey, Registration>,
                                        ks: set<RegistrationKey>)
    requires ks != {} && ks <= registrations.Keys
    ensures exists k :: IsLatest(registrations, ks, k)
    decreases |ks|
  {
    var y := Pick(ks);
    if ks == {y} {
      TextLeTotal(TimeOf(registrations, y), TimeOf(registrations, y));
      assert IsLatest(registrations, ks, y);
    } else {
      var rest := ks - {y};
      LatestExists(registrations, rest);
      var m :| IsLatest(registrations, rest, m);
      var ty, tm := TimeOf(registrations, y), TimeOf(registrations, m);
      TextLeTotal(ty, tm);
      if TextLe(ty, tm) {
        forall j | j in ks ensures TextLe(TimeOf(registrations, j), tm) {
          if j == y { } else { assert j in rest; }
        }
        assert IsLatest(registrations, ks, m);
      } else {
        forall j | j in ks ensures TextLe(TimeOf(registrations, j), ty) {
          if j == y {
            TextLeTotal(ty, ty);
          } else {
            assert j in rest;
            TextLeTransitive(TimeOf(registrations, j), tm, ty);
          }
        }
        assert IsLatest(registrations, ks, y);
      }
    }
  }

  /** `r` lists the keys `ks`, each exactly once, latest registration time first. */
  predicate ListsLatestFirst(registrations: map<RegistrationKey, Registration>,
                             ks: set<RegistrationKey>, r: seq<RegistrationKey>)
    requires ks <= registrations.Keys
  {
    && |r| == |ks|
    && (forall i :: 0 <= i < |r| ==> r[i] in ks)
    && (forall k :: k in ks ==> k in r)
    && (forall i, j :: 0 <= i < j < |r| ==> r[i] != r[j])
    && (forall i, j :: 0 <= i < j < |r| ==>
          TextLe(TimeOf(registrations, r[j]), TimeOf(registrations, r[i])))
  }

  /** A latest key, followed by the rest latest first, lists all of them latest first. */
  lemma LatestThenRest(registrations: map<RegistrationKey, Registration>,
                       ks: set<RegistrationKey>, k: RegistrationKey, rest: seq<RegistrationKey>)
    requires ks <= registrations.Keys
    requires IsLatest(registrations, ks, k)
    requires ListsLatestFirst(registrations, ks - {k}, rest)
    ensures ListsLatestFirst(registrations, ks, [k] + rest)
  {
    var r := [k] + rest;
    forall i, j | 0 <= i < j < |r|
      ensures r[i] != r[j]
      ensures TextLe(TimeOf(registrations, r[j]), TimeOf(registrations, r[i]))
    {
      if i == 0 {
        assert r[j] == rest[j - 1];
      } else {
        assert r[i] == rest[i - 1] && r[j] == rest[j - 1];
      }
    }
    forall x | x in ks ensures x in r {
      if x != k { assert x in ks - {k}; }
    }
  }

  /**
   The keys `ks` as `ORDER BY registration_time DESC` lists them: each once, latest first.
   Rows with equal times come in an order the store does not specify; the model fixes one
   such order without saying which.
   */
  ghost function LatestFirst(registrations: map<RegistrationKey, Registration>,
                             ks: set<RegistrationKey>): (r: seq<RegistrationKey>)
    requires ks <= registrations.Keys
    ensures ListsLatestFirst(registrations, ks, r)
    decreases |ks|
  {
    if ks == {} then []
    else
      LatestExists(registrations, ks);
      var k :| IsLatest(registrations, ks, k);
      var rest := LatestFirst(registrations, ks - {k});
      LatestThenRest(registrations, ks, k, rest);
      [k] + rest
  }

  /** The stored rows under the keys `keys`, in that order. */
  function RowsOf(registrations: map<RegistrationKey, Registration>, keys: seq<RegistrationKey>)
    : (r: seq<Registration>)
    requires forall i :: 0 <= i < |keys| ==> keys[i] in registrations
    ensures |r| == |keys|
    ensures forall i :: 0 <= i < |r| ==> r[i] == registrations[keys[i]]
  {
    seq(|keys|, i requires 0 <= i < |keys| => registrations[keys[i]])
  }

  lemma RowsOfConcatenation(registrations: map<RegistrationKey, Registration>,
                            a: seq<RegistrationKey>, b: seq<RegistrationKey>)
    requires forall i :: 0 <= i < |a| ==> a[i] in registrations
    requires forall i :: 0 <= i < |b| ==> b[i] in registrations
    ensures forall i :: 0 <= i < |a + b| ==> (a + b)[i] in registrations
    ensures RowsOf(registrations, a + b) == RowsOf(registrations, a) + RowsOf(registrations, b)
  {
    assert forall i :: 0 <= i < |a + b| ==> (a + b)[i] in registrations by {
      forall i | 0 <= i < |a + b| ensures (a + b)[i] in registrations {
        if i >= |a| { assert (a + b)[i] == b[i - |a|]; }
      }
    }
    var whole, left, right := RowsOf(registrations, a + b), RowsOf(registrations, a), RowsOf(registrations, b);
    forall i | 0 <= i < |whole| ensures whole[i] == (left + right)[i] {
      if i >= |a| { assert (a + b)[i] == b[i - |a|]; }
    }
  }

  /**
   `list_event_registrations`: 400 for a negative `skip` (checked first) or a `limit` below 1;
   otherwise the matching registrations, latest first, skipping `skip` and keeping at most
   `limit`.
   */
  ghost function ListEventRegistrations(registrations: map<RegistrationKey, Registration>,
                                        f: Filters, skip: int, limit: int)
    : (r: Result<seq<Registration>>)
    requires RegistrationsKeyed(registrations)
    ensures skip < 0 ==> r == Err(SkipNegative)
    ensures skip >= 0 && limit < 1 ==> r == Err(LimitTooSmall)
    ensures r.Ok? <==> skip >= 0 && limit >= 1
    ensures r.Ok? ==>
              |r.value| == PageSize(|MatchingKeys(registrations, f)|, skip, limit) <= limit
    ensures r.Ok? ==> forall i :: 0 <= i < |r.value| ==>
              && KeyOf(r.value[i]) in registrations
              && registrations[KeyOf(r.value[i])] == r.value[i]
              && Matches(r.value[i], f)
    ensures r.Ok? ==> forall i, j :: 0 <= i < j < |r.value| ==>
              && KeyOf(r.value[i]) != KeyOf(r.value[j])
              && TextLe(r.value[j].registrationTime, r.value[i].registrationTime)
  {
    if skip < 0 then Err(SkipNegative)
    else if limit < 1 then Err(LimitTooSmall)
    else
      var ordered := LatestFirst(registrations, MatchingKeys(registrations, f));
      var page := Page(ordered, skip, limit);
      var rows := RowsOf(registrations, page);
      assert forall i :: 0 <= i < |rows| ==> KeyOf(rows[i]) == page[i];
      Ok(rows)
  }

  /** With `skip` 0 and a `limit` no smaller than the matches, every match is listed. */
  lemma FirstPageListsEveryMatch(registrations: map<RegistrationKey, Registration>, f: Filters,
                                 limit: int)
    requires RegistrationsKeyed(registrations)
    requires limit >= 1 && limit >= |MatchingKeys(registrations, f)|
    ensures var r := ListEventRegistrations(registrations, f, 0, limit);
            forall k :: k in registrations && Matches(registrations[k], f) ==>
              exists i :: 0 <= i < |r.value| && r.value[i] == registrations[k]
  {
    var ks := MatchingKeys(registrations, f);
    var ordered := LatestFirst(registrations, ks);
    var r := ListEventRegistrations(registrations, f, 0, limit);
    assert Page(ordered, 0, limit) == ordered;
    forall k | k in registrations && Matches(registrations[k], f)
      ensures exists i :: 0 <= i < |r.value| && r.value[i] == registrations[k]
    {
      assert k in ks;
      var i :| 0 <= i < |ordered| && ordered[i] == k;
      assert r.value[i] == registrations[k];
    }
  }

  /**
   Consecutive pages fit together: the page of `a` rows at `skip` followed by the page of `b`
   rows at `skip + a` is the page of `a + b` rows at `skip`.
   */
  lemma {:induction false} PagesConcatenate(registrations: map<RegistrationKey, Registration>,
                                            f: Filters, skip: nat, a: nat, b: nat)
    requires RegistrationsKeyed(registrations)
    requires a >= 1 && b >= 1
    ensures ListEventRegistrations(registrations, f, skip, a).value +
            ListEventRegistrations(registrations, f, skip + a, b).value ==
            ListEventRegistrations(registrations, f, skip, a + b).value
  {
    var ordered := LatestFirst(registrations, MatchingKeys(registrations, f));
    PageConcatenation(ordered, skip, a, b);
    RowsOfConcatenation(registrations, Page(ordered, skip, a), Page(ordered, skip + a, b));
  }

  function KeyFor(organizationId: int, eventId: int, userId: UserId): RegistrationKey {
    RegistrationKey(organizationId, eventId, userId)
  }

  /** `get_event_registration`: the record with exactly that key, or 404 when there is none. */
  function GetEventRegistration(registrations: map<RegistrationKey, Registration>,
                                organizationId: int, eventId: int, userId: UserId)
    : (r: Result<Registration>)
    requires RegistrationsKeyed(registrations)
    ensures r.Err? <==> KeyFor(organizationId, eventId, userId) !in registrations
    ensures r.Err? ==> r.error == RegistrationNotFound
    ensures r.Ok? ==> && r.value.organizationId == organizationId
                      && r.value.eventId == eventId && r.value.userId == userId
                      && r.value == registrations[KeyFor(organizationId, eventId, userId)]
  {
    var key := KeyFor(organizationId, eventId, userId);
    if key !in registrations then Err(RegistrationNotFound) else Ok(registrations[key])
  }

  /**
   With all three filters given, the listing's first page is exactly the lookup by that key:
   the one record, or nothing.
   */
  lemma FullyFilteredListingIsLookup(registrations: map<RegistrationKey, Registration>,
                                     organizationId: int, eventId: int, userId: UserId, limit: int)
    requires RegistrationsKeyed(registrations)
    requires limit >= 1
    ensures var listed := ListEventRegistrations(
              registrations, Filters(Some(organizationId), Some(eventId), Some(userId)), 0, limit);
            var found := GetEventRegistration(registrations, organizationId, eventId, userId);
            listed.value == (if found.Ok? then [found.value] else [])
  {
    var f := Filters(Some(organizationId), Some(eventId), Some(userId));
    var key := KeyFor(organizationId, eventId, userId);
    var ks := MatchingKeys(registrations, f);
    forall k | k in ks ensures k == key {
      assert KeyOf(registrations[k]) == k;
    }
    if key in registrations {
      assert ks == {key};
    } else {
      assert ks == {};
    }
  }

  /**
   `create_event_registration`: 409 with no change when the key exists; otherwise the payload
   is stored under its key and returned unchanged.
   */
  method CreateEventRegistration(conn: Connection, payload: Registration)
    returns (r: Result<Registration>)
    requires conn.Valid()
    modifies conn
    ensures conn.Valid()
    ensures conn.users == old(conn.users) && conn.credentials == old(conn.credentials)
    ensures conn.organizations == old(conn.organizations) && conn.roles == old(conn.roles)
    ensures conn.events == old(conn.events)
    ensures KeyOf(payload) in old(conn.registrations) ==>
              r == Err(RegistrationExists) && conn.registrations == old(conn.registrations)
    ensures KeyOf(payload) !in old(conn.registrations) ==>
              r == Ok(payload) && conn.registrations == old(conn.registrations)[KeyOf(payload) := payload]
  {
    if KeyOf(payload) in conn.registrations {
      return Err(RegistrationExists);
    }
    conn.registrations := conn.registrations[KeyOf(payload) := payload];
    return Ok(payload);
  }

  /**
   `delete_event_registration`: 404 when missing; otherwise exactly that record is removed
   and returned.
   */
  method DeleteEventRegistration(conn: Connection, organizationId: int, eventId: int,
                                 userId: UserId)
    returns (r: Result<Registration>)
    requires conn.Valid()
    modifies conn
    ensures conn.Valid()
    ensures conn.users == old(conn.users) && conn.credentials == old(conn.credentials)
    ensures conn.organizations == old(conn.organizations) && conn.roles == old(conn.roles)
    ensures conn.events == old(conn.events)
    ensures var key := KeyFor(organizationId, eventId, userId);
            if key !in old(conn.registrations) then
              r == Err(RegistrationNotFound) && conn.registrations == old(conn.registrations)
            else
              && r == Ok(old(conn.registrations)[key])
              && conn.registrations == old(conn.registrations) - {key}
  {
    var key := KeyFor(organizationId, eventId, userId);
    if key !in conn.registrations {
      return Err(RegistrationNotFound);
    }
    var row := conn.registrations[key];
    conn.registrations := conn.registrations - {key};
    return Ok(row);
  }

  /** A created registration is found again by its key. */
  lemma CreateThenGet(registrations: map<RegistrationKey, Registration>, payload: Registration)
    requires RegistrationsKeyed(registrations)
    requires KeyOf(payload) !in registrations
    ensures RegistrationsKeyed(registrations[KeyOf(payload) := payload])
    ensures GetEventRegistration(registrations[KeyOf(payload) := payload], payload.organizationId,
                                 payload.eventId, payload.userId) == Ok(payload)
  {
  }

  /** A deleted registration is no longer found, and only it is gone. */
  lemma DeleteThenGet(registrations: map<RegistrationKey, Registration>, key: RegistrationKey)
    requires RegistrationsKeyed(registrations)
    ensures RegistrationsKeyed(registrations - {key})
    ensures GetEventRegistration(registrations - {key}, key.organizationId, key.eventId,
                                 key.userId) == Err(RegistrationNotFound)
  {
  }
}
