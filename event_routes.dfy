/** The event endpoints: listing, lookup, creation, partial update and deletion of events. */
module EventRoutes {
  import opened Wrappers
  import opened Http
  import opened Listing
  import opened Database

  /** The `Event` response model. */
  datatype Event = Event(id: int, name: string, description: string, location: string,
                         time: string, organizationId: int)

  datatype EventIn = EventIn(name: string, description: string, location: string, time: string,
                             organizationId: int)

  /** A partial update: `None` keeps the stored value. */
  datatype EventUpdate = EventUpdate(name: Option<string>, description: Option<string>,
                                     location: Option<string>, time: Option<string>,
                                     organizationId: Option<int>)

  const EventNotFound := Failure(NotFound, "Event not found")

  function AsEvent(id: int, row: EventRow): Event {
    Event(id, row.name, row.description, row.location, row.time, row.organizationId)
  }

  /** `e` is exactly the event stored under its id. */
  predicate Stored(events: map<int, EventRow>, e: Event) {
    e.id in events && e == AsEvent(e.id, events[e.id])
  }

  /** The stored events under the ids `ids`, in that order. */
  function EventsAt(events: map<int, EventRow>, ids: seq<int>): (r: seq<Event>)
    requires forall i :: 0 <= i < |ids| ==> ids[i] in events
    ensures |r| == |ids|
    ensures forall i :: 0 <= i < |r| ==> r[i].id == ids[i] && Stored(events, r[i])
  {
    seq(|ids|, i requires 0 <= i < |ids| => AsEvent(ids[i], events[ids[i]]))
  }

  /** `list_events`: every event exactly once, in ascending id order. */
  function ListEvents(events: map<int, EventRow>): (r: seq<Event>)
    ensures |r| == |events|
    ensures forall i :: 0 <= i < |r| ==> Stored(events, r[i])
    ensures forall i, j :: 0 <= i < j < |r| ==> r[i].id < r[j].id
    ensures forall id :: id in events ==> exists i :: 0 <= i < |r| && r[i].id == id
  {
    var ids := SortedKeys(events.Keys);
    assert forall i :: 0 <= i < |ids| ==> ids[i] in events by {
      forall i | 0 <= i < |ids| ensures ids[i] in events {
        assert ids[i] in ids;
      }
    }
    var r := EventsAt(events, ids);
    forall id | id in events ensures exists i :: 0 <= i < |r| && r[i].id == id {
      assert id in ids;
      var i :| 0 <= i < |ids| && ids[i] == id;
      assert r[i].id == id;
    }
    r
  }

  /** `get_event`: the stored event under that id, or 404 exactly when there is none. */
  function GetEvent(events: map<int, EventRow>, eventId: int): (r: Result<Event>)
    ensures r.Err? <==> eventId !in events
    ensures r.Err? ==> r.error == EventNotFound
    ensures r.Ok? ==> r.value.id == eventId && r.value == AsEvent(eventId, events[eventId])
  {
    if eventId !in events then Err(EventNotFound) else Ok(AsEvent(eventId, events[eventId]))
  }

  function RowOf(payload: EventIn): EventRow {
    EventRow(payload.name, payload.description, payload.location, payload.time,
             payload.organizationId)
  }

  /** `add_event`: one new event under a fresh id, with exactly the payload's fields. */
  method AddEvent(conn: Connection, payload: EventIn) returns (r: Event)
    requires conn.Valid()
    modifies conn
    ensures conn.Valid()
    ensures conn.users == old(conn.users) && conn.credentials == old(conn.credentials)
    ensures conn.organizations == old(conn.organizations) && conn.roles == old(conn.roles)
    ensures conn.registrations == old(conn.registrations)
    ensures r.id > 0 && r.id !in old(conn.events)
    ensures conn.events == old(conn.events)[r.id := RowOf(payload)]
    ensures r == AsEvent(r.id, RowOf(payload))
  {
    FreshIdExists(conn.events);
    var eventId :| eventId > 0 && eventId !in conn.events;
    conn.events := conn.events[eventId := RowOf(payload)];
    return AsEvent(eventId, RowOf(payload));
  }

  /** The stored row after an update: given fields replace, `None` keeps. */
  function MergedRow(row: EventRow, payload: EventUpdate): (r: EventRow)
    ensures payload.name.Some? ==> r.name == payload.name.value
    ensures payload.name.None? ==> r.name == row.name
    ensures payload.description.Some? ==> r.description == payload.description.value
    ensures payload.description.None? ==> r.description == row.description
    ensures payload.location.Some? ==> r.location == payload.location.value
    ensures payload.location.None? ==> r.location == row.location
    ensures payload.time.Some? ==> r.time == payload.time.value
    ensures payload.time.None? ==> r.time == row.time
    ensures payload.organizationId.Some? ==> r.organizationId == payload.organizationId.value
    ensures payload.organizationId.None? ==> r.organizationId == row.organizationId
  {
    EventRow(payload.name.GetOr(row.name), payload.description.GetOr(row.description),
             payload.location.GetOr(row.location), payload.time.GetOr(row.time),
             payload.organizationId.GetOr(row.organizationId))
  }

  /**
   `update_event`: 404 when missing; otherwise the merged row replaces that event alone. The
   response carries the merged fields except `organizationId`, which is the stored one from
   before the update.
   */
  method UpdateEvent(conn: Connection, eventId: int, payload: EventUpdate)
    returns (r: Result<Event>)
    requires conn.Valid()
    modifies conn
    ensures conn.Valid()
    ensures conn.users == old(conn.users) && conn.credentials == old(conn.credentials)
    ensures conn.organizations == old(conn.organizations) && conn.roles == old(conn.roles)
    ensures conn.registrations == old(conn.registrations)
    ensures eventId !in old(conn.events) ==>
              r == Err(EventNotFound) && conn.events == old(conn.events)
    ensures eventId in old(conn.events) ==>
              var row := old(conn.events)[eventId];
              && conn.events == old(conn.events)[eventId := MergedRow(row, payload)]
              && r == Ok(AsEvent(eventId, MergedRow(row, payload)).(organizationId := row.organizationId))
  {
    if eventId !in conn.events {
      return Err(EventNotFound);
    }
    var row := conn.events[eventId];
    var updated := MergedRow(row, payload);
    conn.events := conn.events[eventId := updated];
    return Ok(Event(eventId, updated.name, updated.description, updated.location, updated.time,
                    row.organizationId));
  }

  /** `delete_event`: 404 when missing; otherwise exactly that event is removed. */
  method DeleteEvent(conn: Connection, eventId: int) returns (r: Result<()>)
    requires conn.Valid()
    modifies conn
    ensures conn.Valid()
    ensures conn.users == old(conn.users) && conn.credentials == old(conn.credentials)
    ensures conn.organizations == old(conn.organizations) && conn.roles == old(conn.roles)
    ensures conn.registrations == old(conn.registrations)
    ensures eventId !in old(conn.events) ==>
              r == Err(EventNotFound) && conn.events == old(conn.events)
    ensures eventId in old(conn.events) ==> r == Ok(()) && conn.events == old(conn.events) - {eventId}
  {
    if eventId !in conn.events {
      return Err(EventNotFound);
    }
    conn.events := conn.events - {eventId};
    return Ok(());
  }

  /** An added event is found again by `get_event`, with the payload's fields. */
  lemma AddThenGet(events: map<int, EventRow>, eventId: int, payload: EventIn)
    ensures GetEvent(events[eventId := RowOf(payload)], eventId) == Ok(AsEvent(eventId, RowOf(payload)))
  {
  }

  /** A deleted event is no longer found. */
  lemma DeleteThenGet(events: map<int, EventRow>, eventId: int)
    ensures GetEvent(events - {eventId}, eventId) == Err(EventNotFound)
  {
  }

  /**
   The update's response disagrees with what `get_event` reads back afterwards exactly when
   the payload moves the event to a different organization.
   */
  lemma UpdateResponseMatchesStoreUnlessMoved(row: EventRow, events: map<int, EventRow>,
                                              eventId: int, payload: EventUpdate)
    requires eventId in events && events[eventId] == row
    ensures var response := AsEvent(eventId, MergedRow(row, payload)).(organizationId := row.organizationId);
            (GetEvent(events[eventId := MergedRow(row, payload)], eventId) == Ok(response)) <==>
            (payload.organizationId.None? || payload.organizationId.value == row.organizationId)
  {
  }

  /** An update with every field `None` leaves the event as it was. */
  lemma EmptyUpdateIsIdentity(row: EventRow)
    ensures MergedRow(row, EventUpdate(None, None, None, None, None)) == row
  {
  }
}
