/** Campus events and the enrollment admission counter
    (training_event/services.py): CampusEventService and EnrollmentService. */
module TrainingEvent {
  import opened Wrappers

  type EventId = nat
  type UserId = nat
  type EnrollmentId = nat

  /** The remaining columns of a row (name, time, location, ...), which
      the services copy without looking at them. */
  type Fields = map<string, string>

  const NoMoreHeadCounts: string := "报名人数已满"

  datatype CampusEvent = CampusEvent(details: Fields, numParticipants: nat, numEnrolled: int, reviewed: bool)

  datatype Enrollment = Enrollment(id: EnrollmentId, event: EventId, user: UserId)

  datatype EventCoefficient = EventCoefficient(event: EventId, details: Fields)

  /** An object on which PermissionService.assign_object_permissions grants
      a user the default object permissions. */
  datatype Guarded = CampusEventObject(event: EventId) | EnrollmentObject(enrollment: EnrollmentId)

  datatype PermissionGrant = PermissionGrant(user: UserId, target: Guarded)

  /** The number of enrollment rows of event `e`. */
  function EventCount(rows: seq<Enrollment>, e: EventId): (c: nat)
    ensures c <= |rows|
    decreases |rows|
  {
    if rows == [] then 0
    else EventCount(rows[..|rows| - 1], e) + (if rows[|rows| - 1].event == e then 1 else 0)
  }

  lemma {:induction false} EventCountConcat(a: seq<Enrollment>, b: seq<Enrollment>, e: EventId)
    ensures EventCount(a + b, e) == EventCount(a, e) + EventCount(b, e)
    decreases |b|
  {
    if b == [] {
      assert a + b == a;
    } else {
      assert (a + b)[..|a + b| - 1] == a + b[..|b| - 1];
      EventCountConcat(a, b[..|b| - 1], e);
    }
  }

  /** A row of event `e` is counted by EventCount. */
  lemma {:induction false} EventCountPositive(rows: seq<Enrollment>, k: nat)
    requires k < |rows|
    ensures EventCount(rows, rows[k].event) >= 1
  {
    assert rows == rows[..k] + [rows[k]] + rows[k + 1..];
    EventCountConcat(rows[..k] + [rows[k]], rows[k + 1..], rows[k].event);
    EventCountConcat(rows[..k], [rows[k]], rows[k].event);
    assert [rows[k]][..0] == [];
  }

  /** The table's two unique keys: the row id, and the pair
      (campus_event, user) (training_event/migrations/0001_initial.py). */
  predicate Unique(rows: seq<Enrollment>) {
    forall i, j :: 0 <= i < j < |rows| ==>
      rows[i].id != rows[j].id && (rows[i].event != rows[j].event || rows[i].user != rows[j].user)
  }

  lemma SameKeySamePosition(rows: seq<Enrollment>, i: nat, k: nat)
    requires Unique(rows) && i < |rows| && k < |rows|
    requires rows[i].event == rows[k].event && rows[i].user == rows[k].user
    ensures i == k
  {
  }

  /** An event no row refers to has no enrollments. */
  lemma {:induction false} EventCountZero(rows: seq<Enrollment>, e: EventId)
    requires forall i :: 0 <= i < |rows| ==> rows[i].event != e
    ensures EventCount(rows, e) == 0
    decreases |rows|
  {
    if rows != [] {
      var init := rows[..|rows| - 1];
      assert forall i :: 0 <= i < |init| ==> init[i] == rows[i];
      EventCountZero(init, e);
    }
  }

  /** Removing the row at `k` takes one off its event's count and keeps
      the unique keys. */
  lemma RemoveAt(rows: seq<Enrollment>, k: nat)
    requires Unique(rows) && k < |rows|
    ensures Unique(rows[..k] + rows[k + 1..])
    ensures forall d :: EventCount(rows[..k] + rows[k + 1..], d) == EventCount(rows, d) - (if d == rows[k].event then 1 else 0)
    ensures forall x :: x in rows[..k] + rows[k + 1..] ==> x in rows
  {
    forall d ensures EventCount(rows[..k] + rows[k + 1..], d) == EventCount(rows, d) - (if d == rows[k].event then 1 else 0) {
      RemoveAtCount(rows, k, d);
    }
    RemoveAtKeepsRows(rows, k);
  }

  lemma RemoveAtCount(rows: seq<Enrollment>, k: nat, d: EventId)
    requires k < |rows|
    ensures EventCount(rows[..k] + rows[k + 1..], d) == EventCount(rows, d) - (if d == rows[k].event then 1 else 0)
  {
    assert rows == rows[..k] + [rows[k]] + rows[k + 1..];
    EventCountConcat(rows[..k] + [rows[k]], rows[k + 1..], d);
    EventCountConcat(rows[..k], [rows[k]], d);
    EventCountConcat(rows[..k], rows[k + 1..], d);
    assert [rows[k]][..0] == [];
  }

  lemma RemoveAtKeepsRows(rows: seq<Enrollment>, k: nat)
    requires Unique(rows) && k < |rows|
    ensures Unique(rows[..k] + rows[k + 1..])
    ensures forall x :: x in rows[..k] + rows[k + 1..] ==> x in rows
  {
    var after := rows[..k] + rows[k + 1..];
    forall i, j | 0 <= i < j < |after|
      ensures after[i].id != after[j].id
      ensures after[i].event != after[j].event || after[i].user != after[j].user
    {
      var i' := if i < k then i else i + 1;
      var j' := if j < k then j else j + 1;
      assert after[i] == rows[i'] && after[j] == rows[j'];
    }
    forall x | x in after ensures x in rows {
      var i :| 0 <= i < |after| && after[i] == x;
      assert after[i] == rows[if i < k then i else i + 1];
    }
  }

  predicate Enrolled(rows: seq<Enrollment>, e: EventId, u: UserId) {
    exists i :: 0 <= i < |rows| && rows[i].event == e && rows[i].user == u
  }

  /** The position of the row with id `id`. */
  function Position(rows: seq<Enrollment>, id: EnrollmentId): (k: nat)
    requires exists i :: 0 <= i < |rows| && rows[i].id == id
    ensures k < |rows| && rows[k].id == id
    decreases |rows|
  {
    if rows[0].id == id then 0
    else
      var i :| 0 <= i < |rows| && rows[i].id == id;
      assert rows[1..][i - 1].id == id;
      1 + Position(rows[1..], id)
  }

  /** The argument `events` of the two lookups: CampusEvent objects, which
      are first turned into their ids, or the ids themselves. */
  datatype EventList = EventObjects(objects: seq<EventId>) | EventIds(ids: seq<EventId>)

  function Ids(events: EventList): seq<EventId> {
    match events
    case EventObjects(objects) => objects
    case EventIds(ids) => ids
  }

  /** EnrollmentService.get_user_enrollment_status: one entry per queried
      event, true exactly when the user has an enrollment for it. */
  function EnrollmentStatus(events: EventList, user: UserId, rows: seq<Enrollment>): (r: map<EventId, bool>)
    ensures r.Keys == set e | e in Ids(events)
    ensures forall e :: e in r ==> (r[e] <==> Enrolled(rows, e, user))
  {
    var ids := Ids(events);
    var enrolled := set i | 0 <= i < |rows| && rows[i].user == user && rows[i].event in ids :: rows[i].event;
    map e | e in ids :: e in enrolled
  }

  /** `dict(values_list('campus_event_id', 'id'))` over the user's rows for
      the queried events, taken in table order, so a later row overrides an
      earlier one for the same event. */
  function EnrolledData(rows: seq<Enrollment>, user: UserId, ids: seq<EventId>): (m: map<EventId, EnrollmentId>)
    ensures forall e :: e in m <==> e in ids && Enrolled(rows, e, user)
    ensures forall e :: e in m ==> exists i :: 0 <= i < |rows| && rows[i] == Enrollment(m[e], e, user)
    decreases |rows|
  {
    if rows == [] then map[]
    else
      var init := rows[..|rows| - 1];
      var last := rows[|rows| - 1];
      var m := EnrolledData(init, user, ids);
      assert forall i :: 0 <= i < |init| ==> init[i] == rows[i];
      if last.user == user && last.event in ids then m[last.event := last.id] else m
  }

  /** EnrollmentService.get_user_enrollment_id: one entry per queried event,
      the id of the user's enrollment for it, or None when there is none. */
  function EnrollmentIds(events: EventList, user: UserId, rows: seq<Enrollment>): (r: map<EventId, Option<EnrollmentId>>)
    ensures r.Keys == set e | e in Ids(events)
    ensures forall e :: e in r ==> (r[e].None? <==> !Enrolled(rows, e, user))
    ensures forall e :: e in r && r[e].Some? ==>
      exists i :: 0 <= i < |rows| && rows[i] == Enrollment(r[e].value, e, user)
  {
    var ids := Ids(events);
    var data := EnrolledData(rows, user, ids);
    map e | e in ids :: if e in data then Some(data[e]) else None
  }

  /** The two lookups agree: an event's id is None exactly where its status
      is False. */
  lemma EnrollmentIdsMatchStatus(events: EventList, user: UserId, rows: seq<Enrollment>, e: EventId)
    requires e in Ids(events)
    ensures e in EnrollmentIds(events, user, rows) && e in EnrollmentStatus(events, user, rows)
    ensures EnrollmentIds(events, user, rows)[e].None? <==> !EnrollmentStatus(events, user, rows)[e]
  {
  }

  /** With the (campus_event, user) pair unique, the id returned is the id
      of the one enrollment of that user for that event. */
  lemma EnrollmentIdIsTheEnrollment(events: EventList, user: UserId, rows: seq<Enrollment>, e: EventId, k: nat)
    requires Unique(rows)
    requires e in Ids(events) && k < |rows| && rows[k].event == e && rows[k].user == user
    ensures e in EnrollmentIds(events, user, rows) && EnrollmentIds(events, user, rows)[e] == Some(rows[k].id)
  {
    var r := EnrollmentIds(events, user, rows);
    assert Enrolled(rows, e, user);
    var i :| 0 <= i < |rows| && rows[i] == Enrollment(r[e].value, e, user);
    SameKeySamePosition(rows, i, k);
  }

  /** Ids are below their counters, every enrollment belongs to an event,
      the unique keys hold, and every event's counter is the number of its
      enrollments and within its capacity. */
  ghost predicate Consistent(events: map<EventId, CampusEvent>, rows: seq<Enrollment>, nextEventId: nat, nextEnrollmentId: nat) {
    && (forall e :: e in events ==> e < nextEventId)
    && (forall i :: 0 <= i < |rows| ==> rows[i].event in events && rows[i].id < nextEnrollmentId)
    && Unique(rows)
    && (forall e :: e in events ==>
          events[e].numEnrolled == EventCount(rows, e) && events[e].numEnrolled <= events[e].numParticipants)
  }

  /** Deleting the row at `k` and decrementing its event's counter keeps
      the tables consistent, and the counter does not go below zero. */
  lemma DeleteKeepsConsistent(events: map<EventId, CampusEvent>, rows: seq<Enrollment>, nextEventId: nat, nextEnrollmentId: nat, k: nat)
    requires Consistent(events, rows, nextEventId, nextEnrollmentId) && k < |rows|
    ensures rows[k].event in events && events[rows[k].event].numEnrolled >= 1
    ensures Consistent(
      events[rows[k].event := events[rows[k].event].(numEnrolled := events[rows[k].event].numEnrolled - 1)],
      rows[..k] + rows[k + 1..], nextEventId, nextEnrollmentId)
  {
    RemoveAt(rows, k);
    EventCountPositive(rows, k);
    var after := rows[..k] + rows[k + 1..];
    assert forall i :: 0 <= i < |after| ==> after[i] in rows;
  }

  /** Adding a row for a user not yet enrolled in an event with room left,
      and counting it, keeps the tables consistent. */
  lemma EnrollKeepsConsistent(events: map<EventId, CampusEvent>, rows: seq<Enrollment>, nextEventId: nat, nextEnrollmentId: nat,
                              e: EventId, u: UserId)
    requires Consistent(events, rows, nextEventId, nextEnrollmentId)
    requires e in events && events[e].numEnrolled < events[e].numParticipants && !Enrolled(rows, e, u)
    ensures Consistent(events[e := events[e].(numEnrolled := events[e].numEnrolled + 1)],
                       rows + [Enrollment(nextEnrollmentId, e, u)], nextEventId, nextEnrollmentId + 1)
  {
    var row := Enrollment(nextEnrollmentId, e, u);
    forall d | d in events
      ensures EventCount(rows + [row], d) == EventCount(rows, d) + (if d == e then 1 else 0)
    {
      EventCountConcat(rows, [row], d);
      assert [row][..0] == [];
    }
  }

  /** The tables the two services read and write. */
  class EventStore {
    var events: map<EventId, CampusEvent>
    var nextEventId: nat
    var enrollments: seq<Enrollment>
    var nextEnrollmentId: nat
    var coefficients: seq<EventCoefficient>
    var grants: seq<PermissionGrant>

    ghost predicate Valid()
      reads this
    {
      Consistent(events, enrollments, nextEventId, nextEnrollmentId)
    }

    constructor ()
      ensures Valid()
      ensures events == map[] && enrollments == [] && coefficients == [] && grants == []
    {
      events, nextEventId := map[], 0;
      enrollments, nextEnrollmentId := [], 0;
      coefficients, grants := [], [];
    }

    /** CampusEventService.review_campus_event: marks the event reviewed and
        changes nothing else, so a second review changes nothing. */
    method ReviewCampusEvent(id: EventId)
      requires Valid() && id in events
      modifies this
      ensures Valid()
      ensures events == old(events)[id := old(events[id]).(reviewed := true)]
      ensures old(events[id].reviewed) ==> events == old(events)
      ensures enrollments == old(enrollments) && coefficients == old(coefficients) && grants == old(grants)
      ensures nextEventId == old(nextEventId) && nextEnrollmentId == old(nextEnrollmentId)
    {
      events := events[id := events[id].(reviewed := true)];
    }

    /** CampusEventService.create_campus_event: one new event with no
        enrollments, the requester's object permissions on it, and one
        coefficient row per entry of `coefficientRows`, each linked to it. */
    method CreateCampusEvent(details: Fields, numParticipants: nat, coefficientRows: seq<Fields>, requester: UserId)
      returns (id: EventId)
      requires Valid()
      modifies this
      ensures Valid()
      ensures id == old(nextEventId) && id !in old(events) && nextEventId == id + 1
      ensures events == old(events)[id := CampusEvent(details, numParticipants, 0, false)]
      ensures coefficients == old(coefficients) + seq(|coefficientRows|, i requires 0 <= i < |coefficientRows| => EventCoefficient(id, coefficientRows[i]))
      ensures grants == old(grants) + [PermissionGrant(requester, CampusEventObject(id))]
      ensures enrollments == old(enrollments) && nextEnrollmentId == old(nextEnrollmentId)
    {
      id := nextEventId;
      EventCountZero(enrollments, id);
      events := events[id := CampusEvent(details, numParticipants, 0, false)];
      nextEventId := nextEventId + 1;
      grants := grants + [PermissionGrant(requester, CampusEventObject(id))];
      var added: seq<EventCoefficient> := [];
      var i := 0;
      while i < |coefficientRows|
        invariant 0 <= i <= |coefficientRows|
        invariant added == seq(i, j requires 0 <= j < i => EventCoefficient(id, coefficientRows[j]))
      {
        added := added + [EventCoefficient(id, coefficientRows[i])];
        i := i + 1;
      }
      coefficients := coefficients + added;
    }

    /** EnrollmentService.create_enrollment. Raises '报名人数已满' when the
        counter has reached the capacity, and the unique constraint rejects
        a second enrollment of the same user; either way nothing changes.
        Otherwise it adds exactly one enrollment, increments that event's
        counter by exactly one and grants the user its object permissions. */
    method CreateEnrollment(e: EventId, u: UserId) returns (r: Result<EnrollmentId>)
      requires Valid()
      modifies this
      ensures Valid()
      ensures e !in old(events) ==> r == Failure(DoesNotExist)
      ensures e in old(events) && old(events[e].numEnrolled) >= old(events[e].numParticipants) ==>
        r == Failure(BadRequest(NoMoreHeadCounts))
      ensures e in old(events) && old(events[e].numEnrolled) < old(events[e].numParticipants) && Enrolled(old(enrollments), e, u) ==>
        r == Failure(IntegrityError)
      ensures r.Success? <==>
        e in old(events) && old(events[e].numEnrolled) < old(events[e].numParticipants) && !Enrolled(old(enrollments), e, u)
      ensures r.Success? ==>
        && r.value == old(nextEnrollmentId) && nextEnrollmentId == r.value + 1
        && enrollments == old(enrollments) + [Enrollment(r.value, e, u)]
        && events == old(events)[e := old(events[e]).(numEnrolled := old(events[e].numEnrolled) + 1)]
        && grants == old(grants) + [PermissionGrant(u, EnrollmentObject(r.value))]
      ensures r.Failure? ==>
        enrollments == old(enrollments) && events == old(events) && grants == old(grants) && nextEnrollmentId == old(nextEnrollmentId)
      ensures coefficients == old(coefficients) && nextEventId == old(nextEventId)
    {
      if e !in events {
        return Failure(DoesNotExist);
      }
      var event := events[e];
      if event.numEnrolled >= event.numParticipants {
        return Failure(BadRequest(NoMoreHeadCounts));
      }
      if exists i :: 0 <= i < |enrollments| && enrollments[i].event == e && enrollments[i].user == u {
        return Failure(IntegrityError);
      }
      var id := nextEnrollmentId;
      EnrollKeepsConsistent(events, enrollments, nextEventId, nextEnrollmentId, e, u);
      enrollments := enrollments + [Enrollment(id, e, u)];
      nextEnrollmentId := nextEnrollmentId + 1;
      events := events[e := event.(numEnrolled := event.numEnrolled + 1)];
      grants := grants + [PermissionGrant(u, EnrollmentObject(id))];
      r := Success(id);
    }

    /** EnrollmentService.delete_enrollment: removes exactly that enrollment
        and decrements the counter of its own event by one; the other
        events are untouched. */
    method DeleteEnrollment(id: EnrollmentId)
      requires Valid()
      requires exists i :: 0 <= i < |enrollments| && enrollments[i].id == id
      modifies this
      ensures Valid()
      ensures var k := Position(old(enrollments), id);
              var e := old(enrollments)[k].event;
        && enrollments == old(enrollments)[..k] + old(enrollments)[k + 1..]
        && events == old(events)[e := old(events)[e].(numEnrolled := old(events)[e].numEnrolled - 1)]
      ensures grants == old(grants) && coefficients == old(coefficients)
      ensures nextEventId == old(nextEventId) && nextEnrollmentId == old(nextEnrollmentId)
    {
      var k := Position(enrollments, id);
      var e := enrollments[k].event;
      var counted := events[e := events[e].(numEnrolled := events[e].numEnrolled - 1)];
      var rows := enrollments[..k] + enrollments[k + 1..];
      assert Consistent(counted, rows, nextEventId, nextEnrollmentId) by {
        DeleteKeepsConsistent(events, enrollments, nextEventId, nextEnrollmentId, k);
      }
      events, enrollments := counted, rows;
    }
  }

  /** Two users enrol in an event with room for two; a third is turned
      away with '报名人数已满' and the counter stays at two. */
  method CapacityScenario(details: Fields, u1: UserId, u2: UserId, u3: UserId)
    requires u1 != u2
  {
    var store := new EventStore();
    var e := store.CreateCampusEvent(details, 2, [], 0);
    var r1 := store.CreateEnrollment(e, u1);
    assert store.enrollments == [Enrollment(r1.value, e, u1)];
    var r2 := store.CreateEnrollment(e, u2);
    assert r2.Success? && store.events[e].numEnrolled == 2;
    var r3 := store.CreateEnrollment(e, u3);
    assert r3 == Failure(BadRequest(NoMoreHeadCounts)) && store.events[e].numEnrolled == 2;
  }

  /** An enrollment created and then deleted leaves every counter as it
      was. */
  method EnrollThenDelete(store: EventStore, e: EventId, u: UserId)
    requires store.Valid()
    modifies store
    ensures store.Valid()
    ensures store.events == old(store.events)
  {
    var r := store.CreateEnrollment(e, u);
    if r.Success? {
      assert store.enrollments[|store.enrollments| - 1].id == r.value;
      store.DeleteEnrollment(r.value);
      assert Position(old(store.enrollments) + [Enrollment(r.value, e, u)], r.value) == |old(store.enrollments)|;
    }
  }
}
