/** Training records (training_record/services.py): the review state machine
    of off-campus records, record creation with its content and attachment
    rows, the campus-record spreadsheet import and campus-event feedback. */
module TrainingRecord {
  import opened Wrappers
  import opened Strings
  import opened Cells

  type RecordId = nat
  type EventId = nat
  type UserId = nat
  type CoefficientId = nat

  /** The columns of a row that the services copy without looking at them. */
  type Fields = map<string, string>

  const InvalidEventData: string := "校外培训活动数据格式无效"
  const InvalidUser: string := "用户无效"
  const InvalidSheet: string := "无效的表格"
  const NoSuchRecord: string := "无此培训记录！"
  const NotPermitted: string := "无权更改！"

  datatype Status =
    | Submitted
    | DepartmentAdminApproved
    | DepartmentAdminRejected
    | SchoolAdminApproved
    | SchoolAdminRejected
    | Closed
    | FeedbackRequired
    | FeedbackSubmitted

  /** A record refers to exactly one of a campus event and an off-campus event. */
  datatype EventRef = OffCampus(offCampus: EventId) | Campus(campus: EventId)

  datatype Record = Record(event: EventRef, user: UserId, coefficient: CoefficientId, status: Status)

  datatype Role = Participator | Expert

  /** `ROUND_METHOD_NONE`, or one of the other rounding methods, whose codes
      do not matter here. */
  datatype Rounding = RoundNone | RoundingMethod(code: nat)

  datatype Coefficient = Coefficient(role: Role, coefficient: int, hoursOption: Rounding, workloadOption: Rounding, offCampusEvent: Option<EventId>)

  datatype Content = Content(record: RecordId, fields: Fields)
  datatype Attachment = Attachment(record: RecordId, path: string)
  datatype StatusChangeLog = StatusChangeLog(record: RecordId, pre: Status, post: Status, time: nat, user: UserId)
  datatype Feedback = Feedback(record: RecordId, content: string)

  /** The `user` argument of record creation: a User instance, or some
      other value. */
  datatype UserArg = UserObject(id: UserId) | NotAUser

  // ---------------------------------------------------------------------
  // The review state machine

  datatype Stage = DepartmentStage | SchoolStage

  /** The only status a stage may review. */
  function Source(stage: Stage): Status {
    match stage
    case DepartmentStage => Submitted
    case SchoolStage => DepartmentAdminApproved
  }

  /** The status a stage's decision moves a record to. */
  function Target(stage: Stage, approved: bool): Status {
    match stage
    case DepartmentStage => if approved then DepartmentAdminApproved else DepartmentAdminRejected
    case SchoolStage => if approved then SchoolAdminApproved else SchoolAdminRejected
  }

  /** `Record.objects.filter(pk=record_id, campus_event__isnull=True)` has
      exactly one row. */
  predicate Reviewable(records: map<RecordId, Record>, id: RecordId) {
    id in records && records[id].event.OffCampus?
  }

  /** The decision of department_admin_review / school_admin_review: the
      record must be an off-campus record, and its status must be the
      stage's source status. */
  function Review(stage: Stage, records: map<RecordId, Record>, id: RecordId, approved: bool): (r: Result<Status>)
    ensures !Reviewable(records, id) ==> r == Failure(BadRequest(NoSuchRecord))
    ensures Reviewable(records, id) && records[id].status != Source(stage) ==> r == Failure(BadRequest(NotPermitted))
    ensures r.Success? <==> Reviewable(records, id) && records[id].status == Source(stage)
    ensures r.Success? ==> r.value != Source(stage) && (r.value == Target(stage, true) <==> approved)
    ensures r.Success? ==> r.value == Target(stage, approved)
  {
    if !Reviewable(records, id) then Failure(BadRequest(NoSuchRecord))
    else if records[id].status != Source(stage) then Failure(BadRequest(NotPermitted))
    else Success(Target(stage, approved))
  }

  /** A record tied to a campus event is never reviewable, whatever its status. */
  lemma CampusRecordsAreNeverReviewed(stage: Stage, records: map<RecordId, Record>, id: RecordId, approved: bool)
    requires id in records && records[id].event.Campus?
    ensures Review(stage, records, id, approved) == Failure(BadRequest(NoSuchRecord))
  {
  }

  /** After a successful review the same review fails with '无权更改！',
      whichever decision it carries. */
  lemma ReviewTwiceFails(stage: Stage, records: map<RecordId, Record>, id: RecordId, approved: bool, again: bool)
    requires Review(stage, records, id, approved).Success?
    ensures var after := records[id := records[id].(status := Review(stage, records, id, approved).value)];
      Review(stage, after, id, again) == Failure(BadRequest(NotPermitted))
  {
  }

  /** The school stage takes up exactly the records the department stage
      approved; the department stage never applies to a record again once
      it has left SUBMITTED, and the two rejections and the school's
      decisions end the review pipeline. */
  lemma StagesChain(stage: Stage, approved: bool)
    ensures Target(DepartmentStage, true) == Source(SchoolStage)
    ensures Target(stage, approved) != Source(DepartmentStage)
    ensures stage == SchoolStage || !approved ==> Target(stage, approved) != Source(SchoolStage)
  {
  }

  // ---------------------------------------------------------------------
  // The campus-record spreadsheet import

  /** `Model.objects.get(pk=sheet.cell(i, j).value)` followed by the
      handler that names the id: outside the sheet the cell read raises
      IndexError; a value `int()` cannot read raises ValueError in the
      handler; an id with no row gives '编号为<id><what>'. */
  function LookupCell(sheet: Sheet, i: nat, j: nat, table: set<nat>, what: string): (r: Result<nat>)
    ensures r.Success? <==>
      CellAt(sheet, i, j).Success? && CellToInt(sheet[i][j]).Success?
      && CellToInt(sheet[i][j]).value >= 0 && CellToInt(sheet[i][j]).value as nat in table
    ensures r.Success? ==> CellToInt(sheet[i][j]) == Success(r.value as int) && r.value in table
    ensures CellAt(sheet, i, j).Success? && CellToInt(sheet[i][j]).Success? && r.Failure? ==>
      r.error == BadRequest("编号为" + IntToString(CellToInt(sheet[i][j]).value) + what)
    ensures CellAt(sheet, i, j).Failure? ==> r == Failure(IndexError)
  {
    var c :- CellAt(sheet, i, j);
    var v :- CellToInt(c);
    if v >= 0 && v as nat in table then Success(v as nat)
    else Failure(BadRequest("编号为" + IntToString(v) + what))
  }

  const UserMissing: string := "的用户不存在"
  const CoefficientMissing: string := "的活动系数不存在"
  const EventMissing: string := "的活动不存在"

  /** Row i's user id and coefficient id, both looked up. */
  predicate RowOk(sheet: Sheet, i: nat, users: set<UserId>, coefficients: set<CoefficientId>) {
    LookupCell(sheet, i, 0, users, UserMissing).Success? && LookupCell(sheet, i, 1, coefficients, CoefficientMissing).Success?
  }

  function RowError(sheet: Sheet, i: nat, users: set<UserId>, coefficients: set<CoefficientId>): Error
    requires !RowOk(sheet, i, users, coefficients)
  {
    var u := LookupCell(sheet, i, 0, users, UserMissing);
    if u.Failure? then u.error else LookupCell(sheet, i, 1, coefficients, CoefficientMissing).error
  }

  /** The user id and coefficient id of a good row. */
  function RowPair(sheet: Sheet, i: nat, users: set<UserId>, coefficients: set<CoefficientId>): (p: (UserId, CoefficientId))
    requires RowOk(sheet, i, users, coefficients)
    ensures p.0 in users && p.1 in coefficients
  {
    (LookupCell(sheet, i, 0, users, UserMissing).value, LookupCell(sheet, i, 1, coefficients, CoefficientMissing).value)
  }

  /** The first row from `from` on that is not good, if any. */
  function FirstBadRow(sheet: Sheet, from: nat, users: set<UserId>, coefficients: set<CoefficientId>): (k: Option<nat>)
    requires from <= |sheet|
    ensures k.Some? ==> from <= k.value < |sheet| && !RowOk(sheet, k.value, users, coefficients)
    ensures k.Some? ==> forall m :: from <= m < k.value ==> RowOk(sheet, m, users, coefficients)
    ensures k.None? ==> forall m :: from <= m < |sheet| ==> RowOk(sheet, m, users, coefficients)
    decreases |sheet| - from
  {
    if from == |sheet| then None
    else if !RowOk(sheet, from, users, coefficients) then Some(from)
    else FirstBadRow(sheet, from + 1, users, coefficients)
  }

  /** The (user, coefficient) pairs of rows `from` .. end, in row order; the
      first bad row aborts with its error. */
  function ImportRows(sheet: Sheet, from: nat, users: set<UserId>, coefficients: set<CoefficientId>): (r: Result<seq<(UserId, CoefficientId)>>)
    requires from <= |sheet|
    ensures r.Success? <==> FirstBadRow(sheet, from, users, coefficients).None?
    ensures r.Failure? ==> r.error == RowError(sheet, FirstBadRow(sheet, from, users, coefficients).value, users, coefficients)
    ensures r.Success? ==> |r.value| == |sheet| - from
    ensures r.Success? ==> forall k :: 0 <= k < |r.value| ==> r.value[k] == RowPair(sheet, from + k, users, coefficients)
    decreases |sheet| - from
  {
    if from == |sheet| then Success([])
    else if !RowOk(sheet, from, users, coefficients) then Failure(RowError(sheet, from, users, coefficients))
    else
      var rest := ImportRows(sheet, from + 1, users, coefficients);
      if rest.Failure? then rest
      else
        var pairs := [RowPair(sheet, from, users, coefficients)] + rest.value;
        assert forall k :: 1 <= k < |pairs| ==> pairs[k] == rest.value[k - 1];
        Success(pairs)
  }

  /** The whole import: the event id from cell (0, 0), then every later row. */
  function ImportPlan(sheet: Option<Sheet>, campusEvents: set<EventId>, users: set<UserId>, coefficients: set<CoefficientId>): (r: Result<(EventId, seq<(UserId, CoefficientId)>)>)
    ensures sheet.None? ==> r == Failure(BadRequest(InvalidSheet))
    ensures sheet == Some([]) ==> r == Failure(IndexError)
    ensures r.Success? ==> sheet.Some? && |r.value.1| == |sheet.value| - 1 && r.value.0 in campusEvents
  {
    if sheet.None? then Failure(BadRequest(InvalidSheet))
    else
      var e :- LookupCell(sheet.value, 0, 0, campusEvents, EventMissing);
      var rows :- ImportRows(sheet.value, 1, users, coefficients);
      Success((e, rows))
  }

  /** The records the import creates, one per pair, all FEEDBACK_REQUIRED. */
  function CampusRecords(e: EventId, pairs: seq<(UserId, CoefficientId)>): (rs: seq<Record>)
    ensures |rs| == |pairs|
    ensures forall k :: 0 <= k < |pairs| ==> rs[k] == Record(Campus(e), pairs[k].0, pairs[k].1, FeedbackRequired)
  {
    seq(|pairs|, k requires 0 <= k < |pairs| => Record(Campus(e), pairs[k].0, pairs[k].1, FeedbackRequired))
  }

  /** An unknown user id in any row aborts the import with the message
      naming that id, provided the rows above it are good. */
  lemma ImportNamesUnknownUser(sheet: Sheet, campusEvents: set<EventId>, users: set<UserId>, coefficients: set<CoefficientId>, k: nat, id: nat)
    requires 1 <= k < |sheet| && |sheet[k]| >= 1 && sheet[k][0] == Number(id) && id !in users
    requires LookupCell(sheet, 0, 0, campusEvents, EventMissing).Success?
    requires forall m :: 1 <= m < k ==> RowOk(sheet, m, users, coefficients)
    ensures ImportPlan(Some(sheet), campusEvents, users, coefficients) == Failure(BadRequest("编号为" + IntToString(id) + UserMissing))
  {
    assert !RowOk(sheet, k, users, coefficients);
    var j := FirstBadRow(sheet, 1, users, coefficients);
    assert j == Some(k);
  }

  /** `old + rs` with the new rows under consecutive ids from `first`. */
  function InsertAll(m: map<RecordId, Record>, first: nat, rs: seq<Record>): (m': map<RecordId, Record>)
    ensures forall k :: 0 <= k < |rs| ==> first + k in m' && m'[first + k] == rs[k]
    ensures forall id :: id in m' <==> id in m || first <= id < first + |rs|
    ensures forall id :: id in m && !(first <= id < first + |rs|) ==> m'[id] == m[id]
    decreases |rs|
  {
    if rs == [] then m
    else
      var m' := InsertAll(m[first := rs[0]], first + 1, rs[1..]);
      assert forall k :: 1 <= k < |rs| ==> rs[k] == rs[1..][k - 1];
      m'
  }

  // ---------------------------------------------------------------------
  // The tables

  /** The user, coefficient and event a record refers to exist. */
  predicate RefsExist(r: Record, users: set<UserId>, coefficients: set<CoefficientId>, offCampus: set<EventId>, campus: set<EventId>) {
    && r.user in users
    && r.coefficient in coefficients
    && (match r.event
        case OffCampus(e) => e in offCampus
        case Campus(e) => e in campus)
  }

  /** Every id is below its counter, so the next id is fresh, and every
      record refers to a user, a coefficient and an event that exist. */
  ghost predicate TablesOk(records: map<RecordId, Record>, nextRecordId: nat, offCampus: map<EventId, Fields>, nextOffCampusEventId: nat,
                           coefficients: map<CoefficientId, Coefficient>, nextCoefficientId: nat, campus: set<EventId>, users: set<UserId>)
  {
    && (forall id :: id in records ==> id < nextRecordId && RefsExist(records[id], users, coefficients.Keys, offCampus.Keys, campus))
    && (forall e :: e in offCampus ==> e < nextOffCampusEventId)
    && (forall c :: c in coefficients ==> c < nextCoefficientId)
  }

  /** Content, attachment, log and feedback rows belong to existing records. */
  ghost predicate RowsOk(records: map<RecordId, Record>, contents: seq<Content>, attachments: seq<Attachment>, logs: seq<StatusChangeLog>, feedbacks: seq<Feedback>) {
    && (forall i :: 0 <= i < |contents| ==> contents[i].record in records)
    && (forall i :: 0 <= i < |attachments| ==> attachments[i].record in records)
    && (forall i :: 0 <= i < |logs| ==> logs[i].record in records)
    && (forall i :: 0 <= i < |feedbacks| ==> feedbacks[i].record in records)
  }

  /** The coefficient table once create_off_campus_record_from_raw_data has
      run: unchanged when a coefficient was given, otherwise with the default
      participator coefficient of event `e` under the next id. */
  function CoefficientsAfter(coefficients: map<CoefficientId, Coefficient>, nextCoefficientId: nat,
                             given: Option<CoefficientId>, e: EventId): map<CoefficientId, Coefficient>
  {
    if given.Some? then coefficients
    else coefficients[nextCoefficientId := Coefficient(Participator, 0, RoundNone, RoundNone, Some(e))]
  }

  /** Adding an off-campus event, and its coefficient when none was given,
      under the next ids keeps the tables consistent. */
  lemma AddEventOk(records: map<RecordId, Record>, nextRecordId: nat, offCampus: map<EventId, Fields>, nextOffCampusEventId: nat,
                   coefficients: map<CoefficientId, Coefficient>, nextCoefficientId: nat, campus: set<EventId>, users: set<UserId>,
                   event: Fields, given: Option<CoefficientId>)
    requires TablesOk(records, nextRecordId, offCampus, nextOffCampusEventId, coefficients, nextCoefficientId, campus, users)
    requires given.Some? ==> given.value in coefficients
    ensures TablesOk(records, nextRecordId, offCampus[nextOffCampusEventId := event], nextOffCampusEventId + 1,
                     CoefficientsAfter(coefficients, nextCoefficientId, given, nextOffCampusEventId),
                     if given.Some? then nextCoefficientId else nextCoefficientId + 1, campus, users)
  {
  }

  /** Inserting records that refer to existing rows under consecutive new
      ids keeps the tables consistent. */
  lemma InsertAllOk(records: map<RecordId, Record>, nextRecordId: nat, offCampus: map<EventId, Fields>, nextOffCampusEventId: nat,
                    coefficients: map<CoefficientId, Coefficient>, nextCoefficientId: nat, campus: set<EventId>, users: set<UserId>,
                    rs: seq<Record>)
    requires TablesOk(records, nextRecordId, offCampus, nextOffCampusEventId, coefficients, nextCoefficientId, campus, users)
    requires forall k :: 0 <= k < |rs| ==> RefsExist(rs[k], users, coefficients.Keys, offCampus.Keys, campus)
    ensures TablesOk(InsertAll(records, nextRecordId, rs), nextRecordId + |rs|, offCampus, nextOffCampusEventId,
                     coefficients, nextCoefficientId, campus, users)
  {
    var records' := InsertAll(records, nextRecordId, rs);
    forall id | id in records'
      ensures id < nextRecordId + |rs| && RefsExist(records'[id], users, coefficients.Keys, offCampus.Keys, campus)
    {
      if nextRecordId <= id {
        assert records'[id] == rs[id - nextRecordId];
      }
    }
  }

  /** Appending rows of one existing record keeps the rows consistent. */
  lemma AddRowsOk(records: map<RecordId, Record>, contents: seq<Content>, attachments: seq<Attachment>, logs: seq<StatusChangeLog>, feedbacks: seq<Feedback>,
                  id: RecordId, cs: seq<Fields>, ps: seq<string>)
    requires RowsOk(records, contents, attachments, logs, feedbacks) && id in records
    ensures RowsOk(records, contents + ContentsOf(id, cs), attachments + AttachmentsOf(id, ps), logs, feedbacks)
  {
    var contents', attachments' := contents + ContentsOf(id, cs), attachments + AttachmentsOf(id, ps);
    forall i | 0 <= i < |contents'| ensures contents'[i].record in records {
      if i >= |contents| {
        assert contents'[i] == ContentsOf(id, cs)[i - |contents|];
      }
    }
    forall i | 0 <= i < |attachments'| ensures attachments'[i].record in records {
      if i >= |attachments| {
        assert attachments'[i] == AttachmentsOf(id, ps)[i - |attachments|];
      }
    }
  }

  /** Adding records keeps the rows consistent. */
  lemma RowsOkGrow(records: map<RecordId, Record>, records': map<RecordId, Record>, contents: seq<Content>, attachments: seq<Attachment>, logs: seq<StatusChangeLog>, feedbacks: seq<Feedback>)
    requires RowsOk(records, contents, attachments, logs, feedbacks)
    requires forall id :: id in records ==> id in records'
    ensures RowsOk(records', contents, attachments, logs, feedbacks)
  {
  }

  class RecordStore {
    var records: map<RecordId, Record>
    var nextRecordId: nat
    var offCampusEvents: map<EventId, Fields>
    var nextOffCampusEventId: nat
    var coefficients: map<CoefficientId, Coefficient>
    var nextCoefficientId: nat
    var campusEvents: set<EventId>
    var users: set<UserId>
    var contents: seq<Content>
    var attachments: seq<Attachment>
    var logs: seq<StatusChangeLog>
    var feedbacks: seq<Feedback>

    /** Ids are below their counters and every row refers to rows that exist. */
    ghost predicate Valid()
      reads this
    {
      && TablesOk(records, nextRecordId, offCampusEvents, nextOffCampusEventId, coefficients, nextCoefficientId, campusEvents, users)
      && RowsOk(records, contents, attachments, logs, feedbacks)
    }


    /** A store over existing users, campus events and coefficients, with no
        records yet. */
    constructor (users: set<UserId>, campusEvents: set<EventId>, coefficients: map<CoefficientId, Coefficient>, nextCoefficientId: nat)
      requires forall c :: c in coefficients ==> c < nextCoefficientId
      ensures Valid()
      ensures this.users == users && this.campusEvents == campusEvents
      ensures this.coefficients == coefficients && this.nextCoefficientId == nextCoefficientId
      ensures records == map[] && offCampusEvents == map[] && contents == [] && attachments == [] && logs == [] && feedbacks == []
    {
      this.users, this.campusEvents := users, campusEvents;
      this.coefficients, this.nextCoefficientId := coefficients, nextCoefficientId;
      records, nextRecordId := map[], 0;
      offCampusEvents, nextOffCampusEventId := map[], 0;
      contents, attachments, logs, feedbacks := [], [], [], [];
    }

    /** A review stage: on success the status becomes the decision's target
        and exactly one log (the stage's source status, the new status, the
        actor and the time) is appended, and the record and log are
        returned; on failure nothing changes. */
    method AdminReview(stage: Stage, id: RecordId, approved: bool, actor: UserId, now: nat)
      returns (r: Result<(Record, StatusChangeLog)>)
      requires Valid()
      modifies this
      ensures Valid()
      ensures var decision := Review(stage, old(records), id, approved);
        && (r.Failure? <==> decision.Failure?)
        && (r.Failure? ==> r.error == decision.error && records == old(records) && logs == old(logs))
        && (r.Success? ==>
              && records == old(records)[id := old(records[id]).(status := decision.value)]
              && logs == old(logs) + [StatusChangeLog(id, Source(stage), decision.value, now, actor)]
              && r.value == (records[id], logs[|logs| - 1]))
      ensures nextRecordId == old(nextRecordId) && offCampusEvents == old(offCampusEvents) && nextOffCampusEventId == old(nextOffCampusEventId)
      ensures coefficients == old(coefficients) && nextCoefficientId == old(nextCoefficientId)
      ensures campusEvents == old(campusEvents) && users == old(users)
      ensures contents == old(contents) && attachments == old(attachments) && feedbacks == old(feedbacks)
    {
      if !(id in records && records[id].event.OffCampus?) {
        return Failure(BadRequest(NoSuchRecord));
      }
      var record := records[id];
      if record.status != Source(stage) {
        return Failure(BadRequest(NotPermitted));
      }
      var post := if approved then Target(stage, true) else Target(stage, false);
      record := record.(status := post);
      var log := StatusChangeLog(id, Source(stage), post, now, actor);
      logs := logs + [log];
      records := records[id := record];
      r := Success((record, log));
    }

    /** RecordService.department_admin_review: SUBMITTED to
        DEPARTMENT_ADMIN_APPROVED or DEPARTMENT_ADMIN_REJECTED. */
    method DepartmentAdminReview(id: RecordId, approved: bool, actor: UserId, now: nat)
      returns (r: Result<(Record, StatusChangeLog)>)
      requires Valid()
      modifies this
      ensures Valid()
      ensures !Reviewable(old(records), id) ==> r == Failure(BadRequest(NoSuchRecord))
      ensures Reviewable(old(records), id) && old(records[id].status) != Submitted ==> r == Failure(BadRequest(NotPermitted))
      ensures r.Failure? ==> records == old(records) && logs == old(logs)
      ensures r.Success? <==> Reviewable(old(records), id) && old(records[id].status) == Submitted
      ensures r.Success? ==>
        var post := if approved then DepartmentAdminApproved else DepartmentAdminRejected;
        && records == old(records)[id := old(records[id]).(status := post)]
        && logs == old(logs) + [StatusChangeLog(id, Submitted, post, now, actor)]
        && r.value == (records[id], logs[|logs| - 1])
      ensures nextRecordId == old(nextRecordId) && offCampusEvents == old(offCampusEvents) && nextOffCampusEventId == old(nextOffCampusEventId)
      ensures coefficients == old(coefficients) && nextCoefficientId == old(nextCoefficientId)
      ensures campusEvents == old(campusEvents) && users == old(users)
      ensures contents == old(contents) && attachments == old(attachments) && feedbacks == old(feedbacks)
    {
      r := AdminReview(DepartmentStage, id, approved, actor, now);
    }

    /** RecordService.school_admin_review: DEPARTMENT_ADMIN_APPROVED to
        SCHOOL_ADMIN_APPROVED or SCHOOL_ADMIN_REJECTED. */
    method SchoolAdminReview(id: RecordId, approved: bool, actor: UserId, now: nat)
      returns (r: Result<(Record, StatusChangeLog)>)
      requires Valid()
      modifies this
      ensures Valid()
      ensures !Reviewable(old(records), id) ==> r == Failure(BadRequest(NoSuchRecord))
      ensures Reviewable(old(records), id) && old(records[id].status) != DepartmentAdminApproved ==> r == Failure(BadRequest(NotPermitted))
      ensures r.Failure? ==> records == old(records) && logs == old(logs)
      ensures r.Success? <==> Reviewable(old(records), id) && old(records[id].status) == DepartmentAdminApproved
      ensures r.Success? ==>
        var post := if approved then SchoolAdminApproved else SchoolAdminRejected;
        && records == old(records)[id := old(records[id]).(status := post)]
        && logs == old(logs) + [StatusChangeLog(id, DepartmentAdminApproved, post, now, actor)]
        && r.value == (records[id], logs[|logs| - 1])
      ensures nextRecordId == old(nextRecordId) && offCampusEvents == old(offCampusEvents) && nextOffCampusEventId == old(nextOffCampusEventId)
      ensures coefficients == old(coefficients) && nextCoefficientId == old(nextCoefficientId)
      ensures campusEvents == old(campusEvents) && users == old(users)
      ensures contents == old(contents) && attachments == old(attachments) && feedbacks == old(feedbacks)
    {
      r := AdminReview(SchoolStage, id, approved, actor, now);
    }

    /** RecordService.create_off_campus_record_from_raw_data. A missing event
        is reported before a missing or non-User user, and either way
        nothing is created. Otherwise one off-campus event, one record
        (SUBMITTED), a default coefficient when none is given, and one
        content row and one attachment row per entry (None counts as
        empty), all linked to the new record. */
    method CreateOffCampusRecord(event: Option<Fields>, user: Option<UserArg>, contentRows: Option<seq<Fields>>,
                                 paths: Option<seq<string>>, coefficient: Option<CoefficientId>)
      returns (r: Result<RecordId>)
      requires Valid()
      requires user.Some? && user.value.UserObject? ==> user.value.id in users
      requires coefficient.Some? ==> coefficient.value in coefficients
      modifies this
      ensures Valid()
      ensures event.None? ==> r == Failure(BadRequest(InvalidEventData))
      ensures event.Some? && !(user.Some? && user.value.UserObject?) ==> r == Failure(BadRequest(InvalidUser))
      ensures r.Success? <==> event.Some? && user.Some? && user.value.UserObject?
      ensures r.Failure? ==>
        && records == old(records) && offCampusEvents == old(offCampusEvents) && coefficients == old(coefficients)
        && contents == old(contents) && attachments == old(attachments)
        && nextRecordId == old(nextRecordId) && nextOffCampusEventId == old(nextOffCampusEventId) && nextCoefficientId == old(nextCoefficientId)
      ensures r.Success? ==>
        var e := old(nextOffCampusEventId);
        var c := if coefficient.Some? then coefficient.value else old(nextCoefficientId);
        var cs := if contentRows.Some? then contentRows.value else [];
        var ps := if paths.Some? then paths.value else [];
        && r.value == old(nextRecordId) && r.value !in old(records)
        && offCampusEvents == old(offCampusEvents)[e := event.value]
        && coefficients == CoefficientsAfter(old(coefficients), old(nextCoefficientId), coefficient, e)
        && records == old(records)[r.value := Record(OffCampus(e), user.value.id, c, Submitted)]
        && contents == old(contents) + ContentsOf(r.value, cs)
        && attachments == old(attachments) + AttachmentsOf(r.value, ps)
      ensures logs == old(logs) && feedbacks == old(feedbacks) && campusEvents == old(campusEvents) && users == old(users)
    {
      if event.None? {
        return Failure(BadRequest(InvalidEventData));
      }
      if user.None? || !user.value.UserObject? {
        return Failure(BadRequest(InvalidUser));
      }
      var cs := if contentRows.Some? then contentRows.value else [];
      var ps := if paths.Some? then paths.value else [];
      var id := AddOffCampusRecord(event.value, user.value.id, cs, ps, coefficient);
      r := Success(id);
    }

    /** The creations of create_off_campus_record_from_raw_data once its
        arguments have passed the guards. */
    method AddOffCampusRecord(event: Fields, user: UserId, cs: seq<Fields>, ps: seq<string>, coefficient: Option<CoefficientId>)
      returns (id: RecordId)
      requires Valid()
      requires user in users
      requires coefficient.Some? ==> coefficient.value in coefficients
      modifies this
      ensures Valid()
      ensures
        var e := old(nextOffCampusEventId);
        var c := if coefficient.Some? then coefficient.value else old(nextCoefficientId);
        && id == old(nextRecordId) && id !in old(records)
        && offCampusEvents == old(offCampusEvents)[e := event]
        && coefficients == CoefficientsAfter(old(coefficients), old(nextCoefficientId), coefficient, e)
        && records == old(records)[id := Record(OffCampus(e), user, c, Submitted)]
        && contents == old(contents) + ContentsOf(id, cs)
        && attachments == old(attachments) + AttachmentsOf(id, ps)
      ensures nextRecordId == old(nextRecordId) + 1 && nextOffCampusEventId == old(nextOffCampusEventId) + 1
      ensures nextCoefficientId == if coefficient.Some? then old(nextCoefficientId) else old(nextCoefficientId) + 1
      ensures logs == old(logs) && feedbacks == old(feedbacks) && campusEvents == old(campusEvents) && users == old(users)
    {
      id := AddRecord(event, user, coefficient);
      AddRows(id, cs, ps);
    }

    /** The event, the coefficient (unless one was given) and the record. */
    method AddRecord(event: Fields, user: UserId, coefficient: Option<CoefficientId>) returns (id: RecordId)
      requires Valid()
      requires user in users
      requires coefficient.Some? ==> coefficient.value in coefficients
      modifies this
      ensures Valid()
      ensures
        var e := old(nextOffCampusEventId);
        var c := if coefficient.Some? then coefficient.value else old(nextCoefficientId);
        && id == old(nextRecordId) && id !in old(records)
        && offCampusEvents == old(offCampusEvents)[e := event]
        && coefficients == CoefficientsAfter(old(coefficients), old(nextCoefficientId), coefficient, e)
        && records == old(records)[id := Record(OffCampus(e), user, c, Submitted)]
      ensures nextRecordId == old(nextRecordId) + 1 && nextOffCampusEventId == old(nextOffCampusEventId) + 1
      ensures nextCoefficientId == if coefficient.Some? then old(nextCoefficientId) else old(nextCoefficientId) + 1
      ensures contents == old(contents) && attachments == old(attachments)
      ensures logs == old(logs) && feedbacks == old(feedbacks) && campusEvents == old(campusEvents) && users == old(users)
    {
      var e, c := AddEvent(event, coefficient);
      id := nextRecordId;
      AddRecords([Record(OffCampus(e), user, c, Submitted)]);
      assert records == old(records)[id := Record(OffCampus(e), user, c, Submitted)];
    }

    /** The off-campus event row of a new record and, when no coefficient
        was given, the event's default participator coefficient. */
    method AddEvent(event: Fields, coefficient: Option<CoefficientId>) returns (e: EventId, c: CoefficientId)
      requires Valid()
      requires coefficient.Some? ==> coefficient.value in coefficients
      modifies this
      ensures Valid()
      ensures e == old(nextOffCampusEventId) && c == if coefficient.Some? then coefficient.value else old(nextCoefficientId)
      ensures offCampusEvents == old(offCampusEvents)[e := event] && nextOffCampusEventId == e + 1
      ensures coefficients == CoefficientsAfter(old(coefficients), old(nextCoefficientId), coefficient, e)
      ensures nextCoefficientId == if coefficient.Some? then old(nextCoefficientId) else old(nextCoefficientId) + 1
      ensures e in offCampusEvents && c in coefficients
      ensures records == old(records) && nextRecordId == old(nextRecordId)
      ensures campusEvents == old(campusEvents) && users == old(users)
      ensures contents == old(contents) && attachments == old(attachments) && logs == old(logs) && feedbacks == old(feedbacks)
    {
      e := nextOffCampusEventId;
      c := if coefficient.Some? then coefficient.value else nextCoefficientId;
      AddEventOk(records, nextRecordId, offCampusEvents, nextOffCampusEventId, coefficients, nextCoefficientId,
                 campusEvents, users, event, coefficient);
      offCampusEvents, nextOffCampusEventId := offCampusEvents[e := event], e + 1;
      coefficients := CoefficientsAfter(coefficients, nextCoefficientId, coefficient, e);
      nextCoefficientId := if coefficient.Some? then nextCoefficientId else nextCoefficientId + 1;
    }

    /** The content and attachment rows of an existing record. */
    method AddRows(id: RecordId, cs: seq<Fields>, ps: seq<string>)
      requires Valid() && id in records
      modifies this
      ensures Valid()
      ensures contents == old(contents) + ContentsOf(id, cs) && attachments == old(attachments) + AttachmentsOf(id, ps)
      ensures records == old(records) && nextRecordId == old(nextRecordId)
      ensures offCampusEvents == old(offCampusEvents) && nextOffCampusEventId == old(nextOffCampusEventId)
      ensures coefficients == old(coefficients) && nextCoefficientId == old(nextCoefficientId)
      ensures logs == old(logs) && feedbacks == old(feedbacks) && campusEvents == old(campusEvents) && users == old(users)
    {
      AddRowsOk(records, contents, attachments, logs, feedbacks, id, cs, ps);
      var newContents := ContentRows(id, cs);
      var newAttachments := AttachmentRows(id, ps);
      contents, attachments := contents + newContents, attachments + newAttachments;
    }

    /** RecordService.create_campus_records_from_excel. The rows are read in
        order and the records are kept only if every row is good: an
        unknown event, user or coefficient id aborts the whole import with
        the message naming the id. On success there is one new
        FEEDBACK_REQUIRED record per row below the first, and their number
        is returned. */
    method CreateCampusRecordsFromExcel(sheet: Option<Sheet>) returns (r: Result<nat>)
      requires Valid()
      modifies this
      ensures Valid()
      ensures var plan := ImportPlan(sheet, old(campusEvents), old(users), old(coefficients.Keys));
        && (r.Failure? <==> plan.Failure?)
        && (r.Failure? ==> r.error == plan.error && records == old(records) && nextRecordId == old(nextRecordId))
        && (r.Success? ==>
              && r.value == |plan.value.1| == |sheet.value| - 1
              && nextRecordId == old(nextRecordId) + r.value
              && records == InsertAll(old(records), old(nextRecordId), CampusRecords(plan.value.0, plan.value.1)))
      ensures offCampusEvents == old(offCampusEvents) && nextOffCampusEventId == old(nextOffCampusEventId)
      ensures coefficients == old(coefficients) && nextCoefficientId == old(nextCoefficientId)
      ensures campusEvents == old(campusEvents) && users == old(users)
      ensures contents == old(contents) && attachments == old(attachments) && logs == old(logs) && feedbacks == old(feedbacks)
    {
      if sheet.None? {
        return Failure(BadRequest(InvalidSheet));
      }
      var event := LookupCell(sheet.value, 0, 0, campusEvents, EventMissing);
      if event.Failure? {
        return Failure(event.error);
      }
      var rows := ReadRows(sheet.value, users, coefficients.Keys);
      if rows.Failure? {
        return Failure(rows.error);
      }
      var pending := CampusRecords(event.value, rows.value);
      AddRecords(pending);
      r := Success(|pending|);
    }

    /** Commits the records of an import under consecutive new ids. */
    method AddRecords(rs: seq<Record>)
      requires Valid()
      requires forall k :: 0 <= k < |rs| ==> RefsExist(rs[k], users, coefficients.Keys, offCampusEvents.Keys, campusEvents)
      modifies this
      ensures Valid()
      ensures records == InsertAll(old(records), old(nextRecordId), rs) && nextRecordId == old(nextRecordId) + |rs|
      ensures offCampusEvents == old(offCampusEvents) && nextOffCampusEventId == old(nextOffCampusEventId)
      ensures coefficients == old(coefficients) && nextCoefficientId == old(nextCoefficientId)
      ensures campusEvents == old(campusEvents) && users == old(users)
      ensures contents == old(contents) && attachments == old(attachments) && logs == old(logs) && feedbacks == old(feedbacks)
    {
      var records' := InsertAll(records, nextRecordId, rs);
      InsertAllOk(records, nextRecordId, offCampusEvents, nextOffCampusEventId, coefficients, nextCoefficientId, campusEvents, users, rs);
      RowsOkGrow(records, records', contents, attachments, logs, feedbacks);
      records, nextRecordId := records', nextRecordId + |rs|;
    }

    /** CampusEventFeedbackService.create_feedback: exactly one feedback
        for the record, whose status becomes FEEDBACK_SUBMITTED whatever it
        was; a missing record raises DoesNotExist and changes nothing. */
    method CreateFeedback(id: RecordId, content: string) returns (r: Result<Feedback>)
      requires Valid()
      modifies this
      ensures Valid()
      ensures r.Success? <==> id in old(records)
      ensures r.Failure? ==> r.error == DoesNotExist && records == old(records) && feedbacks == old(feedbacks)
      ensures r.Success? ==>
        && r.value == Feedback(id, content)
        && feedbacks == old(feedbacks) + [r.value]
        && records == old(records)[id := old(records[id]).(status := FeedbackSubmitted)]
      ensures nextRecordId == old(nextRecordId) && offCampusEvents == old(offCampusEvents) && nextOffCampusEventId == old(nextOffCampusEventId)
      ensures coefficients == old(coefficients) && nextCoefficientId == old(nextCoefficientId)
      ensures campusEvents == old(campusEvents) && users == old(users)
      ensures contents == old(contents) && attachments == old(attachments) && logs == old(logs)
    {
      if id !in records {
        return Failure(DoesNotExist);
      }
      var feedback := Feedback(id, content);
      feedbacks := feedbacks + [feedback];
      records := records[id := records[id].(status := FeedbackSubmitted)];
      r := Success(feedback);
    }
  }

  /** One content row per entry, in order, each linked to record `id`. */
  function ContentsOf(id: RecordId, cs: seq<Fields>): (rows: seq<Content>)
    ensures |rows| == |cs|
    ensures forall k :: 0 <= k < |cs| ==> rows[k].record == id && rows[k].fields == cs[k]
  {
    seq(|cs|, k requires 0 <= k < |cs| => Content(id, cs[k]))
  }

  /** One attachment row per path, in order, each linked to record `id`. */
  function AttachmentsOf(id: RecordId, ps: seq<string>): (rows: seq<Attachment>)
    ensures |rows| == |ps|
    ensures forall k :: 0 <= k < |ps| ==> rows[k].record == id && rows[k].path == ps[k]
  {
    seq(|ps|, k requires 0 <= k < |ps| => Attachment(id, ps[k]))
  }

  /** The loop `for content in contents: RecordContent.objects.create(...)`:
      one row per entry, in order, each linked to the record. */
  method ContentRows(id: RecordId, cs: seq<Fields>) returns (rows: seq<Content>)
    ensures rows == ContentsOf(id, cs)
  {
    rows := [];
    for i := 0 to |cs|
      invariant |rows| == i
      invariant forall k :: 0 <= k < i ==> rows[k] == Content(id, cs[k])
    {
      rows := rows + [Content(id, cs[i])];
    }
  }

  /** The loop `for attachment in attachments: RecordAttachment.objects.create(...)`. */
  method AttachmentRows(id: RecordId, ps: seq<string>) returns (rows: seq<Attachment>)
    ensures rows == AttachmentsOf(id, ps)
  {
    rows := [];
    for i := 0 to |ps|
      invariant |rows| == i
      invariant forall k :: 0 <= k < i ==> rows[k] == Attachment(id, ps[k])
    {
      rows := rows + [Attachment(id, ps[i])];
    }
  }

  /** The loop `for index in range(1, sheet.nrows)` of the import: each
      row's user and coefficient are looked up in turn, and the first bad
      row ends the loop with its error. */
  method ReadRows(cells: Sheet, users: set<UserId>, coefficients: set<CoefficientId>)
    returns (r: Result<seq<(UserId, CoefficientId)>>)
    requires |cells| >= 1
    ensures r == ImportRows(cells, 1, users, coefficients)
  {
    var pairs: seq<(UserId, CoefficientId)> := [];
    PrependNothing(ImportRows(cells, 1, users, coefficients));
    var index := 1;
    while index < |cells|
      invariant 1 <= index <= |cells|
      invariant ImportRows(cells, 1, users, coefficients) == Prepend(pairs, ImportRows(cells, index, users, coefficients))
      decreases |cells| - index
    {
      var u := LookupCell(cells, index, 0, users, UserMissing);
      if u.Failure? {
        assert ImportRows(cells, index, users, coefficients) == Failure(u.error);
        return Failure(u.error);
      }
      var c := LookupCell(cells, index, 1, coefficients, CoefficientMissing);
      if c.Failure? {
        assert ImportRows(cells, index, users, coefficients) == Failure(c.error);
        return Failure(c.error);
      }
      ghost var rest := ImportRows(cells, index + 1, users, coefficients);
      assert ImportRows(cells, index, users, coefficients) == Prepend([(u.value, c.value)], rest);
      PrependTwice(pairs, [(u.value, c.value)], rest);
      pairs := pairs + [(u.value, c.value)];
      index := index + 1;
    }
    assert ImportRows(cells, index, users, coefficients) == Success([]);
    assert pairs + [] == pairs;
    r := Success(pairs);
  }

  /** `done` followed by what the rest of the rows give. */
  function Prepend(done: seq<(UserId, CoefficientId)>, rest: Result<seq<(UserId, CoefficientId)>>): Result<seq<(UserId, CoefficientId)>> {
    if rest.Success? then Success(done + rest.value) else rest
  }

  lemma PrependNothing(rest: Result<seq<(UserId, CoefficientId)>>)
    ensures Prepend([], rest) == rest
  {
    if rest.Success? {
      assert [] + rest.value == rest.value;
    }
  }

  lemma PrependTwice(a: seq<(UserId, CoefficientId)>, b: seq<(UserId, CoefficientId)>, rest: Result<seq<(UserId, CoefficientId)>>)
    ensures Prepend(a, Prepend(b, rest)) == Prepend(a + b, rest)
  {
    if rest.Success? {
      assert a + (b + rest.value) == (a + b) + rest.value;
    }
  }

  /** An off-campus record created, approved by its department, then
      rejected by the school: two logs, SUBMITTED to approved and approved
      to rejected. */
  method ReviewScenario(user: UserId, admin: UserId, event: Fields)
  {
    var store := new RecordStore({user}, {}, map[], 0);
    var r := store.CreateOffCampusRecord(Some(event), Some(UserObject(user)), None, None, None);
    var id := r.value;
    assert store.records[id].status == Submitted;
    var first := store.DepartmentAdminReview(id, true, admin, 1);
    assert first.Success? && store.records[id].status == DepartmentAdminApproved;
    var again := store.DepartmentAdminReview(id, true, admin, 2);
    assert again == Failure(BadRequest(NotPermitted));
    var second := store.SchoolAdminReview(id, false, admin, 3);
    assert second.Success? && store.records[id].status == SchoolAdminRejected;
    assert store.logs == [StatusChangeLog(id, Submitted, DepartmentAdminApproved, 1, admin),
                          StatusChangeLog(id, DepartmentAdminApproved, SchoolAdminRejected, 3, admin)];
  }
}
