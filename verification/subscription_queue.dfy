/** The subscription queue of the advanced-subscription plugin: one row per
    (user, session) pair recording where that user's request to join the
    session stands. The database table is a finite map keyed by the table's
    unique key (user_id, session_id); the auto-increment primary key is
    `nextId`. Clock readings are parameters. */
module SubscriptionQueue {
  import opened Php

  /** The queue statuses. The plugin names six constants; a stored integer
      equal to none of them is `Unlisted`. */
  datatype Status =
    | NoQueue
    | Start
    | BossDisapproved
    | BossApproved
    | AdminDisapproved
    | AdminApproved
    | Unlisted(code: int)

  /** (user_id, session_id): the table's unique key. */
  type Key = (int, int)

  datatype Row = Row(id: nat, status: Status, lastMessageId: int, createdAt: int, updatedAt: Option<int>)

  datatype Queue = Queue(rows: map<Key, Row>, nextId: nat) {
    /** The primary key: ids are positive, below the auto-increment counter
        and carried by one row only. */
    predicate Valid() {
      && nextId >= 1
      && (forall k :: k in rows ==> 1 <= rows[k].id < nextId)
      && (forall k1, k2 :: k1 in rows && k2 in rows && rows[k1].id == rows[k2].id ==> k1 == k2)
    }
  }

  const EmptyQueue: Queue := Queue(map[], 1)

  // ---------------------------------------------------------------------
  // addToQueue
  // ---------------------------------------------------------------------

  /** The row `addToQueue` inserts: status 0 (START), no message yet, never updated. */
  function NewRow(id: nat, now: int): Row {
    Row(id, Start, 0, now, None)
  }

  /** `addToQueue`: insert a START row for (user, session). The insert
      returns the new id, or false (`None`) when the unique key is already
      taken, in which case the table is unchanged. */
  function AddToQueue(q: Queue, userId: int, sessionId: int, now: int): (r: (Queue, Option<nat>))
    ensures (userId, sessionId) in q.rows <==> r.1.None?
    ensures r.1.None? ==> r.0 == q
    ensures r.1.Some? ==> r.0.rows.Keys == q.rows.Keys + {(userId, sessionId)}
                          && r.0.rows[(userId, sessionId)].status == Start
                          && r.0.rows[(userId, sessionId)].updatedAt.None?
                          && r.0.rows[(userId, sessionId)].id == r.1.value
    ensures forall k :: k in q.rows ==> k in r.0.rows && r.0.rows[k] == q.rows[k]
  {
    var key := (userId, sessionId);
    if key in q.rows then (q, None)
    else (Queue(q.rows[key := NewRow(q.nextId, now)], q.nextId + 1), Some(q.nextId))
  }

  /** `addToQueue` keeps the primary key valid, and a successful insert
      returns a truthy (non-zero) id. */
  lemma AddToQueueValid(q: Queue, userId: int, sessionId: int, now: int)
    requires q.Valid()
    ensures AddToQueue(q, userId, sessionId, now).0.Valid()
    ensures var id := AddToQueue(q, userId, sessionId, now).1; id.Some? ==> id.value >= 1
  {
    var key := (userId, sessionId);
    if key !in q.rows {
      var q' := AddToQueue(q, userId, sessionId, now).0;
      forall k1, k2 | k1 in q'.rows && k2 in q'.rows && q'.rows[k1].id == q'.rows[k2].id
        ensures k1 == k2
      {
        if k1 != key && k2 != key {
          assert q.rows[k1].id == q.rows[k2].id;
        }
      }
    }
  }

  // ---------------------------------------------------------------------
  // getQueueStatus
  // ---------------------------------------------------------------------

  /** `getQueueStatus`: false (`None`) when either id is 0, otherwise the
      status of the one row for the pair, or NO_QUEUE when there is none. */
  function GetQueueStatus(q: Queue, userId: int, sessionId: int): (r: Option<Status>)
    ensures r.None? <==> userId == 0 || sessionId == 0
    ensures r.Some? && (userId, sessionId) in q.rows ==> r.value == q.rows[(userId, sessionId)].status
    ensures r.Some? && (userId, sessionId) !in q.rows ==> r.value == NoQueue
  {
    if userId == 0 || sessionId == 0 then None
    else if (userId, sessionId) in q.rows then Some(q.rows[(userId, sessionId)].status)
    else Some(NoQueue)
  }

  /** After a successful `addToQueue` the pair reads back as START. */
  lemma AddThenStatus(q: Queue, userId: int, sessionId: int, now: int)
    requires userId != 0 && sessionId != 0
    requires (userId, sessionId) !in q.rows
    ensures GetQueueStatus(AddToQueue(q, userId, sessionId, now).0, userId, sessionId) == Some(Start)
    ensures GetQueueStatus(q, userId, sessionId) == Some(NoQueue)
  {
  }

  // ---------------------------------------------------------------------
  // updateQueueStatus
  // ---------------------------------------------------------------------

  /** The parameters `updateQueueStatus` looks at; `None` is an unset key. */
  datatype UpdateRequest = UpdateRequest(queueId: Option<int>, studentUserId: Option<int>, sessionId: Option<int>)

  /** The where-clause `updateQueueStatus` builds. */
  datatype Where =
    | ById(id: int)
    | ByPair(userId: int, sessionId: int, newStatus: Status)

  function WhereOf(req: UpdateRequest, newStatus: Status): Option<Where> {
    if req.queueId.Some? then Some(ById(req.queueId.value))
    else if req.studentUserId.Some? && req.sessionId.Some? then
      Some(ByPair(req.studentUserId.value, req.sessionId.value, newStatus))
    else None
  }

  /** Whether a row satisfies the where-clause. */
  predicate Selects(w: Where, k: Key, row: Row) {
    match w
    case ById(id) => row.id == id
    case ByPair(u, s, newStatus) =>
      k == (u, s) && row.status != newStatus && row.status != AdminApproved
  }

  /** MySQL counts a row as affected only if the update changes a value. */
  predicate Changes(row: Row, newStatus: Status, now: int) {
    row.status != newStatus || row.updatedAt != Some(now)
  }

  function SetStatus(row: Row, newStatus: Status, now: int): Row {
    row.(status := newStatus, updatedAt := Some(now))
  }

  /** `updateQueueStatus`: set status and `updated_at` on the rows the
      where-clause selects; the boolean is "some row was affected". */
  function UpdateQueueStatus(q: Queue, req: UpdateRequest, newStatus: Status, now: int): (r: (Queue, bool))
    ensures r.0.nextId == q.nextId && r.0.rows.Keys == q.rows.Keys
    ensures forall k :: k in q.rows ==> r.0.rows[k].id == q.rows[k].id && r.0.rows[k].lastMessageId == q.rows[k].lastMessageId
    ensures WhereOf(req, newStatus).None? ==> r == (q, false)
    ensures WhereOf(req, newStatus).Some? ==>
              forall k :: k in q.rows ==>
                r.0.rows[k] == if Selects(WhereOf(req, newStatus).value, k, q.rows[k])
                               then SetStatus(q.rows[k], newStatus, now) else q.rows[k]
  {
    match WhereOf(req, newStatus)
    case None => (q, false)
    case Some(w) =>
      var rows := map k | k in q.rows :: if Selects(w, k, q.rows[k]) then SetStatus(q.rows[k], newStatus, now) else q.rows[k];
      var affected := exists k | k in q.rows :: Selects(w, k, q.rows[k]) && Changes(q.rows[k], newStatus, now);
      (Queue(rows, q.nextId), affected)
  }

  lemma UpdateKeepsValid(q: Queue, req: UpdateRequest, newStatus: Status, now: int)
    requires q.Valid()
    ensures UpdateQueueStatus(q, req, newStatus, now).0.Valid()
  {
    var q' := UpdateQueueStatus(q, req, newStatus, now).0;
    forall k1, k2 | k1 in q'.rows && k2 in q'.rows && q'.rows[k1].id == q'.rows[k2].id
      ensures k1 == k2
    {
      assert q.rows[k1].id == q.rows[k2].id;
    }
  }

  /** Without a queue id, an admin-approved row is never changed, whatever
      the new status. */
  lemma AdminApprovalIsFinal(q: Queue, req: UpdateRequest, newStatus: Status, now: int, k: Key)
    requires req.queueId.None?
    requires k in q.rows && q.rows[k].status == AdminApproved
    ensures UpdateQueueStatus(q, req, newStatus, now).0.rows[k] == q.rows[k]
  {
  }

  /** With a queue id the status is set unconditionally on the row carrying
      that id, and on no other row; the update reports success unless the
      row already held exactly these values. */
  lemma UpdateById(q: Queue, queueId: int, studentUserId: Option<int>, sessionId: Option<int>,
                   newStatus: Status, now: int, k: Key)
    requires q.Valid()
    requires k in q.rows && q.rows[k].id == queueId
    ensures var r := UpdateQueueStatus(q, UpdateRequest(Some(queueId), studentUserId, sessionId), newStatus, now);
            && r.0.rows[k].status == newStatus
            && r.0.rows[k].updatedAt == Some(now)
            && (forall k' :: k' in q.rows && k' != k ==> r.0.rows[k'] == q.rows[k'])
            && (r.1 <==> Changes(q.rows[k], newStatus, now))
  {
    var req := UpdateRequest(Some(queueId), studentUserId, sessionId);
    var r := UpdateQueueStatus(q, req, newStatus, now);
    forall k' | k' in q.rows && k' != k
      ensures r.0.rows[k'] == q.rows[k']
    {
      assert q.rows[k'].id != queueId;
    }
    if r.1 {
      var k' :| k' in q.rows && Selects(ById(queueId), k', q.rows[k']) && Changes(q.rows[k'], newStatus, now);
      assert q.rows[k'].id == q.rows[k].id;
    }
  }

  /** By (user, session) the update succeeds exactly when the pair has a row
      whose status is neither the new one nor ADMIN_APPROVED, and then only
      that row changes. */
  lemma UpdateByPair(q: Queue, userId: int, sessionId: int, newStatus: Status, now: int)
    ensures var req := UpdateRequest(None, Some(userId), Some(sessionId));
            var r := UpdateQueueStatus(q, req, newStatus, now);
            var k := (userId, sessionId);
            && (r.1 <==> k in q.rows && q.rows[k].status != newStatus && q.rows[k].status != AdminApproved)
            && (forall k' :: k' in q.rows && k' != k ==> r.0.rows[k'] == q.rows[k'])
            && (r.1 ==> r.0.rows[k] == SetStatus(q.rows[k], newStatus, now))
  {
    var req := UpdateRequest(None, Some(userId), Some(sessionId));
    var r := UpdateQueueStatus(q, req, newStatus, now);
    var k := (userId, sessionId);
    var w := ByPair(userId, sessionId, newStatus);
    if k in q.rows && q.rows[k].status != newStatus && q.rows[k].status != AdminApproved {
      assert Selects(w, k, q.rows[k]) && Changes(q.rows[k], newStatus, now);
    }
  }

  // ---------------------------------------------------------------------
  // getVacancy
  // ---------------------------------------------------------------------

  /** `getVacancy`: false (`None`) for session 0 or a vacancies field whose
      integer value is 0, otherwise the vacancies left after the
      admin-approved requests, never below zero. `approved` is the number of
      ADMIN_APPROVED rows the plugin counts for the session. */
  function GetVacancy(sessionId: int, vacanciesField: string, approved: nat): (r: Option<nat>)
    ensures r.None? <==> sessionId == 0 || IntVal(vacanciesField) == 0
    ensures r.Some? && r.value > 0 ==> r.value + approved == IntVal(vacanciesField)
    ensures r.Some? ==> (r.value == 0 <==> IntVal(vacanciesField) <= approved)
  {
    if sessionId == 0 then None
    else
      var vacancy := IntVal(vacanciesField);
      if vacancy == 0 then None
      else
        var left := vacancy - approved;
        if left >= 0 then Some(left) else Some(0)
  }

  // ---------------------------------------------------------------------
  // Status labels and messages
  // ---------------------------------------------------------------------

  /** The validation column of the admin queue view; `None` where the source
      logs "Student status no detected" and leaves the column unset. */
  function Validation(s: Status): (v: Option<string>)
    ensures v == Some("") <==> s == NoQueue || s == Start
    ensures v == Some("No") <==> s == BossDisapproved || s == AdminDisapproved
    ensures v == Some("Yes") <==> s == BossApproved || s == AdminApproved
    ensures v.None? <==> s.Unlisted?
  {
    match s
    case NoQueue | Start => Some("")
    case BossDisapproved | AdminDisapproved => Some("No")
    case BossApproved | AdminApproved => Some("Yes")
    case Unlisted(_) => None
  }

  /** One student of the admin queue view. */
  datatype Pending = Pending(queueId: nat, status: Status, validation: Option<string>)

  /** `listAllStudentsInQueueBySession`, students part: the rows of the
      session whose status is neither ADMIN_APPROVED nor ADMIN_DISAPPROVED
      and whose user exists, keyed by user id and labelled. */
  function AdminQueue(q: Queue, sessionId: int, users: set<int>): (r: map<int, Pending>)
    ensures forall u :: u in r <==> ((u, sessionId) in q.rows && u in users
                                    && q.rows[(u, sessionId)].status != AdminApproved
                                    && q.rows[(u, sessionId)].status != AdminDisapproved)
    ensures forall u :: u in r ==> r[u].queueId == q.rows[(u, sessionId)].id
                                   && r[u].status == q.rows[(u, sessionId)].status
  {
    map u | u in users && (u, sessionId) in q.rows
                       && q.rows[(u, sessionId)].status != AdminApproved
                       && q.rows[(u, sessionId)].status != AdminDisapproved
      :: var row := q.rows[(u, sessionId)]; Pending(row.id, row.status, Validation(row.status))
  }

  /** In the admin view a "Yes" or "No" is always the superior's decision:
      the admin outcomes are filtered out before labelling. */
  lemma AdminQueueLabels(q: Queue, sessionId: int, users: set<int>, u: int)
    requires u in AdminQueue(q, sessionId, users)
    ensures var p := AdminQueue(q, sessionId, users)[u];
            && (p.validation == Some("Yes") <==> p.status == BossApproved)
            && (p.validation == Some("No") <==> p.status == BossDisapproved)
            && (p.validation == Some("") <==> p.status == NoQueue || p.status == Start)
  {
  }

  /** A language-file message; the unknown-status message is formatted with
      the raw status code. */
  datatype Message = Lang(key: string) | LangWithCode(key: string, code: int)

  /** `getStatusMessage`. */
  function StatusMessage(s: Status, isAble: bool): (m: Message)
    ensures m.LangWithCode? <==> s.Unlisted?
    ensures m.LangWithCode? ==> m.code == s.code
    ensures m.key == "AdvancedSubscriptionNoQueueIsAble" <==> s == NoQueue && isAble
  {
    match s
    case NoQueue => if isAble then Lang("AdvancedSubscriptionNoQueueIsAble") else Lang("AdvancedSubscriptionNoQueue")
    case Start => Lang("AdvancedSubscriptionQueueStart")
    case BossDisapproved => Lang("AdvancedSubscriptionQueueBossDisapproved")
    case BossApproved => Lang("AdvancedSubscriptionQueueBossApproved")
    case AdminDisapproved => Lang("AdvancedSubscriptionQueueAdminDisapproved")
    case AdminApproved => Lang("AdvancedSubscriptionQueueAdminApproved")
    case Unlisted(code) => LangWithCode("AdvancedSubscriptionQueueDefault", code)
  }

  /** Reading a status back from its message. */
  function StatusOfMessage(m: Message): Option<Status> {
    match m
    case Lang(key) =>
      if key == "AdvancedSubscriptionNoQueueIsAble" || key == "AdvancedSubscriptionNoQueue" then Some(NoQueue)
      else if key == "AdvancedSubscriptionQueueStart" then Some(Start)
      else if key == "AdvancedSubscriptionQueueBossDisapproved" then Some(BossDisapproved)
      else if key == "AdvancedSubscriptionQueueBossApproved" then Some(BossApproved)
      else if key == "AdvancedSubscriptionQueueAdminDisapproved" then Some(AdminDisapproved)
      else if key == "AdvancedSubscriptionQueueAdminApproved" then Some(AdminApproved)
      else None
    case LangWithCode(key, code) =>
      if key == "AdvancedSubscriptionQueueDefault" then Some(Unlisted(code)) else None
  }

  /** Every status has its own message, so the message tells the status; the
      `isAble` flag only matters for NO_QUEUE. */
  lemma StatusMessageDetermined(s: Status, isAble: bool)
    ensures StatusOfMessage(StatusMessage(s, isAble)) == Some(s)
    ensures s != NoQueue ==> StatusMessage(s, isAble) == StatusMessage(s, !isAble)
  {
  }
}
