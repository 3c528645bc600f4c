/** The teacher routes of backend/routes/teacher.js: the roster with today's
 *  status, marking attendance (update today's record or add one), deleting
 *  today's record, a student's history and the daily summary. "Today" is the
 *  window [start, end], both ends included, that the route computes from the
 *  clock; `now` lies inside it. */
module TeacherRoutes {
  import opened Common
  import opened Middleware
  import opened UserModel
  import opened AttendanceModel

  /** The routes use `verifyToken` alone: `isTeacher` is never applied. */
  function TeacherGuard(header: Option<string>, verify: string -> Option<Claims>): (r: Access)
    ensures r.Granted? ==> Authenticate(header, verify) == Authenticated(r.user)
  {
    TokenOnly(Authenticate(header, verify))
  }

  /** Any verified token reaches a teacher route, whatever its role: a
   *  student's token included. */
  lemma TeacherGuardAnyRole(header: Option<string>, verify: string -> Option<Claims>)
    ensures TeacherGuard(header, verify).Granted? <==> Authenticate(header, verify).Authenticated?
    ensures Authenticate(header, verify).Authenticated? ==>
              TeacherGuard(header, verify) == Granted(Authenticate(header, verify).claims)
    ensures Authenticate(header, verify).Rejected? ==>
              TeacherGuard(header, verify) ==
                Denied(Authenticate(header, verify).status, Authenticate(header, verify).message)
  {
  }

  /** The guard the routes evidently call for: `verifyToken` and then
   *  `isTeacher`. */
  function TeacherGuardCorrected(header: Option<string>, verify: string -> Option<Claims>): Access {
    Chain(Authenticate(header, verify), IsTeacher)
  }

  /** With `isTeacher` in the chain only a teacher's token gets through. */
  lemma TeacherGuardCorrectedGrants(header: Option<string>, verify: string -> Option<Claims>)
    ensures TeacherGuardCorrected(header, verify).Granted? <==>
              Authenticate(header, verify).Authenticated? && Authenticate(header, verify).claims.role == "teacher"
    ensures Authenticate(header, verify).Authenticated? && Authenticate(header, verify).claims.role != "teacher" ==>
              TeacherGuardCorrected(header, verify) == Denied(403, "Access denied! You are not a teacher.")
  {
  }

  // -------------------------------------------------------------------- roster

  /** `attendanceMap` after assigning each record's status in turn. */
  function StatusMap(recs: seq<Record>): map<string, string> {
    if recs == [] then map[]
    else StatusMap(recs[..|recs| - 1])[recs[|recs| - 1].userId := recs[|recs| - 1].status]
  }

  /** The map holds a student iff some record is theirs, and then the status
   *  of their last record in iteration order. */
  lemma {:induction false} StatusMapLast(recs: seq<Record>, u: string)
    ensures u in StatusMap(recs) <==> exists k :: 0 <= k < |recs| && recs[k].userId == u
    ensures u in StatusMap(recs) ==>
              exists k :: 0 <= k < |recs| && recs[k].userId == u && StatusMap(recs)[u] == recs[k].status
                          && forall j :: k < j < |recs| ==> recs[j].userId != u
  {
    if recs != [] {
      var front, last := recs[..|recs| - 1], recs[|recs| - 1];
      StatusMapLast(front, u);
      if last.userId != u {
        if u in StatusMap(front) {
          var k :| 0 <= k < |front| && front[k].userId == u && StatusMap(front)[u] == front[k].status
                   && forall j :: k < j < |front| ==> front[j].userId != u;
          assert recs[k] == front[k];
          assert forall j :: k < j < |recs| ==> recs[j].userId != u by {
            forall j | k < j < |recs|
              ensures recs[j].userId != u
            {
              if j < |front| {
                assert recs[j] == front[j];
              }
            }
          }
        }
        if exists k :: 0 <= k < |recs| && recs[k].userId == u {
          var k :| 0 <= k < |recs| && recs[k].userId == u;
          assert front[k] == recs[k];
        }
      }
    }
  }

  /** `attendanceMap[id] || null`: a missing entry and an empty status are null. */
  function TodayStatus(m: map<string, string>, id: string): Option<string> {
    if id in m && m[id] != "" then Some(m[id]) else None
  }

  datatype RosterEntry = RosterEntry(id: string, username: string, todayStatus: Option<string>)

  /** GET /students: one entry per student in store order, with the status of
   *  the student's last record in today's window. */
  method Roster(users: UserStore, att: AttendanceStore, start: int, end: int) returns (result: seq<RosterEntry>)
    ensures |result| == |Students(users.users)|
    ensures forall k :: 0 <= k < |result| ==>
              result[k].id == Students(users.users)[k].id && result[k].username == Students(users.users)[k].username
    ensures forall k :: 0 <= k < |result| ==>
              result[k].todayStatus ==
                TodayStatus(StatusMap(FilterRecords(att.records, InDay(start, end))), Students(users.users)[k].id)
  {
    var students := Students(users.users);
    var todaysRecords := FilterRecords(att.records, InDay(start, end));
    var attendanceMap: map<string, string> := map[];
    for i := 0 to |todaysRecords|
      invariant attendanceMap == StatusMap(todaysRecords[..i])
    {
      assert todaysRecords[..i + 1][..i] == todaysRecords[..i];
      var r := todaysRecords[i];
      attendanceMap := attendanceMap[r.userId := r.status];
    }
    assert todaysRecords[..|todaysRecords|] == todaysRecords;
    result := seq(|students|, k requires 0 <= k < |students| =>
                  RosterEntry(students[k].id, students[k].username, TodayStatus(attendanceMap, students[k].id)));
  }

  /** A student without a record in the window, or whose last one there has an
   *  empty status, is listed with null; otherwise with that last status. */
  lemma RosterStatusMeaning(records: seq<Record>, start: int, end: int, id: string)
    ensures TodayStatus(StatusMap(FilterRecords(records, InDay(start, end))), id).None? <==>
              (forall x :: x in records && x.userId == id && start <= x.date <= end ==> x.status == "") ||
              (var today := FilterRecords(records, InDay(start, end));
               id in StatusMap(today) && StatusMap(today)[id] == "")
    ensures (forall x :: x in records && start <= x.date <= end ==> x.userId != id) ==>
              TodayStatus(StatusMap(FilterRecords(records, InDay(start, end))), id) == None
  {
    var today := FilterRecords(records, InDay(start, end));
    StatusMapLast(today, id);
    if id in StatusMap(today) {
      var k :| 0 <= k < |today| && today[k].userId == id && StatusMap(today)[id] == today[k].status
               && forall j :: k < j < |today| ==> today[j].userId != id;
      assert today[k] in records;
    }
  }

  // ---------------------------------------------------------------------- mark

  /** Whether record i is one of the student's records in the window. */
  predicate OnDayAt(records: seq<Record>, userId: string, start: int, end: int, i: int) {
    0 <= i < |records| && RecordMatches(records[i], OnDay(userId, start, end))
  }

  /** The outcome of POST /attendance: `findOne` picks some matching record,
   *  which gets the new status and is saved again; with no match a record
   *  dated `now` is added. A failed save answers 500 and stores nothing. */
  ghost predicate MarkPost(before: seq<Record>, after: seq<Record>, users: seq<User>, userId: string,
                           status: string, start: int, end: int, now: int, freshId: string,
                           res: Response<Record>)
  {
    if exists i :: 0 <= i < |before| && OnDayAt(before, userId, start, end, i) then
      exists i :: 0 <= i < |before| && OnDayAt(before, userId, start, end, i) &&
        if CanResave(users, before[i].(status := status)) then
          after == before[i := before[i].(status := status)] && res == Success(after[i])
        else
          after == before && res == Error(500, "Failed to mark attendance")
    else
      var rec := NewRecord(freshId, userId, status, Some(now), now);
      if CanInsertRecord(before, users, rec) then
        after == before + [rec] && res == Success(rec)
      else
        after == before && res == Error(500, "Failed to mark attendance")
  }

  method Mark(users: UserStore, att: AttendanceStore, userId: string, status: string,
              start: int, end: int, now: int, freshId: string) returns (res: Response<Record>)
    requires att.Valid()
    requires start <= now <= end
    modifies att
    ensures att.Valid()
    ensures MarkPost(old(att.records), att.records, users.users, userId, status, start, end, now, freshId, res)
  {
    if exists i :: 0 <= i < |att.records| && OnDayAt(att.records, userId, start, end, i) {
      var i :| 0 <= i < |att.records| && OnDayAt(att.records, userId, start, end, i);
      var ok := att.Resave(i, status, users.users);
      if !ok {
        return Error(500, "Failed to mark attendance");
      }
      res := Success(att.records[i]);
    } else {
      var rec := NewRecord(freshId, userId, status, Some(now), now);
      var ok := att.Insert(rec, users.users);
      if !ok {
        return Error(500, "Failed to mark attendance");
      }
      res := Success(rec);
    }
  }

  /** The student has at most one record in the window. */
  predicate AtMostOneOnDay(records: seq<Record>, userId: string, start: int, end: int) {
    forall i, j ::
      0 <= i < |records| && 0 <= j < |records| &&
      OnDayAt(records, userId, start, end, i) && OnDayAt(records, userId, start, end, j)
      ==> i == j
  }

  /** Record i is the student's only record in the window. */
  predicate OnlyOnDay(records: seq<Record>, userId: string, start: int, end: int, i: int) {
    OnDayAt(records, userId, start, end, i) &&
    forall j :: 0 <= j < |records| && OnDayAt(records, userId, start, end, j) ==> j == i
  }

  /** One successful mark leaves the student exactly one record in the window,
   *  carrying the new status, when there was at most one before. */
  lemma MarkOnceLeavesOne(before: seq<Record>, after: seq<Record>, users: seq<User>, userId: string,
                          status: string, start: int, end: int, now: int, freshId: string, res: Response<Record>)
    requires start <= now <= end
    requires AtMostOneOnDay(before, userId, start, end)
    requires MarkPost(before, after, users, userId, status, start, end, now, freshId, res)
    requires res.Success?
    ensures exists i :: 0 <= i < |after| && OnlyOnDay(after, userId, start, end, i) && after[i].status == status
  {
    if exists i :: 0 <= i < |before| && OnDayAt(before, userId, start, end, i) {
      var i :| 0 <= i < |before| && OnDayAt(before, userId, start, end, i) &&
               after == before[i := before[i].(status := status)];
      forall j | 0 <= j < |after| && OnDayAt(after, userId, start, end, j)
        ensures j == i
      {
        if j != i {
          assert after[j] == before[j];
          assert OnDayAt(before, userId, start, end, j);
        }
      }
      assert OnlyOnDay(after, userId, start, end, i);
    } else {
      var rec := NewRecord(freshId, userId, status, Some(now), now);
      assert after == before + [rec];
      forall j | 0 <= j < |after| && OnDayAt(after, userId, start, end, j)
        ensures j == |before|
      {
        if j < |before| {
          assert after[j] == before[j];
          assert OnDayAt(before, userId, start, end, j);
        }
      }
      assert OnlyOnDay(after, userId, start, end, |before|);
    }
  }

  /** Marking s1 and then s2 leaves exactly one record of the student in the
   *  window, with status s2, when there was at most one before. */
  lemma MarkTwiceLeavesLast(r0: seq<Record>, r1: seq<Record>, r2: seq<Record>, users: seq<User>,
                            userId: string, s1: string, s2: string, start: int, end: int,
                            now1: int, now2: int, id1: string, id2: string,
                            res1: Response<Record>, res2: Response<Record>)
    requires start <= now1 <= end && start <= now2 <= end
    requires AtMostOneOnDay(r0, userId, start, end)
    requires MarkPost(r0, r1, users, userId, s1, start, end, now1, id1, res1) && res1.Success?
    requires MarkPost(r1, r2, users, userId, s2, start, end, now2, id2, res2) && res2.Success?
    ensures exists i :: 0 <= i < |r2| && OnlyOnDay(r2, userId, start, end, i) && r2[i].status == s2
  {
    MarkOnceLeavesOne(r0, r1, users, userId, s1, start, end, now1, id1, res1);
    var i :| 0 <= i < |r1| && OnlyOnDay(r1, userId, start, end, i) && r1[i].status == s1;
    MarkOnceLeavesOne(r1, r2, users, userId, s2, start, end, now2, id2, res2);
  }

  // ------------------------------------------------------------- delete today

  /** The outcome of DELETE /attendance/:studentId: `deleteOne` removes some
   *  record of the student in the window, or nothing when there is none. */
  ghost predicate DeletePost(before: seq<Record>, after: seq<Record>, studentId: string, start: int, end: int) {
    if exists i :: 0 <= i < |before| && OnDayAt(before, studentId, start, end, i) then
      exists i :: 0 <= i < |before| && OnDayAt(before, studentId, start, end, i) && after == RemoveAt(before, i)
    else
      after == before
  }

  method DeleteToday(att: AttendanceStore, studentId: string, start: int, end: int) returns (res: Response<string>)
    requires att.Valid()
    modifies att
    ensures att.Valid()
    ensures res == Success("\U{2705} Attendance deleted")
    ensures DeletePost(old(att.records), att.records, studentId, start, end)
  {
    if exists i :: 0 <= i < |att.records| && OnDayAt(att.records, studentId, start, end, i) {
      var i :| 0 <= i < |att.records| && OnDayAt(att.records, studentId, start, end, i);
      att.RemoveRecord(i);
    }
    res := Success("\U{2705} Attendance deleted");
  }

  /** Deleting today's record removes at most one record, and only one of that
   *  student in the window: every other student's records, and the student's
   *  own records outside the window, stay as they were. */
  lemma {:induction false} DeleteTodayKeepsOthers(before: seq<Record>, after: seq<Record>, studentId: string,
                                                  start: int, end: int, other: string)
    requires DeletePost(before, after, studentId, start, end)
    ensures |before| - 1 <= |after| <= |before|
    ensures other != studentId ==> FilterRecords(after, OfUser(other)) == FilterRecords(before, OfUser(other))
    ensures forall x :: x in before && !RecordMatches(x, OnDay(studentId, start, end)) ==> x in after
  {
    if exists i :: 0 <= i < |before| && OnDayAt(before, studentId, start, end, i) {
      var i :| 0 <= i < |before| && OnDayAt(before, studentId, start, end, i) && after == RemoveAt(before, i);
      if other != studentId {
        FilterRemoveNonMatching(before, i, OfUser(other));
      }
      forall x | x in before && !RecordMatches(x, OnDay(studentId, start, end))
        ensures x in after
      {
        var k :| 0 <= k < |before| && before[k] == x;
        if k < i {
          assert after[k] == x;
        } else {
          assert after[k - 1] == x;
        }
      }
    }
  }

  /** With at most one record of the student in the window, none is left. */
  lemma DeleteTodayClears(before: seq<Record>, after: seq<Record>, studentId: string, start: int, end: int)
    requires AtMostOneOnDay(before, studentId, start, end)
    requires DeletePost(before, after, studentId, start, end)
    ensures forall j :: !OnDayAt(after, studentId, start, end, j)
  {
    if exists i :: 0 <= i < |before| && OnDayAt(before, studentId, start, end, i) {
      var i :| 0 <= i < |before| && OnDayAt(before, studentId, start, end, i) && after == RemoveAt(before, i);
      forall j | 0 <= j < |after|
        ensures !OnDayAt(after, studentId, start, end, j)
      {
        var k := if j < i then j else j + 1;
        assert after[j] == before[k];
        assert k != i;
        assert !OnDayAt(before, studentId, start, end, k);
      }
    }
  }

  // ------------------------------------------------------------------- summary

  datatype DailySummary = DailySummary(present: nat, absent: nat, late: nat)

  /** GET /attendance-summary: counts the statuses of today's records. */
  method Summary(att: AttendanceStore, start: int, end: int) returns (summary: DailySummary)
    ensures var today := FilterRecords(att.records, InDay(start, end));
            summary == DailySummary(CountStatus(today, "present"), CountStatus(today, "absent"), CountStatus(today, "late"))
    ensures var today := FilterRecords(att.records, InDay(start, end));
            summary.present + summary.absent + summary.late <= |today| &&
            (AllStatusesValid(today) ==> summary.present + summary.absent + summary.late == |today|)
  {
    var records := FilterRecords(att.records, InDay(start, end));
    var present, absent, late := 0, 0, 0;
    for i := 0 to |records|
      invariant present == CountStatus(records[..i], "present")
      invariant absent == CountStatus(records[..i], "absent")
      invariant late == CountStatus(records[..i], "late")
    {
      assert records[..i + 1][..i] == records[..i];
      var r := records[i];
      if r.status == "present" {
        present := present + 1;
      } else if r.status == "absent" {
        absent := absent + 1;
      } else if r.status == "late" {
        late := late + 1;
      }
    }
    assert records[..|records|] == records;
    summary := DailySummary(present, absent, late);
    StatusCountsBounded(records);
  }
}
