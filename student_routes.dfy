/** The student routes of backend/routes/student.js: the student's profile, own
 *  records, self-check-in, and update and delete of a record the student
 *  owns. Every route sits behind `verifyToken` and `isStudent`; `me` is the
 *  `req.user` those gates established. */
module StudentRoutes {
  import opened Common
  import opened Middleware
  import opened UserModel
  import opened AttendanceModel

  /** `router.use(verifyToken); router.use(isStudent)`. */
  function StudentGuard(header: Option<string>, verify: string -> Option<Claims>): (r: Access)
    ensures r.Granted? ==> Authenticate(header, verify) == Authenticated(r.user) && r.user.role == "student"
  {
    Chain(Authenticate(header, verify), IsStudent)
  }

  /** A student route runs iff the token verifies and its role is "student". */
  lemma StudentGuardGrants(header: Option<string>, verify: string -> Option<Claims>)
    ensures StudentGuard(header, verify).Granted? <==>
              Authenticate(header, verify).Authenticated? && Authenticate(header, verify).claims.role == "student"
    ensures Authenticate(header, verify).Authenticated? && Authenticate(header, verify).claims.role != "student" ==>
              StudentGuard(header, verify) == Denied(403, "Access denied! Students only.")
  {
  }

  /** GET /profile: `findById(me.id)`, refused unless the stored user is a
   *  student. */
  function Profile(users: seq<User>, me: Claims): (r: Response<PublicUser>)
    ensures r.Error? ==> r == Error(404, "Student not found")
    ensures r.Success? ==> exists u :: u in users && u.id == me.id && u.role == "student" && r.body == WithoutPassword(u)
  {
    match FindUser(users, ById(me.id))
    case None => Error(404, "Student not found")
    case Some(student) =>
      if student.role != "student" then Error(404, "Student not found")
      else Success(WithoutPassword(student))
  }

  /** In a well-formed collection the profile is found iff a student has the
   *  token's id, and it is that student without the password. */
  lemma ProfileFound(users: seq<User>, me: Claims, i: nat)
    requires UsersWellFormed(users)
    requires i < |users| && users[i].id == me.id
    ensures users[i].role == "student" ==> Profile(users, me) == Success(WithoutPassword(users[i]))
    ensures users[i].role != "student" ==> Profile(users, me) == Error(404, "Student not found")
  {
    FindUniqueMatch(users, ById(me.id), i);
  }

  /** GET /attendance: the student's own records, newest first. */
  function OwnRecords(records: seq<Record>, me: Claims): (r: seq<Record>)
    ensures NewestFirst(r)
    ensures forall x :: x in r <==> x in records && x.userId == me.id
    ensures multiset(r) == multiset(FilterRecords(records, OfUser(me.id)))
  {
    History(records, me.id)
  }

  /** POST /attendance: a record for the student dated `now`, with no check for
   *  an earlier record the same day. */
  method CheckIn(users: UserStore, att: AttendanceStore, me: Claims, status: string, now: int, freshId: string)
    returns (res: Response<Record>)
    requires att.Valid()
    modifies att
    ensures att.Valid()
    ensures var rec := NewRecord(freshId, me.id, status, None, now);
            res == (if !Present(status) then Error(400, "Status is required")
                    else if !CanInsertRecord(old(att.records), users.users, rec) then
                      Error(500, "Server error while marking attendance")
                    else Success(rec))
    ensures att.records == if res.Success? then old(att.records) + [res.body] else old(att.records)
  {
    if !Present(status) {
      return Error(400, "Status is required");
    }
    var rec := NewRecord(freshId, me.id, status, None, now);
    var ok := att.Insert(rec, users.users);
    if !ok {
      return Error(500, "Server error while marking attendance");
    }
    res := Success(rec);
  }

  /** The record the update and delete routes act on: `_id` and owner match. */
  function OwnedIndex(records: seq<Record>, me: Claims, recordId: string): Option<nat> {
    FindRecordIndex(records, OwnedRecord(recordId, me.id))
  }

  /** PUT /attendance/:id as written: `findOneAndUpdate` runs no validator, so
   *  any status string is stored. */
  method UpdateOwn(att: AttendanceStore, me: Claims, recordId: string, status: string)
    returns (res: Response<Record>)
    requires att.Valid()
    modifies att
    ensures att.Valid()
    ensures match OwnedIndex(old(att.records), me, recordId)
            case None => res == Error(404, "Attendance record not found") && att.records == old(att.records)
            case Some(i) =>
              att.records == old(att.records)[i := old(att.records)[i].(status := status)] &&
              res == Success(att.records[i])
  {
    var found := OwnedIndex(att.records, me, recordId);
    if found.None? {
      return Error(404, "Attendance record not found");
    }
    var i := found.value;
    att.UpdateStatus(i, status);
    res := Success(att.records[i]);
  }

  /** PUT /attendance/:id corrected: the status is checked against the enum
   *  once the owned record is found; a status outside it answers 500 and
   *  nothing changes. */
  method UpdateOwnValidated(att: AttendanceStore, me: Claims, recordId: string, status: string)
    returns (res: Response<Record>)
    requires att.Valid()
    modifies att
    ensures att.Valid()
    ensures match OwnedIndex(old(att.records), me, recordId)
            case None => res == Error(404, "Attendance record not found") && att.records == old(att.records)
            case Some(i) =>
              if ValidStatus(status) then
                att.records == old(att.records)[i := old(att.records)[i].(status := status)] &&
                res == Success(att.records[i])
              else
                att.records == old(att.records) && res == Error(500, "Server error while updating attendance")
  {
    var found := OwnedIndex(att.records, me, recordId);
    if found.None? {
      return Error(404, "Attendance record not found");
    }
    var i := found.value;
    if !ValidStatus(status) {
      return Error(500, "Server error while updating attendance");
    }
    att.UpdateStatus(i, status);
    res := Success(att.records[i]);
  }

  /** The record changed is the student's own, with the id asked for, and no
   *  other student's records change. */
  lemma UpdateOwnKeepsOthers(records: seq<Record>, me: Claims, recordId: string, status: string, other: string)
    requires other != me.id
    ensures match OwnedIndex(records, me, recordId)
            case None => true
            case Some(i) =>
              records[i].id == recordId && records[i].userId == me.id &&
              FilterRecords(records[i := records[i].(status := status)], OfUser(other)) ==
                FilterRecords(records, OfUser(other))
  {
    match OwnedIndex(records, me, recordId)
    case None =>
    case Some(i) =>
      FilterUpdateNonMatching(records, i, records[i].(status := status), OfUser(other));
  }

  /** As written, the update can put a status outside the enum into a ledger
   *  whose statuses are all valid. */
  lemma UpdateOwnBreaksEnum()
    ensures var before := [Record("r1", "s1", 0, "present")];
            var after := before[0 := before[0].(status := "excused")];
            LedgerWellFormed(before) && AllStatusesValid(before) &&
            OwnedIndex(before, Claims("s1", "student"), "r1") == Some(0) &&
            !AllStatusesValid(after)
  {
    var before := [Record("r1", "s1", 0, "present")];
    var after := before[0 := before[0].(status := "excused")];
    assert !ValidStatus(after[0].status);
  }

  /** With the status checked against the enum, the update keeps every status
   *  in the enum. */
  lemma UpdateOwnValidatedKeepsEnum(records: seq<Record>, i: nat, status: string)
    requires AllStatusesValid(records) && i < |records|
    ensures ValidStatus(status) ==> AllStatusesValid(records[i := records[i].(status := status)])
  {
  }

  /** DELETE /attendance/:id: `findOneAndDelete` on `_id` and owner. */
  method DeleteOwn(att: AttendanceStore, me: Claims, recordId: string) returns (res: Response<string>)
    requires att.Valid()
    modifies att
    ensures att.Valid()
    ensures match OwnedIndex(old(att.records), me, recordId)
            case None => res == Error(404, "Attendance record not found") && att.records == old(att.records)
            case Some(i) => res == Success("Attendance deleted") && att.records == RemoveAt(old(att.records), i)
  {
    var found := OwnedIndex(att.records, me, recordId);
    if found.None? {
      return Error(404, "Attendance record not found");
    }
    att.RemoveRecord(found.value);
    res := Success("Attendance deleted");
  }

  /** The record removed is the student's own, with the id asked for; every
   *  other student's records stay as they were. */
  lemma DeleteOwnKeepsOthers(records: seq<Record>, me: Claims, recordId: string, other: string)
    requires other != me.id
    ensures match OwnedIndex(records, me, recordId)
            case None => true
            case Some(i) =>
              records[i].id == recordId && records[i].userId == me.id &&
              FilterRecords(RemoveAt(records, i), OfUser(other)) == FilterRecords(records, OfUser(other))
  {
    match OwnedIndex(records, me, recordId)
    case None =>
    case Some(i) =>
      FilterRemoveNonMatching(records, i, OfUser(other));
  }
}
