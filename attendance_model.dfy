/** The `Attendance` collection of backend/models/Attendance.js: records with a
 *  required `userId`, a `date` defaulting to the creation time, a status from
 *  an enum, a unique index on the exact pair (userId, date), and a pre-save
 *  hook that refuses a record whose `userId` is not a student. Dates are
 *  integers (milliseconds); the collection is a sequence in natural order. */
module AttendanceModel {
  import opened Common
  import opened UserModel

  datatype Record = Record(id: string, userId: string, date: int, status: string)

  /** The status enum of the schema. */
  predicate ValidStatus(status: string) {
    status == "present" || status == "absent" || status == "late"
  }

  /** `new Attendance({ ... })`: the date falls back to the creation time. */
  function NewRecord(id: string, userId: string, status: string, date: Option<int>, now: int): Record {
    Record(id, userId, date.GetOr(now), status)
  }

  /** The check of the pre-save hook: `userId` names a user whose role is
   *  "student". */
  predicate IsStudentId(users: seq<User>, userId: string) {
    match FindUser(users, ById(userId))
    case None => false
    case Some(u) => u.role == "student"
  }

  /** `IsStudentId` means there is a stored student with that id. */
  lemma IsStudentIdMeans(users: seq<User>, userId: string)
    ensures IsStudentId(users, userId) ==>
              exists i :: 0 <= i < |users| && users[i].id == userId && users[i].role == "student"
    ensures UsersWellFormed(users) ==>
              ((exists i :: 0 <= i < |users| && users[i].id == userId && users[i].role == "student")
                 ==> IsStudentId(users, userId))
  {
    if UsersWellFormed(users) && exists i :: 0 <= i < |users| && users[i].id == userId && users[i].role == "student" {
      var i :| 0 <= i < |users| && users[i].id == userId && users[i].role == "student";
      FindUniqueMatch(users, ById(userId), i);
    }
  }

  /** The unique indexes hold: record ids are unique and so are the exact
   *  (userId, date) pairs; the required ids are set. */
  predicate LedgerWellFormed(records: seq<Record>) {
    && (forall i, j :: 0 <= i < j < |records| ==> records[i].id != records[j].id)
    && (forall i, j :: 0 <= i < j < |records| ==>
          records[i].userId != records[j].userId || records[i].date != records[j].date)
    && (forall i :: 0 <= i < |records| ==> records[i].id != "" && records[i].userId != "")
  }

  /** Whether `save()` of a new record succeeds: the required `userId` and
   *  status, the status enum, the unique indexes and the pre-save hook. */
  predicate CanInsertRecord(records: seq<Record>, users: seq<User>, rec: Record) {
    && rec.id != "" && rec.userId != "" && ValidStatus(rec.status)
    && (forall i :: 0 <= i < |records| ==>
          records[i].id != rec.id && (records[i].userId != rec.userId || records[i].date != rec.date))
    && IsStudentId(users, rec.userId)
  }

  /** Whether `save()` of an existing record after a change of status succeeds:
   *  the status is validated again and the pre-save hook runs again. */
  predicate CanResave(users: seq<User>, rec: Record) {
    ValidStatus(rec.status) && IsStudentId(users, rec.userId)
  }

  /** A record whose (userId, date) pair is already taken is refused, and so is
   *  one for a user who is not a stored student. */
  lemma InsertRefusals(records: seq<Record>, users: seq<User>, rec: Record)
    ensures (exists i :: 0 <= i < |records| && records[i].userId == rec.userId && records[i].date == rec.date)
              ==> !CanInsertRecord(records, users, rec)
    ensures (forall i :: 0 <= i < |users| ==> users[i].id != rec.userId || users[i].role != "student")
              ==> !CanInsertRecord(records, users, rec)
  {
    IsStudentIdMeans(users, rec.userId);
  }

  /** The unique index is on the exact timestamp: a second record for the same
   *  student on the same day, at another instant, is accepted. */
  lemma SameDayDifferentInstantAccepted(records: seq<Record>, users: seq<User>, first: Record, second: Record)
    requires CanInsertRecord(records, users, first)
    requires second.userId == first.userId && second.date != first.date
    requires second.id != first.id && second.id != "" && ValidStatus(second.status)
    requires forall i :: 0 <= i < |records| ==>
               records[i].id != second.id && (records[i].userId != second.userId || records[i].date != second.date)
    ensures CanInsertRecord(records + [first], users, second)
  {
  }

  predicate AllStatusesValid(records: seq<Record>) {
    forall i :: 0 <= i < |records| ==> ValidStatus(records[i].status)
  }

  /** The query filters the routes use on the collection. */
  datatype RecordFilter =
    | OfUser(userId: string)                            // { userId }
    | OwnedRecord(recordId: string, ownerId: string)    // { _id, userId }
    | InDay(start: int, end: int)                       // { date: { $gte, $lte } }
    | OnDay(dayUser: string, dayStart: int, dayEnd: int) // { userId, date: { $gte, $lte } }

  predicate RecordMatches(r: Record, f: RecordFilter) {
    match f
    case OfUser(u) => r.userId == u
    case OwnedRecord(id, owner) => r.id == id && r.userId == owner
    case InDay(start, end) => start <= r.date <= end
    case OnDay(u, start, end) => r.userId == u && start <= r.date <= end
  }

  /** Index of the first matching record in natural order. */
  function FindRecordIndex(records: seq<Record>, f: RecordFilter): (r: Option<nat>)
    ensures r.Some? ==> r.value < |records| && RecordMatches(records[r.value], f)
    ensures r.Some? ==> forall j :: 0 <= j < r.value ==> !RecordMatches(records[j], f)
    ensures r.None? <==> forall j :: 0 <= j < |records| ==> !RecordMatches(records[j], f)
  {
    if records == [] then None
    else if RecordMatches(records[0], f) then Some(0)
    else
      match FindRecordIndex(records[1..], f)
      case None => None
      case Some(k) => Some(k + 1)
  }

  /** In a well-formed collection a filter on `_id` matches at most one record. */
  lemma FindOwnedUnique(records: seq<Record>, id: string, owner: string, i: nat)
    requires LedgerWellFormed(records)
    requires i < |records| && RecordMatches(records[i], OwnedRecord(id, owner))
    ensures FindRecordIndex(records, OwnedRecord(id, owner)) == Some(i)
  {
  }

  /** `find(filter)` in natural order. */
  function FilterRecords(records: seq<Record>, f: RecordFilter): (r: seq<Record>)
    ensures |r| <= |records|
    ensures forall x :: x in r <==> x in records && RecordMatches(x, f)
    ensures forall k :: 0 <= k < |r| ==> RecordMatches(r[k], f)
  {
    if records == [] then []
    else (if RecordMatches(records[0], f) then [records[0]] else []) + FilterRecords(records[1..], f)
  }

  /** The filter keeps stored order: the answer over two stretches of the
   *  collection is the answer over the first followed by the answer over the
   *  second. */
  lemma {:induction false} FilterConcat(a: seq<Record>, b: seq<Record>, f: RecordFilter)
    ensures FilterRecords(a + b, f) == FilterRecords(a, f) + FilterRecords(b, f)
  {
    if a == [] {
      assert a + b == b;
    } else {
      assert (a + b)[0] == a[0];
      assert (a + b)[1..] == a[1..] + b;
      FilterConcat(a[1..], b, f);
    }
  }

  /** Removing a record the filter does not match leaves the query's answer as
   *  it was. */
  lemma FilterRemoveNonMatching(records: seq<Record>, i: nat, f: RecordFilter)
    requires i < |records| && !RecordMatches(records[i], f)
    ensures FilterRecords(RemoveAt(records, i), f) == FilterRecords(records, f)
  {
    var a, b := records[..i], records[i + 1..];
    assert records == a + ([records[i]] + b);
    assert RemoveAt(records, i) == a + b;
    FilterConcat(a, [records[i]] + b, f);
    FilterSkip(records[i], b, f);
    FilterConcat(a, b, f);
  }

  lemma FilterSkip(x: Record, s: seq<Record>, f: RecordFilter)
    requires !RecordMatches(x, f)
    ensures FilterRecords([x] + s, f) == FilterRecords(s, f)
  {
    assert ([x] + s)[0] == x;
    assert ([x] + s)[1..] == s;
  }

  /** Replacing a record the filter matches neither before nor after leaves the
   *  query's answer as it was. */
  lemma FilterUpdateNonMatching(records: seq<Record>, i: nat, v: Record, f: RecordFilter)
    requires i < |records| && !RecordMatches(records[i], f) && !RecordMatches(v, f)
    ensures FilterRecords(records[i := v], f) == FilterRecords(records, f)
  {
    var a, b := records[..i], records[i + 1..];
    assert records == a + ([records[i]] + b);
    assert records[i := v] == a + ([v] + b);
    FilterConcat(a, [records[i]] + b, f);
    FilterSkip(records[i], b, f);
    FilterConcat(a, [v] + b, f);
    FilterSkip(v, b, f);
  }

  /** `.sort({ date: -1 })`: newest first. */
  predicate NewestFirst(s: seq<Record>) {
    forall i, j :: 0 <= i < j < |s| ==> s[i].date >= s[j].date
  }

  function InsertNewestFirst(x: Record, s: seq<Record>): (r: seq<Record>)
    ensures multiset(r) == multiset(s) + multiset{x}
  {
    if s == [] || s[0].date <= x.date then [x] + s
    else
      assert s == [s[0]] + s[1..];
      [s[0]] + InsertNewestFirst(x, s[1..])
  }

  /** Inserting a record no newer than a bound into records no newer than it
   *  gives records no newer than it. */
  lemma {:induction false} InsertKeepsBound(x: Record, s: seq<Record>, d: int)
    requires x.date <= d && forall k :: 0 <= k < |s| ==> s[k].date <= d
    ensures forall k :: 0 <= k < |InsertNewestFirst(x, s)| ==> InsertNewestFirst(x, s)[k].date <= d
  {
    if s != [] && s[0].date > x.date {
      InsertKeepsBound(x, s[1..], d);
      var rest := InsertNewestFirst(x, s[1..]);
      assert InsertNewestFirst(x, s) == [s[0]] + rest;
    }
  }

  /** Inserting into a newest-first sequence keeps it newest first. */
  lemma {:induction false} InsertNewestFirstSorted(x: Record, s: seq<Record>)
    requires NewestFirst(s)
    ensures NewestFirst(InsertNewestFirst(x, s))
  {
    if s != [] && s[0].date > x.date {
      var rest := InsertNewestFirst(x, s[1..]);
      InsertNewestFirstSorted(x, s[1..]);
      InsertKeepsBound(x, s[1..], s[0].date);
      var r := [s[0]] + rest;
      assert InsertNewestFirst(x, s) == r;
      forall i, j | 0 <= i < j < |r|
        ensures r[i].date >= r[j].date
      {
        if i > 0 {
          assert r[i] == rest[i - 1] && r[j] == rest[j - 1];
        } else {
          assert r[j] == rest[j - 1];
        }
      }
    }
  }

  /** The records in an order the sort may return: newest first, and the same
   *  records, each as often as before. */
  function SortNewestFirst(s: seq<Record>): (r: seq<Record>)
    ensures NewestFirst(r)
    ensures multiset(r) == multiset(s)
  {
    if s == [] then []
    else
      assert s == [s[0]] + s[1..];
      InsertNewestFirstSorted(s[0], SortNewestFirst(s[1..]));
      InsertNewestFirst(s[0], SortNewestFirst(s[1..]))
  }

  /** `Attendance.find({ userId }).sort({ date: -1 })`: a student's records,
   *  newest first. */
  function History(records: seq<Record>, userId: string): (r: seq<Record>)
    ensures NewestFirst(r)
    ensures multiset(r) == multiset(FilterRecords(records, OfUser(userId)))
    ensures forall x :: x in r <==> x in records && x.userId == userId
  {
    var own := FilterRecords(records, OfUser(userId));
    var r := SortNewestFirst(own);
    assert forall x :: x in r <==> x in multiset(own);
    r
  }

  /** How many records carry a given status. */
  function CountStatus(s: seq<Record>, status: string): (n: nat)
    ensures n <= |s|
  {
    if s == [] then 0
    else CountStatus(s[..|s| - 1], status) + (if s[|s| - 1].status == status then 1 else 0)
  }

  /** The three counts of a summary never exceed the number of records, and
   *  add up to it when every status is in the enum. */
  lemma {:induction false} StatusCountsBounded(s: seq<Record>)
    ensures CountStatus(s, "present") + CountStatus(s, "absent") + CountStatus(s, "late") <= |s|
    ensures AllStatusesValid(s) ==>
              CountStatus(s, "present") + CountStatus(s, "absent") + CountStatus(s, "late") == |s|
  {
    if s != [] {
      StatusCountsBounded(s[..|s| - 1]);
    }
  }

  /** Every save validates the status, so saves keep all statuses in the
   *  enum. */
  lemma SavesKeepStatusesValid(records: seq<Record>, users: seq<User>, rec: Record, i: nat, status: string)
    requires AllStatusesValid(records)
    ensures CanInsertRecord(records, users, rec) ==> AllStatusesValid(records + [rec])
    ensures i < |records| && CanResave(users, records[i].(status := status)) ==>
              AllStatusesValid(records[i := records[i].(status := status)])
  {
  }

  /** Changing only the status of record i keeps the unique indexes. */
  lemma SetStatusKeepsWellFormed(records: seq<Record>, i: nat, status: string)
    requires LedgerWellFormed(records) && i < |records|
    ensures LedgerWellFormed(records[i := records[i].(status := status)])
  {
    var after := records[i := records[i].(status := status)];
    assert forall k :: 0 <= k < |after| ==>
      after[k].id == records[k].id && after[k].userId == records[k].userId && after[k].date == records[k].date;
  }

  /** The `Attendance` collection. */
  class AttendanceStore {
    var records: seq<Record>

    ghost predicate Valid()
      reads this
    {
      LedgerWellFormed(records)
    }

    constructor ()
      ensures Valid() && records == []
    {
      records := [];
    }

    /** `record.save()` for a new record; `users` is the `User` collection the
     *  pre-save hook reads. */
    method Insert(rec: Record, users: seq<User>) returns (ok: bool)
      requires Valid()
      modifies this
      ensures Valid()
      ensures ok == CanInsertRecord(old(records), users, rec)
      ensures records == if ok then old(records) + [rec] else old(records)
    {
      ok := CanInsertRecord(records, users, rec);
      if ok {
        records := records + [rec];
      }
    }

    /** `record.status = status; await record.save()` on the record at index i. */
    method Resave(i: nat, status: string, users: seq<User>) returns (ok: bool)
      requires Valid() && i < |records|
      modifies this
      ensures Valid()
      ensures ok == CanResave(users, old(records)[i].(status := status))
      ensures records == if ok then old(records)[i := old(records)[i].(status := status)] else old(records)
    {
      ok := CanResave(users, records[i].(status := status));
      if ok {
        SetStatusKeepsWellFormed(records, i, status);
        records := records[i := records[i].(status := status)];
      }
    }

    /** `findOneAndUpdate(filter, { status })` on the record at index i: an
     *  update query, which runs neither the validators nor the save hooks. */
    method UpdateStatus(i: nat, status: string)
      requires Valid() && i < |records|
      modifies this
      ensures Valid()
      ensures records == old(records)[i := old(records)[i].(status := status)]
    {
      SetStatusKeepsWellFormed(records, i, status);
      records := records[i := records[i].(status := status)];
    }

    /** `deleteOne` / `findOneAndDelete` of the record at index i. */
    method RemoveRecord(i: nat)
      requires Valid() && i < |records|
      modifies this
      ensures Valid()
      ensures records == RemoveAt(old(records), i)
    {
      records := RemoveAt(records, i);
    }
  }
}
