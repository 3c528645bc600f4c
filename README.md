# Attendance backend — a verified model

This project models the server core of a real-time attendance system: an
Express backend whose state lives in three stores.

- The `User` collection (MongoDB) is a sequence of documents in natural order.
  It holds students and admins.
- The teacher accounts (Redis) are a map from key to value. A key
  `teacher:<username>` holds a hash of string fields.
- The `Attendance` collection (MongoDB) is a sequence of records
  `{id, userId, date, status}`. The date is an integer.

The model covers five parts:

- **Authorization middleware.** Parsing the `authorization` header, the outcome
  of token verification, and the three role gates.
- **Public account routes.** Register, forgot-password, reset-password and
  login across both account stores.
- **Admin routes.** Add and list teachers; add, list and delete students.
- **Teacher routes.** The roster with today's status, marking attendance,
  deleting today's record, a student's history and the daily summary.
- **Student routes.** Profile, own records, self-check-in, and update and
  delete of an owned record.

It also models the two schemas underneath them: validation, unique indexes, the
password pre-save hook and the attendance pre-save hook.

Objects the source updates in place are classes:

- `UserModel.UserStore`
- `KeyValue.KeyValueStore`
- `AttendanceModel.AttendanceStore`
- `Middleware.Request`, whose `user` field the middleware sets

Their methods state the whole new state. A route that changes a store, or
steps through one, is a method over the stores. A route that only reads and
filters, such as the profile, the student's own records or the student list,
is a function of the stores' contents. Either way it returns a `Response`:
`Success(body)`, or `Error(status, message)` carrying the status code and
message the source sends.

Everything outside the program is abstract:

- **Hashing.** bcrypt is `Crypto.Hash(salt, p)`: the prefix `$2b$10$`, a
  22-character salt, and then the plaintext in place of the digest. Every place
  that hashes (the pre-save hook, the register and forgot-password routes,
  add-teacher) receives its salt as a parameter, as a fresh random value would
  arrive. `Crypto.Compare(c, h)` holds exactly when `h` is `Hash(s, c)` for
  some salt `s`. The model uses five facts, each a lemma of `Crypto`: a
  password compares equal to its own hash under any salt; it compares equal to
  the hash of no other password; a hash is never its plaintext and never
  empty; hashes with different salts differ; and a password never matches the
  hash of its hash.
- **Tokens.** JWT verification is a function parameter
  `verify: string -> Option<Claims>`. Login returns the claims `{id, role}`
  that the token would carry.
- **Time.** The clock is a parameter `now`. Today's window `[start, end]` is
  two integers with `start <= now <= end`, and both ends are included.
- **Store choices.** User and record lookups (`UserModel.FindUserIndex`,
  `AttendanceModel.FindRecordIndex`) take the first match in the model's
  sequence. Under the unique indexes that match is the only one
  (`UserModel.FindUniqueMatch`, `AttendanceModel.FindOwnedUnique`), so which
  order MongoDB scans in does not matter. Only the day-window lookups of
  `TeacherRoutes.Mark` and `TeacherRoutes.DeleteToday`, which no unique index
  narrows to one record, pick any match with `:|`. The order `keys` returns is
  also a free choice.
- **New ids.** Fresh ObjectIds are parameters. A clash makes the save fail, as
  the unique index does.

A request field that is missing and one that is empty are both `""`. The source
tests both with `!x`.

## Model

| member | source | states |
|---|---|---|
| `Crypto.CompareOwnHash` | backend/models/user.js:21-23 | a password compares equal to its own hash under any salt, and the hash carries that salt |
| `Crypto.CompareMeansHashed` | backend/models/user.js:21-23 | `bcrypt.compare(c, h)` holds iff `h` is the hash of `c` under some salt |
| `Crypto.CompareOnlyOwnHash` | backend/models/user.js:21-23 | `Compare(p, Hash(s, q))` holds iff `p == q`, whatever the salt |
| `Crypto.HashChanges` | backend/models/user.js:16 | a hash never equals its plaintext and is never empty |
| `Crypto.SaltsSeparate` | backend/models/user.js:16 | hashes made with different salts differ, and carry different salts |
| `Crypto.DoubleHashRejects` | backend/routes/auth.js:115 | a password does not compare equal to the hash of its own hash, whatever the two salts |
| `Common.Split` | backend/middleware/auth.js:10 | `split(" ")` yields at least one field and no field holds the separator |
| `Common.JoinSplit` | backend/middleware/auth.js:10 | joining the fields of a split with the separator gives back the header |
| `Common.SplitJoin` | backend/middleware/auth.js:10 | splitting fields that hold no separator, joined by it, gives back the fields |
| `Common.SplitAfterPiece` | backend/middleware/auth.js:10 | the split of `piece + " " + tail` is `piece` followed by the split of `tail` |
| `Common.DecimalString` | backend/routes/auth.js:139 | the fallback id `Date.now().toString()` is a non-empty string of digits |
| `Middleware.TokenField` | backend/middleware/auth.js:10 | `authHeader.split(" ")[1]`: the second space-separated field, or undefined when there is none |
| `Middleware.Authenticate` | backend/middleware/auth.js:4-26 | the decision of `verifyToken`: success only when the header has a second field that the verifier decodes, with exactly those claims; every refusal is 400 or 401 |
| `Middleware.MissingHeaderRejected` | backend/middleware/auth.js:5-8 | a missing or empty header yields 400 "No token provided" |
| `Middleware.MalformedHeaderRejected` | backend/middleware/auth.js:10-13 | a header whose second space-separated field is absent or empty yields 400 "Invalid token format" |
| `Middleware.AuthenticateOutcome` | backend/middleware/auth.js:5-24 | a non-empty header with a token is verified: failure yields 401 "Invalid token", success yields exactly the decoded claims |
| `Middleware.SchemeIgnored` | backend/middleware/auth.js:10 | the first field is never checked: any scheme word gives the same outcome as "Bearer" |
| `Middleware.TokenAfterScheme` | backend/middleware/auth.js:10 | the token is the text between the first and second space |
| `Middleware.VerifyToken` | backend/middleware/auth.js:4-26 | on success `req.user` becomes the decoded claims and the request proceeds; on every refusal `req.user` is unchanged and the refusal carries the status and message above |
| `Middleware.IsAdmin` | backend/middleware/auth.js:28-33 | `isAdmin` calls `next` iff the role is exactly "admin" |
| `Middleware.IsTeacher` | backend/middleware/auth.js:35-40 | `isTeacher` calls `next` iff the role is exactly "teacher" |
| `Middleware.IsStudent` | backend/middleware/auth.js:42-47 | `isStudent` calls `next` iff the role is exactly "student" |
| `Middleware.RoleGatesDecide` | backend/middleware/auth.js:28-47 | a gate that refuses answers 403 with its own message: "Access denied! Admin only.", "Access denied! You are not a teacher." or "Access denied! Students only." |
| `Middleware.RoleGatesExclusive` | backend/middleware/auth.js:28-47 | no role passes two of the gates |
| `Middleware.Chain` | backend/routes/admin.js:11-12 | `router.use(verifyToken); router.use(gate)`: the handler runs iff the token verifies and the gate calls `next`, with `req.user` the decoded claims; a verification refusal is passed on unchanged |
| `Middleware.TokenOnly` | backend/routes/teacher.js:10 | a route that mounts `verifyToken` alone: a verified token reaches the handler with its claims, and a refusal is passed on |
| `UserModel.WithoutPassword` | backend/routes/admin.js:133 | `.select('-password')`: the document with every field but the password |
| `UserModel.NewUser` | backend/models/user.js:4-11 | `isApproved` is true only when given as true, and defaults to false; `rollNo` and `classId` are unset |
| `UserModel.UsersWellFormed` | backend/models/user.js:4-11 | a saved collection: unique `_id`s and usernames, a role from the enum, and the required fields set |
| `UserModel.CanInsertUser` | backend/models/user.js:4-11 | `save()` of a new document passes the required validators, the role enum and the unique indexes |
| `UserModel.PreSave` | backend/models/user.js:14-18 | a new or modified password is stored as a hash under the drawn salt that the assigned value compares equal to; an unmodified one stays as persisted; a non-empty value never becomes empty |
| `UserModel.PreSaveHashesIffModified` | backend/models/user.js:14-18 | the hook stores `Hash(salt, value)` iff the document is new or the password changed, and otherwise leaves it as it was |
| `UserModel.ComparePassword` | backend/models/user.js:21-23 | `comparePassword(c)` holds iff the stored password is the hash of `c` under some salt |
| `UserModel.ComparePasswordAfterHash` | backend/models/user.js:21-23 | once the hook hashed `p`, `comparePassword(c)` holds iff `c == p` |
| `UserModel.FindUserIndex` | backend/routes/auth.js:55 | the first match in the model's sequence, and none iff none matches; under the unique username index it is the only match (see `UserModel.FindUniqueMatch`) |
| `UserModel.Students` | backend/routes/admin.js:133 | `find({role: 'student'})` holds exactly the students, and no more documents than the collection |
| `UserModel.StudentsConcat` | backend/routes/admin.js:133 | the listing keeps natural order: over `a + b` it is the listing of `a` followed by that of `b` |
| `UserModel.FindUniqueMatch` | backend/models/user.js:5 | with unique ids and usernames, a lookup by id or username has one possible answer |
| `UserModel.InsertKeepsWellFormed` | backend/models/user.js:4-11 | a save that passes validation and the unique indexes keeps roles in the enum and `_id`s and usernames unique across all roles |
| `UserModel.UserStore.Insert` | backend/models/user.js:4-18 | a new document is stored iff it passes the required fields, the role enum and the unique indexes; it is stored with its password hashed once; on refusal nothing changes |
| `UserModel.UserStore.SetPassword` | backend/models/user.js:14-18 | assigning a password and saving stores what the hook makes of it; only that field of that document changes |
| `UserModel.UserStore.DeleteById` | backend/routes/admin.js:144 | `findByIdAndDelete` removes the first document with that id and returns it, or returns none and changes nothing |
| `KeyValue.HGetAll` | backend/routes/auth.js:119 | a hash key reads as exactly its fields; a missing key reads as an empty hash; a key of another type is a WRONGTYPE error |
| `KeyValue.KeyValueStore.HSet` | backend/routes/admin.js:34-37 | `hSet` creates or extends the hash at the key, and fails without change on a key of another type |
| `KeyValue.KeyValueStore.KeysWithPrefix` | backend/routes/admin.js:48 | `keys('teacher:*')` holds each key with the prefix exactly once, and no other key |
| `AttendanceModel.NewRecord` | backend/models/Attendance.js:9-13 | `new Attendance({...})`: the date defaults to the creation time when none is given |
| `AttendanceModel.IsStudentId` | backend/models/Attendance.js:28-35 | the pre-save hook's test: `findById(userId)` finds a user whose role is "student" |
| `AttendanceModel.LedgerWellFormed` | backend/models/Attendance.js:3-25 | a saved collection: unique record ids, unique exact (userId, date) pairs, and the required ids set |
| `AttendanceModel.CanInsertRecord` | backend/models/Attendance.js:3-35 | `save()` of a new record passes the required fields, the status enum, both unique indexes and the pre-save hook |
| `AttendanceModel.CanResave` | backend/models/Attendance.js:14-35 | `save()` of an existing record with a new status passes the enum and the pre-save hook again |
| `AttendanceModel.IsStudentIdMeans` | backend/models/Attendance.js:28-35 | the hook's check holds only if a stored user with that id has role "student", and, with unique ids, whenever one does |
| `AttendanceModel.InsertRefusals` | backend/models/Attendance.js:21-35 | a record whose exact (userId, date) is taken is refused, and so is one whose userId is not a student |
| `AttendanceModel.SameDayDifferentInstantAccepted` | backend/models/Attendance.js:20-25 | the unique index is on the exact timestamp, so a second record on the same day at another instant is accepted |
| `AttendanceModel.SavesKeepStatusesValid` | backend/models/Attendance.js:14-18 | every save validates the status, so inserts and re-saves keep all statuses in {present, absent, late} |
| `AttendanceModel.SetStatusKeepsWellFormed` | backend/models/Attendance.js:21-25 | changing only a status keeps both unique indexes |
| `AttendanceModel.FindRecordIndex` | backend/routes/student.js:64-68 | the first record in the model's sequence matching the filter, or none iff none matches; under the unique index it is the only match (see `AttendanceModel.FindOwnedUnique`) |
| `AttendanceModel.FindOwnedUnique` | backend/routes/student.js:86-89 | with unique record ids, the id-and-owner filter has one possible answer |
| `AttendanceModel.FilterRecords` | backend/routes/teacher.js:21-23 | `find(filter)` holds exactly the matching records, and no more records than the collection |
| `AttendanceModel.FilterConcat` | backend/routes/teacher.js:21-23 | the answer keeps natural order: over `a + b` it is the answer over `a` followed by the answer over `b` |
| `AttendanceModel.FilterRemoveNonMatching` | backend/routes/teacher.js:86-89 | removing a record a query does not match leaves that query's answer unchanged |
| `AttendanceModel.FilterUpdateNonMatching` | backend/routes/student.js:64-68 | changing a record that a query matches neither before nor after leaves that query's answer unchanged |
| `AttendanceModel.InsertNewestFirstSorted` | backend/routes/teacher.js:102 | inserting into a newest-first sequence keeps it newest first |
| `AttendanceModel.SortNewestFirst` | backend/routes/teacher.js:102 | `sort({date: -1})`: newest first, with the same records as often as before |
| `AttendanceModel.History` | backend/routes/teacher.js:102 | a student's history is exactly the records with that userId, newest first, each as often as stored; the student listing at backend/routes/student.js:28-29 is the same query |
| `AttendanceModel.CountStatus` | backend/routes/teacher.js:123-127 | the number of records with a status never exceeds the number of records |
| `AttendanceModel.StatusCountsBounded` | backend/routes/teacher.js:123-128 | present + absent + late never exceeds the number of records, and equals it when every status is in the enum |
| `AttendanceModel.AttendanceStore.Insert` | backend/models/Attendance.js:3-35 | `save()` of a new record stores it iff the required fields, the enum, both unique indexes and the student check pass; otherwise nothing changes |
| `AttendanceModel.AttendanceStore.Resave` | backend/routes/teacher.js:60-62 | re-saving a record with a new status validates the status and runs the student check again; only that status changes, or nothing does |
| `AttendanceModel.AttendanceStore.UpdateStatus` | backend/routes/student.js:64-68 | `findOneAndUpdate` sets the status without validation; only that field of that record changes |
| `AttendanceModel.AttendanceStore.RemoveRecord` | backend/routes/teacher.js:86 | removes exactly that record and keeps the others in order |
| `AuthRoutes.StudentDocument` | backend/routes/auth.js:31-36 | the document register and add-student (backend/routes/admin.js:115-120) build: role "student", approved, with the given password value |
| `AuthRoutes.Register` | backend/routes/auth.js:10-44 | 400 for a missing field, 403 for a role other than "student", 400 when a student has the username, 500 when the save is refused; on success one approved student is added whose password is the hook's hash of the route's hash of `password`; otherwise nothing changes |
| `AuthRoutes.RegisterCorrected` | backend/routes/auth.js:10-44 | the same outcomes, with the password stored as one hash of `password` under the hook's salt |
| `AuthRoutes.ForgotPassword` | backend/routes/auth.js:47-69 | 400 for a missing field, 404 for an unknown username with nothing changed; otherwise the hook's treatment of the route's freshly salted hash of `newPassword` becomes that user's password |
| `AuthRoutes.ForgotPasswordCorrected` | backend/routes/auth.js:47-69 | the same outcomes, with the plaintext assigned |
| `AuthRoutes.ResetPassword` | backend/routes/auth.js:72-93 | 400 for a missing field, 404 for an unknown username; otherwise the hook's treatment of the plaintext `newPassword` becomes that user's password |
| `AuthRoutes.PasswordSet` | backend/routes/auth.js:85-86 | `user.password = value; await user.save()` on one document, as forgot-password (backend/routes/auth.js:61-62) and reset-password do it |
| `AuthRoutes.PasswordSetChangesOnlyPassword` | backend/routes/auth.js:85-86 | setting a password changes no other field and no other document, keeps the collection well formed, and stores the hook's hash of a changed value |
| `AuthRoutes.ResolveLogin` | backend/routes/auth.js:98-162 | the decision of POST /login: success only with all three fields and a role among student, admin and teacher, carrying the requested role for students and admins; every failure is 400, 401 or 500 |
| `AuthRoutes.Login` | backend/routes/auth.js:98-162 | the route's step-by-step `user`/`isMatch` computation gives the login decision, which the next four lemmas characterise |
| `AuthRoutes.LoginFromUserStore` | backend/routes/auth.js:108-115 | students and admins: 401 "Invalid username or role" without a (username, role) match; otherwise success iff the password compares equal, with claims `{id, role}` of that document |
| `AuthRoutes.LoginFromTeacherStore` | backend/routes/auth.js:117-143 | teachers: 401 when the hash has no password; otherwise success iff the password compares equal or equals the stored value verbatim; claims fall back to `Date.now()` and "teacher" |
| `AuthRoutes.TeacherStoredValueLogsIn` | backend/routes/auth.js:133-135 | presenting the stored teacher value itself, a hash included, logs in |
| `AuthRoutes.LoginOtherRoleRejected` | backend/routes/auth.js:146-148 | any role other than student, admin and teacher yields 401 "Invalid credentials" |
| `AuthRoutes.RegisterThenLoginFails` | backend/routes/auth.js:30-38 | a student stored by the as-written register cannot log in with the password they registered with |
| `AuthRoutes.StudentHashedOnceLogsIn` | backend/routes/admin.js:115-122 | a student whose password the hook hashed once (admin add-student, corrected register) logs in with it and gets their own id and role "student" |
| `AuthRoutes.ForgotThenLoginFails` | backend/routes/auth.js:60-62 | after the as-written forgot-password the user cannot log in with the new password, whatever the previous password was, given only that the route's salt is not the one in the stored hash |
| `AuthRoutes.ForgotSamePasswordLocksOut` | backend/routes/auth.js:60-62 | a user who logs in with `p` and asks forgot-password for `p` again can no longer log in with `p` |
| `AuthRoutes.PlaintextSetThenLogin` | backend/routes/auth.js:85-86 | after reset-password the user logs in with the new password and gets their own claims |
| `AdminRoutes.AdminGuard` | backend/routes/admin.js:11-12 | an admin route is reached only with a verified token whose role is "admin", and `req.user` is its claims |
| `AdminRoutes.AdminGuardGrants` | backend/routes/admin.js:11-12 | an admin route runs iff the token verifies with role "admin"; any other verified role gets 403 |
| `AdminRoutes.AddTeacher` | backend/routes/admin.js:16-44 | 400 for a missing field, 400 when the key exists, both with the store unchanged; otherwise only the key `teacher:<username>` changes, to the hash {id: now, username, password: the hash of `password` under the drawn salt, role: "teacher"} |
| `AdminRoutes.AddedTeacherLogsIn` | backend/routes/admin.js:30-37 | a teacher just added logs in with the given password, with the recorded id and role "teacher" |
| `AdminRoutes.Listed` | backend/routes/admin.js:51-65 | what the loop pushes for the keys visited: no more entries than keys, each with a non-empty username |
| `AdminRoutes.ListedExact` | backend/routes/admin.js:51-65 | the list holds exactly the visited keys that are hashes with a username, each projected to {id, username} |
| `AdminRoutes.ListTeachers` | backend/routes/admin.js:46-72 | the loop with `continue` returns the listing of the `teacher:*` keys: exactly the hashes with a non-empty username, projected to {id, username} |
| `AdminRoutes.AddStudent` | backend/routes/admin.js:103-128 | 400 for a missing field, 400 when a student has the username, 500 when the save is refused; on success one approved student is added with its password hashed once; otherwise nothing changes |
| `AdminRoutes.ListStudents` | backend/routes/admin.js:131-139 | every user with role "student", and nothing else, without the password field |
| `AdminRoutes.DeleteStudent` | backend/routes/admin.js:142-155 | 404 with nothing changed when no user has the id; otherwise that user is removed whatever its role |
| `AdminRoutes.DeleteRemovesOnlyThatId` | backend/routes/admin.js:144 | after the delete the collection holds exactly the users with a different id |
| `TeacherRoutes.TeacherGuard` | backend/routes/teacher.js:5-10 | a teacher route is reached only with a verified token, and `req.user` is its claims |
| `TeacherRoutes.TeacherGuardAnyRole` | backend/routes/teacher.js:5-10 | teacher routes admit every verified token, whatever its role |
| `TeacherRoutes.TeacherGuardCorrected` | backend/middleware/auth.js:35-40 | the guard the teacher routes evidently call for: `verifyToken` followed by `isTeacher` |
| `TeacherRoutes.TeacherGuardCorrectedGrants` | backend/middleware/auth.js:35-40 | with `isTeacher` added, only a token with role "teacher" is admitted |
| `TeacherRoutes.StatusMap` | backend/routes/teacher.js:25-28 | `attendanceMap` after the `forEach`, each record's status assigned in turn; what it then holds is stated by `TeacherRoutes.StatusMapLast` |
| `TeacherRoutes.StatusMapLast` | backend/routes/teacher.js:25-28 | the map holds a student iff some visited record is theirs, and then the status of their last one in iteration order |
| `TeacherRoutes.TodayStatus` | backend/routes/teacher.js:34 | `attendanceMap[id]`, or null when falsy: a missing entry and an empty status both give null |
| `TeacherRoutes.Roster` | backend/routes/teacher.js:10-42 | one entry per student in store order, with id, username and the map's status for them, null when missing or empty |
| `TeacherRoutes.RosterStatusMeaning` | backend/routes/teacher.js:31-35 | a student with no record in the window is listed with null |
| `TeacherRoutes.MarkPost` | backend/routes/teacher.js:45-73 | the outcomes of POST /attendance: update some matching record of the window and re-save it, or add one dated now; a refused save answers 500 with nothing changed |
| `TeacherRoutes.Mark` | backend/routes/teacher.js:45-73 | with a record of the student in the window, that record's status is set and re-saved and nothing is added; without one, exactly one record (userId, status, now) is added; a refused save answers 500 and changes nothing |
| `TeacherRoutes.MarkOnceLeavesOne` | backend/routes/teacher.js:55-66 | with at most one record in the window before, a successful mark leaves exactly one, carrying the new status |
| `TeacherRoutes.MarkTwiceLeavesLast` | backend/routes/teacher.js:55-66 | marking s1 and then s2 leaves exactly one record of the student in the window, with status s2 |
| `TeacherRoutes.DeletePost` | backend/routes/teacher.js:76-96 | the outcomes of DELETE /attendance/:studentId: one record of the student in the window is removed, or none when there is none, and the answer is success |
| `TeacherRoutes.DeleteToday` | backend/routes/teacher.js:76-96 | removes one record of the student in the window, or nothing when there is none, and always answers success |
| `TeacherRoutes.DeleteTodayKeepsOthers` | backend/routes/teacher.js:86-89 | at most one record disappears; every other student's records, and the student's records outside the window, remain |
| `TeacherRoutes.DeleteTodayClears` | backend/routes/teacher.js:86-89 | with at most one record in the window before, none is left |
| `TeacherRoutes.Summary` | backend/routes/teacher.js:111-135 | the loop's counters are the numbers of today's records with each status; their sum is at most today's count, and equal to it when all statuses are valid |
| `StudentRoutes.StudentGuard` | backend/routes/student.js:8-9 | a student route is reached only with a verified token whose role is "student", and `req.user` is its claims |
| `StudentRoutes.StudentGuardGrants` | backend/routes/student.js:8-9 | a student route runs iff the token verifies with role "student"; any other verified role gets 403 |
| `StudentRoutes.Profile` | backend/routes/student.js:12-23 | 404 unless the user with the token's id is a student; otherwise that user without the password |
| `StudentRoutes.ProfileFound` | backend/routes/student.js:14-18 | in a well-formed collection the profile is the student with the token's id, and 404 for a non-student |
| `StudentRoutes.OwnRecords` | backend/routes/student.js:26-35 | exactly the caller's records, newest first |
| `StudentRoutes.CheckIn` | backend/routes/student.js:38-56 | 400 "Status is required" without a status; otherwise one record (token id, status, now) is added with no same-day check, or 500 with nothing changed when the save is refused |
| `StudentRoutes.UpdateOwn` | backend/routes/student.js:59-79 | 404 with nothing changed unless a record has both the id and the caller as owner; otherwise only that record's status changes, to any string |
| `StudentRoutes.UpdateOwnValidated` | backend/routes/student.js:59-79 | the corrected update (status checked against the enum once the owned record is found): the same, except that a status outside the enum answers 500 and changes nothing |
| `StudentRoutes.UpdateOwnKeepsOthers` | backend/routes/student.js:64-68 | the record updated is the caller's own, and no other student's records change |
| `StudentRoutes.UpdateOwnBreaksEnum` | backend/routes/student.js:64-68 | a concrete valid ledger in which the as-written update stores a status outside the enum |
| `StudentRoutes.UpdateOwnValidatedKeepsEnum` | backend/models/Attendance.js:14-18 | with the status checked against the enum, an update keeps every status in the enum |
| `StudentRoutes.DeleteOwn` | backend/routes/student.js:82-100 | 404 with nothing changed unless a record has both the id and the caller as owner; otherwise exactly that record is removed |
| `StudentRoutes.DeleteOwnKeepsOthers` | backend/routes/student.js:86-89 | the record removed is the caller's own, and no other student's records change |

## Left out

- Express plumbing is not part of this model: app setup, database and Redis connections, static hosting, logging, and the number of times `next` is called. Each gate either proceeds once (`Next`, `Granted`) or answers.
- The browser-side `deleteTeacher` snippet at backend/routes/admin.js:76-97 is not modelled. It is client code, not a route.
- The bcrypt cost factor and digest are not modelled: a hash carries the plaintext where bcrypt carries a 31-character digest. bcryptjs `compare` answers false (or, for a bad salt, throws) on any stored value that is not a 60-character hash; the model's `Compare` decides by the prefix, the salt length and the remainder instead.
- `Crypto.CompareOnlyOwnHash`: the model's `Compare` looks at the whole password. bcrypt looks only at the first 72 bytes of its UTF-8 encoding, so there two passwords sharing those bytes compare equal against each other's hash. `Crypto.CompareMeansHashed` and `UserModel.ComparePassword` hold as stated.
- `UserModel.ComparePasswordAfterHash`: the same 72-byte gap. After the hook hashed `p`, bcrypt also accepts any candidate whose first 72 UTF-8 bytes equal those of `p`; the model accepts only `p` itself.
- Request-body fields are taken to be strings. `express.json()` passes any JSON value: a non-string password makes `bcrypt.hash` throw (a 500 at backend/routes/auth.js:30 and :60, backend/routes/admin.js:30 and backend/models/user.js:16), and an object such as `{"$ne": null}` as `username` becomes a query operator in `User.findOne({ username })` (backend/routes/auth.js:55, :80, :110). Non-string JSON values, filter-operator objects and the 500s they cause are not modelled.
- `AuthRoutes.LoginFromTeacherStore`: a legacy plaintext teacher password of the form `$2b$10$` + 22 characters + `x` accepts the password `x` in the model. bcryptjs accepts it only if it is a real hash of `x`. Shorter or differently shaped legacy values behave as in the source.
- JWT signing, the secret and expiry are not modelled. Verification is the `verify` parameter; login returns the claims instead of the signed token.
- Local-time day arithmetic (`setHours`) is not modelled. The window bounds are inputs.
- Store failures other than the ones modelled are left out: lost connections, timeouts and ObjectId cast errors, each of which answers 500. The modelled 500s are refused saves and WRONGTYPE.
- Races between concurrent requests are left out. Every route runs on its own, one store call after another.
- A missing `userId` in a mark request is modelled as the empty string. Mongoose drops an undefined filter key, so the real query would match any record in the window; the model instead finds none and refuses the insert with 500.
- A missing `status` in the student PUT is modelled as the empty string being stored. Depending on the Mongoose version, an undefined value is dropped from the update instead.
- `KeyValue.KeyValueStore.KeysWithPrefix`: the order of `keys` is a free choice. This is not a claim about the order Redis uses.
- `Crypto.Hash`: salts are parameters, not random draws. `AuthRoutes.ForgotThenLoginFails` assumes the route's salt is not the one already in the stored hash, which a freshly drawn 16-byte salt is not except with negligible probability.
- `AttendanceModel.FilterRecords`: dates are integers and today's window is inclusive at both ends. Date casting and time zones are not modelled.

## Findings

| source | as written | input that shows it | evidently intended | confidence | as-written member | corrected member |
|---|---|---|---|---|---|---|
| backend/routes/auth.js:30-38 | register hashes the password, then the pre-save hook hashes the hash (backend/models/user.js:14-18) | register "ann"/"pw" as a student, then log in as "ann"/"pw"/"student": 401 "Invalid credentials" | store the plaintext and let the hook hash it once, as add-student does | high (not executed) | `AuthRoutes.RegisterThenLoginFails` | `AuthRoutes.StudentHashedOnceLogsIn` |
| backend/routes/auth.js:60-62 | forgot-password assigns a freshly salted hash of `newPassword`, which the hook hashes again because it differs from the stored value | forgot-password for an existing user with new password "pw2" (or with the current password), then log in with it: 401 "Invalid credentials" | assign the plaintext, as reset-password does | high (not executed) | `AuthRoutes.ForgotThenLoginFails` | `AuthRoutes.PlaintextSetThenLogin` |
| backend/routes/student.js:64-68 | the student update uses `findOneAndUpdate` without `runValidators`, so the status enum is not checked | PUT `{status: "excused"}` on the caller's own record: stored | reject a status outside {present, absent, late} | medium (not executed) | `StudentRoutes.UpdateOwnBreaksEnum` | `StudentRoutes.UpdateOwnValidated` |
| backend/routes/teacher.js:5-10 | the teacher routes use `verifyToken` alone, so `isTeacher` (backend/middleware/auth.js:35-40) is never applied | a student's valid token on POST /teacher/attendance: admitted, and the student can mark anyone | chain `isTeacher` after `verifyToken` | medium (not executed) | `TeacherRoutes.TeacherGuardAnyRole` | `TeacherRoutes.TeacherGuardCorrectedGrants` |
