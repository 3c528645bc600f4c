/** The admin routes of backend/routes/admin.js: teacher accounts in the
 *  key-value store (add, list) and student accounts in the `User` collection
 *  (add, list, delete). Every route sits behind `verifyToken` and `isAdmin`. */
module AdminRoutes {
  import opened Common
  import opened Crypto
  import opened Middleware
  import opened UserModel
  import opened KeyValue
  import opened AuthRoutes

  /** `router.use(verifyToken); router.use(isAdmin)`. */
  function AdminGuard(header: Option<string>, verify: string -> Option<Claims>): (r: Access)
    ensures r.Granted? ==> Authenticate(header, verify) == Authenticated(r.user) && r.user.role == "admin"
  {
    Chain(Authenticate(header, verify), IsAdmin)
  }

  /** An admin route runs iff the token verifies and its role is "admin". */
  lemma AdminGuardGrants(header: Option<string>, verify: string -> Option<Claims>)
    ensures AdminGuard(header, verify).Granted? <==>
              Authenticate(header, verify).Authenticated? && Authenticate(header, verify).claims.role == "admin"
    ensures Authenticate(header, verify).Authenticated? && Authenticate(header, verify).claims.role != "admin" ==>
              AdminGuard(header, verify) == Denied(403, "Access denied! Admin only.")
  {
  }

  // ------------------------------------------------------------------ teachers

  /** The hash add-teacher builds for a teacher. */
  function TeacherFields(id: string, username: string, hashedPassword: string): map<string, string> {
    map["id" := id, "username" := username, "password" := hashedPassword, "role" := "teacher"]
  }

  /** POST /add-teacher: four single-field `hSet` writes on a fresh key. */
  method AddTeacher(teachers: KeyValueStore, username: string, password: string, now: nat, salt: Salt)
    returns (res: Response<string>)
    modifies teachers
    ensures res == (
      if !Present(username) || !Present(password) then Error(400, "Username and password required")
      else if TeacherKey(username) in old(teachers.entries) then Error(400, "Teacher already exists")
      else Success("Teacher added successfully (Redis)"))
    ensures res.Success? ==>
              teachers.entries == old(teachers.entries)[TeacherKey(username) :=
                                    HashValue(TeacherFields(DecimalString(now), username, Hash(salt, password)))]
    ensures !res.Success? ==> teachers.entries == old(teachers.entries)
  {
    if !Present(username) || !Present(password) {
      return Error(400, "Username and password required");
    }
    var taken := TeacherKey(username) in teachers.entries;
    if taken {
      return Error(400, "Teacher already exists");
    }
    var hashedPassword := Hash(salt, password);
    var key := TeacherKey(username);
    var id := DecimalString(now);
    var ok := teachers.HSet(key, "id", id);
    ok := teachers.HSet(key, "username", username);
    ok := teachers.HSet(key, "password", hashedPassword);
    ok := teachers.HSet(key, "role", "teacher");
    assert teachers.entries[key].fields == TeacherFields(id, username, hashedPassword);
    res := Success("Teacher added successfully (Redis)");
  }

  /** A teacher just added logs in with the password the admin gave, and gets
   *  the id add-teacher recorded and the role "teacher". */
  lemma AddedTeacherLogsIn(users: seq<User>, entries: map<string, KvValue>, username: string, password: string,
                           now: nat, later: nat, salt: Salt)
    requires Present(username) && Present(password)
    ensures ResolveLogin(users, entries[TeacherKey(username) := HashValue(TeacherFields(DecimalString(now), username, Hash(salt, password)))],
                         username, password, "teacher", later) == Success(Claims(DecimalString(now), "teacher"))
  {
    CompareOwnHash(salt, password);
  }

  /** An entry of the teacher list: `id` is left out when the hash has none. */
  datatype TeacherSummary = TeacherSummary(id: Option<string>, username: string)

  /** Whether the key holds a hash whose `username` is set. */
  predicate IsListedTeacher(entries: map<string, KvValue>, key: string) {
    key in entries && entries[key].HashValue? && Present(Field(entries[key].fields, "username"))
  }

  function Summarize(fields: map<string, string>): TeacherSummary {
    TeacherSummary(OptionalField(fields, "id"), Field(fields, "username"))
  }

  /** What the loop pushes for the keys visited, in order. */
  function Listed(entries: map<string, KvValue>, keys: seq<string>): (r: seq<TeacherSummary>)
    ensures |r| <= |keys|
    ensures forall k :: 0 <= k < |r| ==> Present(r[k].username)
  {
    if keys == [] then []
    else
      var last := keys[|keys| - 1];
      Listed(entries, keys[..|keys| - 1]) +
        (if IsListedTeacher(entries, last) then [Summarize(entries[last].fields)] else [])
  }

  /** An entry is listed iff it summarizes a visited key that holds a hash
   *  with a username; no visited key gives more than one entry. */
  lemma {:induction false} ListedExact(entries: map<string, KvValue>, keys: seq<string>)
    ensures forall t :: t in Listed(entries, keys) <==>
              exists k :: k in keys && IsListedTeacher(entries, k) && t == Summarize(entries[k].fields)
  {
    if keys != [] {
      var front, last := keys[..|keys| - 1], keys[|keys| - 1];
      ListedExact(entries, front);
      assert keys == front + [last];
      forall t
        ensures t in Listed(entries, keys) <==>
                  exists k :: k in keys && IsListedTeacher(entries, k) && t == Summarize(entries[k].fields)
      {
        if t in Listed(entries, keys) && t !in Listed(entries, front) {
          assert last in keys;
        }
        if exists k :: k in keys && IsListedTeacher(entries, k) && t == Summarize(entries[k].fields) {
          var k :| k in keys && IsListedTeacher(entries, k) && t == Summarize(entries[k].fields);
          if k != last {
            assert k in front;
          }
        }
      }
    }
  }

  /** GET /teachers: visits the `teacher:*` keys in the order the store lists
   *  them, skips every key that is not a hash, and pushes `{id, username}`
   *  for each hash with a username. */
  method ListTeachers(teachers: KeyValueStore) returns (keys: seq<string>, list: seq<TeacherSummary>)
    ensures NoDuplicates(keys)
    ensures forall k :: k in keys <==> k in teachers.entries && StartsWith(k, "teacher:")
    ensures list == Listed(teachers.entries, keys)
    ensures forall t :: t in list <==>
              exists k :: k in teachers.entries && StartsWith(k, "teacher:") && IsListedTeacher(teachers.entries, k)
                          && t == Summarize(teachers.entries[k].fields)
  {
    keys := teachers.KeysWithPrefix("teacher:");
    list := [];
    for i := 0 to |keys|
      invariant list == Listed(teachers.entries, keys[..i])
    {
      assert keys[..i + 1][..i] == keys[..i];
      var key := keys[i];
      var value := teachers.entries[key];
      if !value.HashValue? {
        continue;
      }
      var teacherData := value.fields;
      if Present(Field(teacherData, "username")) {
        list := list + [TeacherSummary(OptionalField(teacherData, "id"), teacherData["username"])];
      }
    }
    assert keys[..|keys|] == keys;
    ListedExact(teachers.entries, keys);
  }

  // ------------------------------------------------------------------ students

  /** POST /add-student: the plaintext goes to the document and the pre-save
   *  hook hashes it once. */
  method AddStudent(users: UserStore, username: string, password: string, freshId: string, hookSalt: Salt)
    returns (res: Response<string>)
    requires users.Valid()
    modifies users
    ensures users.Valid()
    ensures res == (
      if !Present(username) || !Present(password) then
        Error(400, "Username and password required")
      else if FindUser(old(users.users), ByUsernameRole(username, "student")).Some? then
        Error(400, "Student already exists")
      else if !CanInsertUser(old(users.users), StudentDocument(freshId, username, password)) then
        Error(500, "Server error while adding student")
      else
        Success("Student added successfully (MongoDB)"))
    ensures res.Success? ==>
              users.users == old(users.users) + [StudentDocument(freshId, username, Hash(hookSalt, password))]
    ensures !res.Success? ==> users.users == old(users.users)
  {
    if !Present(username) || !Present(password) {
      return Error(400, "Username and password required");
    }
    var existing := FindUser(users.users, ByUsernameRole(username, "student"));
    if existing.Some? {
      return Error(400, "Student already exists");
    }
    var student := StudentDocument(freshId, username, password);
    var saved := users.Insert(student, hookSalt);
    if !saved {
      return Error(500, "Server error while adding student");
    }
    res := Success("Student added successfully (MongoDB)");
  }

  /** GET /students: every student, without the password field. */
  function ListStudents(users: seq<User>): (r: seq<PublicUser>)
    ensures |r| == |Students(users)|
    ensures forall p :: p in r <==> exists u :: u in users && u.role == "student" && p == WithoutPassword(u)
  {
    var students := Students(users);
    var r := seq(|students|, k requires 0 <= k < |students| => WithoutPassword(students[k]));
    assert forall p :: p in r ==> exists u :: u in users && u.role == "student" && p == WithoutPassword(u) by {
      forall p | p in r
        ensures exists u :: u in users && u.role == "student" && p == WithoutPassword(u)
      {
        var k :| 0 <= k < |r| && r[k] == p;
        assert students[k] in students;
      }
    }
    assert forall u :: u in users && u.role == "student" ==> WithoutPassword(u) in r by {
      forall u | u in users && u.role == "student"
        ensures WithoutPassword(u) in r
      {
        var k :| 0 <= k < |students| && students[k] == u;
        assert r[k] == WithoutPassword(u);
      }
    }
    r
  }

  /** DELETE /students/:id: removes the document with that `_id` whatever its
   *  role, admins included. */
  method DeleteStudent(users: UserStore, id: string) returns (res: Response<string>)
    requires users.Valid()
    modifies users
    ensures users.Valid()
    ensures res == (if FindUser(old(users.users), ById(id)).None? then Error(404, "Student not found")
                    else Success("Student deleted successfully"))
    ensures users.users == match FindUserIndex(old(users.users), ById(id))
                           case None => old(users.users)
                           case Some(i) => RemoveAt(old(users.users), i)
  {
    var result := users.DeleteById(id);
    if result.None? {
      return Error(404, "Student not found");
    }
    res := Success("Student deleted successfully");
  }

  /** Deleting document i of a well-formed collection removes exactly the
   *  document with its id and keeps every other one. */
  lemma DeleteRemovesOnlyThatId(users: seq<User>, i: nat)
    requires UsersWellFormed(users) && i < |users|
    ensures forall u :: u in RemoveAt(users, i) <==> u in users && u.id != users[i].id
  {
    var after := RemoveAt(users, i);
    forall u | u in users && u.id != users[i].id
      ensures u in after
    {
      var k :| 0 <= k < |users| && users[k] == u;
      assert k != i;
      if k < i {
        assert after[k] == u;
      } else {
        assert after[k - 1] == u;
      }
    }
  }
}
