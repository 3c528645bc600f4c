/** The public routes of backend/routes/auth.js: student self-registration,
 *  the two password-setting routes, and login, which resolves the account in
 *  the `User` collection (students, admins) or in the teacher key-value store
 *  and yields the claims `{ id, role }` that the session token carries. The
 *  token itself is `jwt.sign(claims)`, whose encoding is not modelled. */
module AuthRoutes {
  import opened Common
  import opened Crypto
  import opened Middleware
  import opened UserModel
  import opened KeyValue

  /** The document a registration or an admin's add-student stores, given the
   *  value that ends up in its `password` field. */
  function StudentDocument(id: string, username: string, storedPassword: string): User {
    NewUser(id, username, storedPassword, "student", Some(true))
  }

  // ------------------------------------------------------------------ register

  /** POST /register as written: the route hashes the password and the
   *  pre-save hook, seeing a new document, hashes that hash again. */
  method Register(users: UserStore, username: string, password: string, role: string, freshId: string,
                  routeSalt: Salt, hookSalt: Salt)
    returns (res: Response<string>)
    requires users.Valid()
    modifies users
    ensures users.Valid()
    ensures res == (
      if !Present(username) || !Present(password) || !Present(role) then
        Error(400, "Username, password, and role required")
      else if role != "student" then
        Error(403, "Only students can self-register. Teachers/Admins must be created by Admin.")
      else if FindUser(old(users.users), ByUsernameRole(username, "student")).Some? then
        Error(400, "Username already taken")
      else if !CanInsertUser(old(users.users), StudentDocument(freshId, username, Hash(routeSalt, password))) then
        Error(500, "Server error while registering student")
      else
        Success("Student registered successfully!"))
    ensures res.Success? ==>
              users.users == old(users.users) + [StudentDocument(freshId, username, Hash(hookSalt, Hash(routeSalt, password)))]
    ensures !res.Success? ==> users.users == old(users.users)
  {
    if !Present(username) || !Present(password) || !Present(role) {
      return Error(400, "Username, password, and role required");
    }
    if role != "student" {
      return Error(403, "Only students can self-register. Teachers/Admins must be created by Admin.");
    }
    var existing := FindUser(users.users, ByUsernameRole(username, "student"));
    if existing.Some? {
      return Error(400, "Username already taken");
    }
    var hashed := Hash(routeSalt, password);
    var newStudent := StudentDocument(freshId, username, hashed);
    var saved := users.Insert(newStudent, hookSalt);
    if !saved {
      return Error(500, "Server error while registering student");
    }
    res := Success("Student registered successfully!");
  }

  /** POST /register as evidently intended: the plaintext goes to the document
   *  and the pre-save hook hashes it once. */
  method RegisterCorrected(users: UserStore, username: string, password: string, role: string, freshId: string,
                           hookSalt: Salt)
    returns (res: Response<string>)
    requires users.Valid()
    modifies users
    ensures users.Valid()
    ensures res == (
      if !Present(username) || !Present(password) || !Present(role) then
        Error(400, "Username, password, and role required")
      else if role != "student" then
        Error(403, "Only students can self-register. Teachers/Admins must be created by Admin.")
      else if FindUser(old(users.users), ByUsernameRole(username, "student")).Some? then
        Error(400, "Username already taken")
      else if !CanInsertUser(old(users.users), StudentDocument(freshId, username, password)) then
        Error(500, "Server error while registering student")
      else
        Success("Student registered successfully!"))
    ensures res.Success? ==>
              users.users == old(users.users) + [StudentDocument(freshId, username, Hash(hookSalt, password))]
    ensures !res.Success? ==> users.users == old(users.users)
  {
    if !Present(username) || !Present(password) || !Present(role) {
      return Error(400, "Username, password, and role required");
    }
    if role != "student" {
      return Error(403, "Only students can self-register. Teachers/Admins must be created by Admin.");
    }
    var existing := FindUser(users.users, ByUsernameRole(username, "student"));
    if existing.Some? {
      return Error(400, "Username already taken");
    }
    var newStudent := StudentDocument(freshId, username, password);
    var saved := users.Insert(newStudent, hookSalt);
    if !saved {
      return Error(500, "Server error while registering student");
    }
    res := Success("Student registered successfully!");
  }

  // ----------------------------------------------------------- password routes

  /** The collection after `user.password = value; user.save()` on document i. */
  function PasswordSet(users: seq<User>, i: nat, value: string, salt: Salt): seq<User>
    requires i < |users|
  {
    users[i := users[i].(password := PreSave(false, users[i].password, value, salt))]
  }

  /** POST /forgot-password as written: the route assigns a hash, and the hook
   *  hashes it again because the field was modified. */
  method ForgotPassword(users: UserStore, username: string, newPassword: string, routeSalt: Salt, hookSalt: Salt)
    returns (res: Response<string>)
    requires users.Valid()
    modifies users
    ensures users.Valid()
    ensures res == (
      if !Present(username) || !Present(newPassword) then
        Error(400, "Username and new password are required")
      else if FindUserIndex(old(users.users), ByUsername(username)).None? then
        Error(404, "User not found")
      else
        Success("Password updated successfully!"))
    ensures res.Success? ==>
              users.users == PasswordSet(old(users.users), FindUserIndex(old(users.users), ByUsername(username)).value,
                                         Hash(routeSalt, newPassword), hookSalt)
    ensures !res.Success? ==> users.users == old(users.users)
  {
    if !Present(username) || !Present(newPassword) {
      return Error(400, "Username and new password are required");
    }
    var user := FindUserIndex(users.users, ByUsername(username));
    if user.None? {
      return Error(404, "User not found");
    }
    var hashed := Hash(routeSalt, newPassword);
    var saved := users.SetPassword(user.value, hashed, hookSalt);
    res := Success("Password updated successfully!");
  }

  /** POST /forgot-password as evidently intended: the plaintext is assigned and
   *  the hook hashes it once. */
  method ForgotPasswordCorrected(users: UserStore, username: string, newPassword: string, hookSalt: Salt)
    returns (res: Response<string>)
    requires users.Valid()
    modifies users
    ensures users.Valid()
    ensures res == (
      if !Present(username) || !Present(newPassword) then
        Error(400, "Username and new password are required")
      else if FindUserIndex(old(users.users), ByUsername(username)).None? then
        Error(404, "User not found")
      else
        Success("Password updated successfully!"))
    ensures res.Success? ==>
              users.users == PasswordSet(old(users.users), FindUserIndex(old(users.users), ByUsername(username)).value,
                                         newPassword, hookSalt)
    ensures !res.Success? ==> users.users == old(users.users)
  {
    if !Present(username) || !Present(newPassword) {
      return Error(400, "Username and new password are required");
    }
    var user := FindUserIndex(users.users, ByUsername(username));
    if user.None? {
      return Error(404, "User not found");
    }
    var saved := users.SetPassword(user.value, newPassword, hookSalt);
    res := Success("Password updated successfully!");
  }

  /** POST /reset-password: the plaintext is assigned and the hook hashes it. */
  method ResetPassword(users: UserStore, username: string, newPassword: string, hookSalt: Salt)
    returns (res: Response<string>)
    requires users.Valid()
    modifies users
    ensures users.Valid()
    ensures res == (
      if !Present(username) || !Present(newPassword) then
        Error(400, "Username and new password required")
      else if FindUserIndex(old(users.users), ByUsername(username)).None? then
        Error(404, "User not found")
      else
        Success("Password updated successfully"))
    ensures res.Success? ==>
              users.users == PasswordSet(old(users.users), FindUserIndex(old(users.users), ByUsername(username)).value,
                                         newPassword, hookSalt)
    ensures !res.Success? ==> users.users == old(users.users)
  {
    if !Present(username) || !Present(newPassword) {
      return Error(400, "Username and new password required");
    }
    var user := FindUserIndex(users.users, ByUsername(username));
    if user.None? {
      return Error(404, "User not found");
    }
    var saved := users.SetPassword(user.value, newPassword, hookSalt);
    res := Success("Password updated successfully");
  }

  /** Only the password field of the one document changes. */
  lemma PasswordSetChangesOnlyPassword(users: seq<User>, i: nat, value: string, salt: Salt)
    requires UsersWellFormed(users) && i < |users| && value != ""
    ensures UsersWellFormed(PasswordSet(users, i, value, salt))
    ensures |PasswordSet(users, i, value, salt)| == |users|
    ensures forall k :: 0 <= k < |users| && k != i ==> PasswordSet(users, i, value, salt)[k] == users[k]
    ensures PasswordSet(users, i, value, salt)[i] == users[i].(password := PasswordSet(users, i, value, salt)[i].password)
    ensures value != users[i].password ==> PasswordSet(users, i, value, salt)[i].password == Hash(salt, value)
  {
  }

  // --------------------------------------------------------------------- login

  /** The decision POST /login takes, given both stores; `now` is the clock the
   *  teacher path falls back to for a missing id. */
  function ResolveLogin(users: seq<User>, teachers: map<string, KvValue>, username: string, password: string,
                        role: string, now: nat): (r: Response<Claims>)
    ensures r.Success? ==> Present(username) && Present(password) && (role == "student" || role == "admin" || role == "teacher")
    ensures r.Success? && role != "teacher" ==> r.body.role == role
    ensures r.Error? ==> r.status == 400 || r.status == 401 || r.status == 500
  {
    if !Present(username) || !Present(password) || !Present(role) then
      Error(400, "Username, password, and role required")
    else if role == "student" || role == "admin" then
      match FindUser(users, ByUsernameRole(username, role))
      case None => Error(401, "Invalid username or role")
      case Some(u) =>
        if Compare(password, u.password) then Success(Claims(u.id, u.role))
        else Error(401, "Invalid credentials")
    else if role == "teacher" then
      match HGetAll(teachers, TeacherKey(username))
      case None => Error(500, "Server error while logging in")
      case Some(data) =>
        var stored := Field(data, "password");
        if !Present(stored) then Error(401, "Invalid teacher username")
        else if Compare(password, stored) || password == stored then
          Success(Claims(OrElse(Field(data, "id"), DecimalString(now)), OrElse(Field(data, "role"), "teacher")))
        else Error(401, "Invalid credentials")
    else
      Error(401, "Invalid credentials")
  }

  /** POST /login: builds its answer through the locals `user` and `isMatch`. */
  method Login(users: UserStore, teachers: KeyValueStore, username: string, password: string, role: string, now: nat)
    returns (res: Response<Claims>)
    ensures res == ResolveLogin(users.users, teachers.entries, username, password, role, now)
  {
    if !Present(username) || !Present(password) || !Present(role) {
      return Error(400, "Username, password, and role required");
    }
    var user: Option<Claims> := None;
    var isMatch := false;
    if role == "student" || role == "admin" {
      var found := FindUser(users.users, ByUsernameRole(username, role));
      if found.None? {
        return Error(401, "Invalid username or role");
      }
      user := Some(Claims(found.value.id, found.value.role));
      isMatch := Compare(password, found.value.password);
    } else if role == "teacher" {
      var teacherData := HGetAll(teachers.entries, TeacherKey(username));
      if teacherData.None? {
        return Error(500, "Server error while logging in");
      }
      var stored := Field(teacherData.value, "password");
      if !Present(stored) {
        return Error(401, "Invalid teacher username");
      }
      isMatch := Compare(password, stored);
      if !isMatch && password == stored {
        isMatch := true;
      }
      if isMatch {
        user := Some(Claims(OrElse(Field(teacherData.value, "id"), DecimalString(now)),
                            OrElse(Field(teacherData.value, "role"), "teacher")));
      }
    }
    if !isMatch {
      return Error(401, "Invalid credentials");
    }
    res := Success(user.value);
  }

  /** Students and admins: no document with that (username, role) gives 401;
   *  otherwise login succeeds iff the password compares equal to the stored
   *  one, and the claims are the document's id and role. */
  lemma LoginFromUserStore(users: seq<User>, teachers: map<string, KvValue>, username: string, password: string,
                           role: string, now: nat)
    requires Present(username) && Present(password) && (role == "student" || role == "admin")
    ensures FindUser(users, ByUsernameRole(username, role)).None? ==>
              ResolveLogin(users, teachers, username, password, role, now) == Error(401, "Invalid username or role")
    ensures ResolveLogin(users, teachers, username, password, role, now).Success? <==>
              (FindUser(users, ByUsernameRole(username, role)).Some? &&
               Compare(password, FindUser(users, ByUsernameRole(username, role)).value.password))
    ensures ResolveLogin(users, teachers, username, password, role, now).Success? ==>
              var u := FindUser(users, ByUsernameRole(username, role)).value;
              ResolveLogin(users, teachers, username, password, role, now).body == Claims(u.id, u.role)
              && u.username == username && u.role == role
  {
  }

  /** Teachers: a record without a password gives 401; otherwise login succeeds
   *  iff the password compares equal to the stored value or is that value
   *  verbatim, and the claims fall back to the clock and "teacher". */
  lemma LoginFromTeacherStore(users: seq<User>, teachers: map<string, KvValue>, username: string, password: string,
                              now: nat, data: map<string, string>)
    requires Present(username) && Present(password)
    requires HGetAll(teachers, TeacherKey(username)) == Some(data)
    ensures !Present(Field(data, "password")) ==>
              ResolveLogin(users, teachers, username, password, "teacher", now) == Error(401, "Invalid teacher username")
    ensures Present(Field(data, "password")) ==>
              (ResolveLogin(users, teachers, username, password, "teacher", now).Success? <==>
               (Compare(password, data["password"]) || password == data["password"]))
    ensures ResolveLogin(users, teachers, username, password, "teacher", now).Success? ==>
              ResolveLogin(users, teachers, username, password, "teacher", now).body ==
                Claims(if Present(Field(data, "id")) then data["id"] else DecimalString(now),
                       if Present(Field(data, "role")) then data["role"] else "teacher")
  {
  }

  /** Presenting the stored teacher value itself, a hash included, logs in. */
  lemma TeacherStoredValueLogsIn(users: seq<User>, teachers: map<string, KvValue>, username: string, now: nat)
    requires Present(username)
    requires TeacherKey(username) in teachers && teachers[TeacherKey(username)].HashValue?
    requires Present(Field(teachers[TeacherKey(username)].fields, "password"))
    ensures ResolveLogin(users, teachers, username, teachers[TeacherKey(username)].fields["password"], "teacher", now).Success?
  {
  }

  /** Any role other than student, admin and teacher yields 401. */
  lemma LoginOtherRoleRejected(users: seq<User>, teachers: map<string, KvValue>, username: string, password: string,
                               role: string, now: nat)
    requires Present(username) && Present(password) && Present(role)
    requires role != "student" && role != "admin" && role != "teacher"
    ensures ResolveLogin(users, teachers, username, password, role, now) == Error(401, "Invalid credentials")
  {
  }

  /** The registered student as the as-written register stores it cannot log
   *  in with the password it registered with, whatever the two salts. */
  lemma {:induction false} RegisterThenLoginFails(before: seq<User>, teachers: map<string, KvValue>, id: string,
                                                  username: string, password: string, now: nat,
                                                  routeSalt: Salt, hookSalt: Salt)
    requires Present(username) && Present(password)
    requires UsersWellFormed(before + [StudentDocument(id, username, Hash(hookSalt, Hash(routeSalt, password)))])
    ensures ResolveLogin(before + [StudentDocument(id, username, Hash(hookSalt, Hash(routeSalt, password)))], teachers,
                         username, password, "student", now) == Error(401, "Invalid credentials")
  {
    var after := before + [StudentDocument(id, username, Hash(hookSalt, Hash(routeSalt, password)))];
    FindUniqueMatch(after, ByUsernameRole(username, "student"), |before|);
    DoubleHashRejects(password, routeSalt, hookSalt);
  }

  /** A student document whose password the hook hashed once (the corrected
   *  register, or an admin's add-student) logs in with that password and gets
   *  its own id and the role "student". */
  lemma {:induction false} StudentHashedOnceLogsIn(before: seq<User>, teachers: map<string, KvValue>, id: string,
                                                      username: string, password: string, now: nat, salt: Salt)
    requires Present(username) && Present(password)
    requires UsersWellFormed(before + [StudentDocument(id, username, Hash(salt, password))])
    ensures ResolveLogin(before + [StudentDocument(id, username, Hash(salt, password))], teachers,
                         username, password, "student", now) == Success(Claims(id, "student"))
  {
    var after := before + [StudentDocument(id, username, Hash(salt, password))];
    FindUniqueMatch(after, ByUsernameRole(username, "student"), |before|);
    CompareOwnHash(salt, password);
  }

  /** After the as-written forgot-password the user cannot log in with the new
   *  password, even when it is the password the user already had: the route's
   *  freshly salted hash differs from the stored value, so the hook hashes it
   *  again. The one assumption is that the route's salt is not the one the
   *  stored hash carries, as a freshly drawn one is not. */
  lemma {:induction false} ForgotThenLoginFails(users: seq<User>, teachers: map<string, KvValue>, i: nat,
                                                newPassword: string, now: nat, routeSalt: Salt, hookSalt: Salt)
    requires UsersWellFormed(users) && i < |users| && Present(newPassword)
    requires !HashedWith(users[i].password, routeSalt)
    ensures ResolveLogin(PasswordSet(users, i, Hash(routeSalt, newPassword), hookSalt), teachers, users[i].username,
                         newPassword, users[i].role, now) == Error(401, "Invalid credentials")
  {
    CompareOwnHash(routeSalt, newPassword);
    HashChanges(routeSalt, newPassword);
    var after := PasswordSet(users, i, Hash(routeSalt, newPassword), hookSalt);
    PasswordSetChangesOnlyPassword(users, i, Hash(routeSalt, newPassword), hookSalt);
    FindUniqueMatch(after, ByUsernameRole(users[i].username, users[i].role), i);
    DoubleHashRejects(newPassword, routeSalt, hookSalt);
  }

  /** The case of a user who asks for the password it already has: a student
   *  stored with `Hash(s, p)` who resets to `p` with a new salt is locked out. */
  lemma ForgotSamePasswordLocksOut(users: seq<User>, teachers: map<string, KvValue>, i: nat, p: string, now: nat,
                                   s: Salt, routeSalt: Salt, hookSalt: Salt)
    requires UsersWellFormed(users) && i < |users| && Present(p)
    requires users[i].password == Hash(s, p) && routeSalt != s
    ensures ResolveLogin(users, teachers, users[i].username, p, users[i].role, now).Success?
    ensures ResolveLogin(PasswordSet(users, i, Hash(routeSalt, p), hookSalt), teachers, users[i].username,
                         p, users[i].role, now) == Error(401, "Invalid credentials")
  {
    FindUniqueMatch(users, ByUsernameRole(users[i].username, users[i].role), i);
    CompareOwnHash(s, p);
    SaltsSeparate(s, routeSalt, p, p);
    ForgotThenLoginFails(users, teachers, i, p, now, routeSalt, hookSalt);
  }

  /** After assigning the plaintext (reset-password, or the corrected
   *  forgot-password), the user logs in with the new password. */
  lemma {:induction false} PlaintextSetThenLogin(users: seq<User>, teachers: map<string, KvValue>, i: nat,
                                                 newPassword: string, now: nat, salt: Salt)
    requires UsersWellFormed(users) && i < |users| && Present(newPassword)
    requires users[i].password != newPassword
    ensures ResolveLogin(PasswordSet(users, i, newPassword, salt), teachers, users[i].username, newPassword,
                         users[i].role, now) == Success(Claims(users[i].id, users[i].role))
  {
    var after := PasswordSet(users, i, newPassword, salt);
    PasswordSetChangesOnlyPassword(users, i, newPassword, salt);
    FindUniqueMatch(after, ByUsernameRole(users[i].username, users[i].role), i);
    CompareOwnHash(salt, newPassword);
  }
}
