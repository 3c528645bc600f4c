/** The `User` collection of backend/models/user.js: students and admins, with
 *  the schema's required fields, the role enum, the unique username index,
 *  the `isApproved` default, the pre-save hook that hashes a modified
 *  password, and `comparePassword`. The collection is a sequence in natural
 *  (insertion) order. */
module UserModel {
  import opened Common
  import opened Crypto

  datatype User = User(id: string, username: string, password: string, role: string,
                       isApproved: bool, rollNo: Option<string>, classId: Option<string>)

  /** A user document as `.select('-password')` returns it. */
  datatype PublicUser = PublicUser(id: string, username: string, role: string,
                                   isApproved: bool, rollNo: Option<string>, classId: Option<string>)

  function WithoutPassword(u: User): PublicUser {
    PublicUser(u.id, u.username, u.role, u.isApproved, u.rollNo, u.classId)
  }

  /** The role enum of the schema; "teacher" is not a value of it. */
  predicate ValidRole(role: string) {
    role == "admin" || role == "student"
  }

  /** `new User({ ... })`: `isApproved` takes the schema default false when the
   *  caller gives none; `rollNo` and `classId` are unset. */
  function NewUser(id: string, username: string, password: string, role: string,
                   isApproved: Option<bool>): (u: User)
    ensures u.isApproved <==> isApproved == Some(true)
    ensures isApproved.None? ==> !u.isApproved
    ensures u.id == id && u.username == username && u.password == password && u.role == role
    ensures u.rollNo.None? && u.classId.None?
  {
    User(id, username, password, role, isApproved.GetOr(false), None, None)
  }

  /** The state every saved collection is in: unique `_id`s, unique usernames
   *  whatever the role, a role from the enum and the required fields set. */
  predicate UsersWellFormed(users: seq<User>) {
    && (forall i, j :: 0 <= i < j < |users| ==> users[i].id != users[j].id)
    && (forall i, j :: 0 <= i < j < |users| ==> users[i].username != users[j].username)
    && (forall i :: 0 <= i < |users| ==>
          ValidRole(users[i].role) && users[i].id != "" && users[i].username != "" && users[i].password != "")
  }

  /** Whether `save()` of a new document succeeds: the required validators, the
   *  role enum and the unique indexes on `_id` and `username`. */
  predicate CanInsertUser(users: seq<User>, doc: User) {
    && doc.id != "" && doc.username != "" && doc.password != "" && ValidRole(doc.role)
    && forall i :: 0 <= i < |users| ==> users[i].id != doc.id && users[i].username != doc.username
  }

  /** The pre-save hook: the password that ends up stored, given whether the
   *  document is new, the password persisted before, the value assigned to
   *  the field and the salt `bcrypt.hash` draws. A new document counts as
   *  modified; an existing one is modified when the assigned value differs
   *  from the persisted one. */
  function PreSave(isNew: bool, persisted: string, newValue: string, salt: Salt): (stored: string)
    ensures isNew || newValue != persisted ==> Compare(newValue, stored) && HashedWith(stored, salt)
    ensures !(isNew || newValue != persisted) ==> stored == persisted
    ensures newValue != "" ==> stored != ""
  {
    CompareOwnHash(salt, newValue);
    HashChanges(salt, newValue);
    if isNew || newValue != persisted then Hash(salt, newValue) else newValue
  }

  /** The hook stores the hash of the assigned value iff the field was
   *  modified, and leaves the value untouched otherwise. */
  lemma PreSaveHashesIffModified(isNew: bool, persisted: string, newValue: string, salt: Salt)
    ensures PreSave(isNew, persisted, newValue, salt) == Hash(salt, newValue) <==> (isNew || newValue != persisted)
    ensures !(isNew || newValue != persisted) ==> PreSave(isNew, persisted, newValue, salt) == persisted
  {
    HashChanges(salt, newValue);
  }

  /** `user.comparePassword(candidate)`: the stored value is the hash of the
   *  candidate under some salt. */
  function ComparePassword(u: User, candidate: string): (b: bool)
    ensures b <==> exists salt: Salt :: u.password == Hash(salt, candidate)
  {
    CompareMeansHashed(candidate, u.password);
    Compare(candidate, u.password)
  }

  /** After the hook hashed a password, exactly that password compares equal. */
  lemma ComparePasswordAfterHash(u: User, candidate: string, salt: Salt, p: string)
    ensures ComparePassword(u.(password := Hash(salt, p)), candidate) <==> candidate == p
  {
    CompareOnlyOwnHash(candidate, salt, p);
  }

  /** The query filters the routes pass to `findOne`, `findById` and
   *  `findByIdAndDelete`. */
  datatype UserFilter = ById(id: string) | ByUsername(username: string) | ByUsernameRole(name: string, role: string)

  predicate UserMatches(u: User, f: UserFilter) {
    match f
    case ById(id) => u.id == id
    case ByUsername(name) => u.username == name
    case ByUsernameRole(name, role) => u.username == name && u.role == role
  }

  /** Index of the first document in natural order that matches. */
  function FindUserIndex(users: seq<User>, f: UserFilter): (r: Option<nat>)
    ensures r.Some? ==> r.value < |users| && UserMatches(users[r.value], f)
    ensures r.Some? ==> forall j :: 0 <= j < r.value ==> !UserMatches(users[j], f)
    ensures r.None? <==> forall j :: 0 <= j < |users| ==> !UserMatches(users[j], f)
  {
    if users == [] then None
    else if UserMatches(users[0], f) then Some(0)
    else
      match FindUserIndex(users[1..], f)
      case None => None
      case Some(k) => Some(k + 1)
  }

  function FindUser(users: seq<User>, f: UserFilter): Option<User> {
    match FindUserIndex(users, f)
    case None => None
    case Some(i) => Some(users[i])
  }

  /** `User.find({ role: 'student' })` in natural order. */
  function Students(users: seq<User>): (r: seq<User>)
    ensures |r| <= |users|
    ensures forall u :: u in r <==> u in users && u.role == "student"
    ensures forall k :: 0 <= k < |r| ==> r[k].role == "student"
  {
    if users == [] then []
    else (if users[0].role == "student" then [users[0]] else []) + Students(users[1..])
  }

  /** The student listing keeps natural order: over two stretches of the
   *  collection it is the listing of the first followed by that of the
   *  second. */
  lemma {:induction false} StudentsConcat(a: seq<User>, b: seq<User>)
    ensures Students(a + b) == Students(a) + Students(b)
  {
    if a == [] {
      assert a + b == b;
    } else {
      assert (a + b)[0] == a[0];
      assert (a + b)[1..] == a[1..] + b;
      StudentsConcat(a[1..], b);
    }
  }

  /** In a well-formed collection a filter on `_id` or on the username matches
   *  at most one document, so `findOne` has only one choice. */
  lemma FindUniqueMatch(users: seq<User>, f: UserFilter, i: nat)
    requires UsersWellFormed(users)
    requires i < |users| && UserMatches(users[i], f)
    ensures FindUserIndex(users, f) == Some(i)
    ensures FindUser(users, f) == Some(users[i])
  {
    var r := FindUserIndex(users, f);
    assert r.Some?;
  }

  /** `student.save()` (or any new document) on a well-formed collection keeps it
   *  well-formed. */
  lemma InsertKeepsWellFormed(users: seq<User>, doc: User, salt: Salt)
    requires UsersWellFormed(users) && CanInsertUser(users, doc)
    ensures UsersWellFormed(users + [doc.(password := PreSave(true, "", doc.password, salt))])
  {
  }

  /** The `User` collection. */
  class UserStore {
    var users: seq<User>

    ghost predicate Valid()
      reads this
    {
      UsersWellFormed(users)
    }

    constructor ()
      ensures Valid() && users == []
    {
      users := [];
    }

    /** `doc.save()` for a new document: validation and the unique indexes
     *  decide whether it is stored; the pre-save hook hashes its password. */
    method Insert(doc: User, salt: Salt) returns (ok: bool)
      requires Valid()
      modifies this
      ensures Valid()
      ensures ok == CanInsertUser(old(users), doc)
      ensures users == if ok then old(users) + [doc.(password := PreSave(true, "", doc.password, salt))]
                       else old(users)
    {
      ok := CanInsertUser(users, doc);
      if ok {
        InsertKeepsWellFormed(users, doc, salt);
        users := users + [doc.(password := PreSave(true, "", doc.password, salt))];
      }
    }

    /** `user.password = newValue; await user.save()` on the stored document at
     *  index i; the required validator refuses an empty value. */
    method SetPassword(i: nat, newValue: string, salt: Salt) returns (ok: bool)
      requires Valid() && i < |users|
      modifies this
      ensures Valid()
      ensures ok == (newValue != "")
      ensures users == if ok then old(users)[i := old(users)[i].(password := PreSave(false, old(users)[i].password, newValue, salt))]
                       else old(users)
    {
      ok := newValue != "";
      if ok {
        var stored := PreSave(false, users[i].password, newValue, salt);
        users := users[i := users[i].(password := stored)];
      }
    }

    /** `User.findByIdAndDelete(id)`: removes the document with that id, whatever
     *  its role, and returns it. */
    method DeleteById(id: string) returns (deleted: Option<User>)
      requires Valid()
      modifies this
      ensures Valid()
      ensures deleted == FindUser(old(users), ById(id))
      ensures users == match FindUserIndex(old(users), ById(id))
                       case None => old(users)
                       case Some(i) => RemoveAt(old(users), i)
    {
      var i := FindUserIndex(users, ById(id));
      deleted := FindUser(users, ById(id));
      if i.Some? {
        users := RemoveAt(users, i.value);
      }
    }
  }
}
