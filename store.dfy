/** The persistence layer, in memory: a users table and a tasks table, each in stored order,
    with the ORM's save, lookup and delete operations. */
module Database {
  import opened Wrappers
  import opened Text
  import opened Seqs
  import opened Json
  import opened External
  import opened UserModel
  import opened TaskModel
  import opened Http

  /** findById on the users table. */
  function FindUser(users: seq<User>, id: Id): (r: Option<nat>)
    ensures r.Some? ==> r.value < |users| && users[r.value].id == id
    ensures r.None? <==> forall j :: 0 <= j < |users| ==> users[j].id != id
  {
    FirstIndex(users, (u: User) => u.id == id)
  }

  /** Task.findOne({userId: owner, _id: id}): a task counts as found only if both match. */
  function FindOwnedTask(tasks: seq<Task>, owner: Id, id: Id): (r: Option<nat>)
    ensures r.Some? ==> r.value < |tasks| && tasks[r.value].id == id && tasks[r.value].userId == owner
    ensures r.None? <==> forall j :: 0 <= j < |tasks| ==> !(tasks[j].id == id && tasks[j].userId == owner)
  {
    FirstIndex(tasks, (t: Task) => t.id == id && t.userId == owner)
  }

  /** The ids of the stored documents. */
  ghost function UserIds(users: seq<User>): set<Id> {
    set u | u in users :: u.id
  }

  /** Distinct ids and emails, each user well formed. */
  ghost predicate ValidUsers(users: seq<User>, isEmail: string -> bool) {
    && (forall i, j :: 0 <= i < j < |users| ==> users[i].id != users[j].id && users[i].email != users[j].email)
    && (forall i :: 0 <= i < |users| ==> UserModel.WellFormed(users[i], isEmail))
  }

  /** Distinct ids, each task well formed and owned by one of owners. */
  ghost predicate ValidTasks(tasks: seq<Task>, owners: set<Id>) {
    && (forall i, j :: 0 <= i < j < |tasks| ==> tasks[i].id != tasks[j].id)
    && (forall i :: 0 <= i < |tasks| ==> TaskModel.WellFormed(tasks[i]) && tasks[i].userId in owners)
  }

  /** The store's invariant over its tables: valid users, tasks owned by stored users, and
      every id below the next one to hand out. */
  ghost predicate ValidState(users: seq<User>, tasks: seq<Task>, nextId: nat, isEmail: string -> bool) {
    && ValidUsers(users, isEmail)
    && ValidTasks(tasks, UserIds(users))
    && (forall i :: 0 <= i < |users| ==> users[i].id < nextId)
    && (forall i :: 0 <= i < |tasks| ==> tasks[i].id < nextId)
  }

  /** Another stored user already holds u's email. */
  predicate EmailTaken(users: seq<User>, u: User) {
    exists j :: 0 <= j < |users| && users[j].id != u.id && users[j].email == u.email
  }

  /** The stored version of the document with this id, if any. */
  function StoredUser(users: seq<User>, id: Id): Option<User> {
    match FindUser(users, id)
    case Some(i) => Some(users[i])
    case None => None
  }

  /** user.save(): every path is validated (cast errors included), then the pre-save hook
      runs, then the write, which the unique index on email refuses when another user holds
      the address. The hook changes only the password, so testing the index before it gives
      the same outcome. Ok holds the document as persisted. */
  function UserSave(users: seq<User>, u: User, castErrors: set<string>, env: Services): (r: Result<User, Fault>)
    ensures r.Err? <==> castErrors != {} || UserModel.ValidationErrors(u, env.isEmail) != {} || EmailTaken(users, u)
    ensures r.Err? && r.error.Invalid? ==> r.error.paths == castErrors + UserModel.ValidationErrors(u, env.isEmail)
    ensures r.Ok? ==> r.value == PreSave(StoredUser(users, u.id), u, env.hash)
  {
    var errors := castErrors + UserModel.ValidationErrors(u, env.isEmail);
    if errors != {} then Err(Invalid(errors))
    else if EmailTaken(users, u) then Err(DuplicateKey)
    else Ok(PreSave(StoredUser(users, u.id), u, env.hash))
  }

  /** The users table after persisting u: replaced in place, or appended when new. */
  function UpsertUser(users: seq<User>, u: User): (r: seq<User>)
    ensures FindUser(users, u.id).Some? ==> r == users[FindUser(users, u.id).value := u]
    ensures FindUser(users, u.id).None? ==> r == users + [u]
  {
    match FindUser(users, u.id)
    case Some(i) => users[i := u]
    case None => users + [u]
  }

  /** task.save(): cast errors and validation; Ok holds the task as persisted. */
  function TaskSave(t: Task, castErrors: set<string>): (r: Result<Task, Fault>)
    ensures r.Ok? <==> castErrors == {} && t.description != ""
    ensures r.Ok? ==> r.value == t
  {
    var errors := castErrors + TaskModel.ValidationErrors(t);
    if errors != {} then Err(Invalid(errors)) else Ok(t)
  }

  class Store {
    /** The collaborators, fixed when the server starts. */
    const env: Services
    var users: seq<User>
    var tasks: seq<Task>
    /** The next ObjectId to hand out. */
    var nextId: nat

    ghost predicate Valid()
      reads this
    {
      ValidState(users, tasks, nextId, env.isEmail)
    }

    constructor (env: Services)
      ensures Valid() && this.env == env
      ensures users == [] && tasks == [] && nextId == 0
    {
      this.env := env;
      users, tasks, nextId := [], [], 0;
    }

    /** A fresh ObjectId, held by no stored document. */
    method NewId() returns (id: Id)
      requires Valid()
      modifies this`nextId
      ensures Valid() && id == old(nextId) && nextId == id + 1
      ensures FindUser(users, id).None?
      ensures forall j :: 0 <= j < |tasks| ==> tasks[j].id != id
    {
      id := nextId;
      nextId := nextId + 1;
    }

    /** user.save() on a document whose name and email went through their setters. */
    method SaveUser(u: User, castErrors: set<string>) returns (r: Result<User, Fault>)
      requires Valid() && SettersApplied(u) && u.id < nextId
      modifies this`users
      ensures Valid()
      ensures r == UserSave(old(users), u, castErrors, env)
      ensures users == if r.Ok? then UpsertUser(old(users), r.value) else old(users)
    {
      r := UserSave(users, u, castErrors, env);
      if r.Ok? {
        var saved := r.value;
        assert saved.(password := u.password) == u;
        ValidatedIsWellFormed(saved, env.isEmail);
        match FindUser(users, saved.id) {
          case Some(k) => ReplaceUserValid(users, k, saved, env.isEmail);
          case None => AppendUserValid(users, saved, env.isEmail);
        }
        users := UpsertUser(users, saved);
      }
    }

    /** user.save() on the stored user at i after a change that leaves name, email, age and
        password as stored: it fails only if the stored hash fails the password validator. */
    method Resave(i: nat, u: User) returns (r: Result<User, Fault>)
      requires Valid() && i < |users|
      requires u.id == users[i].id && u.name == users[i].name && u.email == users[i].email
      requires u.age == users[i].age && u.password == users[i].password
      modifies this`users
      ensures Valid()
      ensures r.Ok? <==> PasswordError(old(users)[i].password).None?
      ensures r.Ok? ==> r.value == u && users == old(users)[i := u]
      ensures r.Err? ==> r.error == Invalid({"password"}) && users == old(users)
    {
      ResaveStored(users, i, u, env);
      r := SaveUser(u, {});
    }

    /** generateAuthToken: the token is appended to the user's list, which is then saved. */
    method AddToken(i: nat, token: string) returns (r: Result<User, Fault>)
      requires Valid() && i < |users|
      modifies this`users
      ensures Valid()
      ensures r.Ok? <==> PasswordError(old(users)[i].password).None?
      ensures r.Ok? ==> var u := old(users)[i];
                        r.value == u.(tokens := u.tokens + [token]) && users == old(users)[i := r.value]
      ensures r.Err? ==> r.error == Invalid({"password"}) && users == old(users)
    {
      var u := users[i];
      r := Resave(i, u.(tokens := u.tokens + [token]));
    }

    /** user.remove(): the pre-remove hook deletes the user's tasks, then the user is removed. */
    method RemoveUser(i: nat)
      requires Valid() && i < |users|
      modifies this`users, this`tasks
      ensures Valid()
      ensures tasks == CascadeRemove(old(tasks), old(users)[i].id)
      ensures users == old(users)[..i] + old(users)[i + 1..]
    {
      RemoveUserValid(users, i, env.isEmail);
      RemoveUserIds(users, i, env.isEmail);
      CascadeValid(tasks, UserIds(users), users[i].id);
      tasks := CascadeRemove(tasks, users[i].id);
      users := users[..i] + users[i + 1..];
    }

    /** task.save() on a task whose description went through its setter and whose owner is stored. */
    method SaveTask(t: Task, castErrors: set<string>) returns (r: Result<Task, Fault>)
      requires Valid() && Trimmed(t.description) && t.id < nextId
      requires t.userId in UserIds(users)
      modifies this`tasks
      ensures Valid()
      ensures r == TaskSave(t, castErrors)
      ensures tasks == if r.Err? then old(tasks)
                       else if exists j :: 0 <= j < |old(tasks)| && old(tasks)[j].id == t.id
                       then old(tasks)[TaskIndex(old(tasks), t.id) := t]
                       else old(tasks) + [t]
    {
      r := TaskSave(t, castErrors);
      if r.Ok? {
        if exists j :: 0 <= j < |tasks| && tasks[j].id == t.id {
          ReplaceTaskValid(tasks, TaskIndex(tasks, t.id), t, UserIds(users));
          tasks := tasks[TaskIndex(tasks, t.id) := t];
        } else {
          AppendTaskValid(tasks, t, UserIds(users));
          tasks := tasks + [t];
        }
      }
    }

    /** Task.findOneAndDelete: removes the task at index i. */
    method DeleteTask(i: nat)
      requires Valid() && i < |tasks|
      modifies this`tasks
      ensures Valid()
      ensures tasks == old(tasks)[..i] + old(tasks)[i + 1..]
    {
      DeleteValid(tasks, i, UserIds(users));
      tasks := tasks[..i] + tasks[i + 1..];
    }
  }

  /** The index of the task with this id. */
  function TaskIndex(tasks: seq<Task>, id: Id): (r: nat)
    requires exists j :: 0 <= j < |tasks| && tasks[j].id == id
    ensures r < |tasks| && tasks[r].id == id
  {
    FirstIndex(tasks, (t: Task) => t.id == id).value
  }

  /** With distinct ids, findById finds a stored user at its own position. */
  lemma StoredAt(users: seq<User>, i: nat, isEmail: string -> bool)
    requires ValidUsers(users, isEmail) && i < |users|
    ensures FindUser(users, users[i].id) == Some(i)
    ensures StoredUser(users, users[i].id) == Some(users[i])
  {
    assert FindUser(users, users[i].id).Some?;
  }

  /** Saving a stored user again with its name, email, age and password as stored (a new token
      list or avatar, say) fails only if the stored hash fails the password validator, and
      otherwise persists exactly the document given: the hash is not rehashed. */
  lemma ResaveStored(users: seq<User>, i: nat, u: User, env: Services)
    requires ValidUsers(users, env.isEmail) && i < |users|
    requires u.id == users[i].id && u.name == users[i].name && u.email == users[i].email
    requires u.age == users[i].age && u.password == users[i].password
    ensures UserSave(users, u, {}, env).Err? <==> PasswordError(users[i].password).Some?
    ensures UserSave(users, u, {}, env).Ok? ==> UserSave(users, u, {}, env).value == u
    ensures UserSave(users, u, {}, env).Err? ==> UserSave(users, u, {}, env).error == Invalid({"password"})
    ensures UpsertUser(users, u) == users[i := u]
  {
    StoredAt(users, i, env.isEmail);
    assert UserModel.ValidationErrors(u, env.isEmail) <= {"password"};
  }

  /** With distinct ids, a stored task is found, by id, at its own position. */
  lemma TaskAt(tasks: seq<Task>, k: nat, owners: set<Id>)
    requires ValidTasks(tasks, owners) && k < |tasks|
    ensures TaskIndex(tasks, tasks[k].id) == k
  {
  }

  /** Replacing a stored user by a saved version keeps the table valid and the ids. */
  lemma {:induction false} ReplaceUserValid(users: seq<User>, k: nat, u: User, isEmail: string -> bool)
    requires ValidUsers(users, isEmail) && k < |users| && users[k].id == u.id
    requires UserModel.WellFormed(u, isEmail) && !EmailTaken(users, u)
    ensures ValidUsers(users[k := u], isEmail)
    ensures UserIds(users[k := u]) == UserIds(users)
  {
    var r := users[k := u];
    forall i, j | 0 <= i < j < |r| ensures r[i].id != r[j].id && r[i].email != r[j].email {
      if i == k {
        assert users[j].id != u.id;
      } else if j == k {
        assert users[i].id != u.id;
      }
    }
    forall x | x in UserIds(r) ensures x in UserIds(users) {
      var v :| v in r && v.id == x;
      var i :| 0 <= i < |r| && r[i] == v;
      assert users[i] in users;
    }
    forall x | x in UserIds(users) ensures x in UserIds(r) {
      var v :| v in users && v.id == x;
      var i :| 0 <= i < |users| && users[i] == v;
      assert r[i] in r;
    }
  }

  /** Appending a new user keeps the table valid and adds its id. */
  lemma {:induction false} AppendUserValid(users: seq<User>, u: User, isEmail: string -> bool)
    requires ValidUsers(users, isEmail) && forall j :: 0 <= j < |users| ==> users[j].id != u.id
    requires UserModel.WellFormed(u, isEmail) && !EmailTaken(users, u)
    ensures ValidUsers(users + [u], isEmail)
    ensures UserIds(users + [u]) == UserIds(users) + {u.id}
  {
    var r := users + [u];
    assert forall i :: 0 <= i < |users| ==> r[i] == users[i];
    assert r[|users|] == u;
    forall x | x in UserIds(r) ensures x in UserIds(users) + {u.id} {
      var v :| v in r && v.id == x;
      var i :| 0 <= i < |r| && r[i] == v;
      if i < |users| { assert users[i] in users; }
    }
    forall x | x in UserIds(users) ensures x in UserIds(r) {
      var v :| v in users && v.id == x;
      var i :| 0 <= i < |users| && users[i] == v;
      assert r[i] in r;
    }
  }

  /** Removing a user keeps the users table valid. */
  lemma {:induction false} RemoveUserValid(users: seq<User>, i: nat, isEmail: string -> bool)
    requires ValidUsers(users, isEmail) && i < |users|
    ensures ValidUsers(users[..i] + users[i + 1..], isEmail)
  {
    var rest := users[..i] + users[i + 1..];
    assert forall k :: 0 <= k < |rest| ==> rest[k] == if k < i then users[k] else users[k + 1];
  }

  /** Removing a user drops exactly its id, ids being distinct. */
  lemma {:induction false} RemoveUserIds(users: seq<User>, i: nat, isEmail: string -> bool)
    requires ValidUsers(users, isEmail) && i < |users|
    ensures UserIds(users[..i] + users[i + 1..]) == UserIds(users) - {users[i].id}
  {
    var rest := users[..i] + users[i + 1..];
    assert forall k :: 0 <= k < |rest| ==> rest[k] == if k < i then users[k] else users[k + 1];
    forall x | x in UserIds(users) && x != users[i].id ensures x in UserIds(rest) {
      var v :| v in users && v.id == x;
      var j :| 0 <= j < |users| && users[j] == v;
      if j < i { assert rest[j] in rest; } else { assert rest[j - 1] in rest; }
    }
    forall x | x in UserIds(rest) ensures x in UserIds(users) && x != users[i].id {
      var v :| v in rest && v.id == x;
      var k :| 0 <= k < |rest| && rest[k] == v;
      if k < i { assert users[k] in users; } else { assert users[k + 1] in users; }
    }
  }

  /** The pre-remove cascade leaves only tasks owned by the remaining users, ids still distinct. */
  lemma {:induction false} CascadeValid(tasks: seq<Task>, owners: set<Id>, user: Id)
    requires ValidTasks(tasks, owners)
    ensures ValidTasks(CascadeRemove(tasks, user), owners - {user})
  {
    var left := CascadeRemove(tasks, user);
    forall k | 0 <= k < |left| ensures TaskModel.WellFormed(left[k]) && left[k].userId in owners - {user} {
      assert left[k] in left;
      var j :| 0 <= j < |tasks| && tasks[j] == left[k];
    }
    var id := (t: Task) => t.id;
    assert DistinctKeys(id, tasks);
    FilterKeepsDistinct((t: Task) => t.userId != user, id, tasks);
  }

  /** Deleting one task keeps the table valid. */
  lemma {:induction false} DeleteValid(tasks: seq<Task>, i: nat, owners: set<Id>)
    requires ValidTasks(tasks, owners) && i < |tasks|
    ensures ValidTasks(tasks[..i] + tasks[i + 1..], owners)
  {
    var r := tasks[..i] + tasks[i + 1..];
    assert forall k :: 0 <= k < |r| ==> r[k] == if k < i then tasks[k] else tasks[k + 1];
  }

  /** Replacing a stored task by a saved version keeps the table valid. */
  lemma {:induction false} ReplaceTaskValid(tasks: seq<Task>, k: nat, t: Task, owners: set<Id>)
    requires ValidTasks(tasks, owners) && k < |tasks| && tasks[k].id == t.id
    requires TaskModel.WellFormed(t) && t.userId in owners
    ensures ValidTasks(tasks[k := t], owners)
  {
    var r := tasks[k := t];
    forall i, j | 0 <= i < j < |r| ensures r[i].id != r[j].id {
      if i == k {
        assert tasks[j].id != t.id;
      } else if j == k {
        assert tasks[i].id != t.id;
      }
    }
  }

  /** Appending a new task keeps the table valid. */
  lemma {:induction false} AppendTaskValid(tasks: seq<Task>, t: Task, owners: set<Id>)
    requires ValidTasks(tasks, owners) && forall j :: 0 <= j < |tasks| ==> tasks[j].id != t.id
    requires TaskModel.WellFormed(t) && t.userId in owners
    ensures ValidTasks(tasks + [t], owners)
  {
    var r := tasks + [t];
    assert forall k :: 0 <= k < |tasks| ==> r[k] == tasks[k];
    assert r[|tasks|] == t;
  }
}
