/** The user entity of src/models/user.js: its schema setters and validators, the pre-save
    password hashing rule, the serialised public view, credential lookup and the task
    cascade of the pre-remove hook. */
module UserModel {
  import opened Wrappers
  import opened Text
  import opened Seqs
  import opened Json
  import opened External
  import opened TaskModel

  datatype User = User(
    id: Id,
    name: string,
    email: string,
    password: string,
    age: int,
    tokens: seq<string>,
    avatar: Option<seq<Byte>>)

  /** The schema paths a request body can set. */
  const Paths: set<string> := {"name", "email", "password", "age"}

  /** The paths the public view deletes. */
  const Secrets: set<string> := {"password", "tokens", "avatar"}

  const TooShort := "Password is too short. Must contain at least 6 charachters"
  const HasWordPassword := "Password cannot contain the word 'password'"
  const BadEmail := "Email is invalid."
  const NegativeAge := "Age cannot be negative."
  const LoginFailed := "Unable to login"

  /** The password validator, applied to the value after its trim setter: too short first
      (by JavaScript length, in UTF-16 code units), then the forbidden word in any letter case. */
  function PasswordError(value: string): (e: Option<string>)
    ensures e.None? || e == Some(TooShort) || e == Some(HasWordPassword)
    ensures e == Some(TooShort) <==> Utf16Length(value) <= 6
  {
    if Utf16Length(value) <= 6 then Some(TooShort)
    else if Contains(ToLower(value), "password") then Some(HasWordPassword)
    else None
  }

  /** The password is accepted exactly when it is longer than six UTF-16 code units and its
      lower-cased form does not contain "password" anywhere. */
  lemma {:induction false} PasswordRule(value: string)
    ensures PasswordError(value).None? <==>
              Utf16Length(value) > 6 && !exists i :: OccursAt(ToLower(value), "password", i)
    ensures PasswordError(value) == Some(HasWordPassword) <==>
              Utf16Length(value) > 6 && exists i :: OccursAt(ToLower(value), "password", i)
  {
    ContainsSpec(ToLower(value), "password");
    if Utf16Length(value) > 6 {
      assert PasswordError(value).None? <==> !Contains(ToLower(value), "password");
      assert PasswordError(value).None? <==> !exists i :: OccursAt(ToLower(value), "password", i);
    }
  }

  /** Four emoji are eight UTF-16 code units: long enough, and free of the word. */
  lemma AstralPasswordAccepted()
    ensures PasswordError("\U{1F600}\U{1F600}\U{1F600}\U{1F600}").None?
  {
    var e := "\U{1F600}";
    assert Utf16Length(e) == 2;
    assert Utf16Length(e + e) == 2 + Utf16Length(e) by { assert (e + e)[1..] == e; }
    assert Utf16Length(e + e + e) == 2 + Utf16Length(e + e) by { assert (e + e + e)[1..] == e + e; }
    assert Utf16Length(e + e + e + e) == 2 + Utf16Length(e + e + e) by { assert (e + e + e + e)[1..] == e + e + e; }
    assert e + e + e + e == "\U{1F600}\U{1F600}\U{1F600}\U{1F600}";
  }

  /** The age validator: only negative ages are refused. */
  function AgeError(value: int): (e: Option<string>)
    ensures e.Some? <==> value < 0
  {
    if value < 0 then Some(NegativeAge) else None
  }

  /** The email validator, over the external format check. */
  function EmailError(value: string, isEmail: string -> bool): (e: Option<string>)
    ensures e.Some? <==> !isEmail(value)
  {
    if isEmail(value) then None else Some(BadEmail)
  }

  /** The email setters: trim, then lower-case. Whatever is given, the stored form is
      trimmed and has no upper-case letter. */
  function NormalizeEmail(s: string): (r: string)
    ensures Trimmed(r) && IsLower(r)
  {
    LowerIsLower(Trim(s));
    ToLower(Trim(s))
  }

  /** Running the setters on a stored email leaves it as it is. */
  lemma {:induction false} NormalizeEmailIdempotent(s: string)
    ensures NormalizeEmail(NormalizeEmail(s)) == NormalizeEmail(s)
  {
    TrimLowerCommute(Trim(s));
    TrimIdempotent(s);
    ToLowerIdempotent(Trim(s));
  }

  /** Emails that differ only by surrounding white space are stored alike. */
  lemma {:induction false} EmailIgnoresPadding(p: string, s: string, q: string)
    requires AllSpace(p) && AllSpace(q)
    ensures NormalizeEmail(p + s + q) == NormalizeEmail(s)
  {
    TrimIgnoresPadding(p, s, q);
  }

  /** Emails that differ only by letter case are stored alike. */
  lemma {:induction false} EmailIgnoresCase(a: string, b: string)
    requires ToLower(a) == ToLower(b)
    ensures NormalizeEmail(a) == NormalizeEmail(b)
  {
    TrimLowerCommute(a);
    TrimLowerCommute(b);
  }

  /** Whether a JSON value can be cast to the type of schema path key. */
  predicate Castable(key: string, v: Value) {
    if key == "age" then v.JNum? else v.JStr?
  }

  /** key is a schema path given a value of its type in the body (among the keys considered). */
  predicate Supplied(body: Object, keys: set<string>, key: string) {
    key in keys && key in body && Castable(key, body[key])
  }

  /** `user[key] = body[key]` for every considered key, through the setters (trim for name and
      password, trim and lower-case for email); a value of the wrong type leaves the path as
      it was, and the save reports it. */
  function AssignAll(u: User, body: Object, keys: set<string>): (r: User)
    ensures r.id == u.id && r.tokens == u.tokens && r.avatar == u.avatar
    ensures SettersApplied(u) ==> SettersApplied(r)
  {
    u.(name := if Supplied(body, keys, "name") then Trim(body["name"].s) else u.name,
       email := if Supplied(body, keys, "email") then NormalizeEmail(body["email"].s) else u.email,
       password := if Supplied(body, keys, "password") then Trim(body["password"].s) else u.password,
       age := if Supplied(body, keys, "age") then body["age"].n else u.age)
  }

  /** `user[key] = v` for one key, as one step of a forEach over the body's keys. */
  function Assign(u: User, key: string, v: Value): User {
    AssignAll(u, map[key := v], {key})
  }

  /** The considered schema paths whose body value has the wrong type. */
  function CastErrors(body: Object, keys: set<string>): (paths: set<string>)
    ensures paths <= Paths
  {
    set k | k in keys && k in body && k in Paths && !Castable(k, body[k])
  }

  /** The paths that fail validation when the document is saved. Every path is validated on
      every save, so the password validator also sees a stored hash. */
  function ValidationErrors(u: User, isEmail: string -> bool): (paths: set<string>)
    ensures paths <= Paths
    ensures "name" in paths <==> u.name == ""
    ensures "email" in paths <==> u.email == "" || !isEmail(u.email)
    ensures "password" in paths <==> PasswordError(u.password).Some?
    ensures "age" in paths <==> u.age < 0
  {
    (if u.name == "" then {"name"} else {})
    + (if u.email == "" || EmailError(u.email, isEmail).Some? then {"email"} else {})
    + (if PasswordError(u.password).Some? then {"password"} else {})
    + (if AgeError(u.age).Some? then {"age"} else {})
  }

  /** A new document before the body is applied: age defaults to 0, no tokens, no avatar. */
  function Blank(id: Id): User {
    User(id, "", "", "", 0, [], None)
  }

  /** The document `new User(body)`: the result of the setters and the paths that did not cast. */
  function FromObject(id: Id, body: Object): (r: (User, set<string>))
    ensures r.0.id == id && r.0.tokens == [] && r.0.avatar.None?
    ensures SettersApplied(r.0)
    ensures "age" !in body ==> r.0.age == 0
    ensures r.1 <= Paths
  {
    (AssignAll(Blank(id), body, body.Keys), CastErrors(body, body.Keys))
  }

  /** An absent age defaults to 0. */
  lemma AgeDefaultsToZero(id: Id, body: Object)
    requires "age" !in body
    ensures FromObject(id, body).0.age == 0 && "age" !in FromObject(id, body).1
  {
  }

  /** The setters have run on the name and email of a document: the name is trimmed, the
      email trimmed and lower-cased. */
  predicate SettersApplied(u: User) {
    Trimmed(u.name) && Trimmed(u.email) && IsLower(u.email)
  }

  /** A stored user: setters applied and every path but the (hashed) password valid. */
  predicate WellFormed(u: User, isEmail: string -> bool) {
    SettersApplied(u) && u.name != "" && u.email != "" && isEmail(u.email) && u.age >= 0
  }

  /** A document that passed validation but for its password is well formed. */
  lemma ValidatedIsWellFormed(u: User, isEmail: string -> bool)
    requires SettersApplied(u) && ValidationErrors(u, isEmail) <= {"password"}
    ensures WellFormed(u, isEmail)
  {
    assert "name" !in ValidationErrors(u, isEmail);
    assert "email" !in ValidationErrors(u, isEmail);
    assert "age" !in ValidationErrors(u, isEmail);
  }

  /** isModified('password'): always for a new document; for a stored one, when the value
      assigned differs from the stored value. */
  predicate PasswordModified(stored: Option<User>, u: User): (modified: bool)
    ensures stored.None? ==> modified
    ensures stored.Some? && stored.value.password == u.password ==> !modified
    ensures stored.Some? && stored.value.password != u.password ==> modified
  {
    stored.None? || stored.value.password != u.password
  }

  /** The pre-save hook: a modified password is replaced by its hash; an unmodified one,
      such as the hash itself on a later save, is left as stored. */
  function PreSave(stored: Option<User>, u: User, hash: string -> string): (r: User)
    ensures r.(password := u.password) == u
    ensures stored.Some? && stored.value.password == u.password ==> r == u
    ensures PasswordModified(stored, u) ==> r.password == hash(u.password)
  {
    if PasswordModified(stored, u) then u.(password := hash(u.password)) else u
  }

  /** user.toObject(): every path, the tokens as sub-documents, the avatar only when set. */
  function ToObject(u: User): (obj: Object)
    ensures obj.Keys == {"_id", "name", "email", "password", "age", "tokens"} + (if u.avatar.Some? then {"avatar"} else {})
    ensures obj["_id"] == JId(u.id) && obj["password"] == JStr(u.password)
    ensures u.avatar.Some? ==> obj["avatar"] == JBin(u.avatar.value)
  {
    var tokens := seq(|u.tokens|, i requires 0 <= i < |u.tokens| => JObj(map["token" := JStr(u.tokens[i])]));
    var fields := map["_id" := JId(u.id), "name" := JStr(u.name), "email" := JStr(u.email),
                      "password" := JStr(u.password), "age" := JNum(u.age), "tokens" := JArr(tokens)];
    if u.avatar.Some? then fields["avatar" := JBin(u.avatar.value)] else fields
  }

  /** toJSON: the object with password, tokens and avatar deleted; every other path is the user's. */
  function ToJSON(u: User): (view: Object)
    ensures view.Keys !! Secrets
    ensures view.Keys == ToObject(u).Keys - Secrets
    ensures forall k :: k in view ==> view[k] == ToObject(u)[k]
    ensures view == map["_id" := JId(u.id), "name" := JStr(u.name), "email" := JStr(u.email), "age" := JNum(u.age)]
  {
    ToObject(u) - Secrets
  }

  /** findByCredentials: the first user with this email, if the password matches its hash;
      an unknown email and a wrong password fail alike. */
  function FindByCredentials(users: seq<User>, email: string, password: string,
                             compare: (string, string) -> bool): (r: Result<nat, string>)
    ensures r.Err? ==> r.error == LoginFailed
    ensures r.Ok? ==> r.value < |users| && users[r.value].email == email
                      && compare(password, users[r.value].password)
                      && forall j :: 0 <= j < r.value ==> users[j].email != email
    ensures forall i ::
              (0 <= i < |users| && users[i].email == email && compare(password, users[i].password)
               && forall j :: 0 <= j < i ==> users[j].email != email)
              ==> r == Ok(i)
  {
    match FirstIndex(users, (u: User) => u.email == email)
    case None => Err(LoginFailed)
    case Some(i) => if compare(password, users[i].password) then Ok(i) else Err(LoginFailed)
  }

  /** The pre-remove hook: Task.deleteMany({userId}) leaves exactly the other users' tasks, in order. */
  function CascadeRemove(tasks: seq<Task>, user: Id): (r: seq<Task>)
    ensures forall t: Task :: t in r <==> t in tasks && t.userId != user
    ensures forall t: Task :: t.userId != user ==> multiset(r)[t] == multiset(tasks)[t]
  {
    Filter((t: Task) => t.userId != user, tasks)
  }
}
