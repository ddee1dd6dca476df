/** The handlers of src/routers/user.js. Each takes the store and the request's parts, and
    returns the status code and body it sends. The authentication middleware is not part of
    this model: a handler behind it is given the id of the signed-in user (and, for logout,
    the token the request carried). */
module UserRouter {
  import opened Wrappers
  import opened Text
  import opened Seqs
  import opened Json
  import opened External
  import opened UserModel
  import opened Http
  import opened Database

  /** The extensions the avatar filter accepts, each with its leading dot. */
  const AvatarSuffixes: set<string> := {".jpg", ".jpeg", ".png"}

  /** multer's fileSize limit, in bytes. */
  const MaxAvatarSize := 1000000

  const BadFileType := "File types are restircted to .jpg .jpeg or .png"
  const FileTooLarge := "File too large"

  /** The file filter: the name ends with .jpg, .jpeg or .png. The pattern is anchored at the
      end only, so a name that is just the extension passes, and so does "a.png.jpg". */
  function AvatarNameOk(name: string): (ok: bool)
    ensures ok <==> exists i :: 0 <= i <= |name| && name[i..] in AvatarSuffixes
  {
    var ok := EndsWith(name, ".jpg") || EndsWith(name, ".jpeg") || EndsWith(name, ".png");
    if ok then
      if EndsWith(name, ".jpg") then assert name[|name| - 4..] in AvatarSuffixes; ok
      else if EndsWith(name, ".jpeg") then assert name[|name| - 5..] in AvatarSuffixes; ok
      else assert name[|name| - 4..] in AvatarSuffixes; ok
    else
      assert forall i :: 0 <= i <= |name| ==> name[i..] !in AvatarSuffixes by {
        forall i | 0 <= i <= |name| ensures name[i..] !in AvatarSuffixes {
          assert EndsWith(name, name[i..]);
        }
      }
      ok
  }

  /** A multipart upload: the original file name and its bytes. */
  datatype Upload = Upload(name: string, bytes: seq<Byte>)

  /** What multer makes of the request before the handler runs: the filter's refusal, the size
      limit's refusal, or the file (if any) for the handler. */
  function UploadError(file: Option<Upload>): (e: Option<string>)
    ensures e == None <==> file.None? || (AvatarNameOk(file.value.name) && |file.value.bytes| <= MaxAvatarSize)
    ensures file.Some? && !AvatarNameOk(file.value.name) ==> e == Some(BadFileType)
  {
    if file.None? then None
    else if !AvatarNameOk(file.value.name) then Some(BadFileType)
    else if |file.value.bytes| > MaxAvatarSize then Some(FileTooLarge)
    else None
  }

  /** The whitelist check of PATCH /users/me: every key of the body is one of name, email,
      password and age. */
  predicate ValidUpdate(body: Object): (ok: bool)
    ensures ok <==> forall k :: k in body ==> k in {"name", "email", "password", "age"}
  {
    body.Keys <= UserModel.Paths
  }

  /** The signed-in user is stored and holds the token of the request. */
  predicate SignedIn(users: seq<User>, me: Id, token: string) {
    FindUser(users, me).Some? && token in users[FindUser(users, me).value].tokens
  }

  /** Assigning every key of a body one at a time, as forEach does, is assigning them all at
      once: no step reads a path that another step writes. */
  lemma AssignStep(u: User, body: Object, done: set<string>, k: string)
    requires k in body
    ensures UserModel.AssignAll(u, body, done + {k}) == UserModel.Assign(UserModel.AssignAll(u, body, done), k, body[k])
    ensures UserModel.CastErrors(body, done + {k}) == UserModel.CastErrors(body, done) + UserModel.CastErrors(map[k := body[k]], {k})
  {
  }

  /** A whitelisted update assigns exactly the supplied paths, through their setters; the id,
      the tokens, the avatar and every path the body does not supply with a value of its type
      are the user's own. */
  lemma UpdateFrame(u: User, body: Object)
    ensures var v := UserModel.AssignAll(u, body, body.Keys);
            && v.id == u.id && v.tokens == u.tokens && v.avatar == u.avatar
            && v.name == (if UserModel.Supplied(body, body.Keys, "name") then Trim(body["name"].s) else u.name)
            && v.email == (if UserModel.Supplied(body, body.Keys, "email") then NormalizeEmail(body["email"].s) else u.email)
            && v.password == (if UserModel.Supplied(body, body.Keys, "password") then Trim(body["password"].s) else u.password)
            && v.age == (if UserModel.Supplied(body, body.Keys, "age") then body["age"].n else u.age)
  {
  }

  /** The forEach of PATCH /users/me: user[key] = body[key] for each key in turn, gathering the
      paths whose value did not cast. */
  method ApplyUpdates(u: User, body: Object) returns (v: User, castErrors: set<string>)
    ensures v == UserModel.AssignAll(u, body, body.Keys)
    ensures castErrors == UserModel.CastErrors(body, body.Keys)
  {
    v, castErrors := u, {};
    var todo := body.Keys;
    while todo != {}
      invariant todo <= body.Keys
      invariant v == UserModel.AssignAll(u, body, body.Keys - todo)
      invariant castErrors == UserModel.CastErrors(body, body.Keys - todo)
      decreases |todo|
    {
      var k :| k in todo;
      AssignStep(u, body, body.Keys - todo, k);
      assert body.Keys - todo + {k} == body.Keys - (todo - {k});
      v := UserModel.Assign(v, k, body[k]);
      castErrors := castErrors + UserModel.CastErrors(map[k := body[k]], {k});
      todo := todo - {k};
    }
  }

  /** POST /users/login: findByCredentials, then generateAuthToken; any failure is a 400 with
      an empty body. */
  method Login(db: Store, email: string, password: string, token: string) returns (resp: Response)
    requires db.Valid()
    modifies db`users
    ensures db.Valid()
    ensures var found := FindByCredentials(old(db.users), email, password, db.env.compare);
            && (found.Err? ==> resp == Response(400, Empty) && db.users == old(db.users))
            && (found.Ok? ==>
                  var u := old(db.users)[found.value];
                  var signed := u.(tokens := u.tokens + [token]);
                  if PasswordError(u.password).None?
                  then resp == Response(200, Session(ToJSON(signed), token)) && db.users == old(db.users)[found.value := signed]
                  else resp == Response(400, Empty) && db.users == old(db.users))
  {
    var found := FindByCredentials(db.users, email, password, db.env.compare);
    if found.Err? {
      return Response(400, Empty);
    }
    var saved := db.AddToken(found.value, token);
    if saved.Err? {
      return Response(400, Empty);
    }
    resp := Response(200, Session(ToJSON(saved.value), token));
  }

  /** POST /users/logout: drops every copy of the request's token, keeps the rest in order. */
  method Logout(db: Store, me: Id, token: string) returns (resp: Response)
    requires db.Valid() && SignedIn(db.users, me, token)
    modifies db`users
    ensures db.Valid()
    ensures var i := FindUser(old(db.users), me).value;
            var u := old(db.users)[i];
            var out := u.(tokens := Filter((t: string) => t != token, u.tokens));
            if PasswordError(u.password).None?
            then resp == Response(200, Empty) && db.users == old(db.users)[i := out]
            else resp == Response(500, Empty) && db.users == old(db.users)
  {
    var i := FindUser(db.users, me).value;
    var u := db.users[i];
    var saved := db.Resave(i, u.(tokens := Filter((t: string) => t != token, u.tokens)));
    resp := if saved.Ok? then Response(200, Empty) else Response(500, Empty);
  }

  /** After logout no copy of the token is left, every other token is kept as often as it was,
      and the filtered list is an order-preserving sub-sequence of the old one. */
  lemma LogoutTokens(tokens: seq<string>, token: string, before: seq<string>, after: seq<string>)
    requires tokens == before + after
    ensures token !in Filter((t: string) => t != token, tokens)
    ensures forall t :: t != token ==> multiset(Filter((t: string) => t != token, tokens))[t] == multiset(tokens)[t]
    ensures Filter((t: string) => t != token, tokens)
            == Filter((t: string) => t != token, before) + Filter((t: string) => t != token, after)
  {
    FilterAppend((t: string) => t != token, before, after);
  }

  /** POST /users/logoutAll: the token list is emptied; nothing else about the user changes. */
  method LogoutAll(db: Store, me: Id) returns (resp: Response)
    requires db.Valid() && FindUser(db.users, me).Some?
    modifies db`users
    ensures db.Valid()
    ensures var i := FindUser(old(db.users), me).value;
            var u := old(db.users)[i];
            if PasswordError(u.password).None?
            then resp == Response(200, Empty) && db.users == old(db.users)[i := u.(tokens := [])]
            else resp == Response(500, Empty) && db.users == old(db.users)
  {
    var i := FindUser(db.users, me).value;
    var saved := db.Resave(i, db.users[i].(tokens := []));
    resp := if saved.Ok? then Response(200, Empty) else Response(500, Empty);
  }

  /** `new User(body).save()` with the next id: the outcome of the first save of POST /users. */
  function CreateSave(users: seq<User>, id: Id, body: Object, env: Services): Result<User, Fault> {
    UserSave(users, UserModel.FromObject(id, body).0, UserModel.FromObject(id, body).1, env)
  }

  /** `new User(body)` saved: on success it is appended, its password hashed and no token yet. */
  method CreateUser(db: Store, body: Object) returns (r: Result<User, Fault>)
    requires db.Valid()
    modifies db`users, db`nextId
    ensures db.Valid() && db.nextId == old(db.nextId) + 1
    ensures r == CreateSave(old(db.users), old(db.nextId), body, db.env)
    ensures r.Err? ==> db.users == old(db.users)
    ensures r.Ok? ==> db.users == old(db.users) + [r.value] && r.value.tokens == []
                      && r.value.password == db.env.hash(UserModel.FromObject(old(db.nextId), body).0.password)
  {
    var id := db.NewId();
    var (u, castErrors) := UserModel.FromObject(id, body);
    ghost var before := db.users;
    r := db.SaveUser(u, castErrors);
    if r.Ok? {
      assert r.value.id == id && FindUser(before, id).None?;
    }
  }

  /** POST /users: the document built from the body is saved (its password hashed), then a
      token is added and it is saved again. A failure of either save is a 400 carrying the
      error; when only the second fails the user stays stored without a token. */
  method Register(db: Store, body: Object, token: string) returns (resp: Response)
    requires db.Valid()
    modifies db`users, db`nextId
    ensures db.Valid() && db.nextId == old(db.nextId) + 1
    ensures var first := CreateSave(old(db.users), old(db.nextId), body, db.env);
            first.Err? ==> resp == Response(400, Error(first.error)) && db.users == old(db.users)
    ensures var first := CreateSave(old(db.users), old(db.nextId), body, db.env);
            first.Ok? && PasswordError(first.value.password).None? ==>
              var signed := first.value.(tokens := [token]);
              resp == Response(201, Session(ToJSON(signed), token)) && db.users == old(db.users) + [signed]
    ensures var first := CreateSave(old(db.users), old(db.nextId), body, db.env);
            first.Ok? && PasswordError(first.value.password).Some? ==>
              resp == Response(400, Error(Invalid({"password"}))) && db.users == old(db.users) + [first.value]
  {
    ghost var before := db.users;
    var first := CreateUser(db, body);
    if first.Err? {
      return Response(400, Error(first.error));
    }
    resp := IssueFirstToken(db, before, first.value, token);
  }

  /** The second half of POST /users: generateAuthToken on the user the first save appended.
      A failed save answers 400 and leaves that user stored without a token. */
  method IssueFirstToken(db: Store, ghost before: seq<User>, u: User, token: string) returns (resp: Response)
    requires db.Valid() && db.users == before + [u] && u.tokens == []
    modifies db`users
    ensures db.Valid()
    ensures PasswordError(u.password).None? ==>
              resp == Response(201, Session(ToJSON(u.(tokens := [token])), token)) && db.users == before + [u.(tokens := [token])]
    ensures PasswordError(u.password).Some? ==>
              resp == Response(400, Error(Invalid({"password"}))) && db.users == before + [u]
  {
    var i := |db.users| - 1;
    assert i == |before| && db.users[i] == u;
    var second := db.AddToken(i, token);
    if second.Err? {
      return Response(400, Error(second.error));
    }
    assert u.tokens + [token] == [token];
    assert second.value == u.(tokens := [token]);
    assert (before + [u])[|before| := second.value] == before + [second.value];
    resp := Response(201, Session(ToJSON(second.value), token));
  }

  /** GET /users: the public view of every stored user, in stored order. */
  method ListUsers(db: Store) returns (resp: Response)
    ensures resp.status == 200 && resp.body.Docs? && |resp.body.users| == |db.users|
    ensures forall i :: 0 <= i < |db.users| ==> resp.body.users[i] == ToJSON(db.users[i])
    ensures forall i :: 0 <= i < |db.users| ==> resp.body.users[i].Keys !! Secrets
  {
    var docs := [];
    var i := 0;
    while i < |db.users|
      invariant 0 <= i <= |db.users| && |docs| == i
      invariant forall j :: 0 <= j < i ==> docs[j] == ToJSON(db.users[j])
    {
      var view := ToJSON(db.users[i]);
      docs := docs + [view];
      i := i + 1;
    }
    resp := Response(200, Docs(docs));
  }

  /** GET /users/me: the signed-in user's public view. */
  method Me(db: Store, me: Id) returns (resp: Response)
    requires db.Valid() && FindUser(db.users, me).Some?
    ensures resp == Response(200, Doc(ToJSON(db.users[FindUser(db.users, me).value])))
    ensures resp.body.user["_id"] == JId(me) && resp.body.user.Keys !! Secrets
  {
    resp := Response(200, Doc(ToJSON(db.users[FindUser(db.users, me).value])));
  }

  /** PATCH /users/me: a key outside the schema paths refuses the whole update; otherwise every
      key is assigned and the user saved, a failed save (validation, cast or duplicate email)
      being a 400 with the error. */
  method UpdateMe(db: Store, me: Id, body: Object) returns (resp: Response)
    requires db.Valid() && FindUser(db.users, me).Some?
    modifies db`users
    ensures db.Valid()
    ensures !ValidUpdate(body) ==> resp == Response(400, Message(InvalidUpdates)) && db.users == old(db.users)
    ensures ValidUpdate(body) ==>
              var i := FindUser(old(db.users), me).value;
              var v := UserModel.AssignAll(old(db.users)[i], body, body.Keys);
              var saved := UserSave(old(db.users), v, UserModel.CastErrors(body, body.Keys), db.env);
              && (saved.Ok? ==> resp == Response(200, Doc(ToJSON(saved.value))) && db.users == old(db.users)[i := saved.value])
              && (saved.Err? ==> resp == Response(400, Error(saved.error)) && db.users == old(db.users))
  {
    if !ValidUpdate(body) {
      return Response(400, Message(InvalidUpdates));
    }
    var i := FindUser(db.users, me).value;
    var v, castErrors := ApplyUpdates(db.users[i], body);
    StoredAt(db.users, i, db.env.isEmail);
    var saved := db.SaveUser(v, castErrors);
    if saved.Err? {
      return Response(400, Error(saved.error));
    }
    resp := Response(200, Doc(ToJSON(saved.value)));
  }

  /** DELETE /users/me: the user and, through the pre-remove hook, all of its tasks go. */
  method DeleteMe(db: Store, me: Id) returns (resp: Response)
    requires db.Valid() && FindUser(db.users, me).Some?
    modifies db`users, db`tasks
    ensures db.Valid()
    ensures var i := FindUser(old(db.users), me).value;
            && resp == Response(200, Doc(ToJSON(old(db.users)[i])))
            && db.users == old(db.users)[..i] + old(db.users)[i + 1..]
            && db.tasks == CascadeRemove(old(db.tasks), me)
  {
    var i := FindUser(db.users, me).value;
    var u := db.users[i];
    db.RemoveUser(i);
    resp := Response(200, Doc(ToJSON(u)));
  }

  /** POST /users/me/avatar: multer's refusals are a 400 with the message; a missing file or
      an image the converter cannot read is a 500; otherwise the PNG becomes the avatar. */
  method UploadAvatar(db: Store, me: Id, file: Option<Upload>) returns (resp: Response)
    requires db.Valid() && FindUser(db.users, me).Some?
    modifies db`users
    ensures db.Valid()
    ensures UploadError(file).Some? ==> resp == Response(400, Message(UploadError(file).value)) && db.users == old(db.users)
    ensures UploadError(file).None? ==>
              var i := FindUser(old(db.users), me).value;
              var u := old(db.users)[i];
              if file.None? || db.env.toAvatarPng(file.value.bytes).None? || PasswordError(u.password).Some?
              then resp == Response(500, Empty) && db.users == old(db.users)
              else resp == Response(200, Empty)
                   && db.users == old(db.users)[i := u.(avatar := db.env.toAvatarPng(file.value.bytes))]
  {
    var refused := UploadError(file);
    if refused.Some? {
      return Response(400, Message(refused.value));
    }
    if file.None? {
      return Response(500, Empty);
    }
    var png := db.env.toAvatarPng(file.value.bytes);
    if png.None? {
      return Response(500, Empty);
    }
    var i := FindUser(db.users, me).value;
    var saved := db.Resave(i, db.users[i].(avatar := png));
    resp := if saved.Ok? then Response(200, Empty) else Response(500, Empty);
  }

  /** DELETE /users/me/avatar: the avatar is unset and the save is not awaited, so the answer is
      200 whether or not the save succeeds. */
  method DeleteAvatar(db: Store, me: Id) returns (resp: Response)
    requires db.Valid() && FindUser(db.users, me).Some?
    modifies db`users
    ensures db.Valid()
    ensures resp == Response(200, Empty)
    ensures var i := FindUser(old(db.users), me).value;
            var u := old(db.users)[i];
            db.users == if PasswordError(u.password).None? then old(db.users)[i := u.(avatar := None)] else old(db.users)
  {
    var i := FindUser(db.users, me).value;
    var _ := db.Resave(i, db.users[i].(avatar := None));
    resp := Response(200, Empty);
  }

  /** GET /users/:id/avatar: the stored avatar bytes, or 404 when the id does not cast, no user
      has it, or the user has no avatar. An empty avatar buffer is still sent. */
  method FetchAvatar(db: Store, id: IdParam) returns (resp: Response)
    requires db.Valid()
    ensures resp.status == 200 || resp == Response(404, Empty)
    ensures resp.status == 200 <==>
              id.ObjectId? && FindUser(db.users, id.id).Some? && db.users[FindUser(db.users, id.id).value].avatar.Some?
    ensures resp.status == 200 ==> resp.body == Image(db.users[FindUser(db.users, id.id).value].avatar.value)
  {
    if id.Malformed? {
      return Response(404, Empty);
    }
    match FindUser(db.users, id.id) {
      case None => resp := Response(404, Empty);
      case Some(i) =>
        resp := if db.users[i].avatar.Some? then Response(200, Image(db.users[i].avatar.value)) else Response(404, Empty);
    }
  }
}
