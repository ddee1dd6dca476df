/** The handlers of src/routers/task.js. Every route is behind the authentication middleware,
    which is not part of this model: each handler is given the id of the signed-in user, and
    every lookup is scoped to the tasks that user owns. */
module TaskRouter {
  import opened Wrappers
  import opened Text
  import opened Json
  import opened TaskModel
  import opened TaskQuery
  import opened Http
  import opened Database

  /** The paths PATCH /tasks/:id may set. */
  const UpdatablePaths: set<string> := {"description", "completed"}

  /** `{...req.body, userId: req.user._id}`: the caller's id overrides any owner in the body. */
  function Stamp(body: Object, me: Id): (obj: Object)
    ensures obj.Keys == body.Keys + {"userId"} && obj["userId"] == JId(me)
    ensures forall k :: k in body && k != "userId" ==> obj[k] == body[k]
  {
    body["userId" := JId(me)]
  }

  /** A created task belongs to the caller whatever the body says, never fails on its owner,
      and otherwise is the task the body describes. */
  lemma StampedOwner(id: Id, body: Object, me: Id)
    ensures TaskModel.FromObject(id, Stamp(body, me)).0 == TaskModel.FromObject(id, body).0.(userId := me)
    ensures "userId" !in TaskModel.FromObject(id, Stamp(body, me)).1
    ensures TaskModel.FromObject(id, Stamp(body, me)).1 == TaskModel.CastErrors(body, body.Keys - {"userId"})
  {
    var obj := Stamp(body, me);
    assert TaskModel.CastErrors(obj, obj.Keys) == TaskModel.CastErrors(body, body.Keys - {"userId"});
  }

  /** The whitelist check of PATCH /tasks/:id: every key of the body is description or completed. */
  predicate ValidUpdate(body: Object): (ok: bool)
    ensures ok <==> forall k :: k in body ==> k in {"description", "completed"}
  {
    body.Keys <= UpdatablePaths
  }

  /** A whitelisted update assigns the supplied description (trimmed) and completed flag and
      nothing else: the id and the owner stay. */
  lemma UpdateFrame(t: Task, body: Object)
    requires ValidUpdate(body)
    ensures var v := TaskModel.AssignAll(t, body, body.Keys);
            && v.id == t.id && v.userId == t.userId
            && v.description == (if TaskModel.Supplied(body, body.Keys, "description") then Trim(body["description"].s) else t.description)
            && v.completed == (if TaskModel.Supplied(body, body.Keys, "completed") then body["completed"].b else t.completed)
  {
  }

  /** One step of the forEach is one more key assigned. */
  lemma AssignStep(t: Task, body: Object, done: set<string>, k: string)
    requires k in body
    ensures TaskModel.AssignAll(t, body, done + {k}) == TaskModel.Assign(TaskModel.AssignAll(t, body, done), k, body[k])
    ensures TaskModel.CastErrors(body, done + {k}) == TaskModel.CastErrors(body, done) + TaskModel.CastErrors(map[k := body[k]], {k})
  {
  }

  /** The forEach of PATCH /tasks/:id: task[key] = body[key] for each key in turn. */
  method ApplyUpdates(t: Task, body: Object) returns (v: Task, castErrors: set<string>)
    ensures v == TaskModel.AssignAll(t, body, body.Keys)
    ensures castErrors == TaskModel.CastErrors(body, body.Keys)
  {
    v, castErrors := t, {};
    var todo := body.Keys;
    while todo != {}
      invariant todo <= body.Keys
      invariant v == TaskModel.AssignAll(t, body, body.Keys - todo)
      invariant castErrors == TaskModel.CastErrors(body, body.Keys - todo)
      decreases |todo|
    {
      var k :| k in todo;
      AssignStep(t, body, body.Keys - todo, k);
      assert body.Keys - todo + {k} == body.Keys - (todo - {k});
      v := TaskModel.Assign(v, k, body[k]);
      castErrors := castErrors + TaskModel.CastErrors(map[k := body[k]], {k});
      todo := todo - {k};
    }
  }

  /** POST /tasks: the stamped task is saved under a fresh id; 201 with the task, or 400 with
      the error. */
  method Create(db: Store, me: Id, body: Object) returns (resp: Response)
    requires db.Valid() && FindUser(db.users, me).Some?
    modifies db`tasks, db`nextId
    ensures db.Valid() && db.nextId == old(db.nextId) + 1
    ensures var made := TaskModel.FromObject(old(db.nextId), Stamp(body, me));
            var saved := TaskSave(made.0, made.1);
            && made.0.userId == me
            && (saved.Ok? ==> resp == Response(201, TaskDoc(made.0)) && db.tasks == old(db.tasks) + [made.0])
            && (saved.Err? ==> resp == Response(400, Error(saved.error)) && db.tasks == old(db.tasks))
  {
    var id := db.NewId();
    var (t, castErrors) := TaskModel.FromObject(id, Stamp(body, me));
    StampedOwner(id, body, me);
    var k := FindUser(db.users, me).value;
    assert db.users[k] in db.users;
    var saved := db.SaveTask(t, castErrors);
    resp := if saved.Ok? then Response(201, TaskDoc(t)) else Response(400, Error(saved.error));
  }

  /** GET /tasks: the caller's tasks passing the completed filter, sorted, then paged. */
  method List(db: Store, me: Id, q: Query) returns (resp: Response)
    requires db.Valid() && FindUser(db.users, me).Some?
    ensures resp == Response(200, TaskDocs(ListTasks(db.tasks, me, q)))
    ensures forall t :: t in resp.body.tasks ==> t in db.tasks && t.userId == me
    ensures CompletedFilter(q).Some? ==> forall t :: t in resp.body.tasks ==> t.completed == CompletedFilter(q).value
  {
    ListTasksSpec(db.tasks, me, q);
    resp := Response(200, TaskDocs(ListTasks(db.tasks, me, q)));
  }

  /** GET /tasks/:id: 500 when the id does not cast; 404 when the caller owns no task with it,
      so another user's task looks missing; else 200 with the task. */
  method Get(db: Store, me: Id, id: IdParam) returns (resp: Response)
    requires db.Valid() && FindUser(db.users, me).Some?
    ensures id.Malformed? ==> resp == Response(500, Error(BadObjectId))
    ensures id.ObjectId? ==>
              (resp == Response(404, Empty) <==>
                 forall j :: 0 <= j < |db.tasks| ==> !(db.tasks[j].id == id.id && db.tasks[j].userId == me))
    ensures id.ObjectId? && FindOwnedTask(db.tasks, me, id.id).Some? ==>
              resp == Response(200, TaskDoc(db.tasks[FindOwnedTask(db.tasks, me, id.id).value]))
    ensures resp.status == 200 ==>
              id.ObjectId? && resp.body.TaskDoc? && resp.body.task in db.tasks
              && resp.body.task.id == id.id && resp.body.task.userId == me
  {
    if id.Malformed? {
      return Response(500, Error(BadObjectId));
    }
    match FindOwnedTask(db.tasks, me, id.id) {
      case None => resp := Response(404, Empty);
      case Some(k) => resp := Response(200, TaskDoc(db.tasks[k]));
    }
  }

  /** PATCH /tasks/:id: a key outside description and completed refuses the update before any
      lookup; then a malformed id is a 400, a task the caller does not own a 404; otherwise
      the keys are assigned and the task saved, replacing it in place. */
  method Update(db: Store, me: Id, id: IdParam, body: Object) returns (resp: Response)
    requires db.Valid() && FindUser(db.users, me).Some?
    modifies db`tasks
    ensures db.Valid()
    ensures !ValidUpdate(body) ==> resp == Response(400, Message(InvalidUpdates)) && db.tasks == old(db.tasks)
    ensures ValidUpdate(body) && id.Malformed? ==> resp == Response(400, Error(BadObjectId)) && db.tasks == old(db.tasks)
    ensures ValidUpdate(body) && id.ObjectId? && FindOwnedTask(old(db.tasks), me, id.id).None? ==>
              resp == Response(404, Empty) && db.tasks == old(db.tasks)
    ensures ValidUpdate(body) && id.ObjectId? && FindOwnedTask(old(db.tasks), me, id.id).Some? ==>
              var k := FindOwnedTask(old(db.tasks), me, id.id).value;
              var v := TaskModel.AssignAll(old(db.tasks)[k], body, body.Keys);
              var saved := TaskSave(v, TaskModel.CastErrors(body, body.Keys));
              && (saved.Ok? ==> resp == Response(200, TaskDoc(v)) && db.tasks == old(db.tasks)[k := v])
              && (saved.Err? ==> resp == Response(400, Error(saved.error)) && db.tasks == old(db.tasks))
  {
    if !ValidUpdate(body) {
      return Response(400, Message(InvalidUpdates));
    }
    if id.Malformed? {
      return Response(400, Error(BadObjectId));
    }
    var found := FindOwnedTask(db.tasks, me, id.id);
    if found.None? {
      return Response(404, Empty);
    }
    var k := found.value;
    var v, castErrors := ApplyUpdates(db.tasks[k], body);
    UpdateFrame(db.tasks[k], body);
    TaskAt(db.tasks, k, UserIds(db.users));
    var saved := db.SaveTask(v, castErrors);
    resp := if saved.Ok? then Response(200, TaskDoc(v)) else Response(400, Error(saved.error));
  }

  /** DELETE /tasks/:id: 500 when the id does not cast, 404 when the caller owns no such task,
      else the task is removed and sent back; every other task stays, in order. */
  method Delete(db: Store, me: Id, id: IdParam) returns (resp: Response)
    requires db.Valid() && FindUser(db.users, me).Some?
    modifies db`tasks
    ensures db.Valid()
    ensures id.Malformed? ==> resp == Response(500, Error(BadObjectId)) && db.tasks == old(db.tasks)
    ensures id.ObjectId? && FindOwnedTask(old(db.tasks), me, id.id).None? ==>
              resp == Response(404, Empty) && db.tasks == old(db.tasks)
    ensures id.ObjectId? && FindOwnedTask(old(db.tasks), me, id.id).Some? ==>
              var k := FindOwnedTask(old(db.tasks), me, id.id).value;
              resp == Response(200, TaskDoc(old(db.tasks)[k])) && db.tasks == old(db.tasks)[..k] + old(db.tasks)[k + 1..]
  {
    if id.Malformed? {
      return Response(500, Error(BadObjectId));
    }
    var found := FindOwnedTask(db.tasks, me, id.id);
    if found.None? {
      return Response(404, Empty);
    }
    var t := db.tasks[found.value];
    db.DeleteTask(found.value);
    resp := Response(200, TaskDoc(t));
  }
}
