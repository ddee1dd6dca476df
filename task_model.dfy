/** The task entity. Its schema file, src/models/task.js, is not part of this model: the
    description is a trimmed, required string, completed a boolean defaulting to false,
    and userId a required reference to the owning user. */
module TaskModel {
  import opened Wrappers
  import opened Text
  import opened Json

  datatype Task = Task(id: Id, description: string, completed: bool, userId: Id)

  /** The schema paths a request body can reach. */
  const Paths: set<string> := {"description", "completed", "userId"}

  /** Whether a JSON value can be cast to the type of schema path key. */
  predicate Castable(key: string, v: Value) {
    if key == "completed" then v.JBool? else if key == "userId" then v.JId? else v.JStr?
  }

  /** key is a schema path given a value of its type in the body (among the keys considered). */
  predicate Supplied(body: Object, keys: set<string>, key: string) {
    key in keys && key in body && Castable(key, body[key])
  }

  /** `task[key] = body[key]` for every considered key: the description setter trims;
      a value of the wrong type leaves the path as it was. */
  function AssignAll(t: Task, body: Object, keys: set<string>): (r: Task)
    ensures r.id == t.id
    ensures Trimmed(t.description) ==> Trimmed(r.description)
  {
    t.(description := if Supplied(body, keys, "description") then Trim(body["description"].s) else t.description,
       completed := if Supplied(body, keys, "completed") then body["completed"].b else t.completed,
       userId := if Supplied(body, keys, "userId") then body["userId"].id else t.userId)
  }

  /** `task[key] = v` for one key, as one step of a forEach over the body's keys. */
  function Assign(t: Task, key: string, v: Value): Task {
    AssignAll(t, map[key := v], {key})
  }

  /** The considered schema paths whose body value has the wrong type. */
  function CastErrors(body: Object, keys: set<string>): (paths: set<string>)
    ensures paths <= Paths
  {
    set k | k in keys && k in body && k in Paths && !Castable(k, body[k])
  }

  /** The paths that fail validation when the task is saved (required description). */
  function ValidationErrors(t: Task): set<string> {
    if t.description == "" then {"description"} else {}
  }

  /** A new document before the body is applied: completed defaults to false. */
  function Blank(id: Id): Task {
    Task(id, "", false, 0)
  }

  /** `new Task(obj)`: the document built from a body, with the paths that failed to cast
      or that are required and missing. Keys outside the schema are ignored. */
  function FromObject(id: Id, obj: Object): (r: (Task, set<string>))
    ensures r.0.id == id && Trimmed(r.0.description)
    ensures !Supplied(obj, obj.Keys, "completed") ==> !r.0.completed
    ensures "userId" in r.1 <==> !("userId" in obj && obj["userId"].JId?)
    ensures r.1 <= Paths
  {
    var t := AssignAll(Blank(id), obj, obj.Keys);
    (t, CastErrors(obj, obj.Keys) + (if Supplied(obj, obj.Keys, "userId") then {} else {"userId"}))
  }

  /** A stored task holds a set description and a trimmed one. */
  predicate WellFormed(t: Task) {
    t.description != "" && Trimmed(t.description)
  }
}
