/** What a handler answers: a status code and a body. */
module Http {
  import opened Json
  import opened TaskModel

  /** The errors a handler sends as its body: a validation error listing the offending paths,
      the unique-index violation on email, an id that is not an ObjectId. */
  datatype Fault = Invalid(paths: set<string>) | DuplicateKey | BadObjectId

  datatype Body =
    | Empty
    | Doc(user: Object)
    | Docs(users: seq<Object>)
    | Session(session: Object, token: string)
    | TaskDoc(task: Task)
    | TaskDocs(tasks: seq<Task>)
    | Image(png: seq<Byte>)
    | Message(error: string)
    | Error(fault: Fault)

  datatype Response = Response(status: int, body: Body)

  /** A `:id` route parameter: an ObjectId, or a string that does not cast to one. */
  datatype IdParam = ObjectId(id: Id) | Malformed(raw: string)

  const InvalidUpdates := "Invalid updates !"
}
