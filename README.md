# Task-manager backend: users, tasks and their handlers

This project models the data and authorisation rules of a small REST task manager written
for Express and Mongoose. Users register, sign in with bearer tokens, edit their profile and
upload an avatar. Each user owns tasks and can create, list, read, update and delete them.

Module layout:

- `Text` models the JavaScript string operations the schema and the handlers rely on: `trim`, ASCII `toLowerCase`, `includes`, `split(':')`, the end-anchored extension match.
- `Seqs` has ordered filtering, first-match lookup, and skip/limit paging.
- `Json` holds request and document values. `External` holds the opaque collaborators: the bcrypt hash and compare, `validator.isEmail`, and the sharp PNG conversion.
- `UserModel` is the user schema: setters, validators, the pre-save password hashing rule, the public view, `findByCredentials` and the pre-remove cascade.
- `TaskModel` is the task document as the routers use it.
- `TaskQuery` covers `GET /tasks`: the `completed` filter, `sortBy` parsing, the sort (stable in this model, see Left out), and paging.
- `Database` holds the `Store` class: the users and tasks tables as sequences in stored order, an id counter, and the ORM operations. Save validates every path, then runs the pre-save hook, then writes; the write is refused when the unique email index already holds the address. `Store.Valid` is the invariant every handler keeps:
  - user ids and emails are distinct;
  - every stored user is validated on every path but the password, and in setter form;
  - every task is owned by a stored user;
  - every id is below the counter.
- `UserRouter` and `TaskRouter` hold one method per route. Each returns the status and body it sends and states the new store contents.

Some behaviours of the code are easy to miss:

- Registration is not all-or-nothing. The user is stored by the first save. If the second save (the one that adds the token) fails, the answer is 400 but the user stays stored.
- Avatar upload answers 500 in three cases: there is no file, the image cannot be converted, or the save fails. Only multer's refusals are a 400.
- Avatar delete does not await its save. It always answers 200, and the avatar is cleared only if that save succeeds.
- The password validator's message says six characters are enough. The code refuses any password whose JavaScript length is six or less. That length counts UTF-16 code units, so a character above U+FFFF (most emoji) counts as two.

## Model

| member | source | states |
|---|---|---|
| UserModel.PasswordError | src/models/user.js:17-23 | the length check comes first: the result is "too short" exactly when the trimmed value is at most 6 UTF-16 code units long, else the forbidden-word message or no error |
| UserModel.AstralPasswordAccepted | src/models/user.js:18 | four characters above U+FFFF are eight code units long, so the validator accepts them |
| UserModel.PasswordRule | src/models/user.js:17-23 | a password is accepted iff it is longer than 6 UTF-16 code units and its lower-cased form contains "password" at no position; the word error arises iff it is long enough and the word occurs |
| UserModel.AgeError | src/models/user.js:40-44 | age validation fails iff the age is negative |
| UserModel.AgeDefaultsToZero | src/models/user.js:37-44 | a body without age yields age 0 and no age error |
| UserModel.EmailError | src/models/user.js:31-35 | email validation fails iff the external format check refuses the value |
| UserModel.ValidationErrors | src/models/user.js:7-45 | the paths failing validation, path by path: empty name, empty or malformed email, a password the validator refuses, a negative age |
| UserModel.CastErrors | src/models/user.js:7-45 | a wrong-typed body value is reported only for schema paths |
| UserModel.NormalizeEmailIdempotent | src/models/user.js:25-30 | running the email setters on a stored email leaves it unchanged |
| UserModel.EmailIgnoresPadding | src/models/user.js:25-30 | emails differing only by surrounding white space are stored alike |
| UserModel.EmailIgnoresCase | src/models/user.js:25-30 | emails differing only by ASCII letter case are stored alike |
| UserModel.NormalizeEmail | src/models/user.js:25-30 | whatever is given, the stored email is trimmed and has no upper-case letter |
| UserModel.AssignAll | src/routers/user.js:96-98 | assigning body values never touches the id, tokens or avatar, and keeps the name trimmed and the email trimmed and lower-cased |
| UserModel.FromObject | src/routers/user.js:41 | `new User(body)` has the given id, no token, no avatar, its name and email in setter form, age 0 when the body has none, and cast errors only on schema paths |
| UserModel.ToObject | src/models/user.js:87 | the document object holds exactly the six paths, and the avatar only when set, with the stored password and id |
| UserModel.PasswordModified | src/models/user.js:71 | a new document's password is always modified; a stored one's is modified exactly when the assigned value differs from the stored value |
| UserModel.ValidatedIsWellFormed | src/models/user.js:7-45 | a document that passes validation has a non-empty name, a well-formed email and a non-negative age |
| UserModel.PreSave | src/models/user.js:67-76 | only the password can change; a modified password becomes the hash of the value; an unmodified one (the stored hash) is left as it is |
| UserModel.ToJSON | src/models/user.js:85-92 | the public view has no password, tokens or avatar key; every other key is the user's own value (id, name, email, age; version key and timestamps not modelled) |
| UserModel.FindByCredentials | src/models/user.js:104-114 | an unknown email and a wrong password both fail with "Unable to login"; success returns the first user with that email, and only when the password matches; if that user matches, it is returned |
| UserModel.CascadeRemove | src/models/user.js:78-82 | only tasks of other users remain, each as often as it was stored |
| Database.Store.AddToken | src/models/user.js:95-101 | the new token list is the old one with the token appended; nothing else changes; the save fails only if the stored hash fails the password validator |
| Database.UserSave | src/models/user.js:7-76 | fails iff a cast or validation error exists or another user holds the email; an invalid result lists exactly the failing paths; on success the document is as the pre-save hook leaves it |
| Database.Store.SaveUser | src/models/user.js:67-76 | the table is replaced in place or appended on success and unchanged on failure; the store invariant is kept |
| Database.ResaveStored | src/models/user.js:67-76 | re-saving a stored user with an unchanged password never rehashes it; the save fails only on the stored hash, and replaces the user in place |
| Database.Store.Resave | src/routers/user.js:21-22 | saving the signed-in user after a token or avatar change fails only on the stored hash; on success exactly that user is replaced |
| Database.Store.RemoveUser | src/models/user.js:78-82 | the user is removed and the cascade applied to the tasks; the invariant is kept |
| Database.RemoveUserIds | src/models/user.js:78-82 | removing a user drops exactly its id from the set of stored ids |
| Database.CascadeValid | src/models/user.js:78-82 | after the cascade every task is still well formed, its owner is a remaining user, and ids stay distinct |
| Database.ReplaceUserValid | src/models/user.js:30 | replacing a user by a version whose email no other user holds keeps ids and emails distinct |
| Database.AppendUserValid | src/models/user.js:30 | appending a user with a fresh id and an unused email keeps ids and emails distinct |
| Database.StoredAt | src/routers/user.js:155 | with distinct ids, findById finds each stored user at its own position |
| Database.RemoveUserValid | src/models/user.js:78-82 | removing one user keeps ids and emails distinct and every remaining user well formed |
| Database.DeleteValid | src/routers/task.js:98 | removing one task keeps task ids distinct and every remaining task owned by a stored user |
| Database.ReplaceTaskValid | src/routers/task.js:87 | replacing a task by a well-formed version with the same id and a stored owner keeps the table valid |
| Database.AppendTaskValid | src/routers/task.js:13 | appending a well-formed task with a fresh id and a stored owner keeps the table valid |
| Database.Store.NewId | src/routers/task.js:8 | a new document's id is held by no stored user or task, and the counter advances by one |
| Database.TaskAt | src/routers/task.js:80 | with distinct ids, a stored task is found by its id at its own position |
| Database.FindUser | src/routers/user.js:155 | findById returns a position holding the id, and nothing iff no user has it |
| Database.FindOwnedTask | src/routers/task.js:57 | a task is found only if both its id and its owner match; nothing iff no such task exists |
| Database.UpsertUser | src/models/user.js:67-76 | the persisted user replaces the stored one with its id, or is appended when its id is new |
| Database.TaskSave | src/routers/task.js:13 | a task save succeeds iff there is no cast error and the description is not empty |
| Database.Store.SaveTask | src/routers/task.js:13 | a saved task replaces the task with its id, or is appended when new; failure changes nothing; the invariant is kept |
| Database.Store.DeleteTask | src/routers/task.js:98 | exactly the task at that position is removed, the others keep their order |
| Seqs.Filter | src/routers/user.js:21 | the kept elements are exactly those satisfying the predicate, each as often as before |
| Seqs.FilterAppend | src/routers/user.js:21 | filtering keeps relative order: it distributes over concatenation |
| Seqs.FirstIndex | src/models/user.js:105 | findOne returns the first matching position, and nothing iff there is no match |
| Seqs.Page | src/routers/task.js:42-43 | skip drops that many elements, a positive limit caps the length, limit 0 means no cap, elements keep their order |
| Text.Trim | src/models/user.js:10 | the result has no white space at either end |
| Text.TrimOfTrimmed | src/models/user.js:10 | a string with no white space at either end is its own trim |
| Text.LowerIsLower | src/models/user.js:28 | a lower-cased string has no upper-case letter and stays trimmed if it was |
| Text.ToLowerIdempotent | src/models/user.js:28 | lower-casing twice is lower-casing once |
| Text.Before | src/routers/task.js:32 | the first part of split(':') is a prefix without ':', followed in the input by ':' if shorter |
| Text.After | src/routers/task.js:32 | the rest after the first ':' is absent iff there is no ':', and the input is first part, ':', rest |
| Text.SecondPart | src/routers/task.js:33 | parts[1] is undefined iff there is no ':'; otherwise it is the text right after the first ':', up to the next one |
| Text.SplitJoin | src/routers/task.js:32-33 | splitting "w:rest" with w free of ':' gives w as the first part and rest after it |
| Text.TrimIdempotent | src/models/user.js:10 | trimming twice is trimming once |
| Text.TrimIgnoresPadding | src/models/user.js:27 | white space added around a string does not change its trim |
| Text.ToLower | src/models/user.js:28 | lower-casing maps each character by itself and keeps the length |
| Text.TrimLowerCommute | src/models/user.js:27-28 | trimming and lower-casing commute |
| Text.Contains | src/models/user.js:20 | the empty string is contained in every string; a contained string is no longer than the text |
| Text.Utf16Length | src/models/user.js:18 | the JavaScript length is at least the number of characters and at most twice it |
| Text.Utf16LengthOfBmp | src/models/user.js:18 | without characters above U+FFFF the JavaScript length is the number of characters |
| Text.ContainsSpec | src/models/user.js:20 | includes holds iff the substring occurs at some index |
| TaskQuery.CompletedFilter | src/routers/task.js:28-30 | a filter exists iff the parameter is a non-empty string, and it requires completed to be true exactly when the parameter is "true" |
| TaskQuery.ParseSortBy | src/routers/task.js:31-34 | the field is the text before the first ':', and the direction is descending exactly when parts[1] is "desc" |
| TaskQuery.Matching | src/routers/task.js:38-40 | a task matches iff it is a stored task of the caller that passes the completed filter |
| TaskQuery.ListTasks | src/routers/task.js:38-47 | the populated list is never longer than the matching tasks |
| TaskQuery.NewestFirst | src/routers/task.js:23 | a list sorted on createdAt, descending, has its ids descending: newest first |
| TaskQuery.MatchingSpec | src/routers/task.js:28-30 | the matching tasks are the caller's tasks with completed equal to (value == "true") when the parameter is given, and every task of the caller otherwise |
| TaskQuery.SortByFieldAndDirection | src/routers/task.js:31-34 | "f:d" sorts on f, with direction -1 iff d is "desc" and 1 otherwise |
| TaskQuery.SortByFieldOnly | src/routers/task.js:31-34 | a value without ':' sorts on that field, ascending |
| TaskQuery.StrLeTotal | src/routers/task.js:44 | any two strings are comparable in the sort order |
| TaskQuery.KeyLeTotal | src/routers/task.js:44 | any two field values are comparable, values of different types ordered by type |
| TaskQuery.InOrderTotal | src/routers/task.js:31-34 | for either direction, of two tasks one may precede the other |
| TaskQuery.InOrderTransitive | src/routers/task.js:31-34 | for either direction, the task order is transitive |
| TaskQuery.Insert | src/routers/task.js:44 | inserting adds exactly the one element to the list's multiset |
| TaskQuery.StrLeTransitive | src/routers/task.js:44 | the string order used for sorting is transitive |
| TaskQuery.KeyLeTransitive | src/routers/task.js:44 | the order on field values is transitive |
| TaskQuery.InsertSorted | src/routers/task.js:44 | inserting into a sorted list keeps it sorted |
| TaskQuery.Sort | src/routers/task.js:44 | the sorted list is a permutation of the input and is in order |
| TaskQuery.PageSorted | src/routers/task.js:42-44 | skipping and limiting a sorted list leaves it sorted |
| TaskQuery.ListTasksSpec | src/routers/task.js:38-47 | every listed task is a stored task of the caller that passes the filter; the list is sorted when sortBy is given; it has at most limit items; without skip and limit it holds every such task as often as stored |
| UserRouter.AvatarNameOk | src/routers/user.js:122-128 | a name passes iff some suffix of it is ".jpg", ".jpeg" or ".png" |
| UserRouter.UploadError | src/routers/user.js:118-129 | an upload is refused iff its name fails the filter or it exceeds 1000000 bytes; the filter's message comes first |
| UserRouter.ValidUpdate | src/routers/user.js:84-88 | the update is allowed iff every key of the body is name, email, password or age |
| UserRouter.AssignStep | src/routers/user.js:96-98 | one forEach step assigns one more key and adds that key's cast error |
| UserRouter.UpdateFrame | src/routers/user.js:95-99 | a whitelisted update sets exactly the supplied paths through their setters; id, tokens, avatar and unsupplied paths keep their values |
| UserRouter.ApplyUpdates | src/routers/user.js:96-98 | the loop leaves the document with every body key assigned, and gathers the cast errors of all keys |
| UserRouter.Login | src/routers/user.js:9-17 | 400 and no change when the credentials fail or the token save fails; otherwise 200 with the public view and the token, and the token appended to that user |
| UserRouter.Logout | src/routers/user.js:19-27 | 200 and every copy of the request token removed, the other tokens kept in order; 500 and no change when the save fails |
| UserRouter.LogoutTokens | src/routers/user.js:21 | after logout the token is gone, every other token is kept as often as before, and order is preserved |
| UserRouter.LogoutAll | src/routers/user.js:29-37 | 200 with an empty token list and no other field changed, or 500 and no change |
| UserRouter.CreateUser | src/routers/user.js:41-43 | the new user is appended with its password hashed and no token, or nothing is stored |
| UserRouter.Register | src/routers/user.js:40-51 | 400 with the error and nothing stored when the first save fails; 201 with the view and the one token when both saves succeed; 400 with the user kept without a token when only the second fails |
| UserRouter.IssueFirstToken | src/routers/user.js:44-49 | generateAuthToken on the user just appended: 201 with its view and the single token when the save succeeds; otherwise 400 with the password path and that user left stored without a token |
| UserRouter.ListUsers | src/routers/user.js:54-61 | 200 with the public view of every user, in stored order, none with a secret key |
| UserRouter.Me | src/routers/user.js:64-66 | 200 with the signed-in user's own public view |
| UserRouter.UpdateMe | src/routers/user.js:83-105 | a key outside name, email, password and age gives 400 "Invalid updates !" and no change; otherwise the assigned user is saved: 200 with its view, or 400 with the error and no change |
| UserRouter.DeleteMe | src/routers/user.js:108-116 | 200 with the removed user's view; the user and all of its tasks are gone, other tasks are untouched |
| UserRouter.UploadAvatar | src/routers/user.js:130-141 | 400 with multer's message when refused; 500 without a file, with an unreadable image or a failed save; otherwise 200 and the PNG stored as the avatar |
| UserRouter.DeleteAvatar | src/routers/user.js:143-151 | always 200; the avatar is unset only if the unawaited save succeeds |
| UserRouter.FetchAvatar | src/routers/user.js:153-165 | 200 with the avatar bytes iff the id casts, the user exists and has an avatar, empty or not; 404 otherwise |
| TaskRouter.Stamp | src/routers/task.js:8-11 | the caller's id overrides any userId of the body; every other key is kept |
| TaskRouter.StampedOwner | src/routers/task.js:8-11 | a created task is the one the body describes with the caller as owner, and never fails on userId |
| TaskModel.AssignAll | src/routers/task.js:84-86 | assigning body values never changes the id and keeps a trimmed description trimmed |
| TaskModel.FromObject | src/routers/task.js:8-11 | the new task has the given id and a trimmed description, is not completed unless the body says so, and reports userId exactly when the object has no id there |
| TaskRouter.ValidUpdate | src/routers/task.js:69-73 | the update is allowed iff every key of the body is description or completed |
| TaskRouter.UpdateFrame | src/routers/task.js:84-86 | a whitelisted update sets only the supplied description (trimmed) and completed; id and owner stay |
| TaskRouter.AssignStep | src/routers/task.js:84-86 | one forEach step assigns one more key and adds that key's cast error |
| TaskRouter.ApplyUpdates | src/routers/task.js:84-86 | the loop leaves the task with every body key assigned, and gathers the cast errors |
| TaskRouter.Create | src/routers/task.js:7-18 | the stamped task is owned by the caller; 201 and appended, or 400 with the error and no change |
| TaskRouter.List | src/routers/task.js:24-51 | 200 with the filtered, sorted and paged list, holding only the caller's stored tasks that pass the filter |
| TaskRouter.Get | src/routers/task.js:54-65 | 500 for an id that does not cast; 404 iff the caller owns no task with that id, so another user's task looks missing; 200 with that task otherwise |
| TaskRouter.Update | src/routers/task.js:68-91 | a disallowed key gives 400 before any lookup; then 400 for a malformed id, 404 for a task the caller does not own; otherwise only that task is replaced by the update on a successful save, and 400 with no change when the save fails |
| TaskRouter.Delete | src/routers/task.js:94-106 | 500 for a malformed id, 404 for a task the caller does not own; otherwise 200 with the task, which alone is removed, the others kept in order |

## Left out

- Password hashing, password comparison, email-format checking and the sharp resizing to a 250x250 PNG are opaque functions in `External.Services`. Their results are inputs to the model.
- Token signing with jwt is not modelled. A token is a string given to the handler, and tokens are not assumed to be unique. `Database.Store.AddToken` accepts the empty token, which the required validator on `tokens.token` would refuse; jwt never signs an empty token.
- The authentication middleware is not part of this model. Each handler behind it takes the id of the signed-in user as stored, plus the request token where logout needs it.
- The welcome and cancellation emails (src/emails/account.js) and the server wiring (src/index.js) are fire-and-forget I/O and configuration. The model leaves them out.
- The task schema file src/models/task.js is not part of this model. The routers do not show the task schema's options. The model assumes a required, trimmed description, a completed flag that defaults to false, and a required owner.
- Timestamps and the version key `__v` are not stored or sent. createdAt sorts as the id does, since ids are handed out in creation order. Sorting on the id in place of createdAt is the model's stand-in for the timestamp. A sort on updatedAt, or on any field a task does not have, keeps the stored order.
- Tie order is a choice of the model. Tasks with equal sort keys keep their stored order, and without sortBy the stored order is kept. MongoDB guarantees neither order. `TaskRouter.List` names the exact list, so it depends on this choice, and so does which tasks a skip/limit page holds when keys tie.
- JSON `null` is not a value of the model. In the code, `{"age": null}` in `PATCH /users/me` passes the age validator (`null < 0` is false) and is stored with 200. `{"completed": null}` on a task is stored the same way. The model cannot express either request.
- Casting is reduced to exact types. String paths take strings, age takes numbers, completed takes booleans, owner references take ids. Mongoose's cross-type casts (such as "true" to true or "5" to 5) are treated as cast errors.
- Body values for `_id`, `tokens` and `avatar` are ignored when a document is built from a body. The code would set them: `new User(req.body)` takes a preset id, token list and avatar, and `Task({...req.body})` takes a preset id. Keys outside the schema are ignored, as in the code.
- Login takes the email and password as strings. A body that lacks them is not modelled. The email lookup matches the given string exactly, without the query casting that would trim and lower-case it.
- The query's limit and skip arrive already parsed as non-negative numbers. `parseInt` returning NaN, and negative values, are not modelled.
- Infrastructure failures (the database unreachable, a failed delete or find) are not modelled. Only the 500 answers that the modelled data can cause appear.
- Concurrency between requests, and the non-atomic order of the cascade and the user removal, are not modelled. Each handler runs to completion on its own.
- Ages are integers. The schema's `Number` also admits fractions: the code stores 25.5 and refuses -0.5, and the model has neither.
- Lower-casing covers ASCII letters only. White space is the set of code points JavaScript's `trim` removes.
- The response body of a failed save carries the failing paths or the duplicate-key fault, not Mongoose's full error object.
