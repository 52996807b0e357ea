# dialogue: the authorization gate and the store it relies on

A Dafny model of the core of a small discussion-forum backend written in Go.
Clients log in once (`POST /auth`) to receive a token, then send their
username and that token in the `X-Auth-User` and `X-Auth-Token` headers on
every protected request.  A guard (`apiAuthorize`) checks the pair against
the one stored authorization of that user and either stops the request with
401 or binds the username to the session for the handler.  Behind it sit
handlers that register users, change passwords (admin or self only), create
topics and posts, and a store over four RethinkDB tables (`auth`, `user`,
`topic`, `post`).

The model has these modules:

- `Records` (records.dfy): the four documents of common.go.
- `Rdb` (rdb.dfy): what the RethinkDB queries the store issues do to a
  table.  A table is a sequence of documents in table order.  `Select` is a
  filter's result set, `First` is the row `RunRow` yields (nil when there is
  none), and `Without` is the table after a filtered delete.  Lemmas relate
  them: after deleting a key nothing has it; other keys are untouched; a
  delete matching one row removes exactly that row.
- `Db` (db.dfy): the current store, class `Rethinkdb` (db/db.go).  Its
  fields are the four tables.  Its methods change them in place and state
  the new table in terms of the old one.
- `ApiDb` (apidb.dfy): the older store revision (api/db.go), a separate
  class `Rethinkdb` with the topic and post tables.
- `Revisions` (revisions.dfy): the two revisions run on the same tables, to
  show where they differ.
- `Api` (api.dfy): the handlers of api/api.go as methods of `DialogueApi`,
  which holds the store.  Responses are a status plus a JSON body, or
  `NilDereference` where the code reads through a nil user pointer.
  `Serve` runs the guard before a protected handler.

Everything outside the program is an input.  This covers driver errors, the
bcrypt hash, the generated token and the primary key the server assigns.
Each store round trip takes a flag saying whether the driver reports an
error; a failed round trip changes nothing.  A handler receives one `Env`
holding these answers for its request.  bcrypt's comparison of a hash with
a password is the function-valued field `DialogueApi.authenticate`.

Main results:

- Store uniqueness is checked before insert, and the check fails closed.
  If the `userExists`/`topicExists` lookup errors, it answers "exists".
  Such an error therefore refuses the insert in `db/db.go`, and silently
  skips it in `api/db.go`.  Both `SaveUser` and `SaveTopic` keep their
  field unique.
- After a `SaveAuthorization` whose delete and insert both go through, the
  user has exactly one authorization row, the new one.  Every other user's
  rows are unchanged.
- Logging in twice: after the second login the first token is refused by
  the guard and the second is admitted.  This holds provided the two
  generated tokens differ, which the model assumes explicitly.  The lemma
  is `SecondLoginRevokesFirst`, and `LoginTwice` runs it through the
  handlers.
- `SaveAuthorization` never looks at its delete step's result.  If that
  delete fails and the insert succeeds, the login reports success, yet the
  user then has two rows, and the guard admits one of the two tokens and no
  other (`BothRowsAfterFailedDelete`).  Which one passes depends on which
  row the server yields first: the old token may still pass and the new one
  be refused.  In table order that is what happens
  (`StaleTokenSurvivesFailedDelete`).
- Every rejection by the guard is a 401, and the guard never writes.  On a
  protected route, a 401 is answered exactly when the guard rejects.
- Two defects in api/api.go are modelled as the outcome `NilDereference`.
  `Authenticate` with an unknown username reads `user.Password` of a nil
  user (api/api.go:265).  `PutUser` for a missing target assigns to it
  (api/api.go:361).

Behaviours of the code worth knowing:

- A login with an unknown username panics (api/api.go:265).
- `PostUsers`, `PostTopics` and `PostTopicsPosts` answer a missing field
  with 500.  `PutUser` accepts an empty password and stores its hash
  (api/api.go:350-361), and `Authenticate` does not check its fields
  (api/api.go:255-257).
- A failed delete in `SaveAuthorization` leaves the old row in place
  (db/db.go:279), so the old token can remain valid.
- `GetTopics` and `GetPosts` never ask the cursor for its error, so a
  failure while fetching a batch ends the listing early and is reported as
  success with the rows read so far (db/db.go:136, 200).

## Model

| member | source | states |
|---|---|---|
| `Rdb.Select` | db/db.go:212 | A filter's result set holds exactly the table's rows whose field equals the value, and is empty exactly when no row has it |
| `Rdb.First` | db/db.go:261-275 | `RunRow` on a filter yields nil exactly when no row matches, else a row of the table that matches |
| `Rdb.Without` | db/db.go:279 | A filtered delete never grows the table, and leaves exactly the rows whose field differs from the value |
| `Rdb.FirstIsEarliest` | db/db.go:262 | The row `RunRow` yields is the earliest matching row of the table, and no other |
| `Rdb.SelectAppend` | db/db.go:281 | Inserting a row extends each filter's result by that row when it matches, and by nothing otherwise |
| `Rdb.WithoutAppend` | db/db.go:281 | A filtered delete after an insert keeps the inserted row exactly when it does not match |
| `Rdb.SelectWithout` | db/db.go:277-285 | After deleting the rows with a key, a filter on that key is empty and a filter on any other key is unchanged |
| `Rdb.UniqueSelect` | db/db.go:99 | Under a unique key (a primary key), a `Get` filter has at most one row |
| `Rdb.WithoutSingle` | db/db.go:97-111 | A delete whose filter matches one row removes that row and no other, keeping the rest in order |
| `Rdb.WithoutNone` | api/db.go:79-84 | A delete whose filter matches nothing leaves the table unchanged |
| `Rdb.AppendKeepsUnique` | db/db.go:220-229 | Inserting a row whose key no row has keeps the key unique |
| `Db.Reauthorized` | db/db.go:277-285 | The auth table after a delete and insert that both went through: the new row last, before it only rows of other users, and every row of another user kept |
| `Db.SoleAuthorization` | db/db.go:277-285 | After delete-then-insert, the user's only authorization row is the new one, and other users' rows are unchanged |
| `Db.Rethinkdb.TopicExists` | db/db.go:70-77 | Answers true exactly when the lookup errors or a topic has the title |
| `Db.Rethinkdb.SaveTopic` | db/db.go:79-88 | A taken title, or a failed check, gives ErrTopicExists and leaves the table unchanged. Otherwise exactly the topic is appended, unless the insert fails. Title uniqueness is preserved |
| `Db.Rethinkdb.DeleteTopic` | db/db.go:97-111 | A lookup error gives a driver error. A missing id gives ErrTopicNotFound. Both leave the table unchanged. Otherwise the rows with that id are removed, unless the delete fails |
| `Db.Rethinkdb.GetTopic` | db/db.go:113-127 | Errors only when the read fails. A missing id is nil, not an error. A returned topic is in the table with that id |
| `Db.Rethinkdb.GetTopics` | db/db.go:129-145 | An error exactly when the query fails or a row read before the cursor stops does not decode. A success is a prefix of the topic table: all of it unless fetching a batch errors, which silently cuts it short |
| `Db.Rethinkdb.SavePost` | db/db.go:147-152 | Appends exactly the post, with no duplicate check, unless the insert fails |
| `Db.Rethinkdb.DeletePost` | db/db.go:161-175 | A lookup error gives a driver error. A missing id gives ErrPostNotFound. Both leave the table unchanged. Otherwise the rows with that id are removed, unless the delete fails |
| `Db.Rethinkdb.GetPost` | db/db.go:177-191 | Errors only when the read fails. A missing id is nil, not an error. A returned post is in the table with that id |
| `Db.Rethinkdb.GetPosts` | db/db.go:193-209 | An error exactly when the query fails or a row read before the cursor stops does not decode. A success is a prefix of the post table, whatever `topicId` is: all of it unless fetching a batch errors, which silently cuts it short |
| `Db.Rethinkdb.UserExists` | db/db.go:211-218 | Answers true exactly when the lookup errors or a user has the username |
| `Db.Rethinkdb.SaveUser` | db/db.go:220-229 | A taken username, or a failed check, gives ErrUserExists and leaves the table unchanged. Otherwise exactly the user is appended, unless the insert fails. Username uniqueness is preserved |
| `Db.Rethinkdb.UpdateUser` | db/db.go:231-236 | A failed update leaves the table unchanged. Otherwise the table becomes what the server makes of the update |
| `Db.Rethinkdb.GetUser` | db/db.go:238-252 | Errors only when the read fails. An unknown username is nil, not an error. A returned user is in the table with that name |
| `Db.Rethinkdb.DeleteUser` | db/db.go:254-259 | Removes every user with the username (none is not an error), unless the delete fails |
| `Db.Rethinkdb.GetAuthorization` | db/db.go:261-275 | Errors only when the read fails. No row is nil, not an error. A returned row is in the table for that user |
| `Db.Rethinkdb.SaveAuthorization` | db/db.go:277-285 | The result is the insert's alone. The new table is stated for every combination of delete and insert failure. When both succeed, the user's only row is the new one and other users are untouched |
| `ApiDb.Rethinkdb.TopicExists` | api/db.go:52-59 | Answers true exactly when the lookup errors or a topic has the title |
| `ApiDb.Rethinkdb.SaveTopic` | api/db.go:61-70 | A taken title, or a failed check, is success with the table unchanged. Otherwise exactly the topic is appended, unless the insert fails. Title uniqueness is preserved |
| `ApiDb.Rethinkdb.DeleteTopic` | api/db.go:79-84 | Removes every topic with the id and succeeds even when none matched, unless the delete fails |
| `ApiDb.Rethinkdb.GetTopic` | api/db.go:86-100 | Errors only when the read fails. A missing id is nil, not an error |
| `ApiDb.Rethinkdb.GetTopics` | api/db.go:102-118 | An error exactly when the query fails or a row read before the cursor stops does not decode. A success is a prefix of the topic table: all of it unless fetching a batch errors, which silently cuts it short |
| `ApiDb.Rethinkdb.SavePost` | api/db.go:120-125 | Appends exactly the post unless the insert fails |
| `ApiDb.Rethinkdb.GetPost` | api/db.go:141-155 | Errors only when the read fails. A missing id is nil, not an error |
| `ApiDb.Rethinkdb.GetPosts` | api/db.go:157-173 | An error exactly when the query fails or a row read before the cursor stops does not decode. A success is a prefix of the post table, whatever `topicId` is: all of it unless fetching a batch errors, which silently cuts it short |
| `Revisions.DuplicateTitle` | api/db.go:66-69 | On a taken title the current store answers ErrTopicExists and the older one answers success; neither inserts the topic |
| `Revisions.DeleteMissingTopic` | api/db.go:79-84 | For an id no topic has, the current store answers ErrTopicNotFound and the older one answers success; neither changes the table |
| `Api.Admits` | api/api.go:140 | The token comparison passes exactly when the earliest row of the user carries the presented token |
| `Api.GateAdmits` | api/api.go:122-146 | The guard admits only with both headers present, a lookup that did not fail and a stored row carrying the presented pair; given the first two, exactly when the comparison passes |
| `Api.SoleRowDecides` | api/api.go:140-148 | When a user has a single authorization row, the token comparison accepts its token and no other |
| `Api.SecondLoginRevokesFirst` | api/api.go:265-283 | After two successful logins with different tokens, the first token fails the gate's comparison and the second passes |
| `Api.BothRowsAfterFailedDelete` | db/db.go:278-283 | With the delete step failed, the user has both the old and the new row, and the guard's comparison admits no token but one of theirs |
| `Api.StaleTokenSurvivesFailedDelete` | db/db.go:278-283 | With the delete step failed and rows in table order, the old token still passes and a different new token does not |
| `Api.DialogueApi.Setup` | api/api.go:76-118 | The admin is created with the hash of "dialogue" only when GetUser("admin") finds none. If it finds one, the answer is 400 and nothing is written. Each failure gives 500 and writes nothing |
| `Api.DialogueApi.ApiAuthorize` | api/api.go:120-149 | Admits exactly when both headers are non-empty (the header check is `CredentialsPresent`, api/api.go:124), the lookup succeeds and the stored token equals the presented one, binding that username. Each rejection is 401 with its message, and nothing is written |
| `Api.DialogueApi.PostTopics` | api/api.go:177-200 | An empty title gives 500 and writes nothing. Otherwise an open topic with that title is saved (204), or 500 with the table unchanged |
| `Api.DialogueApi.PostTopicsPosts` | api/api.go:202-228 | Empty content gives 500 and writes nothing. Otherwise a post authored by the session user is saved (204), or 500 with the table unchanged |
| `Api.DialogueApi.Authenticate` | api/api.go:254-290 | A failed read gives 500. An unknown user is a nil dereference. A wrong password gives 401 and writes nothing. A match stores the generated token as the user's authorization and returns it with 200 |
| `Api.DialogueApi.PostUsers` | api/api.go:292-326 | An empty username or password gives 500 before hashing and writes nothing. Otherwise the user is saved with the password's hash (204), or 500 with the table unchanged |
| `Api.DialogueApi.PutUser` | api/api.go:328-371 | Unless `MayUpdate` holds (api/api.go:333: the session user is admin or the target), the answer is 403 and nothing is written. A missing target is a nil dereference. Otherwise the user with the new hash is written through UpdateUser |
| `Api.DialogueApi.Serve` | api/api.go:50-62 | On a protected route the answer is 401 exactly when the guard rejects. A rejected request writes nothing, and no protected route writes the auth table |
| `Api.DialogueApi.LoginTwice` | api/api.go:265-283 | After a second successful login whose delete step went through, the first token is rejected by the guard and the second admitted |

## Left out

- HTTP plumbing is not modelled: martini routing, rendering, cookie
  sessions, `NewApi` and `Run` (api/api.go:34-70).  The guard's admitted
  username is passed to the handler in place of the session value.
- The route handlers `GetTopic`, `GetTopics`, `DeleteTopic` and
  `DeletePost` (api/api.go:152-175, 230-252) are not modelled.  They pass
  straight through to the store methods modelled here.
- martini's recovery of a panic into a 500 response is not modelled.  The
  model stops at the `NilDereference` outcome.
- bcrypt and uuid (auth/auth.go) are inputs, not modelled functions.  The
  model does not prove bcrypt's hash/verify round trip or uuid uniqueness.
  `LoginTwice` states "the two tokens differ" as a precondition.
- `Db.Rethinkdb.UpdateUser`: its effect is taken as given (`Env.update`),
  because RethinkDB's `Update` with no selector depends on the driver.
  `UpdateTopic` and `UpdatePost` in both files are left out for the same
  reason.  So is the older `DeletePost` (api/db.go:134-139), which passes
  a whole record to `Get`.
- Connection setup and table creation (`NewRethinkdbSession`) are not
  modelled.  The constructors instead take the tables' initial contents.
- Table order is assumed: a filter's rows come in insertion order, and
  `RunRow` yields the first.  RethinkDB does not promise an order.
- `Api.StaleTokenSurvivesFailedDelete`: which of the two tokens passes
  depends on that order; the server may yield the new row first, and then
  the new token passes and the old one is refused.  The order-free part,
  that only those two tokens can pass, is `Api.BothRowsAfterFailedDelete`.
- Primary keys are not forced to be unique.  Lemmas that need unique keys
  state this as a hypothesis (`UniqueBy`).
- A `Db.Rethinkdb.GetTopics`/`GetPosts` result does not distinguish Go's
  nil slice from an empty one.
- Error texts are simplified.  Where the source appends the driver's error
  text to a message, only the fixed part is kept.
- Concurrency is not modelled.  The check-then-insert and delete-then-insert
  races need concurrent requests, and the model is sequential.
- Also left out: logging, the CLI (cli/main.go), the HTTP client
  (client/client.go) and the server's entry point (api/main.go).
