/**
 * The request handlers of api/api.go and the authorization guard that runs
 * before the protected ones.
 *
 * A handler answers with a `Response`: a status code and a JSON body, or a
 * nil-pointer dereference where the source reads a field of a user that
 * is not there.  What the outside world answers during one request (driver
 * errors, bcrypt's hash, the generated token, the server's primary key)
 * comes in as an `Env`.  The effect of a handler is what it leaves in the
 * store's tables.
 */
module Api {
  import opened Wrappers
  import opened Records
  import opened Rdb
  import Db

  const Admin := "admin"
  const AdminPassword := "dialogue"

  // Error and response texts.  Where the source appends the driver's error
  // text, only the fixed part is kept.
  const MsgAdminCheck := "Error checking for admin user"
  const MsgAdminHash := "Error generating password for admin user"
  const MsgCreateUser := "Error creating user"
  const MsgAdminCreated := "admin user created: username: admin password: dialogue"
  const MsgAdminPresent := "admin user already present"
  const MsgNoCredentials := "username and token must be present"
  const MsgTokenCheck := "error verifying token"
  const MsgBadToken := "invalid username/token"
  const MsgNoTitle := "title must be specified"
  const MsgSaveTopic := "Error saving topic"
  const MsgNoContent := "content must be specified"
  const MsgSavePost := "Error saving post"
  const MsgAuthenticating := "Error authenticating"
  const MsgSaveToken := "Error saving auth token"
  const MsgBadLogin := "Invalid username/password"
  const MsgNoUserFields := "username and password must be specified"
  const MsgHashing := "error hashing password"
  const MsgForbidden := "you are not allowed to update this resource"
  const MsgUpdateUser := "Error updating user"

  datatype Body = ApiError(error: string) | ApiResponse(response: string) | AuthToken(token: string) | NoBody

  /** What a handler sends back; `NilDereference` is the panic of reading a
      field through the nil user pointer GetUser returns for a missing user. */
  datatype Response = Reply(status: int, body: Body) | NilDereference

  /** The guard's verdict: go on with the session bound to a username, or
      stop the chain with a response. */
  datatype Gate = Admit(username: string) | Reject(response: Response)

  /** The outside world's answers during one request. */
  datatype Env = Env(
    authFails: bool,     // the guard's GetAuthorization errors
    readFails: bool,     // the handler's GetUser errors
    existsFails: bool,   // the duplicate check before an insert errors
    deleteFails: bool,   // the delete step of SaveAuthorization errors
    writeFails: bool,    // the insert or update errors
    hashPassword: string -> Option<string>,  // bcrypt's answer for a password (None: error)
    token: string,       // what GenerateToken returns
    newId: string,       // the primary key the server gives an inserted document
    update: (seq<User>, User) -> seq<User>)  // the user table after UpdateUser

  /** The empty-header check: both headers must be non-empty. */
  function CredentialsPresent(user: string, token: string): (b: bool)
    ensures b <==> |user| > 0 && |token| > 0
  {
    user != "" && token != ""
  }

  /** The stored authorization of `user` (the first row the filter yields)
      carries exactly `token`: the earliest row of that user holds it. */
  function Admits(auth: seq<Authorization>, user: string, token: string): (b: bool)
    ensures b <==> exists i :: Earliest(auth, AuthUsername, user, i) && auth[i].token == token
  {
    FirstIsEarliest(auth, AuthUsername, user);
    var a := First(auth, AuthUsername, user);
    a.Some? && a.value.token == token
  }

  /** Whether the guard lets the request through, given the auth table: both
      headers are present, the lookup did not fail, and the user's earliest
      row carries the presented token. */
  function GateAdmits(auth: seq<Authorization>, user: string, token: string, env: Env): (b: bool)
    ensures b ==> user != "" && token != "" && !env.authFails
    ensures b ==> exists i | 0 <= i < |auth| :: auth[i].username == user && auth[i].token == token
    ensures (CredentialsPresent(user, token) && !env.authFails) ==> (b <==> Admits(auth, user, token))
  {
    CredentialsPresent(user, token) && !env.authFails && Admits(auth, user, token)
  }

  /** The ownership rule: the admin may update anyone, others only themselves. */
  function MayUpdate(session: string, target: string): (b: bool)
    ensures session == Admin ==> b
    ensures session == target ==> b
    ensures b && session != Admin ==> target == session
  {
    session == Admin || session == target
  }

  /** When a user has a single authorization row, the gate accepts its token and no other. */
  lemma SoleRowDecides(auth: seq<Authorization>, row: Authorization, token: string)
    requires Select(auth, AuthUsername, row.username) == [row]
    ensures Admits(auth, row.username, token) <==> token == row.token
  {
  }

  /** Two logins of one user, each with a delete and insert that went
      through: the first token no longer passes the gate, the second does. */
  lemma SecondLoginRevokesFirst(auth: seq<Authorization>, first: Authorization, second: Authorization)
    requires first.username == second.username && first.token != second.token
    ensures !Admits(Db.Reauthorized(Db.Reauthorized(auth, first), second), second.username, first.token)
    ensures Admits(Db.Reauthorized(Db.Reauthorized(auth, first), second), second.username, second.token)
  {
    Db.SoleAuthorization(Db.Reauthorized(auth, first), second);
    SoleRowDecides(Db.Reauthorized(Db.Reauthorized(auth, first), second), second, first.token);
  }

  /** A login whose delete step failed still succeeds, but leaves the user
      with two rows, the old one and the new one.  The gate then admits one
      of the two tokens and nothing else; which one depends on the row the
      server yields first. */
  lemma BothRowsAfterFailedDelete(auth: seq<Authorization>, previous: Authorization, row: Authorization, token: string)
    requires Select(auth, AuthUsername, row.username) == [previous]
    ensures var both := Select(auth + [row], AuthUsername, row.username);
      |both| == 2 && previous in both && row in both
    ensures Admits(auth + [row], row.username, token) ==> token == previous.token || token == row.token
  {
    SelectAppend(auth, row, AuthUsername, row.username);
    assert First(auth + [row], AuthUsername, row.username) == Some(previous);
  }

  /** In table order the old row comes first, so the old token keeps
      passing the gate and the token just issued does not. */
  lemma StaleTokenSurvivesFailedDelete(auth: seq<Authorization>, previous: Authorization, row: Authorization)
    requires Select(auth, AuthUsername, row.username) == [previous]
    ensures Select(auth + [row], AuthUsername, row.username) == [previous, row]
    ensures Admits(auth + [row], row.username, previous.token)
    ensures row.token != previous.token ==> !Admits(auth + [row], row.username, row.token)
  {
  }

  /** The routes this model serves. */
  datatype Route =
    | GetSetup
    | PostAuth(username: string, password: string)
    | CreateUser(username: string, password: string)
    | ChangePassword(username: string, password: string)
    | CreateTopic(title: string)
    | CreatePost(topicId: string, content: string)
  {
    /** The routes registered behind the guard. */
    predicate Protected()
    {
      !GetSetup? && !PostAuth?
    }
  }

  /** A request: its route and its X-Auth-User and X-Auth-Token headers. */
  datatype Request = Request(route: Route, authUser: string, authToken: string)

  class DialogueApi {
    const rdb: Db.Rethinkdb
    /** bcrypt's comparison of a stored hash with a password. */
    const authenticate: (string, string) -> bool

    constructor (rdb: Db.Rethinkdb, authenticate: (string, string) -> bool)
      ensures this.rdb == rdb && this.authenticate == authenticate
    {
      this.rdb := rdb;
      this.authenticate := authenticate;
    }

    /** Creates the admin user with the default password, once. */
    method Setup(env: Env) returns (resp: Response)
      modifies rdb`users
      ensures env.readFails ==> resp == Reply(500, ApiError(MsgAdminCheck)) && rdb.users == old(rdb.users)
      ensures !env.readFails && First(old(rdb.users), UserUsername, Admin).Some? ==>
        resp == Reply(400, ApiError(MsgAdminPresent)) && rdb.users == old(rdb.users)
      ensures !env.readFails && First(old(rdb.users), UserUsername, Admin).None? ==>
        var hash := env.hashPassword(AdminPassword);
        if hash.None? then resp == Reply(500, ApiError(MsgAdminHash)) && rdb.users == old(rdb.users)
        else if env.existsFails || env.writeFails then
          resp == Reply(500, ApiError(MsgCreateUser)) && rdb.users == old(rdb.users)
        else
          resp == Reply(200, ApiResponse(MsgAdminCreated)) &&
          rdb.users == old(rdb.users) + [User(Some(env.newId), Admin, hash.value)]
    {
      var found := rdb.GetUser(Admin, env.readFails);
      if found.Failure? {
        return Reply(500, ApiError(MsgAdminCheck));
      }
      if found.value.Some? {
        return Reply(400, ApiError(MsgAdminPresent));
      }
      var pw := env.hashPassword(AdminPassword);
      if pw.None? {
        return Reply(500, ApiError(MsgAdminHash));
      }
      var err := rdb.SaveUser(User(None, Admin, pw.value), env.existsFails, env.writeFails, env.newId);
      if err.Fail? {
        return Reply(500, ApiError(MsgCreateUser));
      }
      resp := Reply(200, ApiResponse(MsgAdminCreated));
    }

    /** The guard: checks the headers against the stored authorization and
        never writes the store. */
    method ApiAuthorize(user: string, token: string, env: Env) returns (g: Gate)
      ensures g.Admit? <==> GateAdmits(rdb.auth, user, token, env)
      ensures g.Admit? ==> g.username == user
      ensures g.Reject? ==> g.response.Reply? && g.response.status == 401
      ensures !CredentialsPresent(user, token) ==> g == Reject(Reply(401, ApiError(MsgNoCredentials)))
      ensures CredentialsPresent(user, token) && env.authFails ==>
        g == Reject(Reply(401, ApiError(MsgTokenCheck)))
      ensures CredentialsPresent(user, token) && !env.authFails && !Admits(rdb.auth, user, token) ==>
        g == Reject(Reply(401, ApiError(MsgBadToken)))
    {
      if !CredentialsPresent(user, token) {
        return Reject(Reply(401, ApiError(MsgNoCredentials)));
      }
      var stored := rdb.GetAuthorization(user, env.authFails);
      if stored.Failure? {
        return Reject(Reply(401, ApiError(MsgTokenCheck)));
      }
      if stored.value.None? || stored.value.value.token != token {
        return Reject(Reply(401, ApiError(MsgBadToken)));
      }
      g := Admit(user);
    }

    /** Creates an open topic with the given title. */
    method PostTopics(title: string, env: Env) returns (resp: Response)
      modifies rdb`topics
      ensures title == "" ==> resp == Reply(500, ApiError(MsgNoTitle)) && rdb.topics == old(rdb.topics)
      ensures title != "" ==>
        if env.existsFails || Select(old(rdb.topics), TopicTitle, title) != [] || env.writeFails then
          resp == Reply(500, ApiError(MsgSaveTopic)) && rdb.topics == old(rdb.topics)
        else
          resp == Reply(204, NoBody) && rdb.topics == old(rdb.topics) + [Topic(Some(env.newId), title, false)]
    {
      if title == "" {
        return Reply(500, ApiError(MsgNoTitle));
      }
      var err := rdb.SaveTopic(Topic(None, title, false), env.existsFails, env.writeFails, env.newId);
      if err.Fail? {
        return Reply(500, ApiError(MsgSaveTopic));
      }
      resp := Reply(204, NoBody);
    }

    /** Adds a post under `topicId`, authored by the session's user. */
    method PostTopicsPosts(session: string, topicId: string, content: string, env: Env) returns (resp: Response)
      modifies rdb`posts
      ensures content == "" ==> resp == Reply(500, ApiError(MsgNoContent)) && rdb.posts == old(rdb.posts)
      ensures content != "" && env.writeFails ==>
        resp == Reply(500, ApiError(MsgSavePost)) && rdb.posts == old(rdb.posts)
      ensures content != "" && !env.writeFails ==>
        resp == Reply(204, NoBody) &&
        rdb.posts == old(rdb.posts) + [Post(Some(env.newId), topicId, session, content)]
    {
      if content == "" {
        return Reply(500, ApiError(MsgNoContent));
      }
      var err := rdb.SavePost(Post(None, topicId, session, content), env.writeFails, env.newId);
      if err.Fail? {
        return Reply(500, ApiError(MsgSavePost));
      }
      resp := Reply(204, NoBody);
    }

    /** Login: on a password match, issues a token, stores it as the user's
        authorization and returns it. */
    method Authenticate(username: string, password: string, env: Env) returns (resp: Response)
      modifies rdb`auth
      ensures env.readFails ==> resp == Reply(500, ApiError(MsgAuthenticating)) && rdb.auth == old(rdb.auth)
      ensures !env.readFails && First(rdb.users, UserUsername, username).None? ==>
        resp == NilDereference && rdb.auth == old(rdb.auth)
      ensures (!env.readFails && First(rdb.users, UserUsername, username).Some? &&
               !authenticate(First(rdb.users, UserUsername, username).value.password, password)) ==>
        resp == Reply(401, ApiError(MsgBadLogin)) && rdb.auth == old(rdb.auth)
      ensures (!env.readFails && First(rdb.users, UserUsername, username).Some? &&
               authenticate(First(rdb.users, UserUsername, username).value.password, password)) ==>
        var row := Authorization(Some(env.newId), env.token, username);
        var cleared := if env.deleteFails then old(rdb.auth) else Without(old(rdb.auth), AuthUsername, username);
        if env.writeFails then resp == Reply(500, ApiError(MsgSaveToken)) && rdb.auth == cleared
        else resp == Reply(200, AuthToken(env.token)) && rdb.auth == cleared + [row]
    {
      var found := rdb.GetUser(username, env.readFails);
      if found.Failure? {
        return Reply(500, ApiError(MsgAuthenticating));
      }
      if found.value.None? {
        // api/api.go reads user.Password with user == nil
        return NilDereference;
      }
      if !authenticate(found.value.value.password, password) {
        return Reply(401, ApiError(MsgBadLogin));
      }
      var t := env.token;
      var err := rdb.SaveAuthorization(Authorization(None, t, username), env.deleteFails, env.writeFails, env.newId);
      if err.Fail? {
        return Reply(500, ApiError(MsgSaveToken));
      }
      resp := Reply(200, AuthToken(t));
    }

    /** Registers a user with a hashed password, refusing a taken username. */
    method PostUsers(username: string, password: string, env: Env) returns (resp: Response)
      modifies rdb`users
      ensures username == "" || password == "" ==>
        resp == Reply(500, ApiError(MsgNoUserFields)) && rdb.users == old(rdb.users)
      ensures username != "" && password != "" && env.hashPassword(password).None? ==>
        resp == Reply(500, ApiError(MsgHashing)) && rdb.users == old(rdb.users)
      ensures username != "" && password != "" && env.hashPassword(password).Some? ==>
        if env.existsFails || Select(old(rdb.users), UserUsername, username) != [] || env.writeFails then
          resp == Reply(500, ApiError(MsgCreateUser)) && rdb.users == old(rdb.users)
        else
          resp == Reply(204, NoBody) &&
          rdb.users == old(rdb.users) + [User(Some(env.newId), username, env.hashPassword(password).value)]
    {
      if username == "" || password == "" {
        return Reply(500, ApiError(MsgNoUserFields));
      }
      var pw := env.hashPassword(password);
      if pw.None? {
        return Reply(500, ApiError(MsgHashing));
      }
      var err := rdb.SaveUser(User(None, username, pw.value), env.existsFails, env.writeFails, env.newId);
      if err.Fail? {
        return Reply(500, ApiError(MsgCreateUser));
      }
      resp := Reply(204, NoBody);
    }

    /** Changes the password of `target`, if the session's user may. */
    method PutUser(session: string, target: string, password: string, env: Env) returns (resp: Response)
      modifies rdb`users
      ensures !MayUpdate(session, target) ==>
        resp == Reply(403, ApiError(MsgForbidden)) && rdb.users == old(rdb.users)
      ensures MayUpdate(session, target) && env.readFails ==>
        resp == Reply(500, ApiError(MsgUpdateUser)) && rdb.users == old(rdb.users)
      ensures MayUpdate(session, target) && !env.readFails && env.hashPassword(password).None? ==>
        resp == Reply(500, ApiError(MsgHashing)) && rdb.users == old(rdb.users)
      ensures (MayUpdate(session, target) && !env.readFails && env.hashPassword(password).Some? &&
               First(old(rdb.users), UserUsername, target).None?) ==>
        resp == NilDereference && rdb.users == old(rdb.users)
      ensures (MayUpdate(session, target) && !env.readFails && env.hashPassword(password).Some? &&
               First(old(rdb.users), UserUsername, target).Some?) ==>
        var changed := First(old(rdb.users), UserUsername, target).value.(password := env.hashPassword(password).value);
        if env.writeFails then resp == Reply(500, ApiError(MsgUpdateUser)) && rdb.users == old(rdb.users)
        else resp == Reply(204, NoBody) && rdb.users == env.update(old(rdb.users), changed)
    {
      if !MayUpdate(session, target) {
        return Reply(403, ApiError(MsgForbidden));
      }
      var found := rdb.GetUser(target, env.readFails);
      if found.Failure? {
        return Reply(500, ApiError(MsgUpdateUser));
      }
      var pw := env.hashPassword(password);
      if pw.None? {
        return Reply(500, ApiError(MsgHashing));
      }
      if found.value.None? {
        // api/api.go assigns user.Password with user == nil
        return NilDereference;
      }
      var user := found.value.value.(password := pw.value);
      var err := rdb.UpdateUser(user, env.writeFails, env.update);
      if err.Fail? {
        return Reply(500, ApiError(MsgUpdateUser));
      }
      resp := Reply(204, NoBody);
    }

    /** One request through its route: the guard first on a protected route,
        whose rejection stops the chain before the handler runs. */
    method Serve(req: Request, env: Env) returns (resp: Response)
      modifies rdb
      ensures req.route.Protected() ==>
        (resp.Reply? && resp.status == 401 <==> !GateAdmits(old(rdb.auth), req.authUser, req.authToken, env))
      ensures req.route.Protected() && !GateAdmits(old(rdb.auth), req.authUser, req.authToken, env) ==>
        unchanged(rdb)
      ensures req.route.Protected() ==> rdb.auth == old(rdb.auth)
    {
      var session := "";
      if req.route.Protected() {
        var g := ApiAuthorize(req.authUser, req.authToken, env);
        if g.Reject? {
          return g.response;
        }
        session := g.username;
      }
      match req.route
      case GetSetup =>
        resp := Setup(env);
      case PostAuth(username, password) =>
        resp := Authenticate(username, password, env);
      case CreateUser(username, password) =>
        resp := PostUsers(username, password, env);
      case ChangePassword(username, password) =>
        resp := PutUser(session, username, password, env);
      case CreateTopic(title) =>
        resp := PostTopics(title, env);
      case CreatePost(topicId, content) =>
        resp := PostTopicsPosts(session, topicId, content, env);
    }

    /** The login-twice scenario: after the second login (whose delete step
        went through) the first token is refused and the second admitted,
        assuming the two generated tokens differ. */
    method LoginTwice(username: string, password: string, first: Env, second: Env, check: Env)
      returns (r1: Response, r2: Response, old1: Gate, new2: Gate)
      modifies rdb`auth
      requires username != "" && first.token != "" && second.token != ""
      requires first.token != second.token
      requires !second.deleteFails && !check.authFails
      ensures r2 == Reply(200, AuthToken(second.token)) ==>
        old1 == Reject(Reply(401, ApiError(MsgBadToken))) && new2 == Admit(username)
    {
      r1 := Authenticate(username, password, first);
      ghost var between := rdb.auth;
      r2 := Authenticate(username, password, second);
      if r2 == Reply(200, AuthToken(second.token)) {
        var row := Authorization(Some(second.newId), second.token, username);
        assert rdb.auth == Db.Reauthorized(between, row);
        Db.SoleAuthorization(between, row);
        SoleRowDecides(rdb.auth, row, first.token);
        SoleRowDecides(rdb.auth, row, second.token);
      }
      old1 := ApiAuthorize(username, first.token, check);
      new2 := ApiAuthorize(username, second.token, check);
    }
  }
}
