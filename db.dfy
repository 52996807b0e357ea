/**
 * The current store (db/db.go): four RethinkDB tables held by one
 * `Rethinkdb` object and the methods the HTTP layer calls on it.
 *
 * Each table is a sequence of documents in table order.  Every round trip
 * to the server takes a flag saying whether the driver reports an error
 * for it; when it does, the round trip changes nothing.  A single-row read
 * has one flag for both of its error points (running the query and
 * decoding the row): the caller sees the same error either way.  `newId`
 * is the primary key the server generates for an inserted document that
 * has none.
 */
module Db {
  import opened Wrappers
  import opened Records
  import opened Rdb

  /** The errors db/db.go declares, plus any error the driver returns. */
  datatype DbError = ErrTopicNotFound | ErrPostNotFound | ErrUserExists | ErrTopicExists | Driver

  /** The auth table after a SaveAuthorization whose delete and insert both
      went through: the user's old rows are gone and `row` is at the end. */
  function Reauthorized(auth: seq<Authorization>, row: Authorization): (r: seq<Authorization>)
    ensures |r| > 0 && r[|r| - 1] == row
    ensures forall i | 0 <= i < |r| - 1 :: r[i] in auth && r[i].username != row.username
    ensures forall i | 0 <= i < |auth| && auth[i].username != row.username :: auth[i] in r
  {
    Without(auth, AuthUsername, row.username) + [row]
  }

  /** After a successful SaveAuthorization the user has exactly one row,
      the new one, and every other user's rows are as they were. */
  lemma SoleAuthorization(auth: seq<Authorization>, row: Authorization)
    ensures Select(Reauthorized(auth, row), AuthUsername, row.username) == [row]
    ensures forall u | u != row.username ::
      Select(Reauthorized(auth, row), AuthUsername, u) == Select(auth, AuthUsername, u)
  {
    var rest := Without(auth, AuthUsername, row.username);
    SelectAppend(rest, row, AuthUsername, row.username);
    SelectWithout(auth, AuthUsername, row.username, row.username);
    forall u | u != row.username
      ensures Select(Reauthorized(auth, row), AuthUsername, u) == Select(auth, AuthUsername, u)
    {
      SelectAppend(rest, row, AuthUsername, u);
      SelectWithout(auth, AuthUsername, row.username, u);
    }
  }

  class Rethinkdb {
    var auth: seq<Authorization>
    var users: seq<User>
    var topics: seq<Topic>
    var posts: seq<Post>

    /** A store over tables that already hold the given documents. */
    constructor (auth: seq<Authorization>, users: seq<User>, topics: seq<Topic>, posts: seq<Post>)
      ensures this.auth == auth && this.users == users && this.topics == topics && this.posts == posts
    {
      this.auth, this.users, this.topics, this.posts := auth, users, topics, posts;
    }

    // ---------------------------------------------------------------- topics

    /** Whether a topic titled `title` exists; a failed lookup answers yes. */
    method TopicExists(title: string, fails: bool) returns (b: bool)
      ensures b <==> fails || exists i | 0 <= i < |topics| :: topics[i].title == title
    {
      if fails {
        return true;
      }
      b := First(topics, TopicTitle, title).Some?;
    }

    /** Inserts `topic` unless its title is taken, or the check failed. */
    method SaveTopic(topic: Topic, existsFails: bool, insertFails: bool, newId: string)
      returns (err: Outcome<DbError>)
      modifies this`topics
      ensures existsFails || Select(old(topics), TopicTitle, topic.title) != [] ==>
        err == Fail(ErrTopicExists) && topics == old(topics)
      ensures !existsFails && Select(old(topics), TopicTitle, topic.title) == [] ==>
        if insertFails then err == Fail(Driver) && topics == old(topics)
        else err == Pass && topics == old(topics) + [topic.Stored(newId)]
      ensures UniqueBy(old(topics), TopicTitle) ==> UniqueBy(topics, TopicTitle)
    {
      var taken := TopicExists(topic.title, existsFails);
      if taken {
        return Fail(ErrTopicExists);
      }
      if insertFails {
        return Fail(Driver);
      }
      if UniqueBy(topics, TopicTitle) {
        AppendKeepsUnique(topics, topic.Stored(newId), TopicTitle);
      }
      topics := topics + [topic.Stored(newId)];
      err := Pass;
    }

    /** Deletes the topic whose primary key is `id`, reporting one that is not there. */
    method DeleteTopic(id: string, lookupFails: bool, deleteFails: bool) returns (err: Outcome<DbError>)
      modifies this`topics
      ensures lookupFails ==> err == Fail(Driver) && topics == old(topics)
      ensures !lookupFails && Select(old(topics), TopicKey, Some(id)) == [] ==>
        err == Fail(ErrTopicNotFound) && topics == old(topics)
      ensures !lookupFails && Select(old(topics), TopicKey, Some(id)) != [] ==>
        if deleteFails then err == Fail(Driver) && topics == old(topics)
        else err == Pass && topics == Without(old(topics), TopicKey, Some(id))
    {
      if lookupFails {
        return Fail(Driver);
      }
      var row := First(topics, TopicKey, Some(id));
      if row.None? {
        return Fail(ErrTopicNotFound);
      }
      if deleteFails {
        return Fail(Driver);
      }
      topics := Without(topics, TopicKey, Some(id));
      err := Pass;
    }

    /** The topic whose primary key is `id`; a missing one is nil, not an error. */
    method GetTopic(id: string, fails: bool) returns (r: Result<Option<Topic>, DbError>)
      ensures fails <==> r.Failure?
      ensures r.Failure? ==> r.error == Driver
      ensures r.Success? ==> (r.value.None? <==> forall i | 0 <= i < |topics| :: topics[i].id != Some(id))
      ensures r.Success? && r.value.Some? ==> r.value.value in topics && r.value.value.id == Some(id)
    {
      if fails {
        return Failure(Driver);
      }
      r := Success(First(topics, TopicKey, Some(id)));
    }

    /** Every topic, read through a cursor.  `fetchStopsAt` is the row at
        which fetching the next batch errors; the cursor then reports no
        more rows and, as the error is never asked for, the rows read so far
        are returned as a success.  `scanFailsAt` is the first row that
        does not decode.  Either is past the end when it does not happen. */
    method GetTopics(queryFails: bool, scanFailsAt: nat, fetchStopsAt: nat) returns (r: Result<seq<Topic>, DbError>)
      ensures r.Failure? <==> queryFails || (scanFailsAt < |topics| && scanFailsAt < fetchStopsAt)
      ensures r.Failure? ==> r.error == Driver
      ensures r.Success? ==> r.value <= topics
      ensures r.Success? && fetchStopsAt < |topics| ==> |r.value| == fetchStopsAt
      ensures r.Success? && fetchStopsAt >= |topics| ==> r.value == topics
    {
      if queryFails {
        return Failure(Driver);
      }
      var acc: seq<Topic> := [];
      var i := 0;
      while i < |topics|
        invariant i <= |topics| && i <= scanFailsAt && i <= fetchStopsAt
        invariant acc == topics[..i]
      {
        if i == fetchStopsAt {
          return Success(acc);
        }
        if i == scanFailsAt {
          return Failure(Driver);
        }
        acc := acc + [topics[i]];
        i := i + 1;
      }
      return Success(acc);
    }

    // ----------------------------------------------------------------- posts

    /** Inserts `post`; posts are never checked for duplicates. */
    method SavePost(post: Post, insertFails: bool, newId: string) returns (err: Outcome<DbError>)
      modifies this`posts
      ensures insertFails ==> err == Fail(Driver) && posts == old(posts)
      ensures !insertFails ==> err == Pass && posts == old(posts) + [post.Stored(newId)]
    {
      if insertFails {
        return Fail(Driver);
      }
      posts := posts + [post.Stored(newId)];
      err := Pass;
    }

    /** Deletes the post whose primary key is `id`, reporting one that is not there. */
    method DeletePost(id: string, lookupFails: bool, deleteFails: bool) returns (err: Outcome<DbError>)
      modifies this`posts
      ensures lookupFails ==> err == Fail(Driver) && posts == old(posts)
      ensures !lookupFails && Select(old(posts), PostKey, Some(id)) == [] ==>
        err == Fail(ErrPostNotFound) && posts == old(posts)
      ensures !lookupFails && Select(old(posts), PostKey, Some(id)) != [] ==>
        if deleteFails then err == Fail(Driver) && posts == old(posts)
        else err == Pass && posts == Without(old(posts), PostKey, Some(id))
    {
      if lookupFails {
        return Fail(Driver);
      }
      var row := First(posts, PostKey, Some(id));
      if row.None? {
        return Fail(ErrPostNotFound);
      }
      if deleteFails {
        return Fail(Driver);
      }
      posts := Without(posts, PostKey, Some(id));
      err := Pass;
    }

    /** The post whose primary key is `id`; a missing one is nil, not an error. */
    method GetPost(id: string, fails: bool) returns (r: Result<Option<Post>, DbError>)
      ensures fails <==> r.Failure?
      ensures r.Failure? ==> r.error == Driver
      ensures r.Success? ==> (r.value.None? <==> forall i | 0 <= i < |posts| :: posts[i].id != Some(id))
      ensures r.Success? && r.value.Some? ==> r.value.value in posts && r.value.value.id == Some(id)
    {
      if fails {
        return Failure(Driver);
      }
      r := Success(First(posts, PostKey, Some(id)));
    }

    /** Every post of every topic (`topicId` selects nothing), read through
        a cursor with the same `fetchStopsAt` and `scanFailsAt` as GetTopics. */
    method GetPosts(topicId: string, queryFails: bool, scanFailsAt: nat, fetchStopsAt: nat) returns (r: Result<seq<Post>, DbError>)
      ensures r.Failure? <==> queryFails || (scanFailsAt < |posts| && scanFailsAt < fetchStopsAt)
      ensures r.Failure? ==> r.error == Driver
      ensures r.Success? ==> r.value <= posts
      ensures r.Success? && fetchStopsAt < |posts| ==> |r.value| == fetchStopsAt
      ensures r.Success? && fetchStopsAt >= |posts| ==> r.value == posts
    {
      if queryFails {
        return Failure(Driver);
      }
      var acc: seq<Post> := [];
      var i := 0;
      while i < |posts|
        invariant i <= |posts| && i <= scanFailsAt && i <= fetchStopsAt
        invariant acc == posts[..i]
      {
        if i == fetchStopsAt {
          return Success(acc);
        }
        if i == scanFailsAt {
          return Failure(Driver);
        }
        acc := acc + [posts[i]];
        i := i + 1;
      }
      return Success(acc);
    }

    // ----------------------------------------------------------------- users

    /** Whether a user named `username` exists; a failed lookup answers yes. */
    method UserExists(username: string, fails: bool) returns (b: bool)
      ensures b <==> fails || exists i | 0 <= i < |users| :: users[i].username == username
    {
      if fails {
        return true;
      }
      b := First(users, UserUsername, username).Some?;
    }

    /** Inserts `user` unless the username is taken, or the check failed. */
    method SaveUser(user: User, existsFails: bool, insertFails: bool, newId: string)
      returns (err: Outcome<DbError>)
      modifies this`users
      ensures existsFails || Select(old(users), UserUsername, user.username) != [] ==>
        err == Fail(ErrUserExists) && users == old(users)
      ensures !existsFails && Select(old(users), UserUsername, user.username) == [] ==>
        if insertFails then err == Fail(Driver) && users == old(users)
        else err == Pass && users == old(users) + [user.Stored(newId)]
      ensures UniqueBy(old(users), UserUsername) ==> UniqueBy(users, UserUsername)
    {
      var taken := UserExists(user.username, existsFails);
      if taken {
        return Fail(ErrUserExists);
      }
      if insertFails {
        return Fail(Driver);
      }
      if UniqueBy(users, UserUsername) {
        AppendKeepsUnique(users, user.Stored(newId), UserUsername);
      }
      users := users + [user.Stored(newId)];
      err := Pass;
    }

    /** Replaces the user table by what the server makes of `Update(user)`
        on it; that effect is not modelled and is given as `update`. */
    method UpdateUser(user: User, fails: bool, update: (seq<User>, User) -> seq<User>)
      returns (err: Outcome<DbError>)
      modifies this`users
      ensures fails ==> err == Fail(Driver) && users == old(users)
      ensures !fails ==> err == Pass && users == update(old(users), user)
    {
      if fails {
        return Fail(Driver);
      }
      users := update(users, user);
      err := Pass;
    }

    /** The first user named `username`; a missing one is nil, not an error. */
    method GetUser(username: string, fails: bool) returns (r: Result<Option<User>, DbError>)
      ensures fails <==> r.Failure?
      ensures r.Failure? ==> r.error == Driver
      ensures r.Success? ==> r.value == First(users, UserUsername, username)
      ensures r.Success? ==>
        (r.value.None? <==> forall i | 0 <= i < |users| :: users[i].username != username)
      ensures r.Success? && r.value.Some? ==> r.value.value in users && r.value.value.username == username
    {
      if fails {
        return Failure(Driver);
      }
      r := Success(First(users, UserUsername, username));
    }

    /** Deletes every user named `username`; deleting nobody is no error. */
    method DeleteUser(username: string, fails: bool) returns (err: Outcome<DbError>)
      modifies this`users
      ensures fails ==> err == Fail(Driver) && users == old(users)
      ensures !fails ==> err == Pass && users == Without(old(users), UserUsername, username)
    {
      if fails {
        return Fail(Driver);
      }
      users := Without(users, UserUsername, username);
      err := Pass;
    }

    // --------------------------------------------------------- authorizations

    /** The first authorization of `username`; none is nil, not an error. */
    method GetAuthorization(username: string, fails: bool) returns (r: Result<Option<Authorization>, DbError>)
      ensures fails <==> r.Failure?
      ensures r.Failure? ==> r.error == Driver
      ensures r.Success? ==> r.value == First(auth, AuthUsername, username)
      ensures r.Success? ==>
        (r.value.None? <==> forall i | 0 <= i < |auth| :: auth[i].username != username)
      ensures r.Success? && r.value.Some? ==> r.value.value in auth && r.value.value.username == username
    {
      if fails {
        return Failure(Driver);
      }
      r := Success(First(auth, AuthUsername, username));
    }

    /** Deletes the user's authorizations, then inserts `a`.  Whether the
        delete went through is never looked at: only the insert can fail
        the call. */
    method SaveAuthorization(a: Authorization, deleteFails: bool, insertFails: bool, newId: string)
      returns (err: Outcome<DbError>)
      modifies this`auth
      ensures err == if insertFails then Fail(Driver) else Pass
      ensures !deleteFails && !insertFails ==> auth == Reauthorized(old(auth), a.Stored(newId))
      ensures !deleteFails && insertFails ==> auth == Without(old(auth), AuthUsername, a.username)
      ensures deleteFails && !insertFails ==> auth == old(auth) + [a.Stored(newId)]
      ensures deleteFails && insertFails ==> auth == old(auth)
      ensures !deleteFails && !insertFails ==>
        Select(auth, AuthUsername, a.username) == [a.Stored(newId)] &&
        forall u | u != a.username :: Select(auth, AuthUsername, u) == Select(old(auth), AuthUsername, u)
    {
      if !deleteFails {
        auth := Without(auth, AuthUsername, a.username);
      }
      if insertFails {
        return Fail(Driver);
      }
      SoleAuthorization(old(auth), a.Stored(newId));
      auth := auth + [a.Stored(newId)];
      err := Pass;
    }
  }
}
