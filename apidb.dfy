/**
 * The older store revision (api/db.go): only the topic and post tables, and
 * different answers for a duplicate topic title and for deleting a topic
 * that is not there.  Oracle flags and `newId` are as in module Db.
 */
module ApiDb {
  import opened Wrappers
  import opened Records
  import opened Rdb

  /** api/db.go declares no errors of its own: every error is the driver's. */
  datatype DbError = Driver

  class Rethinkdb {
    var topics: seq<Topic>
    var posts: seq<Post>

    constructor (topics: seq<Topic>, posts: seq<Post>)
      ensures this.topics == topics && this.posts == posts
    {
      this.topics, this.posts := topics, posts;
    }

    /** Whether a topic titled `title` exists; a failed lookup answers yes. */
    method TopicExists(title: string, fails: bool) returns (b: bool)
      ensures b <==> fails || exists i | 0 <= i < |topics| :: topics[i].title == title
    {
      if fails {
        return true;
      }
      b := First(topics, TopicTitle, title).Some?;
    }

    /** Inserts `topic` unless its title is taken; a taken title (or a failed
        check) is logged and reported as success, with nothing inserted. */
    method SaveTopic(topic: Topic, existsFails: bool, insertFails: bool, newId: string)
      returns (err: Outcome<DbError>)
      modifies this`topics
      ensures existsFails || Select(old(topics), TopicTitle, topic.title) != [] ==>
        err == Pass && topics == old(topics)
      ensures !existsFails && Select(old(topics), TopicTitle, topic.title) == [] ==>
        if insertFails then err == Fail(Driver) && topics == old(topics)
        else err == Pass && topics == old(topics) + [topic.Stored(newId)]
      ensures UniqueBy(old(topics), TopicTitle) ==> UniqueBy(topics, TopicTitle)
    {
      var taken := TopicExists(topic.title, existsFails);
      if !taken {
        if insertFails {
          return Fail(Driver);
        }
        if UniqueBy(topics, TopicTitle) {
          AppendKeepsUnique(topics, topic.Stored(newId), TopicTitle);
        }
        topics := topics + [topic.Stored(newId)];
      }
      err := Pass;
    }

    /** Deletes every topic whose `id` field is `id`; matching nothing is success. */
    method DeleteTopic(id: string, fails: bool) returns (err: Outcome<DbError>)
      modifies this`topics
      ensures fails ==> err == Fail(Driver) && topics == old(topics)
      ensures !fails ==> err == Pass && topics == Without(old(topics), TopicKey, Some(id))
    {
      if fails {
        return Fail(Driver);
      }
      topics := Without(topics, TopicKey, Some(id));
      err := Pass;
    }

    /** The topic whose primary key is `id`; a missing one is nil, not an error. */
    method GetTopic(id: string, fails: bool) returns (r: Result<Option<Topic>, DbError>)
      ensures fails <==> r.Failure?
      ensures r.Success? ==> (r.value.None? <==> forall i | 0 <= i < |topics| :: topics[i].id != Some(id))
      ensures r.Success? && r.value.Some? ==> r.value.value in topics && r.value.value.id == Some(id)
    {
      if fails {
        return Failure(Driver);
      }
      r := Success(First(topics, TopicKey, Some(id)));
    }

    /** Every topic, read through a cursor.  `fetchStopsAt` is the row at
        which fetching the next batch errors; the cursor then reports no
        more rows and, as the error is never asked for, the rows read so far
        are returned as a success.  `scanFailsAt` is the first row that
        does not decode.  Either is past the end when it does not happen. */
    method GetTopics(queryFails: bool, scanFailsAt: nat, fetchStopsAt: nat) returns (r: Result<seq<Topic>, DbError>)
      ensures r.Failure? <==> queryFails || (scanFailsAt < |topics| && scanFailsAt < fetchStopsAt)
      ensures r.Success? ==> r.value <= topics
      ensures r.Success? && fetchStopsAt < |topics| ==> |r.value| == fetchStopsAt
      ensures r.Success? && fetchStopsAt >= |topics| ==> r.value == topics
    {
      if queryFails {
        return Failure(Driver);
      }
      var acc: seq<Topic> := [];
      var i := 0;
      while i < |topics|
        invariant i <= |topics| && i <= scanFailsAt && i <= fetchStopsAt
        invariant acc == topics[..i]
      {
        if i == fetchStopsAt {
          return Success(acc);
        }
        if i == scanFailsAt {
          return Failure(Driver);
        }
        acc := acc + [topics[i]];
        i := i + 1;
      }
      return Success(acc);
    }

    /** Inserts `post`; posts are never checked for duplicates. */
    method SavePost(post: Post, insertFails: bool, newId: string) returns (err: Outcome<DbError>)
      modifies this`posts
      ensures insertFails ==> err == Fail(Driver) && posts == old(posts)
      ensures !insertFails ==> err == Pass && posts == old(posts) + [post.Stored(newId)]
    {
      if insertFails {
        return Fail(Driver);
      }
      posts := posts + [post.Stored(newId)];
      err := Pass;
    }

    /** The post whose primary key is `id`; a missing one is nil, not an error. */
    method GetPost(id: string, fails: bool) returns (r: Result<Option<Post>, DbError>)
      ensures fails <==> r.Failure?
      ensures r.Success? ==> (r.value.None? <==> forall i | 0 <= i < |posts| :: posts[i].id != Some(id))
      ensures r.Success? && r.value.Some? ==> r.value.value in posts && r.value.value.id == Some(id)
    {
      if fails {
        return Failure(Driver);
      }
      r := Success(First(posts, PostKey, Some(id)));
    }

    /** Every post of every topic (`topicId` selects nothing), read through
        a cursor with the same `fetchStopsAt` and `scanFailsAt` as GetTopics. */
    method GetPosts(topicId: string, queryFails: bool, scanFailsAt: nat, fetchStopsAt: nat) returns (r: Result<seq<Post>, DbError>)
      ensures r.Failure? <==> queryFails || (scanFailsAt < |posts| && scanFailsAt < fetchStopsAt)
      ensures r.Success? ==> r.value <= posts
      ensures r.Success? && fetchStopsAt < |posts| ==> |r.value| == fetchStopsAt
      ensures r.Success? && fetchStopsAt >= |posts| ==> r.value == posts
    {
      if queryFails {
        return Failure(Driver);
      }
      var acc: seq<Post> := [];
      var i := 0;
      while i < |posts|
        invariant i <= |posts| && i <= scanFailsAt && i <= fetchStopsAt
        invariant acc == posts[..i]
      {
        if i == fetchStopsAt {
          return Success(acc);
        }
        if i == scanFailsAt {
          return Failure(Driver);
        }
        acc := acc + [posts[i]];
        i := i + 1;
      }
      return Success(acc);
    }
  }
}
