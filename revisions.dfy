/**
 * The two store revisions side by side: the same request against the same
 * tables, answered by db/db.go and by api/db.go.
 */
module Revisions {
  import opened Wrappers
  import opened Records
  import opened Rdb
  import Db
  import ApiDb

  /** A topic whose title is taken: the current store refuses it with
      ErrTopicExists, the older one reports success; neither inserts it. */
  method DuplicateTitle(topics: seq<Topic>, topic: Topic, newId: string)
    returns (current: Outcome<Db.DbError>, older: Outcome<ApiDb.DbError>,
             currentTopics: seq<Topic>, olderTopics: seq<Topic>)
    requires exists i | 0 <= i < |topics| :: topics[i].title == topic.title
    ensures current == Fail(Db.ErrTopicExists)
    ensures older == Pass
    ensures currentTopics == topics && olderTopics == topics
  {
    var now := new Db.Rethinkdb([], [], topics, []);
    var before := new ApiDb.Rethinkdb(topics, []);
    current := now.SaveTopic(topic, false, false, newId);
    older := before.SaveTopic(topic, false, false, newId);
    currentTopics, olderTopics := now.topics, before.topics;
  }

  /** Deleting a topic id no topic has: the current store reports
      ErrTopicNotFound, the older one reports success; neither changes the
      table. */
  method DeleteMissingTopic(topics: seq<Topic>, id: string)
    returns (current: Outcome<Db.DbError>, older: Outcome<ApiDb.DbError>,
             currentTopics: seq<Topic>, olderTopics: seq<Topic>)
    requires forall i | 0 <= i < |topics| :: topics[i].id != Some(id)
    ensures current == Fail(Db.ErrTopicNotFound)
    ensures older == Pass
    ensures currentTopics == topics && olderTopics == topics
  {
    var now := new Db.Rethinkdb([], [], topics, []);
    var before := new ApiDb.Rethinkdb(topics, []);
    current := now.DeleteTopic(id, false, false);
    older := before.DeleteTopic(id, false);
    WithoutNone(topics, TopicKey, Some(id));
    currentTopics, olderTopics := now.topics, before.topics;
  }
}
