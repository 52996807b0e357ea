/**
 * The four documents the forum stores (common.go), and the fields the
 * store looks them up by.
 */
module Records {
  import opened Wrappers

  /** A live login: the token issued to a username. */
  datatype Authorization = Authorization(id: Option<string>, token: string, username: string)
  {
    /** The document as the table holds it after an insert: RethinkDB gives a
        document that has no primary key the key it generates, and keeps a
        key the document already has. */
    function Stored(newId: string): (r: Authorization)
      ensures r.id.Some? && (id.Some? ==> r.id == id)
      ensures r.token == token && r.username == username
    {
      if id.None? then this.(id := Some(newId)) else this
    }
  }

  /** A registered user; `password` holds the password hash. */
  datatype User = User(id: Option<string>, username: string, password: string)
  {
    function Stored(newId: string): (r: User)
      ensures r.id.Some? && (id.Some? ==> r.id == id)
      ensures r.username == username && r.password == password
    {
      if id.None? then this.(id := Some(newId)) else this
    }
  }

  datatype Topic = Topic(id: Option<string>, title: string, closed: bool)
  {
    function Stored(newId: string): (r: Topic)
      ensures r.id.Some? && (id.Some? ==> r.id == id)
      ensures r.title == title && r.closed == closed
    {
      if id.None? then this.(id := Some(newId)) else this
    }
  }

  /** A post; `author` is a username copied in, not a reference. */
  datatype Post = Post(id: Option<string>, topicId: string, author: string, content: string)
  {
    function Stored(newId: string): (r: Post)
      ensures r.id.Some? && (id.Some? ==> r.id == id)
      ensures r.topicId == topicId && r.author == author && r.content == content
    {
      if id.None? then this.(id := Some(newId)) else this
    }
  }

  // The fields the store filters on.  Each is a named function so that the
  // same filter is the same term wherever it is written.

  function AuthUsername(a: Authorization): (username: string) { a.username }
  function UserUsername(u: User): (username: string) { u.username }
  function TopicTitle(t: Topic): (title: string) { t.title }
  function TopicKey(t: Topic): (key: Option<string>) { t.id }
  function PostKey(p: Post): (key: Option<string>) { p.id }
}
