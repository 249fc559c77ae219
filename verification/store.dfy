/**
 The document store as an immutable value: posts keyed by id, users in
 insertion order, and the next id the store will hand out. A handler that
 writes returns a `Step`: the HTTP outcome plus the store after the
 request. A handler that only reads returns the `Result` alone.
 */
module DocumentStore {
  import opened Models

  /** The HTTP outcome of a handler: 200/201, 404, 400, 401 or 500. */
  datatype Result<+T> = Ok(value: T) | NotFound | BadRequest | Unauthorized | ServerError

  datatype Store = Store(blogs: map<Id, Blog>, users: seq<User>, nextId: Id)

  /** What a handler answers, and the store it leaves behind. */
  datatype Step<+T> = Step(result: Result<T>, store: Store)

  /** A post together with its id, as the API returns it. */
  datatype Entry = Entry(id: Id, post: Blog)

  /**
   The store invariant: every id handed out so far is below `nextId`, users
   have distinct ids, and every document satisfies its schema.
   */
  ghost predicate Valid(s: Store) {
    && (forall k :: k in s.blogs ==> k < s.nextId && ValidBlog(s.blogs[k]))
    && (forall i :: 0 <= i < |s.users| ==> s.users[i].id < s.nextId && ValidUser(s.users[i]))
    && (forall i, j :: 0 <= i < j < |s.users| ==> s.users[i].id != s.users[j].id)
  }

  /** The store before any request. */
  function Empty(): (s: Store)
    ensures Valid(s)
    ensures |s.blogs| == 0 && |s.users| == 0
  {
    Store(map[], [], 0)
  }
}
