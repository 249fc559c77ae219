/**
 Sequences of requests. Requests are applied one at a time, each as one
 atomic transition; reads and logins leave the store as it is, so only the
 requests that write appear here. Over any such history the store keeps its
 invariant, a stored post only ever evolves (its creation time and other
 fixed fields never change, counters only grow, comments are only appended),
 a deleted post never comes back, and users are never changed or removed.
 */
module History {
  import opened Models
  import opened DocumentStore
  import BlogController
  import UserController
  import IndexParse

  /** A request that writes to the store. */
  datatype Request =
    | CreatePost(fields: BlogFields, now: Timestamp)
    | LikePost(id: Id)
    | AddComment(id: Id, user: Option<Id>, content: Option<string>)
    | LikeComment(id: Id, index: string)
    | DeletePost(id: Id)
    | Register(userFields: UserFields)

  /** The store after one request. */
  function Apply(s: Store, q: Request): Store {
    match q
    case CreatePost(f, now) => BlogController.CreateBlogPost(s, f, now).store
    case LikePost(id) => BlogController.LikeBlogPost(s, id).store
    case AddComment(id, user, content) => BlogController.AddBlogComment(s, id, user, content).store
    case LikeComment(id, index) => BlogController.LikeBlogComment(s, id, index).store
    case DeletePost(id) => BlogController.DeleteBlogPost(s, id).store
    case Register(f) => UserController.CreateUser(s, f).store
  }

  /** The store after the requests of `qs`, in order. */
  function Run(s: Store, qs: seq<Request>): Store
    decreases |qs|
  {
    if |qs| == 0 then s else Run(Apply(s, qs[0]), qs[1..])
  }

  /** A later state of a comment: same author and text, no fewer likes. */
  predicate CommentEvolves(c: Comment, c': Comment) {
    c'.user == c.user && c'.content == c.content && c'.likes >= c.likes
  }

  /**
   A later state of a post: title, content, author, url and creation time
   are kept, likes never decrease, and the earlier comments keep their
   places and only gain likes.
   */
  predicate Evolves(b: Blog, b': Blog) {
    && b'.title == b.title
    && b'.content == b.content
    && b'.author == b.author
    && b'.url == b.url
    && b'.createdAt == b.createdAt
    && b'.likes >= b.likes
    && |b'.comments| >= |b.comments|
    && forall i :: 0 <= i < |b.comments| ==> CommentEvolves(b.comments[i], b'.comments[i])
  }

  lemma EvolvesTransitive(a: Blog, b: Blog, c: Blog)
    requires Evolves(a, b) && Evolves(b, c)
    ensures Evolves(a, c)
  {
  }

  /**
   What every write does to the store: the invariant is kept, the id counter
   never goes back, a post that stays evolves, a post that appears has a new
   id, and the users so far stay in place.

   The lemmas below state this fact for each write in turn; each follows
   from the contract of its handler, so their bodies are empty. They name
   the per-request facts that `ApplyStep` dispatches over.
   */
  ghost predicate Advances(s: Store, s': Store) {
    && Valid(s')
    && s'.nextId >= s.nextId
    && (forall k :: k in s.blogs && k in s'.blogs ==> Evolves(s.blogs[k], s'.blogs[k]))
    && (forall k :: k in s'.blogs && k !in s.blogs ==> k >= s.nextId)
    && s.users <= s'.users
  }

  lemma CreatePostAdvances(s: Store, f: BlogFields, now: Timestamp)
    requires Valid(s)
    ensures Advances(s, BlogController.CreateBlogPost(s, f, now).store)
  {
  }

  lemma LikePostAdvances(s: Store, id: Id)
    requires Valid(s)
    ensures Advances(s, BlogController.LikeBlogPost(s, id).store)
  {
  }

  lemma AddCommentAdvances(s: Store, id: Id, user: Option<Id>, content: Option<string>)
    requires Valid(s)
    ensures Advances(s, BlogController.AddBlogComment(s, id, user, content).store)
  {
  }

  lemma LikeCommentAdvances(s: Store, id: Id, index: string)
    requires Valid(s)
    ensures Advances(s, BlogController.LikeBlogComment(s, id, index).store)
  {
  }

  lemma DeletePostAdvances(s: Store, id: Id)
    requires Valid(s)
    ensures Advances(s, BlogController.DeleteBlogPost(s, id).store)
  {
  }

  lemma RegisterAdvances(s: Store, f: UserFields)
    requires Valid(s)
    ensures Advances(s, UserController.CreateUser(s, f).store)
  {
  }

  /** Every write request advances the store. */
  lemma ApplyStep(s: Store, q: Request)
    requires Valid(s)
    ensures Advances(s, Apply(s, q))
  {
    match q
    case CreatePost(f, now) => CreatePostAdvances(s, f, now);
    case LikePost(id) => LikePostAdvances(s, id);
    case AddComment(id, user, content) => AddCommentAdvances(s, id, user, content);
    case LikeComment(id, index) => LikeCommentAdvances(s, id, index);
    case DeletePost(id) => DeletePostAdvances(s, id);
    case Register(f) => RegisterAdvances(s, f);
  }

  /** The invariant holds after any history that starts from a valid store. */
  lemma {:induction false} RunValid(s: Store, qs: seq<Request>)
    requires Valid(s)
    ensures Valid(Run(s, qs))
    ensures Run(s, qs).nextId >= s.nextId
    ensures s.users <= Run(s, qs).users
    decreases |qs|
  {
    if |qs| > 0 {
      ApplyStep(s, qs[0]);
      RunValid(Apply(s, qs[0]), qs[1..]);
    }
  }

  /** An id that was handed out and whose post is gone is never used again. */
  lemma {:induction false} NoResurrection(s: Store, qs: seq<Request>, id: Id)
    requires Valid(s)
    requires id < s.nextId && id !in s.blogs
    ensures id !in Run(s, qs).blogs
    decreases |qs|
  {
    if |qs| > 0 {
      ApplyStep(s, qs[0]);
      NoResurrection(Apply(s, qs[0]), qs[1..], id);
    }
  }

  /**
   A post that is in the store before and after a history has only evolved:
   in particular its creation time is the one it was created with.
   */
  lemma {:induction false} RunEvolves(s: Store, qs: seq<Request>, id: Id)
    requires Valid(s)
    requires id in s.blogs && id in Run(s, qs).blogs
    ensures Evolves(s.blogs[id], Run(s, qs).blogs[id])
    ensures Run(s, qs).blogs[id].createdAt == s.blogs[id].createdAt
    decreases |qs|
  {
    if |qs| > 0 {
      var s1 := Apply(s, qs[0]);
      ApplyStep(s, qs[0]);
      if id !in s1.blogs {
        NoResurrection(s1, qs[1..], id);
        assert false;
      }
      RunEvolves(s1, qs[1..], id);
      EvolvesTransitive(s.blogs[id], s1.blogs[id], Run(s, qs).blogs[id]);
    }
  }

  /**
   The walk-through of a first session: Alice registers, writes a post,
   likes it twice, comments on it and likes her comment at index "0".
   */
  lemma AliceSession(now: Timestamp)
    ensures
      var alice := UserController.CreateUser(Empty(), UserFields(Some("Alice"), Some("alice"), Some("pw")));
      var author := alice.result.value.id;
      var post := BlogController.CreateBlogPost(alice.store, BlogFields(Some("Hi"), Some("World"), Some(author)), now);
      var id := post.result.value.id;
      var liked := BlogController.LikeTimes(post.store, id, 2);
      var commented := BlogController.AddBlogComment(liked, id, Some(author), Some("nice"));
      var final := BlogController.LikeBlogComment(commented.store, id, "0");
      && liked.blogs[id].likes == 2
      && commented.result.Ok?
      && commented.result.value.comments == [Comment(author, Some("nice"), 0)]
      && final.result.Ok?
      && final.result.value.comments == [Comment(author, Some("nice"), 1)]
      && final.result.value.likes == 2
      && final.result.value.createdAt == now
  {
    var alice := UserController.CreateUser(Empty(), UserFields(Some("Alice"), Some("alice"), Some("pw")));
    var author := alice.result.value.id;
    var post := BlogController.CreateBlogPost(alice.store, BlogFields(Some("Hi"), Some("World"), Some(author)), now);
    var id := post.result.value.id;
    BlogController.LikeRepeatedly(post.store, id, 2);
    var liked := BlogController.LikeTimes(post.store, id, 2);
    assert liked.blogs[id].comments == [];
    var commented := BlogController.AddBlogComment(liked, id, Some(author), Some("nice"));
    assert commented.result.value.comments == [Comment(author, Some("nice"), 0)];
    assert IndexParse.Show(0) == "0";
    BlogController.AddThenLikeComment(liked, id, author, Some("nice"));
  }
}
