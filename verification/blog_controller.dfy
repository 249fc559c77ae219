/**
 The blog handlers. Listing and lookup only read the store; creation checks
 the required fields and stores a new post under a fresh id; deletion
 removes one key. Liking a post, commenting and liking a comment look the
 post up by id, apply a small pure change to it (one more like, one more
 comment, one more like on a comment) and save it, or answer with an error
 and leave the store as it was.
 */
module BlogController {
  import opened Models
  import opened DocumentStore
  import IndexParse

  /** `s'` differs from `s` at most in the post stored under `id`. */
  ghost predicate OnlyPostChanged(s: Store, s': Store, id: Id) {
    && s'.users == s.users
    && s'.nextId == s.nextId
    && s'.blogs.Keys == s.blogs.Keys
    && forall k :: k in s.blogs && k != id ==> s'.blogs[k] == s.blogs[k]
  }

  /** A parsed comment index that addresses one of `n` comments. */
  predicate IndexInRange(index: Option<int>, n: nat) {
    index.Some? && 0 <= index.value < n
  }

  // Pure changes to one post

  /** The post with one more like; every other field is kept. */
  function Liked(b: Blog): (r: Blog)
    ensures r.likes == b.likes + 1
    ensures r.(likes := b.likes) == b
    ensures ValidBlog(b) ==> ValidBlog(r)
  {
    b.(likes := b.likes + 1)
  }

  /** The post with `c` appended after the existing comments, which keep their places. */
  function WithComment(b: Blog, c: Comment): (r: Blog)
    ensures |r.comments| == |b.comments| + 1
    ensures r.comments[..|b.comments|] == b.comments
    ensures r.comments[|b.comments|] == c
    ensures r.(comments := b.comments) == b
    ensures ValidBlog(b) && ValidComment(c) ==> ValidBlog(r)
  {
    b.(comments := b.comments + [c])
  }

  /** The post whose `i`-th comment has one more like; nothing else changes. */
  function WithCommentLiked(b: Blog, i: nat): (r: Blog)
    requires i < |b.comments|
    ensures |r.comments| == |b.comments|
    ensures r.comments[i].likes == b.comments[i].likes + 1
    ensures r.comments[i].(likes := b.comments[i].likes) == b.comments[i]
    ensures forall j :: 0 <= j < |b.comments| && j != i ==> r.comments[j] == b.comments[j]
    ensures r.(comments := b.comments) == b
    ensures ValidBlog(b) ==> ValidBlog(r)
  {
    var c := b.comments[i];
    b.(comments := b.comments[i := c.(likes := c.likes + 1)])
  }

  // Handlers

  /** `getAllBlogs`: every stored post exactly once, with its id, in no particular order. */
  method GetAllBlogs(s: Store) returns (r: Result<seq<Entry>>)
    ensures r.Ok?
    ensures |r.value| == |s.blogs|
    ensures forall e :: e in r.value ==> e.id in s.blogs && s.blogs[e.id] == e.post
    ensures forall k :: k in s.blogs ==> Entry(k, s.blogs[k]) in r.value
    ensures forall i, j :: 0 <= i < j < |r.value| ==> r.value[i].id != r.value[j].id
  {
    var remaining := s.blogs.Keys;
    var listing: seq<Entry> := [];
    while remaining != {}
      invariant remaining <= s.blogs.Keys
      invariant |listing| + |remaining| == |s.blogs.Keys|
      invariant forall e :: e in listing ==> e.id in s.blogs && e.id !in remaining && s.blogs[e.id] == e.post
      invariant forall k :: k in s.blogs && k !in remaining ==> Entry(k, s.blogs[k]) in listing
      invariant forall i, j :: 0 <= i < j < |listing| ==> listing[i].id != listing[j].id
      decreases remaining
    {
      var k :| k in remaining;
      listing := listing + [Entry(k, s.blogs[k])];
      remaining := remaining - {k};
    }
    r := Ok(listing);
  }

  /** `getBlogByID`: the stored post, or NotFound when the id is not in the store. */
  function GetBlogByID(s: Store, id: Id): (r: Result<Blog>)
    ensures r.Ok? || r.NotFound?
    ensures r.Ok? <==> id in s.blogs
    ensures r.Ok? ==> r.value == s.blogs[id]
  {
    if id in s.blogs then Ok(s.blogs[id]) else NotFound
  }

  /**
   `createBlogPost`: a post with no likes, no comments and the creation time
   `now`, under a fresh id; a missing or empty title or content, or a
   missing author, is a BadRequest that stores nothing. The author is not
   looked up and the body's `url` is ignored.
   */
  function CreateBlogPost(s: Store, f: BlogFields, now: Timestamp): (r: Step<Entry>)
    ensures r.result.Ok? || r.result.BadRequest?
    ensures r.result.Ok? <==> BlogFieldsValid(f)
    ensures r.result.BadRequest? ==> r.store == s
    ensures r.result.Ok? ==>
              && var e := r.result.value;
              && e.post.title == f.title.value
              && e.post.content == f.content.value
              && e.post.author == f.author.value
              && e.post.likes == 0
              && e.post.comments == []
              && e.post.createdAt == now
              && e.post.url.None?
              && r.store.blogs == s.blogs[e.id := e.post]
              && r.store.users == s.users
              && r.store.nextId > s.nextId
              && (Valid(s) ==> e.id !in s.blogs)
    ensures Valid(s) ==> Valid(r.store)
  {
    if !BlogFieldsValid(f) then Step(BadRequest, s)
    else
      var b := Blog(f.title.value, f.content.value, 0, now, f.author.value, None, []);
      Step(Ok(Entry(s.nextId, b)), s.(blogs := s.blogs[s.nextId := b], nextId := s.nextId + 1))
  }

  /**
   `likeBlogPost`: one more like on the post and nothing else changes,
   or NotFound with the store unchanged.
   */
  function LikeBlogPost(s: Store, id: Id): (r: Step<Blog>)
    ensures r.result.Ok? || r.result.NotFound?
    ensures r.result.NotFound? <==> id !in s.blogs
    ensures r.result.NotFound? ==> r.store == s
    ensures r.result.Ok? ==>
              && OnlyPostChanged(s, r.store, id)
              && r.result.value == r.store.blogs[id]
              && r.store.blogs[id].likes == s.blogs[id].likes + 1
              && r.store.blogs[id].(likes := s.blogs[id].likes) == s.blogs[id]
    ensures Valid(s) ==> Valid(r.store)
  {
    if id !in s.blogs then Step(NotFound, s)
    else
      var b := Liked(s.blogs[id]);
      Step(Ok(b), s.(blogs := s.blogs[id := b]))
  }

  /**
   `addBlogComment`: a comment by `user` with no likes goes after the
   existing ones, which keep their places. The content is not checked. A
   missing user fails the comment schema when the post is saved, which the
   handler answers as a ServerError; the store is then unchanged.
   */
  function AddBlogComment(s: Store, id: Id, user: Option<Id>, content: Option<string>): (r: Step<Blog>)
    ensures r.result.Ok? || r.result.NotFound? || r.result.ServerError?
    ensures r.result.NotFound? <==> id !in s.blogs
    ensures r.result.ServerError? <==> id in s.blogs && user.None?
    ensures !r.result.Ok? ==> r.store == s
    ensures r.result.Ok? ==>
              && OnlyPostChanged(s, r.store, id)
              && var before, after := s.blogs[id], r.store.blogs[id];
              && r.result.value == after
              && |after.comments| == |before.comments| + 1
              && after.comments[..|before.comments|] == before.comments
              && after.comments[|before.comments|] == Comment(user.value, content, 0)
              && after.(comments := before.comments) == before
    ensures Valid(s) ==> Valid(r.store)
  {
    if id !in s.blogs then Step(NotFound, s)
    else if user.None? then Step(ServerError, s)
    else
      var b := WithComment(s.blogs[id], Comment(user.value, content, 0));
      Step(Ok(b), s.(blogs := s.blogs[id := b]))
  }

  /**
   `likeBlogComment`: the comment at the parsed index gets one more like and
   nothing else changes. An unknown post, or an index that does not parse or
   lies outside the comment list, is NotFound and the store is unchanged.
   */
  function LikeBlogComment(s: Store, id: Id, rawIndex: string): (r: Step<Blog>)
    ensures r.result.Ok? || r.result.NotFound?
    ensures r.result.Ok? <==>
              id in s.blogs && IndexInRange(IndexParse.ParseIndex(rawIndex), |s.blogs[id].comments|)
    ensures r.result.NotFound? ==> r.store == s
    ensures r.result.Ok? ==>
              && OnlyPostChanged(s, r.store, id)
              && var before, after := s.blogs[id], r.store.blogs[id];
              && var i := IndexParse.ParseIndex(rawIndex).value;
              && r.result.value == after
              && |after.comments| == |before.comments|
              && after.comments[i].likes == before.comments[i].likes + 1
              && after.comments[i].(likes := before.comments[i].likes) == before.comments[i]
              && (forall j :: 0 <= j < |before.comments| && j != i ==> after.comments[j] == before.comments[j])
              && after.(comments := before.comments) == before
    ensures Valid(s) ==> Valid(r.store)
  {
    if id !in s.blogs then Step(NotFound, s)
    else
      var b := s.blogs[id];
      var index := IndexParse.ParseIndex(rawIndex);
      if index.None? || index.value < 0 || index.value >= |b.comments| then Step(NotFound, s)
      else
        var b' := WithCommentLiked(b, index.value);
        Step(Ok(b'), s.(blogs := s.blogs[id := b']))
  }

  /**
   `deleteBlogPost`: removes exactly the one key and answers with the post
   as it was; NotFound with the store unchanged when the id is absent.
   */
  function DeleteBlogPost(s: Store, id: Id): (r: Step<Blog>)
    ensures r.result.Ok? || r.result.NotFound?
    ensures r.result.NotFound? <==> id !in s.blogs
    ensures r.result.NotFound? ==> r.store == s
    ensures r.result.Ok? ==>
              && r.result.value == s.blogs[id]
              && r.store.blogs.Keys == s.blogs.Keys - {id}
              && |r.store.blogs| == |s.blogs| - 1
    ensures forall k :: k in r.store.blogs ==> k in s.blogs && r.store.blogs[k] == s.blogs[k]
    ensures r.store.users == s.users && r.store.nextId == s.nextId
    ensures Valid(s) ==> Valid(r.store)
  {
    if id !in s.blogs then Step(NotFound, s)
    else
      var rest := s.blogs - {id};
      assert rest.Keys == s.blogs.Keys - {id};
      Step(Ok(s.blogs[id]), s.(blogs := rest))
  }

  // Properties relating several requests

  /** Once deleted, a post is no longer found. */
  lemma DeleteThenGet(s: Store, id: Id)
    ensures GetBlogByID(DeleteBlogPost(s, id).store, id).NotFound?
  {
  }

  /** The store after `n` successive likes of the post `id`. */
  function LikeTimes(s: Store, id: Id, n: nat): Store
    decreases n
  {
    if n == 0 then s else LikeTimes(LikeBlogPost(s, id).store, id, n - 1)
  }

  /** `n` likes in a row, with nothing in between, raise the counter by exactly `n`. */
  lemma {:induction false} LikeRepeatedly(s: Store, id: Id, n: nat)
    requires id in s.blogs
    ensures id in LikeTimes(s, id, n).blogs
    ensures LikeTimes(s, id, n).blogs[id].likes == s.blogs[id].likes + n
    ensures LikeTimes(s, id, n).blogs[id].(likes := s.blogs[id].likes) == s.blogs[id]
    ensures OnlyPostChanged(s, LikeTimes(s, id, n), id)
    decreases n
  {
    if n > 0 {
      var s1 := LikeBlogPost(s, id).store;
      LikeRepeatedly(s1, id, n - 1);
    }
  }

  /**
   Liking the comment just appended, addressed by the decimal spelling of its
   index, gives that comment exactly one like and leaves the earlier
   comments as they were.
   */
  lemma AddThenLikeComment(s: Store, id: Id, user: Id, content: Option<string>)
    requires id in s.blogs
    ensures
      var s1 := AddBlogComment(s, id, Some(user), content).store;
      var i := |s.blogs[id].comments|;
      var r := LikeBlogComment(s1, id, IndexParse.Show(i));
      && r.result.Ok?
      && |r.result.value.comments| == i + 1
      && r.result.value.comments[i] == Comment(user, content, 1)
      && r.result.value.comments[..i] == s.blogs[id].comments
      && r.result.value.likes == s.blogs[id].likes
      && r.result.value.createdAt == s.blogs[id].createdAt
  {
    var s1 := AddBlogComment(s, id, Some(user), content).store;
    var i := |s.blogs[id].comments|;
    IndexParse.ParseShow(i);
    var after := LikeBlogComment(s1, id, IndexParse.Show(i)).result.value;
    assert forall j :: 0 <= j < i ==> after.comments[j] == s1.blogs[id].comments[j];
  }
}
