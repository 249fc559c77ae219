/**
 The two document shapes of the blog backend: a user, and a blog post that
 embeds its comments. The schema's required fields, defaults and counters
 become validity predicates over these immutable records.
 */
module Models {

  /** A field a client may leave out, or a parse that found no number. */
  datatype Option<+T> = None | Some(value: T)

  /** Document identifiers, handed out by the store. */
  type Id = nat

  /** A point in time, as a number of milliseconds. */
  type Timestamp = int

  /** A comment embedded in a post. `user` is a non-owning reference; `content` has no default. */
  datatype Comment = Comment(user: Id, content: Option<string>, likes: int)

  /** A blog post. `author` is a reference nobody checks; `url` is optional and never written. */
  datatype Blog = Blog(
    title: string,
    content: string,
    likes: int,
    createdAt: Timestamp,
    author: Id,
    url: Option<string>,
    comments: seq<Comment>
  )

  /** A user. `username` and `password` are stored as plain strings, possibly empty. */
  datatype User = User(id: Id, name: string, username: string, password: string)

  /** The body of a create-post request: every field may be missing. */
  datatype BlogFields = BlogFields(title: Option<string>, content: Option<string>, author: Option<Id>)

  /** The body of a create-user request: every field may be missing. */
  datatype UserFields = UserFields(name: Option<string>, username: Option<string>, password: Option<string>)

  /** A required string field: present and non-empty (an empty string fails `required`). */
  predicate RequiredString(v: Option<string>) {
    v.Some? && |v.value| > 0
  }

  /** The fields a new post needs: a title, a content and an author reference. */
  predicate BlogFieldsValid(f: BlogFields) {
    RequiredString(f.title) && RequiredString(f.content) && f.author.Some?
  }

  /** A string field as stored: the value given, or `''` when it is absent. */
  function OrEmpty(v: Option<string>): string {
    if v.Some? then v.value else ""
  }

  /** The only field a new user needs is a name. */
  predicate UserFieldsValid(f: UserFields) {
    RequiredString(f.name)
  }

  /** A stored comment: its like counter never goes below zero. */
  predicate ValidComment(c: Comment) {
    c.likes >= 0
  }

  /** A stored post: required strings are non-empty and every counter is non-negative. */
  predicate ValidBlog(b: Blog) {
    && |b.title| > 0
    && |b.content| > 0
    && b.likes >= 0
    && forall i :: 0 <= i < |b.comments| ==> ValidComment(b.comments[i])
  }

  /** A stored user has a non-empty name. */
  predicate ValidUser(u: User) {
    |u.name| > 0
  }
}
