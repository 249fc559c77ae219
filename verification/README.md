# Blog backend: a state-machine model

This project models the domain logic of a small blogging backend. Users
register and log in. Posts are created, liked, commented on, have their
comments liked, and are deleted. The document store behind the handlers is
an immutable value:

- posts live in a `map<Id, Blog>`;
- users live in a `seq<User>`, in insertion order;
- `nextId` is the next id the store hands out, so new ids are always fresh.

Every HTTP handler is a pure function. The handlers that write (create,
like, comment, like a comment, delete, register) return a `Step`: the
outcome together with the store after the request. The handlers that only
read (the two listings, the two lookups by id, and login) return the
outcome alone, so they cannot change the store. The outcome is a `Result`
with the cases `Ok` (200/201), `NotFound` (404), `BadRequest` (400),
`Unauthorized` (401) and `ServerError` (500).

Modules, following the program's files:

- `Models`: `Option`, for request fields a client may leave out, and the
  `Blog`, `Comment` and `User` records. It also holds the
  request bodies and the schema rules as predicates: a required string must
  be present and non-empty, and counters are never negative.
- `DocumentStore`: `Result`, `Store`, `Step`, and the store invariant
  `Valid`. The invariant says that ids are below `nextId`, that user ids are
  distinct, and that every document meets its schema.
- `IndexParse`: the decimal part of `parseInt`, which reads the comment
  index from the path.
- `BlogController`: the blog handlers, and lemmas that relate several
  requests.
- `UserController`: the user handlers, first-match lookup and login.
- `History`: sequences of write requests. It proves that the invariant is
  kept, that a post only ever evolves (`createdAt` and the other fixed
  fields never change, counters only grow, comments are only appended),
  that a deleted id never comes back, and that users are never changed.

Behaviour of the code worth knowing:

- Login succeeds exactly when the FIRST user with the given username has
  exactly the given password. "Login succeeds iff some user holds both
  credentials" is true only when usernames are unique (`LoginUniqueIff`). Usernames are not unique, and `LoginShadowed` shows a
  later duplicate user who can never log in with their own password.
- The author of a post and the user of a comment are never checked against
  the stored users.
- Registration without a username or password stores `''` for each. A user
  registered that way can be logged into with two empty strings when no
  earlier user is stored with username `''` (`CreateThenLogin`). A later
  such user is shadowed by the earlier one and cannot log in that way.
- A comment without a user does not fail the lookup. It fails the comment
  schema when the post is saved, and the handler answers 500.

## Model

| member | source | states |
|---|---|---|
| BlogController.GetAllBlogs | controllers/blogController.js:5-12 | The listing holds every stored post exactly once, with its id, and nothing else. The order is unspecified. |
| BlogController.GetBlogByID | controllers/blogController.js:15-22 | The answer is the stored post when the id is present, and NotFound exactly when it is absent. |
| BlogController.CreateBlogPost | controllers/blogController.js:30-46 | The answer is BadRequest, with nothing stored, exactly when the title or content is missing or empty, or the author is missing. Otherwise the post has the given fields, 0 likes, no comments, `createdAt == now` and no url. It is stored under a fresh id, and the users are untouched. |
| BlogController.LikeBlogPost | controllers/blogController.js:49-61 | An absent id gives NotFound and the store is unchanged. A present id gives `likes + 1`, and every other field, every other post and the users are unchanged. The answer is the updated post. |
| BlogController.AddBlogComment | controllers/blogController.js:64-82 | An absent post gives NotFound. A missing user gives a 500, because the comment schema requires `user` (models/blogModel.js:31-39). In both cases the store is unchanged. Otherwise `{user, content, likes: 0}` is appended and the content is not checked. The length grows by one, earlier comments keep their indices, and the rest of the post is unchanged. |
| BlogController.LikeBlogComment | controllers/blogController.js:85-102 | The answer is Ok exactly when the post exists and the parsed index is in `0 <= i < |comments|`. Otherwise it is NotFound and the store is unchanged. On Ok only `comments[i].likes` grows by 1. Every other comment, the post's likes, `createdAt` and every other post are unchanged. |
| BlogController.DeleteBlogPost | controllers/blogController.js:105-115 | An absent id gives NotFound and the store is unchanged. A present id removes exactly that key (size drops by one) and the answer is the post's prior value. Every remaining post is unchanged. |
| BlogController.DeleteThenGet | controllers/blogController.js:17-19 | A lookup after a delete of the same id answers NotFound. |
| BlogController.LikeRepeatedly | controllers/blogController.js:55-56 | `n` likes in a row raise `likes` by exactly `n` and change nothing else. |
| BlogController.AddThenLikeComment | controllers/blogController.js:71-98 | Liking the comment just appended, addressed by its decimal index, gives it exactly one like. The earlier comments, the post's likes and `createdAt` stay as they were. |
| BlogController.Liked | controllers/blogController.js:55 | One more like. All other fields are kept, and schema validity is preserved. |
| BlogController.WithComment | controllers/blogController.js:76 | The new comment is at the end. The earlier comments form an unchanged prefix, and validity is preserved. |
| BlogController.WithCommentLiked | controllers/blogController.js:95-96 | Only comment `i` gains one like. The other comments and fields are unchanged, and validity is preserved. |
| IndexParse.ParseIndex | controllers/blogController.js:91-92 | The parse is `NaN` (None) exactly when no digit follows the leading white space and the sign. The value of a successful parse is stated by `ParseSpelled`. |
| IndexParse.ParseSpelled | controllers/blogController.js:91-92 | White space, then an optional `+` or `-`, then the decimal spelling of `n`, then text that does not start with a digit, reads as `n` with that sign: `" 3"`, `"+3"` and `" -3x"` read as 3, 3 and -3. |
| IndexParse.ParseShowPrefix | controllers/blogController.js:91 | Reading stops at the first non-digit: the decimal spelling of `n` followed by text that does not start with a digit reads as `n`. |
| IndexParse.ParseShow | controllers/blogController.js:91 | The decimal spelling of an index reads back as that index. |
| IndexParse.ParseNegative | controllers/blogController.js:91-92 | A minus sign gives a negative index, which the range check rejects. |
| UserController.FirstWhere | controllers/userController.js:45 | The result is the first position whose user satisfies the filter, or None exactly when no user does. |
| UserController.GetUserByID | controllers/userController.js:14-20 | The answer is a stored user with that id, and NotFound exactly when no stored user has it. |
| UserController.CreateUser | controllers/userController.js:27-39 | The answer is BadRequest, with nothing stored, exactly when the name is missing or empty. Otherwise the user is appended under a fresh id. An absent or empty username or password is stored as `''`. The posts are untouched. |
| UserController.Login | controllers/userController.js:42-53 | The answer is Ok exactly when the first user with that username has exactly that password. It is Unauthorized otherwise, and always Unauthorized when no user has the username. Login only reads the store. |
| UserController.LoginUniqueIff | controllers/userController.js:45-49 | When usernames are unique, login succeeds exactly when some user has both credentials. |
| UserController.LoginShadowed | models/userModel.js:9-12 | Usernames are not unique. A later user who repeats the first matching username with a different password can never log in. |
| UserController.CreateUserThenList | controllers/userController.js:4-11 | After a registration, the user listing is the old listing followed by the new user. |
| UserController.CreateThenGetUser | models/userModel.js:5-16 | A registered user is found by their new id, with the given name and `''` for an absent username or password. |
| UserController.CreateThenLogin | controllers/userController.js:27-49 | A user registered under a username no earlier user has can log in with the stored credentials. An absent username or password counts as `''`, so a user registered with only a name can be logged into with two empty strings when no earlier user has the username `''`. |
| History.ApplyStep | models/blogModel.js:13-21 | Every write request keeps the invariant and never moves the id counter back. Every post that stays only evolves, new posts get new ids, and earlier users stay in place. |
| History.RunValid | models/blogModel.js:4-39 | Over any history, stored posts keep non-empty title and content and non-negative likes on the post and on every comment. Stored users keep a name. |
| History.NoResurrection | controllers/blogController.js:107 | A deleted post's id is never stored again. |
| History.RunEvolves | models/blogModel.js:17-21 | Over any history, a post present at both ends keeps its `createdAt`, title, content, author and url. Its likes never drop, and its earlier comments keep their places and only gain likes. |
| History.AliceSession | controllers/blogController.js:30-98 | Worked session: register, create a post, like it twice, comment, like comment "0". The result is 2 likes, one comment with 0 likes, then 1 like, and `createdAt == now`. |

## Left out

- Express wiring, the MongoDB connection, static files and `listen` are bootstrap and I/O. Routes are URL-to-handler wiring. The frontend is DOM and `fetch` code.
- Concurrency: each request is one atomic transition, so the lost-update race of the read-modify-write likes is not modelled.
- `Date.now()` / `new Date()` is the `now` parameter. Mongo's ObjectId generation is the `nextId` counter.
- Malformed ids: Mongoose cast errors (500 on lookups, 400 on create) are not modelled, because ids are abstract naturals. A failing `save()` and an unreachable store are not modelled either. `ServerError` arises only from a comment without a user.
- The 200/201 distinction and the `{error}` / `{message}` envelopes are not modelled: `Ok` stands for both success codes.
- Request fields are `Option<string>` or `Option<Id>`. Mongoose's casting of non-string values, and `||` on falsy non-strings, are not modelled.
- UserController.Login: username and password are always-present strings. A body that omits them is not modelled, because the query filter's treatment of an undefined username belongs to the database driver.
- IndexParse.ParseIndex: only the decimal prefix of `parseInt` is modelled. The `0x` hexadecimal prefix and non-ASCII white space are not, so "0x1" reads as 0 here but as 1 in JavaScript. The value of a parse is stated only for the shortest spelling of a number (`ParseSpelled`); spellings with leading zeros, such as "007", are computed by the model but no lemma states their value.
- UserController.GetUserByID: only the first response is modelled. The missing `return` after the 404 makes the handler then try a second response.
- BlogController.GetBlogByID: only the first response is modelled. After sending the post, the handler tries to send it a second time, which throws; the `catch` then tries to send a 500, which throws as well. Only the first response reaches the client.
- BlogController.LikeBlogPost and BlogController.LikeBlogComment: counters are unbounded integers in the model, so every like adds exactly 1. In the source the counters are JavaScript numbers, and `likes++` stops growing at 2^53, because 2^53 + 1 rounds back to 2^53. The same holds for `Liked`, `WithCommentLiked` and `LikeRepeatedly`.
- UserController.GetAllUsers has no contract of its own. It returns the users in insertion order, which `CreateUserThenList` states.
