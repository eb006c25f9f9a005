# Blog API: authors, blog posts and the rules between them

A Dafny model of the request handling of a small Express/Mongoose blog
service. It keeps two collections, authors and blog posts. A blog post
references at most one author by id and owns an ordered list of comments.
Each route handler of `server.js` becomes a pure function. It takes the
database (two maps from id to document, plus the order in which `find()`
lists them) and a request, and yields a status, a response body and the
database afterwards. `models.js` provides the record shapes, the
`authorName` virtual and the `serialize` method.

Files:

- `models.dfy` (module `Models`): the Author, BlogPost and Comment
  documents; `String.prototype.trim` with a reference definition it is
  proved to meet; `authorName`; the wire shape of a post and `serialize`.
- `store.dfy` (module `Store`): the Mongoose collections as maps with a
  listing order; insert, replace, remove and `remove({author})`; the
  unique index on `userName`; the consistency invariant.
- `server.dfy` (module `Server`): the required-field check, the id check,
  the whitelist merge, the eight modelled routes, and `Handle`/`Run`,
  which serve one request or a sequence of them.
- `properties.dfy` (module `Properties`): what each route promises, and
  the invariants every request preserves.
- `findings.dfy` (module `AuthorCheckAsWritten`): the POST /authors field
  check as the source writes it.

Modelling choices:

- The environment supplies the ObjectId Mongoose generates and the time
  `Date.now` returns, through an `Env` parameter. A generated id that is
  already in use makes the insert fail with a 500, as a duplicate `_id`
  would.
- The unique index on `userName` (models.js:9-12) is enforced by the
  store. A PUT that would give an author a `userName` another author holds
  fails with a 500 and changes nothing.
- PUT /authors/:id answers with the document as it was before the update.
  That is what `findByIdAndUpdate` yields without `{new: true}`. An unknown
  id yields `null`, so reading `author.id` throws and the answer is a 500.
- PUT /blogposts/:id on an unknown id updates nothing and still answers 204.
- GET /blogposts logs `blogpost.author.userName` before it builds the list
  (server.js:139). A post whose author does not resolve therefore turns the
  whole answer into a 500. Otherwise each post's `author` is the author's
  `userName`. The `=== undefined` test on line 142 never decides anything.
- `serialize` reads `this.firstName`, a path the blog post schema does not
  declare. Its `author` member is therefore always `undefined`, and JSON
  drops the key. GET /blogposts/:id thus never shows an author.
- The author shown for a post depends on the route. POST /blogposts
  answers with `firstName lastName` of the resolved author, untrimmed.
  GET /blogposts shows the author's `userName`. GET /blogposts/:id shows
  no author at all; `SingleAndListReadsDisagree` states the contrast.
- An unknown id on GET /blogposts/:id is a 500, because `serialize` is
  called on `null`.

## Model

| member | source | states |
|---|---|---|
| Server.FirstMissing | server.js:171-179 | the required fields are checked in their declared order; the result is the first one absent from the body, every field before it is present, or all are present |
| Server.ListAuthors | server.js:18-35 | GET /authors always answers 200 and changes nothing; its contents are specified by `Properties.ListAuthorsProjects` |
| Server.CreateAuthor | server.js:38-78 | POST /authors answers 201, 400 or 500; only a 201 changes the database, and it never touches posts; specified in full by `Properties.CreateAuthorMissingField`, `CreateAuthorTakenUserName`, `CreateAuthorStores`, `CreateAuthorIdCollision` and `CreateAuthorSucceeds` |
| Server.UpdateAuthor | server.js:81-109 | PUT /authors/:id answers 200, 400 or 500; only a 200 changes the database, and it keeps the set of author ids and every post; specified in full by `Properties.UpdateAuthorNeedsMatchingIds`, `UpdateAuthorOutcome` and `UpdateAuthorMerges` |
| Server.RemoveAuthor | server.js:112-129 | DELETE /authors/:id answers 204, removes exactly that author id and only ever removes posts; the cascade is specified by `Properties.RemoveAuthorCascades` |
| Server.ListPosts | server.js:133-155 | GET /blogposts answers 200 or 500 and changes nothing; which one, and the list, are specified by `Properties.ListPostsFailsOnDanglingAuthor` and `ListPostsShowsUserNames` |
| Server.ShowPost | server.js:159-167 | GET /blogposts/:id answers 200 exactly for a stored id, 500 otherwise, and changes nothing; the body is specified by `Properties.ShowPostSerializes` |
| Server.CreatePost | server.js:170-215 | POST /blogposts answers 201, 400 or 500; only a 201 changes the database, and it never touches authors; specified in full by `Properties.CreatePostMissingField`, `CreatePostUnknownAuthor`, `CreatePostIdCollision` and `CreatePostStores` |
| Server.UpdatePost | server.js:218-241 | PUT /blogposts/:id answers 204 or 400, keeps every author and the set of post ids; specified in full by `Properties.UpdatePostMerges` |
| Properties.FirstMissingIsFirst | server.js:172-178 | the field reported missing is the first absent one, whatever follows it |
| Properties.PostFieldsPresent | server.js:171-179 | the POST /blogposts check passes exactly when `title`, `content` and `author_id` are all in the body |
| Properties.AuthorFieldsPresent | server.js:39-46 | the POST /authors check passes exactly when `firstName`, `lastName` and `userName` are all in the body |
| Properties.CreatePostMissingField | server.js:171-179 | a body missing `title`, `content` or `author_id` gets 400 "Missing `<first missing>` in request body" and the database is untouched |
| Properties.CreatePostUnknownAuthor | server.js:181-209 | with all fields present but an `author_id` naming no author, the answer is 400 "AUthor not found" and no post is stored |
| Properties.CreatePostIdCollision | server.js:193-203 | a generated post id already in use makes the insert fail: 500 "Internal server error" and no post is stored or overwritten |
| Properties.CreatePostStores | server.js:186-199 | a 201 happens exactly when all fields are present, the author exists and the new id is free; the stored post has the given title and content, `author = author_id`, no comments and `created` = now; the answer is `{id: new id, author: firstName + " " + lastName of the resolved author, content, title, comments: []}` with no `created`; any other outcome leaves the database as it was |
| Properties.CreateAuthorTakenUserName | server.js:48-55 | a `userName` some author already holds gets 400 "Username is already in use" and nothing is stored |
| Properties.CreateAuthorMissingField | server.js:39-46 | a body missing `firstName`, `lastName` or `userName` gets 400 naming the first missing field and nothing is stored (the intended check; see Findings) |
| Properties.CreateAuthorStores | server.js:48-67 | a 201 happens exactly when all three fields are present, no author holds the `userName` and the generated id is free; on 201 the author is stored under the new id with the body's three names, posts are untouched and it is the only author with that `userName`; otherwise the database is unchanged; when the unique index held before, it holds after |
| Properties.CreateAuthorIdCollision | server.js:57-78 | a generated id already in use makes the insert fail: 500 "Internal server error" and no author is stored or overwritten |
| Properties.CreateAuthorSucceeds | server.js:48-67 | a complete body with a `userName` nobody holds and a free generated id is stored under that id and answered 201 with `{_id, name: firstName + " " + lastName, userName}` |
| Properties.UpdateAuthorNeedsMatchingIds | server.js:82-87 | unless the path id and body id are both present and equal, PUT /authors/:id answers 400 with the mismatch message (an absent body id printed as `undefined`) and changes nothing |
| Properties.UpdatePostNeedsMatchingIds | server.js:219-225 | the same for PUT /blogposts/:id |
| Properties.UpdateAuthorIgnoresOtherKeys | server.js:89-96 | only `id`, `firstName`, `lastName` and `userName` in the body influence an author update; bodies agreeing on them have identical effects |
| Properties.UpdatePostIgnoresOtherKeys | server.js:227-234 | only `id`, `title` and `content` in the body influence a post update |
| Properties.UpdateAuthorMerges | server.js:89-108 | a 200 means the ids agreed and the author exists; each whitelisted name present in the body is written and every other name kept; the id, the other authors and all posts are unchanged; the answer carries the pre-update `id`, `firstName lastName` and `userName`; any other status leaves the database unchanged |
| Properties.UpdateAuthorOutcome | server.js:81-109 | PUT /authors/:id answers 200 exactly when the ids agree, the author is stored and no other author holds the body's `userName`; an unknown id, or a `userName` another author holds, is a 500 with the database unchanged |
| Properties.UpdatePostMerges | server.js:218-240 | PUT /blogposts/:id answers 204 with no body whenever the ids agree, stored id or not, and 400 with the mismatch message otherwise; a post update only writes `title` and `content`, and only those the body carries when the ids agree; the id, author reference, comments and `created` never change, nor do other posts or any author |
| Properties.RemoveAuthorCascades | server.js:112-123 | DELETE /authors/:id answers 204; afterwards the author is gone, exactly the posts referencing it are gone, no remaining post references it, and every other author and post is kept unchanged |
| Properties.ListAuthorsProjects | server.js:18-29 | GET /authors answers 200 with one `{id, firstName, lastName, userName}` per stored author, as many as are stored, in listing order, every stored author appearing |
| Properties.ListPostsFailsOnDanglingAuthor | server.js:137-142 | if any post's author reference does not resolve, GET /blogposts answers 500 instead of showing `""` |
| Properties.ListPostsShowsUserNames | server.js:133-148 | when every reference resolves, GET /blogposts answers 200 with every post in listing order; each shows id, title, content, created and comments unchanged and `author` = the resolved author's `userName` |
| Properties.ShowPostSerializes | server.js:159-166 | GET /blogposts/:id answers 200 exactly for a stored id, with exactly `serialize` of the stored post, whose wire keys are `id, content, title, created, comments`; otherwise 500 "Internal server error" with the database unchanged |
| Properties.SingleAndListReadsDisagree | server.js:133-167 | for the same stored post, the list read shows an author and the single read shows none |
| Properties.HandleKeepsUserNamesUnique | models.js:9-12 | no request can make two authors share a `userName` |
| Properties.UpdateAuthorKeepsUnique | server.js:99-100 | an author update never breaks the unique index on `userName` |
| Properties.CreateAuthorKeepsConsistent | server.js:48-67 | POST /authors keeps the database consistent |
| Properties.UpdateAuthorKeepsConsistent | server.js:81-109 | PUT /authors/:id keeps the database consistent |
| Properties.RemoveAuthorKeepsConsistent | server.js:112-123 | DELETE /authors/:id keeps the database consistent; the cascade leaves no dangling reference |
| Properties.CreatePostKeepsConsistent | server.js:181-199 | POST /blogposts keeps the database consistent; a post is only created with an author that resolves |
| Properties.UpdatePostKeepsConsistent | server.js:218-241 | PUT /blogposts/:id keeps the database consistent |
| Properties.HandleKeepsConsistent | server.js:18-241 | every modelled request keeps listings valid, ids equal to their keys, user names unique and every post's author resolvable |
| Properties.RunKeepsConsistent | server.js:18-241 | any sequence of requests keeps the database consistent |
| Properties.ListPostsSucceedsWhenReachable | server.js:133-155 | starting from an empty database, no sequence of requests can make GET /blogposts fail with a dangling author |
| Properties.AdaSession | server.js:38-215 | creating Ada Lovelace answers 201 `{_id, name: "Ada Lovelace", userName}`; her post answers 201 with author "Ada Lovelace"; reading it back shows no author; deleting her answers 204 and her post is gone (the single read is then a 500) |
| Models.AuthorName | models.js:41-43 | the `authorName` virtual is the trim, in the sense of `IsTrimOf`, of `firstName + " " + lastName`; see `AuthorNameOfPlainNames` and `AuthorNameWithoutLastName` |
| Models.Serialize | models.js:45-54 | `serialize` never shows an author and puts exactly the keys `id, content, title, created, comments` on the wire; see `SerializeShape` and `SerializeIgnoresAuthor` |
| Models.Trim | models.js:42 | `trim()` yields a slice of the string whose ends are not whitespace and whose surroundings are all JavaScript whitespace |
| Models.TrimUnique | models.js:42 | that description fixes the result: at most one string meets it |
| Models.AuthorNameOfPlainNames | models.js:41-43 | for non-empty names without surrounding whitespace, `authorName` is `firstName + " " + lastName` |
| Models.AuthorNameWithoutLastName | models.js:41-43 | with an empty last name, `authorName` is the trimmed first name: the joining space disappears |
| Models.TrimIgnoresTrailingBlank | models.js:42 | appending whitespace to a string does not change its trim |
| Models.SerializeShape | models.js:45-54 | `serialize` copies `_id`, content, title, created and comments unchanged and emits exactly the keys `id, content, title, created, comments`; `author` is undefined and dropped |
| Models.SerializeIgnoresAuthor | models.js:45-54 | posts differing only in their author reference serialize identically: `serialize` reads nothing from the author |
| AuthorCheckAsWritten.ForEachCheck | server.js:40-46 | the `forEach` as written: a missing field sends the 400 if nothing was sent yet and throws otherwise; it ends without having sent only when every field is present |
| AuthorCheckAsWritten.ForEachCheckCounts | server.js:40-46 | the `forEach` throws exactly when the missing fields outnumber the sends still allowed; otherwise it ends having sent once it met a missing field |
| AuthorCheckAsWritten.SendsAndStoresIffOneMissing | server.js:39-67 | the check as written both sends the 400 and lets the handler go on to the `userName` lookup exactly when one of the three fields is missing; with none missing it goes on without a 400; with two or more it throws |
| AuthorCheckAsWritten.IncompleteBodyReachesStore | server.js:39-46 | a body lacking only `firstName` gets the 400, yet the handler as written goes on to the store |

## Left out

- Express routing and middleware, `runServer`/`closeServer` and the
  Mongoose connection lifecycle (server.js:251-298): process plumbing.
- The `populate` hooks (models.js:31-39) as a mechanism. Resolving a
  reference is modelled as a lookup in the authors map.
- The ObjectId format. Every string is accepted as an id, so the cast
  errors (500) that malformed ids cause are not modelled. Ids are also
  compared as exact strings, while Mongoose casts a 24-digit hex id
  regardless of case. An uppercase spelling of a stored id therefore finds
  the document in the source but is an unknown id in the model: PUT
  /authors/:id answers 500 instead of 200, DELETE /authors/:id keeps the
  author and its posts, and such an `author_id` gets 400 "AUthor not
  found" instead of 201.
- Store faults and their mapping to 500 (the `.catch` branches, including
  `console.err` at server.js:32). Only the 500s that follow from the data
  are modelled: a missing author on PUT, a dangling author on GET
  /blogposts, a missing post on GET /blogposts/:id, and a violated unique
  index or a reused generated id.
- DELETE /blogposts/:id (server.js:244-248): it names an undefined
  `Blogpost` identifier, throws a ReferenceError and never reaches the store.
- Timestamps: `created` is the `now` value of the request's `Env`. It is
  set once at creation and no update touches it.
- Request body members that are not strings (numbers, `null`, objects) and
  Mongoose's casting of them. Bodies are maps from string to string.
- The `_id` of comment sub-documents. Comments are only carried along,
  because no modelled route creates one.
- The `authorName` virtual on a post whose author is unpopulated or
  missing. It is modelled only for a populated author.
- Concurrency. Requests are served one at a time. The author delete's two
  store calls happen together, so the orphaned posts a crash between them
  would leave are not modelled.
- Logging.
- The order in which `find()` lists documents. MongoDB does not promise
  one; the model fixes it to insertion order. `Insert` appends, `Replace`
  keeps the position and removal keeps the relative order of the rest.
- The test file `test/test-blogpost-integration.js`: a network-level
  test driver that asserts nothing about the core.
- Server.CreateAuthor: stops at the first missing field, as the blog post
  check does. The source goes on to the store after the 400 (see
  Findings). What it then writes depends on how Mongoose treats an
  undefined field, so that continuation is not modelled.

## Findings

| source | as written | input that shows it | evidently intended | confidence | as-written member | corrected member |
|---|---|---|---|---|---|---|
| server.js:40-46 | `return` inside the `forEach` callback only ends the callback. With exactly one field missing, the handler sends the 400 and then still runs the `userName` lookup, and `Author.create` when that finds nobody. With two or more missing, the second `send` throws. | body `{lastName: "Lovelace", userName: "ada"}` | stop at the first missing field and store nothing, as the blog post check does (server.js:172-179) | not executed; medium | AuthorCheckAsWritten.SendsAndStoresIffOneMissing | Properties.CreateAuthorMissingField |
