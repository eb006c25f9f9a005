/** The request handlers of `server.js`, each a function from the database
    and a request to a response and the database afterwards. */
module Server {
  import opened Models
  import opened Store

  /** A parsed JSON request body; only string members are modelled. */
  type Body = map<string, string>

  /** What the environment supplies to a request: the ObjectId Mongoose
      generates for a new document and the clock reading `Date.now` gives. */
  datatype Env = Env(freshId: Id, now: Timestamp)

  datatype Request =
    | GetAuthors
    | PostAuthors(body: Body)
    | PutAuthor(pathId: string, body: Body)
    | DeleteAuthor(pathId: string)
    | GetBlogPosts
    | GetBlogPost(pathId: string)
    | PostBlogPosts(body: Body)
    | PutBlogPost(pathId: string, body: Body)

  /** One element of the `GET /authors` list. */
  datatype AuthorView = AuthorView(id: Id, firstName: string, lastName: string, userName: string)

  /** The `{id, name, userName}` object the author writes answer with. */
  datatype AuthorSummary = AuthorSummary(id: Id, name: string, userName: string)

  datatype Payload =
    | Text(text: string)                     // res.send(text)
    | Message(message: string)               // res.json({message})
    | AuthorList(authors: seq<AuthorView>)
    | NewAuthor(summary: AuthorSummary)      // keys `_id`, `name`, `userName`
    | ChangedAuthor(summary: AuthorSummary)  // keys `id`, `name`, `userName`
    | PostList(posts: seq<PostView>)
    | OnePost(post: PostView)
    | NoContent                              // a 204 carries no body

  datatype Response = Response(status: int, payload: Payload)

  datatype Step = Step(response: Response, after: Db)

  const AuthorRequired: seq<string> := ["firstName", "lastName", "userName"]
  const PostRequired: seq<string> := ["title", "content", "author_id"]
  const AuthorUpdatable: seq<string> := ["firstName", "lastName", "userName"]
  const PostUpdatable: seq<string> := ["title", "content"]

  // ---------------------------------------------------------------------
  // Validation and response shaping

  /** Index of the first of `fields` missing from `body`, or `|fields|`
      when none is: the check visits the fields in order and stops at the
      first one missing. */
  function FirstMissing(body: Body, fields: seq<string>): (k: nat)
    ensures k <= |fields|
    ensures forall i :: 0 <= i < k ==> fields[i] in body
    ensures k < |fields| ==> fields[k] !in body
  {
    if fields == [] || fields[0] !in body then 0
    else 1 + FirstMissing(body, fields[1..])
  }

  function MissingMessage(field: string): string {
    "Missing `" + field + "` in request body"
  }

  /** `req.params.id && req.body.id && req.params.id === req.body.id`; an
      empty string is falsy. */
  predicate IdsAgree(pathId: string, body: Body) {
    pathId != "" && "id" in body && body["id"] != "" && pathId == body["id"]
  }

  /** The id-mismatch message; an absent body id prints as `undefined`. */
  function MismatchMessage(pathId: string, body: Body): string {
    "Request path id (" + pathId + ") and request body id ("
    + (if "id" in body then body["id"] else "undefined") + ") must match"
  }

  /** The `toUpdate` object: the members of `body` named in `fields`. */
  function Whitelist(body: Body, fields: seq<string>): map<string, string> {
    map f | f in fields && f in body :: body[f]
  }

  function Pick(upd: map<string, string>, key: string, current: string): string {
    if key in upd then upd[key] else current
  }

  /** `{$set: upd}` applied to an author. */
  function MergeAuthor(a: Author, upd: map<string, string>): Author {
    a.(firstName := Pick(upd, "firstName", a.firstName),
       lastName := Pick(upd, "lastName", a.lastName),
       userName := Pick(upd, "userName", a.userName))
  }

  /** `{$set: upd}` applied to a blog post. */
  function MergePost(p: BlogPost, upd: map<string, string>): BlogPost {
    p.(title := Pick(upd, "title", p.title), content := Pick(upd, "content", p.content))
  }

  /** The template `${firstName} ${lastName}`, not trimmed. */
  function FullName(a: Author): string {
    a.firstName + " " + a.lastName
  }

  function ViewAuthor(a: Author): AuthorView {
    AuthorView(a.id, a.firstName, a.lastName, a.userName)
  }

  /** A listed blog post: `author` is the populated author's `userName`. */
  function ListedPost(p: BlogPost, a: Author): PostView {
    PostView(p.id, Some(a.userName), p.content, p.title, Some(p.created), p.comments)
  }

  // ---------------------------------------------------------------------
  // Handlers

  /** GET /authors. */
  function ListAuthors(db: Db): (step: Step)
    ensures step.response.status == 200 && step.after == db
  {
    var authors := Listing(db.authors);
    Step(Response(200, AuthorList(seq(|authors|, i requires 0 <= i < |authors| => ViewAuthor(authors[i])))), db)
  }

  /** POST /authors, with the required-field check stopping at the first
      missing field. */
  function CreateAuthor(db: Db, body: Body, env: Env): (step: Step)
    ensures step.response.status in {201, 400, 500}
    ensures step.response.status != 201 ==> step.after == db
    ensures step.after.posts == db.posts
  {
    var k := FirstMissing(body, AuthorRequired);
    if k < |AuthorRequired| then
      Step(Response(400, Text(MissingMessage(AuthorRequired[k]))), db)
    else
      assert AuthorRequired[0] in body && AuthorRequired[1] in body && AuthorRequired[2] in body;
      if HasUserName(db.authors, body["userName"]) then
        Step(Response(400, Text("Username is already in use")), db)
      else if env.freshId in db.authors.docs then
        // the generated `_id` collides: the insert fails
        Step(Response(500, Message("Internal server error")), db)
      else
        var a := Author(env.freshId, body["firstName"], body["lastName"], body["userName"]);
        Step(Response(201, NewAuthor(AuthorSummary(a.id, FullName(a), a.userName))),
             db.(authors := Insert(db.authors, a.id, a)))
  }

  /** PUT /authors/:id. `findByIdAndUpdate` yields the document as it was
      before the update, so the answer shows the old values. */
  function UpdateAuthor(db: Db, pathId: string, body: Body): (step: Step)
    ensures step.response.status in {200, 400, 500}
    ensures step.response.status != 200 ==> step.after == db
    ensures step.after.posts == db.posts
    ensures step.after.authors.docs.Keys == db.authors.docs.Keys
  {
    if !IdsAgree(pathId, body) then
      Step(Response(400, Message(MismatchMessage(pathId, body))), db)
    else
      var upd := Whitelist(body, AuthorUpdatable);
      if pathId !in db.authors.docs then
        // the update yields null and `author.id` throws
        Step(Response(500, Message("Internal server error - updating author")), db)
      else if "userName" in upd && UserNameHeldByOther(db.authors, upd["userName"], pathId) then
        // the unique index rejects the write
        Step(Response(500, Message("Internal server error - updating author")), db)
      else
        var prior := db.authors.docs[pathId];
        Step(Response(200, ChangedAuthor(AuthorSummary(prior.id, FullName(prior), prior.userName))),
             db.(authors := Replace(db.authors, pathId, MergeAuthor(prior, upd))))
  }

  /** DELETE /authors/:id: the author's posts go first, then the author. */
  function RemoveAuthor(db: Db, pathId: string): (step: Step)
    ensures step.response.status == 204
    ensures step.after.authors.docs.Keys == db.authors.docs.Keys - {pathId}
    ensures step.after.posts.docs.Keys <= db.posts.docs.Keys
  {
    var posts := RemovePostsBy(db.posts, pathId);
    var authors := Remove(db.authors, pathId);
    Step(Response(204, NoContent), Db(authors, posts))
  }

  /** GET /blogposts. Logging `blogpost.author.userName` throws for a post
      whose author does not resolve, which turns the whole answer into a
      500; otherwise each post shows its author's `userName`. */
  function ListPosts(db: Db): (step: Step)
    ensures step.response.status in {200, 500} && step.after == db
  {
    var posts := Listing(db.posts);
    if forall i :: 0 <= i < |posts| ==> Resolves(db, posts[i]) then
      Step(Response(200, PostList(seq(|posts|, i requires 0 <= i < |posts| && Resolves(db, posts[i]) =>
        ListedPost(posts[i], db.authors.docs[posts[i].author.value])))), db)
    else
      Step(Response(500, Message("Internal server error - blogposts")), db)
  }

  /** GET /blogposts/:id: a missing post is `null`, and calling `serialize`
      on it throws. */
  function ShowPost(db: Db, pathId: string): (step: Step)
    ensures step.response.status == 200 <==> pathId in db.posts.docs
    ensures step.response.status in {200, 500} && step.after == db
  {
    if pathId in db.posts.docs then Step(Response(200, OnePost(Serialize(db.posts.docs[pathId]))), db)
    else Step(Response(500, Message("Internal server error")), db)
  }

  /** POST /blogposts. */
  function CreatePost(db: Db, body: Body, env: Env): (step: Step)
    ensures step.response.status in {201, 400, 500}
    ensures step.response.status != 201 ==> step.after == db
    ensures step.after.authors == db.authors
  {
    var k := FirstMissing(body, PostRequired);
    if k < |PostRequired| then
      Step(Response(400, Text(MissingMessage(PostRequired[k]))), db)
    else
      assert PostRequired[0] in body && PostRequired[1] in body && PostRequired[2] in body;
      var authorId := body["author_id"];
      if authorId !in db.authors.docs then
        Step(Response(400, Text("AUthor not found")), db)
      else if env.freshId in db.posts.docs then
        Step(Response(500, Message("Internal server error")), db)
      else
        var a := db.authors.docs[authorId];
        var p := BlogPost(env.freshId, body["title"], body["content"], Some(authorId), [], env.now);
        Step(Response(201, OnePost(PostView(p.id, Some(FullName(a)), p.content, p.title, None, p.comments))),
             db.(posts := Insert(db.posts, p.id, p)))
  }

  /** PUT /blogposts/:id: an unknown id updates nothing and still answers 204. */
  function UpdatePost(db: Db, pathId: string, body: Body): (step: Step)
    ensures step.response.status in {204, 400}
    ensures step.after.authors == db.authors
    ensures step.after.posts.docs.Keys == db.posts.docs.Keys
  {
    if !IdsAgree(pathId, body) then
      Step(Response(400, Message(MismatchMessage(pathId, body))), db)
    else if pathId !in db.posts.docs then
      Step(Response(204, NoContent), db)
    else
      var upd := Whitelist(body, PostUpdatable);
      Step(Response(204, NoContent),
           db.(posts := Replace(db.posts, pathId, MergePost(db.posts.docs[pathId], upd))))
  }

  /** Routes a request to its handler. */
  function Handle(db: Db, req: Request, env: Env): Step {
    match req
    case GetAuthors => ListAuthors(db)
    case PostAuthors(body) => CreateAuthor(db, body, env)
    case PutAuthor(id, body) => UpdateAuthor(db, id, body)
    case DeleteAuthor(id) => RemoveAuthor(db, id)
    case GetBlogPosts => ListPosts(db)
    case GetBlogPost(id) => ShowPost(db, id)
    case PostBlogPosts(body) => CreatePost(db, body, env)
    case PutBlogPost(id, body) => UpdatePost(db, id, body)
  }

  /** The database after serving `trace` in order. */
  function Run(db: Db, trace: seq<(Request, Env)>): Db
    decreases |trace|
  {
    if trace == [] then db
    else Run(Handle(db, trace[0].0, trace[0].1).after, trace[1..])
  }
}
