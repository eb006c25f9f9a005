/** What the handlers of `Server` guarantee: the per-route promises, and the
    invariants (unique user names, resolvable author references) that every
    request preserves. */
module Properties {
  import opened Models
  import opened Store
  import opened Server

  // ---------------------------------------------------------------------
  // Required fields

  /** The required-field check reports the first missing field, whatever
      comes after it. */
  lemma FirstMissingIsFirst(body: Body, fields: seq<string>, k: nat)
    requires k < |fields| && fields[k] !in body
    requires forall i :: 0 <= i < k ==> fields[i] in body
    ensures FirstMissing(body, fields) == k
  {
  }

  /** The POST /blogposts check passes exactly when all three fields are present. */
  lemma PostFieldsPresent(body: Body)
    ensures FirstMissing(body, PostRequired) == |PostRequired| <==>
      "title" in body && "content" in body && "author_id" in body
  {
    var k := FirstMissing(body, PostRequired);
    if k == |PostRequired| {
      assert PostRequired[0] in body && PostRequired[1] in body && PostRequired[2] in body;
    } else {
      assert PostRequired[k] !in body;
    }
  }

  /** The POST /authors check passes exactly when all three fields are present. */
  lemma AuthorFieldsPresent(body: Body)
    ensures FirstMissing(body, AuthorRequired) == |AuthorRequired| <==>
      "firstName" in body && "lastName" in body && "userName" in body
  {
    var k := FirstMissing(body, AuthorRequired);
    if k == |AuthorRequired| {
      assert AuthorRequired[0] in body && AuthorRequired[1] in body && AuthorRequired[2] in body;
    } else {
      assert AuthorRequired[k] !in body;
    }
  }

  // ---------------------------------------------------------------------
  // POST /blogposts

  /** A missing `title`, `content` or `author_id` (checked in that order)
      is answered with a 400 naming it, and nothing is stored. */
  lemma CreatePostMissingField(db: Db, body: Body, env: Env, k: nat)
    requires k < |PostRequired| && PostRequired[k] !in body
    requires forall i :: 0 <= i < k ==> PostRequired[i] in body
    ensures CreatePost(db, body, env) == Step(Response(400, Text(MissingMessage(PostRequired[k]))), db)
  {
    FirstMissingIsFirst(body, PostRequired, k);
  }

  /** An `author_id` that names no author is answered with a 400 and
      nothing is stored. */
  lemma CreatePostUnknownAuthor(db: Db, body: Body, env: Env)
    requires "title" in body && "content" in body && "author_id" in body
    requires body["author_id"] !in db.authors.docs
    ensures CreatePost(db, body, env) == Step(Response(400, Text("AUthor not found")), db)
  {
    PostFieldsPresent(body);
  }

    /** A generated post id already in use makes the insert fail: 500 and no
      post is stored or overwritten. */
  lemma CreatePostIdCollision(db: Db, body: Body, env: Env)
    requires "title" in body && "content" in body && "author_id" in body
    requires body["author_id"] in db.authors.docs && env.freshId in db.posts.docs
    ensures CreatePost(db, body, env) == Step(Response(500, Message("Internal server error")), db)
  {
    PostFieldsPresent(body);
  }

/** A post is stored exactly when every field is present, the author
      exists and the new id is free; it then holds the given title,
      content and author id, no comments and the creation time, and the
      201 answer names the author as `firstName lastName`. */
  lemma CreatePostStores(db: Db, body: Body, env: Env)
    ensures var step := CreatePost(db, body, env);
      step.response.status == 201 <==>
        && "title" in body && "content" in body && "author_id" in body
        && body["author_id"] in db.authors.docs
        && env.freshId !in db.posts.docs
    ensures var step := CreatePost(db, body, env);
      step.response.status == 201 ==>
        var a := db.authors.docs[body["author_id"]];
        && step.after.authors == db.authors
        && step.after.posts.docs == db.posts.docs[env.freshId :=
             BlogPost(env.freshId, body["title"], body["content"], Some(body["author_id"]), [], env.now)]
        && step.response.payload == OnePost(PostView(env.freshId, Some(a.firstName + " " + a.lastName),
             body["content"], body["title"], None, []))
    ensures var step := CreatePost(db, body, env);
      step.response.status != 201 ==> step.after == db
  {
    PostFieldsPresent(body);
  }

  // ---------------------------------------------------------------------
  // POST /authors

  /** A `userName` some author already holds is refused and nothing is
      stored. */
  lemma CreateAuthorTakenUserName(db: Db, body: Body, env: Env)
    requires "firstName" in body && "lastName" in body && "userName" in body
    requires exists k :: k in db.authors.docs && db.authors.docs[k].userName == body["userName"]
    ensures CreateAuthor(db, body, env) == Step(Response(400, Text("Username is already in use")), db)
  {
    AuthorFieldsPresent(body);
  }

  /** A missing `firstName`, `lastName` or `userName` is answered with a 400
      naming the first of them, and nothing is stored. */
  lemma CreateAuthorMissingField(db: Db, body: Body, env: Env, k: nat)
    requires k < |AuthorRequired| && AuthorRequired[k] !in body
    requires forall i :: 0 <= i < k ==> AuthorRequired[i] in body
    ensures CreateAuthor(db, body, env) == Step(Response(400, Text(MissingMessage(AuthorRequired[k]))), db)
  {
    FirstMissingIsFirst(body, AuthorRequired, k);
  }

  /** A created author is stored under the new id with the given names, and
      is then the only author with its `userName`. */
  lemma CreateAuthorStores(db: Db, body: Body, env: Env)
    ensures CreateAuthor(db, body, env).response.status == 201 <==>
      && "firstName" in body && "lastName" in body && "userName" in body
      && !HasUserName(db.authors, body["userName"])
      && env.freshId !in db.authors.docs
    ensures var step := CreateAuthor(db, body, env);
      step.response.status == 201 ==>
        && step.after.posts == db.posts
        && step.after.authors.docs == db.authors.docs[env.freshId :=
             Author(env.freshId, body["firstName"], body["lastName"], body["userName"])]
        && (forall k :: k in step.after.authors.docs && step.after.authors.docs[k].userName == body["userName"]
              ==> k == env.freshId)
    ensures var step := CreateAuthor(db, body, env);
      step.response.status != 201 ==> step.after == db
    ensures UniqueUserNames(db.authors) ==> UniqueUserNames(CreateAuthor(db, body, env).after.authors)
  {
    AuthorFieldsPresent(body);
  }

  /** A generated id already in use makes the insert fail: 500 and nothing
      is stored or overwritten. */
  lemma CreateAuthorIdCollision(db: Db, body: Body, env: Env)
    requires "firstName" in body && "lastName" in body && "userName" in body
    requires !HasUserName(db.authors, body["userName"]) && env.freshId in db.authors.docs
    ensures CreateAuthor(db, body, env) == Step(Response(500, Message("Internal server error")), db)
  {
    AuthorFieldsPresent(body);
  }

  /** A complete body with a free `userName` and a free generated id is
      stored and answered 201 with `{_id, name, userName}`. */
  lemma CreateAuthorSucceeds(db: Db, body: Body, env: Env)
    requires "firstName" in body && "lastName" in body && "userName" in body
    requires !HasUserName(db.authors, body["userName"]) && env.freshId !in db.authors.docs
    ensures CreateAuthor(db, body, env).response ==
      Response(201, NewAuthor(AuthorSummary(env.freshId, body["firstName"] + " " + body["lastName"], body["userName"])))
    ensures CreateAuthor(db, body, env).after.authors.docs ==
      db.authors.docs[env.freshId := Author(env.freshId, body["firstName"], body["lastName"], body["userName"])]
  {
    AuthorFieldsPresent(body);
  }

  // ---------------------------------------------------------------------
  // PUT /authors/:id and PUT /blogposts/:id

  /** Without a path id and a body id that are equal, the author update
      answers 400 naming both ids and changes nothing. */
  lemma UpdateAuthorNeedsMatchingIds(db: Db, pathId: string, body: Body)
    requires !(pathId != "" && "id" in body && body["id"] == pathId)
    ensures UpdateAuthor(db, pathId, body) == Step(Response(400, Message(MismatchMessage(pathId, body))), db)
  {
  }

  /** Without a path id and a body id that are equal, the post update
      answers 400 naming both ids and changes nothing. */
  lemma UpdatePostNeedsMatchingIds(db: Db, pathId: string, body: Body)
    requires !(pathId != "" && "id" in body && body["id"] == pathId)
    ensures UpdatePost(db, pathId, body) == Step(Response(400, Message(MismatchMessage(pathId, body))), db)
  {
  }

  /** Bodies that agree on `id` and on the whitelisted keys have the same
      effect on an author: every other key is ignored. */
  lemma UpdateAuthorIgnoresOtherKeys(db: Db, pathId: string, b1: Body, b2: Body)
    requires "id" in b1 <==> "id" in b2
    requires "id" in b1 ==> b1["id"] == b2["id"]
    requires forall f :: f in AuthorUpdatable ==> (f in b1 <==> f in b2)
    requires forall f :: f in AuthorUpdatable && f in b1 ==> b1[f] == b2[f]
    ensures UpdateAuthor(db, pathId, b1) == UpdateAuthor(db, pathId, b2)
  {
    assert Whitelist(b1, AuthorUpdatable) == Whitelist(b2, AuthorUpdatable);
  }

  /** Bodies that agree on `id`, `title` and `content` have the same effect
      on a post: every other key is ignored. */
  lemma UpdatePostIgnoresOtherKeys(db: Db, pathId: string, b1: Body, b2: Body)
    requires "id" in b1 <==> "id" in b2
    requires "id" in b1 ==> b1["id"] == b2["id"]
    requires forall f :: f in PostUpdatable ==> (f in b1 <==> f in b2)
    requires forall f :: f in PostUpdatable && f in b1 ==> b1[f] == b2[f]
    ensures UpdatePost(db, pathId, b1) == UpdatePost(db, pathId, b2)
  {
    assert Whitelist(b1, PostUpdatable) == Whitelist(b2, PostUpdatable);
  }

  /** A successful author update overwrites exactly the whitelisted names
      the body carries, leaves the id, the other authors and every post
      alone, and answers with the names as they were before. */
  lemma UpdateAuthorMerges(db: Db, pathId: string, body: Body)
    ensures var step := UpdateAuthor(db, pathId, body);
      step.response.status == 200 ==>
        && pathId in db.authors.docs && IdsAgree(pathId, body)
        && var prior := db.authors.docs[pathId];
        && var now := step.after.authors.docs[pathId];
        && step.after.authors.docs.Keys == db.authors.docs.Keys
        && now.id == prior.id
        && now.firstName == (if "firstName" in body then body["firstName"] else prior.firstName)
        && now.lastName == (if "lastName" in body then body["lastName"] else prior.lastName)
        && now.userName == (if "userName" in body then body["userName"] else prior.userName)
        && (forall k :: k in db.authors.docs && k != pathId ==> step.after.authors.docs[k] == db.authors.docs[k])
        && step.after.posts == db.posts
        && step.response.payload == ChangedAuthor(AuthorSummary(prior.id, prior.firstName + " " + prior.lastName, prior.userName))
    ensures var step := UpdateAuthor(db, pathId, body);
      step.response.status != 200 ==> step.after == db
  {
  }

  /** When the author update succeeds and when it fails: 200 exactly for
      agreeing ids, a stored author and a `userName` nobody else holds; a
      500 for an unknown id or a `userName` another author holds. */
  lemma UpdateAuthorOutcome(db: Db, pathId: string, body: Body)
    ensures UpdateAuthor(db, pathId, body).response.status == 200 <==>
      && IdsAgree(pathId, body) && pathId in db.authors.docs
      && !("userName" in body && UserNameHeldByOther(db.authors, body["userName"], pathId))
    ensures IdsAgree(pathId, body) && pathId !in db.authors.docs ==>
      UpdateAuthor(db, pathId, body) == Step(Response(500, Message("Internal server error - updating author")), db)
    ensures IdsAgree(pathId, body) && "userName" in body && UserNameHeldByOther(db.authors, body["userName"], pathId) ==>
      UpdateAuthor(db, pathId, body) == Step(Response(500, Message("Internal server error - updating author")), db)
  {
  }

  /** A post update overwrites exactly the `title` and `content` the body
      carries; the author reference, comments and `created` never change. */
  lemma UpdatePostMerges(db: Db, pathId: string, body: Body)
    ensures UpdatePost(db, pathId, body).response ==
      if IdsAgree(pathId, body) then Response(204, NoContent)
      else Response(400, Message(MismatchMessage(pathId, body)))
    ensures var step := UpdatePost(db, pathId, body);
      && step.after.authors == db.authors
      && step.after.posts.docs.Keys == db.posts.docs.Keys
      && (forall k :: k in db.posts.docs && k != pathId ==> step.after.posts.docs[k] == db.posts.docs[k])
      && (pathId in db.posts.docs ==>
            var prior := db.posts.docs[pathId];
            var now := step.after.posts.docs[pathId];
            && now.id == prior.id && now.author == prior.author
            && now.comments == prior.comments && now.created == prior.created
            && now.title == (if IdsAgree(pathId, body) && "title" in body then body["title"] else prior.title)
            && now.content == (if IdsAgree(pathId, body) && "content" in body then body["content"] else prior.content))
  {
  }

  // ---------------------------------------------------------------------
  // DELETE /authors/:id

  /** Deleting an author removes it and every post that references it, and
      nothing else; no remaining post references the id. */
  lemma RemoveAuthorCascades(db: Db, pathId: string)
    ensures var after := RemoveAuthor(db, pathId).after;
      && after.authors.docs.Keys == db.authors.docs.Keys - {pathId}
      && (forall k :: k in after.authors.docs ==> after.authors.docs[k] == db.authors.docs[k])
      && (forall k :: k in after.posts.docs ==> after.posts.docs[k].author != Some(pathId))
      && (forall k :: k in db.posts.docs ==>
            (k in after.posts.docs <==> db.posts.docs[k].author != Some(pathId)))
      && (forall k :: k in after.posts.docs ==> after.posts.docs[k] == db.posts.docs[k])
    ensures RemoveAuthor(db, pathId).response == Response(204, NoContent)
  {
  }

  // ---------------------------------------------------------------------
  // GET /authors, GET /blogposts, GET /blogposts/:id

  /** A duplicate-free listing is as long as the set of ids it lists. */
  lemma {:induction false} DistinctCardinality(s: seq<Id>)
    requires Distinct(s)
    ensures |set x | x in s| == |s|
  {
    if s != [] {
      assert Distinct(s[1..]);
      DistinctCardinality(s[1..]);
      assert (set x | x in s) == (set x | x in s[1..]) + {s[0]};
      assert s[0] !in s[1..];
    }
  }

  /** A valid collection lists each stored document once. */
  lemma ListingCoversStore<T>(c: Collection<T>)
    requires Valid(c)
    ensures |Listing(c)| == |c.docs|
  {
    DistinctCardinality(c.order);
    assert (set x | x in c.order) == c.docs.Keys;
  }

  /** GET /authors answers 200 with one `{id, firstName, lastName, userName}`
      per stored author, in listing order, and every stored author appears. */
  lemma ListAuthorsProjects(db: Db)
    requires Valid(db.authors) && KeysMatch(db)
    ensures var r := ListAuthors(db).response;
      && r.status == 200 && r.payload.AuthorList?
      && |r.payload.authors| == |db.authors.docs| == |db.authors.order|
      && (forall i :: 0 <= i < |r.payload.authors| ==>
            var a := db.authors.docs[db.authors.order[i]];
            r.payload.authors[i] == AuthorView(a.id, a.firstName, a.lastName, a.userName))
      && (forall k :: k in db.authors.docs ==>
            exists i :: 0 <= i < |r.payload.authors| && r.payload.authors[i].id == k)
    ensures ListAuthors(db).after == db
  {
    ListingCoversStore(db.authors);
    var views := ListAuthors(db).response.payload.authors;
    forall k | k in db.authors.docs
      ensures exists i :: 0 <= i < |views| && views[i].id == k
    {
      var i :| 0 <= i < |db.authors.order| && db.authors.order[i] == k;
      assert views[i].id == k;
    }
  }

  /** GET /blogposts fails with a 500 as soon as one post's author does not
      resolve (a dangling or missing reference). */
  lemma ListPostsFailsOnDanglingAuthor(db: Db, k: Id)
    requires Valid(db.posts)
    requires k in db.posts.docs && !Resolves(db, db.posts.docs[k])
    ensures ListPosts(db) == Step(Response(500, Message("Internal server error - blogposts")), db)
  {
    var posts := Listing(db.posts);
    var i :| 0 <= i < |db.posts.order| && db.posts.order[i] == k;
    assert posts[i] == db.posts.docs[k];
  }

  /** When every reference resolves, GET /blogposts answers 200 with every
      post in listing order, each showing its author's `userName`. */
  lemma ListPostsShowsUserNames(db: Db)
    requires Valid(db.posts) && ReferencesResolve(db)
    ensures var r := ListPosts(db).response;
      && r.status == 200 && r.payload.PostList?
      && |r.payload.posts| == |db.posts.docs|
      && forall i :: 0 <= i < |r.payload.posts| ==>
           var p := db.posts.docs[db.posts.order[i]];
           && r.payload.posts[i].id == p.id
           && r.payload.posts[i].author == Some(db.authors.docs[p.author.value].userName)
           && r.payload.posts[i].title == p.title && r.payload.posts[i].content == p.content
           && r.payload.posts[i].created == Some(p.created) && r.payload.posts[i].comments == p.comments
  {
    ListingCoversStore(db.posts);
    ListedPostsResolve(db);
  }

  /** Every listed post's author reference resolves when all stored ones do. */
  lemma ListedPostsResolve(db: Db)
    requires Valid(db.posts) && ReferencesResolve(db)
    ensures forall i :: 0 <= i < |Listing(db.posts)| ==> Resolves(db, Listing(db.posts)[i])
  {
    var posts := Listing(db.posts);
    forall i | 0 <= i < |posts| ensures Resolves(db, posts[i]) {
      assert posts[i] == db.posts.docs[db.posts.order[i]];
    }
  }

  /** GET /blogposts/:id answers 200 with the serialized post, whose author
      key never reaches the wire, or 500 for an unknown id. */
  lemma ShowPostSerializes(db: Db, pathId: string)
    ensures var r := ShowPost(db, pathId).response;
      && (r.status == 200 <==> pathId in db.posts.docs)
      && (r.status == 200 ==>
            r.payload.OnePost? && r.payload.post.author == None
            && WireKeys(r.payload.post) == ["id", "content", "title", "created", "comments"]
            && r.payload.post.title == db.posts.docs[pathId].title
            && r.payload.post.content == db.posts.docs[pathId].content)
    ensures pathId in db.posts.docs ==>
      ShowPost(db, pathId).response == Response(200, OnePost(Serialize(db.posts.docs[pathId])))
    ensures pathId !in db.posts.docs ==>
      ShowPost(db, pathId) == Step(Response(500, Message("Internal server error")), db)
    ensures ShowPost(db, pathId).after == db
  {
  }

  /** The single read and the list read disagree on `author` for the same
      post: the list shows the author's `userName`, the single read shows
      nothing. */
  lemma SingleAndListReadsDisagree(db: Db, i: nat)
    requires Consistent(db) && i < |db.posts.order|
    ensures var list := ListPosts(db).response;
      var one := ShowPost(db, db.posts.order[i]).response;
      && list.payload.PostList? && one.payload.OnePost?
      && list.payload.posts[i].id == one.payload.post.id
      && list.payload.posts[i].author.Some? && one.payload.post.author.None?
  {
    ListPostsShowsUserNames(db);
  }

  // ---------------------------------------------------------------------
  // Invariants of the whole request surface

  /** No request breaks the unique index on `userName`. */
  lemma HandleKeepsUserNamesUnique(db: Db, req: Request, env: Env)
    requires UniqueUserNames(db.authors)
    ensures UniqueUserNames(Handle(db, req, env).after.authors)
  {
    match req
    case PostAuthors(body) => CreateAuthorStores(db, body, env);
    case PutAuthor(id, body) => UpdateAuthorKeepsUnique(db, id, body);
    case _ =>
  }

  lemma UpdateAuthorKeepsUnique(db: Db, pathId: string, body: Body)
    requires UniqueUserNames(db.authors)
    ensures UniqueUserNames(UpdateAuthor(db, pathId, body).after.authors)
  {
  }

  lemma CreateAuthorKeepsConsistent(db: Db, body: Body, env: Env)
    requires Consistent(db)
    ensures Consistent(CreateAuthor(db, body, env).after)
  {
    CreateAuthorStores(db, body, env);
  }

  lemma UpdateAuthorKeepsConsistent(db: Db, pathId: string, body: Body)
    requires Consistent(db)
    ensures Consistent(UpdateAuthor(db, pathId, body).after)
  {
    UpdateAuthorKeepsUnique(db, pathId, body);
    UpdateAuthorMerges(db, pathId, body);
  }

  lemma RemoveAuthorKeepsConsistent(db: Db, pathId: string)
    requires Consistent(db)
    ensures Consistent(RemoveAuthor(db, pathId).after)
  {
    RemoveAuthorCascades(db, pathId);
  }

  lemma CreatePostKeepsConsistent(db: Db, body: Body, env: Env)
    requires Consistent(db)
    ensures Consistent(CreatePost(db, body, env).after)
  {
    CreatePostStores(db, body, env);
  }

  lemma UpdatePostKeepsConsistent(db: Db, pathId: string, body: Body)
    requires Consistent(db)
    ensures Consistent(UpdatePost(db, pathId, body).after)
  {
    var after := UpdatePost(db, pathId, body).after;
    if after != db {
      var p := db.posts.docs[pathId];
      var p' := MergePost(p, Whitelist(body, PostUpdatable));
      assert p'.id == p.id && p'.author == p.author;
      assert after == db.(posts := Replace(db.posts, pathId, p'));
    }
  }

  /** Every request keeps the database consistent: listings valid, ids
      matching keys, user names unique, and every post's author resolvable. */
  lemma HandleKeepsConsistent(db: Db, req: Request, env: Env)
    requires Consistent(db)
    ensures Consistent(Handle(db, req, env).after)
  {
    match req
    case PostAuthors(body) => CreateAuthorKeepsConsistent(db, body, env);
    case PutAuthor(id, body) => UpdateAuthorKeepsConsistent(db, id, body);
    case DeleteAuthor(id) => RemoveAuthorKeepsConsistent(db, id);
    case PostBlogPosts(body) => CreatePostKeepsConsistent(db, body, env);
    case PutBlogPost(id, body) => UpdatePostKeepsConsistent(db, id, body);
    case _ =>
  }

  /** Any sequence of requests keeps the database consistent. */
  lemma {:induction false} RunKeepsConsistent(db: Db, trace: seq<(Request, Env)>)
    requires Consistent(db)
    ensures Consistent(Run(db, trace))
    decreases |trace|
  {
    if trace != [] {
      HandleKeepsConsistent(db, trace[0].0, trace[0].1);
      RunKeepsConsistent(Handle(db, trace[0].0, trace[0].1).after, trace[1..]);
    }
  }

  /** Starting from an empty database, no sequence of requests can make
      GET /blogposts fail: through this surface no post is ever left with an
      author that does not resolve. */
  lemma ListPostsSucceedsWhenReachable(trace: seq<(Request, Env)>)
    ensures ListPosts(Run(Empty, trace)).response.status == 200
  {
    RunKeepsConsistent(Empty, trace);
    ListPostsShowsUserNames(Run(Empty, trace));
  }

  // ---------------------------------------------------------------------
  // A worked session

  /** Create an author, give it a post, read the post, delete the author:
      the post is created naming "Ada Lovelace", the single read shows no
      author, and after the delete the post is gone with its author. */
  lemma AdaSession()
    ensures
      var s1 := CreateAuthor(Empty, map["firstName" := "Ada", "lastName" := "Lovelace", "userName" := "ada"], Env("a1", 0));
      var s2 := CreatePost(s1.after, map["title" := "T", "content" := "C", "author_id" := "a1"], Env("p1", 100));
      var s3 := ShowPost(s2.after, "p1");
      var s4 := RemoveAuthor(s2.after, "a1");
      && s1.response == Response(201, NewAuthor(AuthorSummary("a1", "Ada Lovelace", "ada")))
      && s2.response == Response(201, OnePost(PostView("p1", Some("Ada Lovelace"), "C", "T", None, [])))
      && s3.response == Response(200, OnePost(PostView("p1", None, "C", "T", Some(100), [])))
      && s4.response.status == 204
      && ShowPost(s4.after, "p1").response.status == 500
  {
    var b1: Body := map["firstName" := "Ada", "lastName" := "Lovelace", "userName" := "ada"];
    AuthorFieldsPresent(b1);
    var s1 := CreateAuthor(Empty, b1, Env("a1", 0));
    assert !HasUserName(Empty.authors, "ada");
    assert "Ada" + " " + "Lovelace" == "Ada Lovelace";
    assert s1.response == Response(201, NewAuthor(AuthorSummary("a1", "Ada Lovelace", "ada")));
    assert s1.after.authors.docs == map["a1" := Author("a1", "Ada", "Lovelace", "ada")];
    var b2: Body := map["title" := "T", "content" := "C", "author_id" := "a1"];
    PostFieldsPresent(b2);
    var s2 := CreatePost(s1.after, b2, Env("p1", 100));
    assert s2.response == Response(201, OnePost(PostView("p1", Some("Ada Lovelace"), "C", "T", None, [])));
    assert s2.after.posts.docs == map["p1" := BlogPost("p1", "T", "C", Some("a1"), [], 100)];
    assert ShowPost(s2.after, "p1").response == Response(200, OnePost(PostView("p1", None, "C", "T", Some(100), [])));
    assert "p1" in PostsBy(s2.after.posts, "a1");
    RemoveAuthorCascades(s2.after, "a1");
    assert "p1" !in RemoveAuthor(s2.after, "a1").after.posts.docs;
  }
}
