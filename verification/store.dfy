/** The two Mongoose collections, abstracted as maps from id to document
    together with the order in which `find()` lists them (insertion order). */
module Store {
  import opened Models

  datatype Collection<T> = Collection(order: seq<Id>, docs: map<Id, T>)

  predicate Distinct(s: seq<Id>) {
    forall i, j :: 0 <= i < j < |s| ==> s[i] != s[j]
  }

  /** The listing order enumerates exactly the stored ids, each once. */
  ghost predicate Valid<T>(c: Collection<T>) {
    && Distinct(c.order)
    && (forall i :: 0 <= i < |c.order| ==> c.order[i] in c.docs)
    && (forall k :: k in c.docs ==> k in c.order)
  }

  /** The ids of `order` that lie in `keep`, in their original order. */
  function Keep(order: seq<Id>, keep: set<Id>): (r: seq<Id>)
    ensures forall x :: x in r <==> x in order && x in keep
    ensures Distinct(order) ==> Distinct(r)
    ensures |r| <= |order|
  {
    if order == [] then []
    else
      var rest := Keep(order[1..], keep);
      assert Distinct(order) ==> order[0] !in order[1..];
      if order[0] in keep then [order[0]] + rest else rest
  }

  /** The documents `find()` returns, in listing order. */
  function Listing<T>(c: Collection<T>): (r: seq<T>)
    ensures (forall i :: 0 <= i < |c.order| ==> c.order[i] in c.docs) ==>
      |r| == |c.order| && forall i :: 0 <= i < |r| ==> r[i] == c.docs[c.order[i]]
  {
    ListIds(c.order, c.docs)
  }

  function ListIds<T>(ids: seq<Id>, docs: map<Id, T>): (r: seq<T>)
    ensures (forall i :: 0 <= i < |ids| ==> ids[i] in docs) ==>
      |r| == |ids| && forall i :: 0 <= i < |r| ==> r[i] == docs[ids[i]]
  {
    if ids == [] then []
    else (if ids[0] in docs then [docs[ids[0]]] else []) + ListIds(ids[1..], docs)
  }

  /** `create`: the document is stored under a new id, listed last. */
  function Insert<T>(c: Collection<T>, id: Id, d: T): (r: Collection<T>)
    requires id !in c.docs
    ensures Valid(c) ==> Valid(r)
    ensures r.docs.Keys == c.docs.Keys + {id} && r.docs[id] == d
    ensures forall k :: k in c.docs ==> r.docs[k] == c.docs[k]
  {
    Collection(c.order + [id], c.docs[id := d])
  }

  /** `findByIdAndUpdate` on a stored id: the document is replaced in place. */
  function Replace<T>(c: Collection<T>, id: Id, d: T): (r: Collection<T>)
    requires id in c.docs
    ensures Valid(c) ==> Valid(r)
    ensures r.docs.Keys == c.docs.Keys && r.docs[id] == d
    ensures forall k :: k in c.docs && k != id ==> r.docs[k] == c.docs[k]
  {
    Collection(c.order, c.docs[id := d])
  }

  /** Keeps only the documents whose ids lie in `keep`. */
  function Restrict<T>(c: Collection<T>, keep: set<Id>): (r: Collection<T>)
    ensures Valid(c) ==> Valid(r)
    ensures r.docs.Keys == c.docs.Keys * keep
    ensures forall k :: k in r.docs ==> r.docs[k] == c.docs[k]
  {
    var order := Keep(c.order, keep);
    assert forall i :: 0 <= i < |order| ==> order[i] in order;
    Collection(order, map k | k in c.docs && k in keep :: c.docs[k])
  }

  /** `findByIdAndRemove`: removing an absent id changes nothing. */
  function Remove<T>(c: Collection<T>, id: Id): Collection<T> {
    Restrict(c, c.docs.Keys - {id})
  }

  // ---------------------------------------------------------------------
  // The database

  datatype Db = Db(authors: Collection<Author>, posts: Collection<BlogPost>)

  const Empty: Db := Db(Collection([], map[]), Collection([], map[]))

  /** `Author.findOne({userName: name})` finds a document. */
  predicate HasUserName(c: Collection<Author>, name: string) {
    exists k :: k in c.docs && c.docs[k].userName == name
  }

  /** Some author other than `self` holds `name`: writing `name` into
      `self` would break the unique index. */
  predicate UserNameHeldByOther(c: Collection<Author>, name: string, self: Id) {
    exists k :: k in c.docs && k != self && c.docs[k].userName == name
  }

  /** The ids of the posts that reference `authorId`. */
  function PostsBy(c: Collection<BlogPost>, authorId: Id): set<Id> {
    set k | k in c.docs && c.docs[k].author == Some(authorId)
  }

  /** `BlogPost.remove({author: authorId})`. */
  function RemovePostsBy(c: Collection<BlogPost>, authorId: Id): Collection<BlogPost> {
    Restrict(c, c.docs.Keys - PostsBy(c, authorId))
  }

  /** `populate('author')` finds the referenced author. */
  predicate Resolves(db: Db, p: BlogPost) {
    p.author.Some? && p.author.value in db.authors.docs
  }

  // ---------------------------------------------------------------------
  // Invariants

  ghost predicate KeysMatch(db: Db) {
    && (forall k :: k in db.authors.docs ==> db.authors.docs[k].id == k)
    && (forall k :: k in db.posts.docs ==> db.posts.docs[k].id == k)
  }

  /** The unique index on `userName`. */
  ghost predicate UniqueUserNames(c: Collection<Author>) {
    forall j, k :: j in c.docs && k in c.docs && c.docs[j].userName == c.docs[k].userName ==> j == k
  }

  /** Every post references an author that exists. */
  ghost predicate ReferencesResolve(db: Db) {
    forall k :: k in db.posts.docs ==> Resolves(db, db.posts.docs[k])
  }

  ghost predicate Consistent(db: Db) {
    && Valid(db.authors)
    && Valid(db.posts)
    && KeysMatch(db)
    && UniqueUserNames(db.authors)
    && ReferencesResolve(db)
  }
}
