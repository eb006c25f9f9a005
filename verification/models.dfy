/** Record shapes of the blog application (the Mongoose schemas), the
    `authorName` virtual and the `serialize` method of a blog post. */
module Models {

  datatype Option<+T> = None | Some(value: T)

  /** A document id (a Mongo ObjectId), compared through its hex string. */
  type Id = string

  /** A `Date`, as milliseconds since the epoch. */
  type Timestamp = int

  /** An author document. `userName` carries a unique index: no two stored
      authors share it (see `Store.UniqueUserNames`). */
  datatype Author = Author(id: Id, firstName: string, lastName: string, userName: string)

  /** A comment sub-document; it lives only inside its blog post. */
  datatype Comment = Comment(content: string)

  /** A blog post document: at most one author, referenced by id; comments
      in insertion order; `created` filled by the schema default when the
      post is created. */
  datatype BlogPost = BlogPost(
    id: Id,
    title: string,
    content: string,
    author: Option<Id>,
    comments: seq<Comment>,
    created: Timestamp)

  // ---------------------------------------------------------------------
  // String.prototype.trim

  /** The characters `String.prototype.trim` strips: the ECMAScript
      WhiteSpace (including every Zs space separator) and LineTerminator
      code points. */
  predicate IsJsWhitespace(c: char) {
    var n := c as int;
    || n == 0x09 || n == 0x0A || n == 0x0B || n == 0x0C || n == 0x0D
    || n == 0x20 || n == 0xA0 || n == 0x1680
    || (0x2000 <= n <= 0x200A)
    || n == 0x2028 || n == 0x2029 || n == 0x202F || n == 0x205F
    || n == 0x3000 || n == 0xFEFF
  }

  predicate AllWhitespace(s: string) {
    forall i :: 0 <= i < |s| ==> IsJsWhitespace(s[i])
  }

  /** Neither the first nor the last character is whitespace. */
  predicate NoEdgeWhitespace(s: string) {
    s == [] || (!IsJsWhitespace(s[0]) && !IsJsWhitespace(s[|s| - 1]))
  }

  /** `r` is `s` with whitespace removed from both ends: a slice of `s`
      whose surroundings are all whitespace and whose own ends are not.
      This is the reference definition `Trim` is checked against. */
  ghost predicate IsTrimOf(r: string, s: string) {
    NoEdgeWhitespace(r) && exists i :: TrimAt(r, s, i)
  }

  /** `r` sits at index `i` of `s`, with only whitespace around it. */
  ghost predicate TrimAt(r: string, s: string, i: int) {
    && 0 <= i <= |s| - |r| && r == s[i..i + |r|]
    && AllWhitespace(s[..i]) && AllWhitespace(s[i + |r|..])
  }

  /** Drops leading whitespace: the result is a suffix of `s`, the part
      dropped is all whitespace, and the result does not start with any. */
  function TrimStart(s: string): (r: string)
    ensures |r| <= |s| && r == s[|s| - |r|..]
    ensures AllWhitespace(s[..|s| - |r|])
    ensures r == [] || !IsJsWhitespace(r[0])
  {
    if s != [] && IsJsWhitespace(s[0]) then
      var r := TrimStart(s[1..]);
      BlankPrefixGrows(s, r);
      r
    else s
  }

  /** Drops trailing whitespace: the result is a prefix of `s`, the part
      dropped is all whitespace, and the result does not end with any. */
  function TrimEnd(s: string): (r: string)
    ensures |r| <= |s| && r == s[..|r|]
    ensures AllWhitespace(s[|r|..])
    ensures r == [] || !IsJsWhitespace(r[|r| - 1])
  {
    if s != [] && IsJsWhitespace(s[|s| - 1]) then
      var r := TrimEnd(s[..|s| - 1]);
      BlankSuffixGrows(s, r);
      r
    else s
  }

  /** A blank first character extends the blank part dropped before `r`. */
  lemma BlankPrefixGrows(s: string, r: string)
    requires s != [] && IsJsWhitespace(s[0])
    requires |r| <= |s| - 1 && r == s[1..][|s| - 1 - |r|..] && AllWhitespace(s[1..][..|s| - 1 - |r|])
    ensures r == s[|s| - |r|..] && AllWhitespace(s[..|s| - |r|])
  {
    assert s[..|s| - |r|] == [s[0]] + s[1..][..|s| - 1 - |r|];
    BlankAppend([s[0]], s[1..][..|s| - 1 - |r|]);
  }

  /** A blank last character extends the blank part dropped after `r`. */
  lemma BlankSuffixGrows(s: string, r: string)
    requires s != [] && IsJsWhitespace(s[|s| - 1])
    requires |r| <= |s| - 1 && r == s[..|s| - 1][..|r|] && AllWhitespace(s[..|s| - 1][|r|..])
    ensures r == s[..|r|] && AllWhitespace(s[|r|..])
  {
    assert s[|r|..] == s[..|s| - 1][|r|..] + [s[|s| - 1]];
    BlankAppend(s[..|s| - 1][|r|..], [s[|s| - 1]]);
  }

  /** `s.trim()`. */
  function Trim(s: string): (r: string)
    ensures IsTrimOf(r, s)
  {
    TrimOfParts(s);
    TrimEnd(TrimStart(s))
  }

  /** Dropping leading, then trailing, whitespace yields the trim. */
  lemma TrimOfParts(s: string)
    ensures IsTrimOf(TrimEnd(TrimStart(s)), s)
  {
    var t := TrimStart(s);
    TrimOfTrimmedSuffix(s, t, TrimEnd(t));
  }

  lemma TrimOfTrimmedSuffix(s: string, t: string, r: string)
    requires |t| <= |s| && t == s[|s| - |t|..] && AllWhitespace(s[..|s| - |t|])
    requires t == [] || !IsJsWhitespace(t[0])
    requires |r| <= |t| && r == t[..|r|] && AllWhitespace(t[|r|..])
    requires r == [] || !IsJsWhitespace(r[|r| - 1])
    ensures IsTrimOf(r, s)
  {
    SlicesOfSuffixPrefix(s, t, r);
    assert NoEdgeWhitespace(r) by {
      if r != [] { assert r[0] == t[0]; }
    }
    TrimFromWitness(r, s, |s| - |t|);
  }

  /** Where a prefix `r` of a suffix `t` of `s` sits in `s`. */
  lemma SlicesOfSuffixPrefix(s: string, t: string, r: string)
    requires |t| <= |s| && t == s[|s| - |t|..] && |r| <= |t| && r == t[..|r|]
    ensures r == s[|s| - |t|..|s| - |t| + |r|] && s[|s| - |t| + |r|..] == t[|r|..]
  {
  }

  /** The `authorName` virtual of a blog post whose `author` has been
      populated with the document `a`. */
  function AuthorName(a: Author): (r: string)
    ensures IsTrimOf(r, a.firstName + " " + a.lastName)
  {
    Trim(a.firstName + " " + a.lastName)
  }

  // ---------------------------------------------------------------------
  // Wire shape of a blog post

  /** A blog post as the handlers hand it to `res.json`. A `None` member is
      `undefined` in JavaScript, which `JSON.stringify` leaves out. */
  datatype PostView = PostView(
    id: Id,
    author: Option<string>,
    content: string,
    title: string,
    created: Option<Timestamp>,
    comments: seq<Comment>)

  /** The keys `JSON.stringify` emits for `v`, in order. */
  function WireKeys(v: PostView): seq<string> {
    ["id"]
    + (if v.author.Some? then ["author"] else [])
    + ["content", "title"]
    + (if v.created.Some? then ["created"] else [])
    + ["comments"]
  }

  /** The `serialize` method. Its `author` member reads the post's own
      `firstName`, a path the blog post schema does not declare, so it is
      always `undefined`. */
  function Serialize(p: BlogPost): (v: PostView)
    ensures v.author == None
    ensures WireKeys(v) == ["id", "content", "title", "created", "comments"]
  {
    PostView(p.id, None, p.content, p.title, Some(p.created), p.comments)
  }

  // ---------------------------------------------------------------------
  // Facts about trimming, the `authorName` virtual and `serialize`

  /** At most one string is the trim of `s`, so `Trim` computes exactly the
      reference definition `IsTrimOf`. */
  lemma TrimUnique(s: string, r1: string, r2: string)
    requires IsTrimOf(r1, s) && IsTrimOf(r2, s)
    ensures r1 == r2
  {
    var i1 := TrimWitness(r1, s);
    var i2 := TrimWitness(r2, s);
    if r1 == [] && r2 != [] {
      BlankBesideEmptyTrim(s, r1, i1, r2, i2);
    } else if r1 != [] && r2 == [] {
      BlankBesideEmptyTrim(s, r2, i2, r1, i1);
    } else if r1 != [] {
      SameStart(s, r1, i1, r2, i2);
      SameStart(s, r2, i2, r1, i1);
      SameEnd(s, r1, i1, r2, i2);
      SameEnd(s, r2, i2, r1, i1);
    }
  }

  /** Where a trim of `s` starts. */
  lemma TrimWitness(r: string, s: string) returns (i: int)
    requires IsTrimOf(r, s)
    ensures 0 <= i <= |s| - |r| && r == s[i..i + |r|]
    ensures AllWhitespace(s[..i]) && AllWhitespace(s[i + |r|..])
  {
    i :| TrimAt(r, s, i);
  }

  /** A character inside an all-whitespace slice is whitespace. */
  lemma WhitespaceAt(s: string, lo: int, hi: int, j: int)
    requires 0 <= lo <= j < hi <= |s| && AllWhitespace(s[lo..hi])
    ensures IsJsWhitespace(s[j])
  {
    assert s[lo..hi][j - lo] == s[j];
  }

  /** An empty trim leaves no room for a non-empty one. */
  lemma BlankBesideEmptyTrim(s: string, e: string, i: int, r: string, k: int)
    requires e == [] && 0 <= i <= |s| && AllWhitespace(s[..i]) && AllWhitespace(s[i..])
    requires NoEdgeWhitespace(r) && 0 <= k <= |s| - |r| && r == s[k..k + |r|]
    ensures r == e
  {
    if r != [] {
      assert s[k] == r[0];
      if k < i { WhitespaceAt(s, 0, i, k); } else { WhitespaceAt(s, i, |s|, k); }
    }
  }

  /** Two non-empty trims cannot start at different places. */
  lemma SameStart(s: string, r1: string, i1: int, r2: string, i2: int)
    requires r1 != [] && NoEdgeWhitespace(r1) && 0 <= i1 <= |s| - |r1| && r1 == s[i1..i1 + |r1|]
    requires 0 <= i2 <= |s| && AllWhitespace(s[..i2])
    ensures i2 <= i1
  {
    if i1 < i2 {
      assert s[i1] == r1[0];
      WhitespaceAt(s, 0, i2, i1);
    }
  }

  /** Two non-empty trims cannot end at different places. */
  lemma SameEnd(s: string, r1: string, i1: int, r2: string, i2: int)
    requires r1 != [] && NoEdgeWhitespace(r1) && 0 <= i1 <= |s| - |r1| && r1 == s[i1..i1 + |r1|]
    requires 0 <= i2 <= |s| - |r2| && AllWhitespace(s[i2 + |r2|..])
    ensures i1 + |r1| <= i2 + |r2|
  {
  }

  /** Names with no surrounding whitespace are joined by one space. */
  lemma AuthorNameOfPlainNames(a: Author)
    requires a.firstName != [] && a.lastName != []
    requires NoEdgeWhitespace(a.firstName) && NoEdgeWhitespace(a.lastName)
    ensures AuthorName(a) == a.firstName + " " + a.lastName
  {
    var s := a.firstName + " " + a.lastName;
    assert s[0] == a.firstName[0] && s[|s| - 1] == a.lastName[|a.lastName| - 1];
    assert s == s[0..|s|] && s[..0] == [] && s[|s|..] == [];
    TrimUnique(s, Trim(s), s);
  }

  /** Without a last name, the joining space is trimmed away with the rest
      of the whitespace around the first name. */
  lemma AuthorNameWithoutLastName(a: Author)
    requires a.lastName == []
    ensures AuthorName(a) == Trim(a.firstName)
  {
    assert a.firstName + " " + a.lastName == a.firstName + " ";
    TrimIgnoresTrailingBlank(a.firstName, " ");
  }

  /** Whitespace appended to a string does not change its trim. */
  lemma TrimIgnoresTrailingBlank(f: string, w: string)
    requires AllWhitespace(w)
    ensures Trim(f + w) == Trim(f)
  {
    var r := Trim(f);
    TrimSurvivesTrailingBlank(f, w, r);
    TrimUnique(f + w, Trim(f + w), r);
  }

  lemma TrimSurvivesTrailingBlank(f: string, w: string, r: string)
    requires AllWhitespace(w) && IsTrimOf(r, f)
    ensures IsTrimOf(r, f + w)
  {
    var i := TrimWitness(r, f);
    var j := i + |r|;
    BlankAppend(f[j..], w);
    SlicesOfAppend(f, w, i, j);
    TrimFromWitness(r, f + w, i);
  }

  lemma SlicesOfAppend(f: string, w: string, i: int, j: int)
    requires 0 <= i <= j <= |f|
    ensures (f + w)[..i] == f[..i] && (f + w)[i..j] == f[i..j] && (f + w)[j..] == f[j..] + w
  {
  }

  /** A slice with blank surroundings and no whitespace at its ends is the trim. */
  lemma TrimFromWitness(r: string, s: string, i: int)
    requires NoEdgeWhitespace(r) && 0 <= i <= |s| - |r| && r == s[i..i + |r|]
    requires AllWhitespace(s[..i]) && AllWhitespace(s[i + |r|..])
    ensures IsTrimOf(r, s)
  {
    assert TrimAt(r, s, i);
  }

  lemma BlankAppend(u: string, w: string)
    requires AllWhitespace(u) && AllWhitespace(w)
    ensures AllWhitespace(u + w)
  {
    forall j | 0 <= j < |u + w| ensures IsJsWhitespace((u + w)[j]) {
      if j < |u| { assert (u + w)[j] == u[j]; } else { assert (u + w)[j] == w[j - |u|]; }
    }
  }

  /** `serialize` copies id, content, title, created and comments, never
      emits an `author` key, and so reads nothing from the referenced
      author. */
  lemma SerializeShape(p: BlogPost)
    ensures var v := Serialize(p);
      && v.id == p.id && v.content == p.content && v.title == p.title
      && v.created == Some(p.created) && v.comments == p.comments
      && WireKeys(v) == ["id", "content", "title", "created", "comments"]
  {
  }

  /** Two posts that differ only in their author reference serialize alike. */
  lemma SerializeIgnoresAuthor(p: BlogPost, q: BlogPost)
    requires p.(author := q.author) == q
    ensures Serialize(p) == Serialize(q)
  {
  }
}
