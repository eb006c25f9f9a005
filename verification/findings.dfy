/** The required-field check of POST /authors as the source writes it. It
    uses `forEach`, and a `return` inside the callback only ends that
    callback. The first missing field sends the 400 and iteration goes on.
    A second missing field calls `send` on a response that has already
    gone out, so `send` throws and the handler is abandoned. With exactly
    one field missing, control therefore reaches the `userName` lookup, and
    the insert when that finds nobody, after the 400 has been sent.
    `Server.CreateAuthor` models the evidently intended check, which stops
    at the first missing field. */
module AuthorCheckAsWritten {
  import opened Store
  import opened Server

  /** How the `forEach` over the required fields ends: it runs to its end,
      having sent the 400 or not, or a second `send` throws. */
  datatype CheckOutcome = Continue(sent: bool) | Thrown

  /** The `forEach` callback applied to each of `fields` in turn, `sent`
      recording whether `res.send` has already been called. A missing field
      sends the 400 when nothing has been sent yet and throws otherwise;
      a present field does nothing. */
  function ForEachCheck(body: Body, fields: seq<string>, sent: bool): (o: CheckOutcome)
    ensures o == Continue(false) ==> !sent && forall f :: f in fields ==> f in body
    ensures !sent && (exists f :: f in fields && f !in body) ==> o != Continue(false)
  {
    if fields == [] then Continue(sent)
    else if fields[0] in body then ForEachCheck(body, fields[1..], sent)
    else if sent then Thrown
    else ForEachCheck(body, fields[1..], true)
  }

  /** Whether the handler as written goes on to the `userName` lookup after
      the check: exactly when the `forEach` does not throw. */
  predicate ReachesStore(body: Body) {
    ForEachCheck(body, AuthorRequired, false).Continue?
  }

  /** The fields of `fields` missing from `body`, in order. */
  function MissingFields(body: Body, fields: seq<string>): (r: seq<string>)
    ensures forall f :: f in r <==> f in fields && f !in body
    ensures |r| <= |fields|
  {
    if fields == [] then []
    else (if fields[0] in body then [] else [fields[0]]) + MissingFields(body, fields[1..])
  }

  /** The `forEach` throws exactly when it meets more missing fields than
      it may still send for; otherwise it has sent once it met any. */
  lemma {:induction false} ForEachCheckCounts(body: Body, fields: seq<string>, sent: bool)
    ensures var n := |MissingFields(body, fields)| + (if sent then 1 else 0);
      ForEachCheck(body, fields, sent) == if n <= 1 then Continue(n == 1) else Thrown
  {
    if fields != [] {
      ForEachCheckCounts(body, fields[1..], sent || fields[0] !in body);
    }
  }

  /** The handler as written both sends the 400 and goes on to the store
      exactly when one of the three fields is missing; with none missing
      it goes on without a 400, with two or more it throws. */
  lemma SendsAndStoresIffOneMissing(body: Body)
    ensures ForEachCheck(body, AuthorRequired, false) == Continue(true) <==>
      |MissingFields(body, AuthorRequired)| == 1
    ensures ForEachCheck(body, AuthorRequired, false) == Continue(false) <==>
      FirstMissing(body, AuthorRequired) == |AuthorRequired|
    ensures ReachesStore(body) <==> |MissingFields(body, AuthorRequired)| <= 1
  {
    ForEachCheckCounts(body, AuthorRequired, false);
    var k := FirstMissing(body, AuthorRequired);
    if k < |AuthorRequired| {
      assert AuthorRequired[k] in MissingFields(body, AuthorRequired);
    }
    var missing := MissingFields(body, AuthorRequired);
    if missing != [] {
      assert missing[0] in missing;
    }
  }

  /** A body without `firstName` is answered 400, yet the handler as written
      still queries and writes the store; the intended handler stores
      nothing. */
  lemma IncompleteBodyReachesStore()
    ensures var body: Body := map["lastName" := "Lovelace", "userName" := "ada"];
      && FirstMissing(body, AuthorRequired) == 0
      && ForEachCheck(body, AuthorRequired, false) == Continue(true)
      && ReachesStore(body)
      && CreateAuthor(Empty, body, Env("a1", 0)).response.status == 400
      && CreateAuthor(Empty, body, Env("a1", 0)).after == Empty
  {
    var body: Body := map["lastName" := "Lovelace", "userName" := "ada"];
    assert AuthorRequired[0] !in body && AuthorRequired[1] in body && AuthorRequired[2] in body;
    assert AuthorRequired[1..][1..] == ["userName"];
    assert ForEachCheck(body, ["userName"], true) == Continue(true);
  }
}
