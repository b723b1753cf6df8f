/**
 * Products awaiting a response (src/models/product.rs): the record a
 * product is read from, the page-by-page fetch loop, and the accessors.
 *
 * Unlike the report fetcher, this one has no error result: a missing
 * token, a transport failure, an undecodable body, a body without a
 * `products` array and a record lacking a required string field all panic.
 */
module Products {
  import opened Wrappers
  import opened Json
  import opened Pagination

  datatype Product = Product(title: string, url: string, updatedOn: string, loginName: string, isAssigned: bool)
  {
    /** `title()`: the `practice.title` field of the product's record. */
    function Title(): (t: string)
      ensures Get(Get(ProductRecord(this, ""), "practice"), "title") == Str(t)
    { title }

    /** `updated_on()`: the `updated_at` field of the product's record. */
    function UpdatedOn(): (d: string)
      ensures Get(ProductRecord(this, ""), "updated_at") == Str(d)
    { updatedOn }

    /** `login_name()`: the `user.login_name` field of the product's record. */
    function LoginName(): (n: string)
      ensures Get(Get(ProductRecord(this, ""), "user"), "login_name") == Str(n)
    { loginName }

    /** `assigned()`: whether the product's record names a checker, whatever the name. */
    function Assigned(): (a: bool)
      ensures forall checker :: a <==> Get(ProductRecord(this, checker), "checker_name") != Null
    { isAssigned }
  }

  /**
   * The product a record stands for: `practice.title`, `url`, `updated_at`
   * and `user.login_name` as strings, and whether a checker is assigned.
   */
  function ToProduct(rec: Value): Option<Product>
  {
    var title := AsStr(Get(Get(rec, "practice"), "title"));
    var url := AsStr(Get(rec, "url"));
    var updatedOn := AsStr(Get(rec, "updated_at"));
    var loginName := AsStr(Get(Get(rec, "user"), "login_name"));
    if title.Some? && url.Some? && updatedOn.Some? && loginName.Some? then
      Some(Product(title.value, url.value, updatedOn.value, loginName.value, !Get(rec, "checker_name").Null?))
    else None
  }

  /**
   * A record gives a product exactly when `practice.title`, `url`,
   * `updated_at` and `user.login_name` are all strings; the product holds
   * those strings, and is assigned exactly when `checker_name` is not null
   * (a missing field reads as null).
   */
  lemma ToProductReads(rec: Value)
    ensures ToProduct(rec).Some? <==>
      Get(Get(rec, "practice"), "title").Str? && Get(rec, "url").Str? && Get(rec, "updated_at").Str?
      && Get(Get(rec, "user"), "login_name").Str?
    ensures ToProduct(rec).Some? ==>
      && Str(ToProduct(rec).value.title) == Get(Get(rec, "practice"), "title")
      && Str(ToProduct(rec).value.url) == Get(rec, "url")
      && Str(ToProduct(rec).value.updatedOn) == Get(rec, "updated_at")
      && Str(ToProduct(rec).value.loginName) == Get(Get(rec, "user"), "login_name")
      && (ToProduct(rec).value.isAssigned <==> Get(rec, "checker_name") != Null)
  {
  }

  /** The accessors of a product read from a record give back that record's fields. */
  lemma ProductAccessorsReadRecord(rec: Value, p: Product)
    requires ToProduct(rec) == Some(p)
    ensures Get(Get(rec, "practice"), "title") == Str(p.Title())
    ensures Get(rec, "updated_at") == Str(p.UpdatedOn())
    ensures Get(Get(rec, "user"), "login_name") == Str(p.LoginName())
    ensures p.Assigned() <==> Get(rec, "checker_name") != Null
  {
  }

  /**
   * The record the server would send for a product; `checker` is the
   * checker's name, used only when the product is assigned.
   */
  function ProductRecord(p: Product, checker: string): Value
  {
    Object(map[
      "practice" := Object(map["title" := Str(p.title)]),
      "url" := Str(p.url),
      "updated_at" := Str(p.updatedOn),
      "user" := Object(map["login_name" := Str(p.loginName)]),
      "checker_name" := if p.isAssigned then Str(checker) else Null])
  }

  /** A product survives being sent as a record and read back, `assigned` included. */
  lemma ProductRecordRoundTrip(p: Product, checker: string)
    ensures ToProduct(ProductRecord(p, checker)) == Some(p)
  {
  }

  /** A record without a `checker_name` field reads as an unassigned product. */
  lemma MissingCheckerIsUnassigned(fields: map<string, Value>)
    requires "checker_name" !in fields
    requires ToProduct(Object(fields)).Some?
    ensures !ToProduct(Object(fields)).value.Assigned()
  {
  }

  /** How the fetch loop reads the reply to one page request. */
  function ProductStep(reply: Reply): Step<Product>
  {
    match reply
    case TransportFailed => Aborted
    case Undecodable => Aborted
    case Body(json) =>
      var arr := Get(json, "products");
      if !arr.Array? then Aborted
      else if arr.elems == [] then EndOfPages
      else
        var products := DecodeAll(ToProduct, arr.elems);
        if products.Some? then Records(products.value) else Aborted
  }

  /**
   * Reading a reply never gives an error: a failed request or body aborts;
   * an empty `products` array ends the list; a non-empty page is every record
   * decoded, in order.
   */
  lemma ProductStepReads(reply: Reply)
    ensures !ProductStep(reply).Failed?
    ensures !reply.Body? ==> ProductStep(reply) == Aborted
    ensures ProductStep(reply).EndOfPages? <==> reply.Body? && Get(reply.json, "products") == Array([])
    ensures ProductStep(reply).Records? ==>
      && reply.Body? && Get(reply.json, "products").Array?
      && Get(reply.json, "products").elems != []
      && DecodeAll(ToProduct, Get(reply.json, "products").elems) == Some(ProductStep(reply).items)
    ensures
      && reply.Body? && Get(reply.json, "products").Array?
      && Get(reply.json, "products").elems != []
      && DecodeAll(ToProduct, Get(reply.json, "products").elems).Some?
      ==> ProductStep(reply) == Records(DecodeAll(ToProduct, Get(reply.json, "products").elems).value)
  {
  }

  /** The loop's reading of every reply of the page source, page by page. */
  function ProductSteps(pages: seq<Reply>): seq<Step<Product>>
  {
    seq(|pages|, k requires 0 <= k < |pages| => ProductStep(pages[k]))
  }

  /** What `Product::fetch` does for a token (absent when the variable is unset) and a page source. */
  function ProductFetch(token: Option<string>, pages: seq<Reply>): Outcome<seq<Product>>
    requires token.Some? ==> FirstStop(ProductSteps(pages)) < |pages|
  {
    if token.None? then Panicked else Fetch(ProductSteps(pages))
  }

  /**
   * Without a token the fetch ends before any request; with one, its outcome
   * is read off the first reply that stops the loop, holding the records of
   * every reply before it.
   */
  lemma ProductFetchOutcome(token: Option<string>, pages: seq<Reply>)
    requires token.Some? ==> FirstStop(ProductSteps(pages)) < |pages|
    ensures token.None? ==> ProductFetch(token, pages) == Panicked
    ensures token.Some? ==>
      var n := FirstStop(ProductSteps(pages));
      ProductFetch(token, pages) == StopOutcome(ProductStep(pages[n]), Gathered(ProductSteps(pages[..n])))
  {
    if token.Some? {
      var n := FirstStop(ProductSteps(pages));
      assert ProductSteps(pages)[..n] == ProductSteps(pages[..n]);
    }
  }

  /**
   * No reply after the one that stops the loop is read: replacing every
   * later reply leaves the fetch's result unchanged.
   */
  lemma ProductFetchIgnoresLaterReplies(token: Option<string>, pages: seq<Reply>, rest: seq<Reply>)
    requires FirstStop(ProductSteps(pages)) < |pages|
    ensures var n := FirstStop(ProductSteps(pages));
      && FirstStop(ProductSteps(pages[..n + 1] + rest)) < |pages[..n + 1] + rest|
      && ProductFetch(token, pages[..n + 1] + rest) == ProductFetch(token, pages)
  {
    var steps := ProductSteps(pages);
    var n := FirstStop(steps);
    var later := pages[..n + 1] + rest;
    forall i | 0 <= i < |later|
      ensures ProductSteps(later)[i] == (steps[..n + 1] + ProductSteps(rest))[i]
    {
      if i <= n {
        assert later[i] == pages[i];
      } else {
        assert later[i] == rest[i - n - 1];
      }
    }
    assert ProductSteps(later) == steps[..n + 1] + ProductSteps(rest);
    FetchIgnoresLaterPages(steps, ProductSteps(rest));
  }

  /**
   * One pass of the fetch loop's body over the reply to a request: the
   * body's `products` array is read and each record is pushed in turn.
   */
  method ReadProductPage(reply: Reply) returns (step: Step<Product>)
    ensures step == ProductStep(reply)
  {
    if !reply.Body? {
      return Aborted;
    }
    var arr := Get(reply.json, "products");
    if !arr.Array? {
      return Aborted;
    }
    if |arr.elems| == 0 {
      return EndOfPages;
    }
    var pushed: seq<Product> := [];
    for j := 0 to |arr.elems|
      invariant DecodeAll(ToProduct, arr.elems[..j]) == Some(pushed)
    {
      DecodeAllSnoc(ToProduct, arr.elems, j);
      var p := ToProduct(arr.elems[j]);
      if p.None? {
        DecodeAllSpec(ToProduct, arr.elems);
        return Aborted;
      }
      pushed := pushed + [p.value];
    }
    assert arr.elems[..|arr.elems|] == arr.elems;
    return Records(pushed);
  }

  /**
   * The fetch loop.  `requested` lists the page numbers whose request was
   * sent, in order; `pauses` counts the waits between requests.
   */
  method FetchProducts(token: Option<string>, pages: seq<Reply>)
    returns (r: Outcome<seq<Product>>, requested: seq<nat>, pauses: nat)
    requires token.Some? ==> FirstStop(ProductSteps(pages)) < |pages|
    ensures r == ProductFetch(token, pages)
    ensures token.None? ==> requested == [] && pauses == 0
    ensures token.Some? ==> requested == PageNumbers(FirstStop(ProductSteps(pages)) + 1)
    ensures token.Some? ==> pauses == FirstStop(ProductSteps(pages))
  {
    ghost var steps := ProductSteps(pages);
    var page: nat := 1;
    var products: seq<Product> := [];
    requested, pauses := [], 0;
    while true
      invariant 1 <= page <= FirstStop(steps) + 1
      invariant token.None? ==> page == 1
      invariant products == Gathered(steps[..page - 1])
      invariant requested == PageNumbers(page - 1) && pauses == page - 1
      decreases FirstStop(steps) + 1 - page
    {
      if token.None? {
        return Panicked, requested, pauses;
      }
      requested := requested + [page];
      var step := ReadProductPage(pages[page - 1]);
      if !step.Records? {
        FetchStopsAt(steps, page - 1);
        r := StopOutcome(step, products);
        return;
      }
      GatherOneMore(steps, page - 1, products);
      products := products + step.items;
      page := page + 1;
      pauses := pauses + 1;
    }
  }

  /** The fetch has no error result: it returns the whole list or panics. */
  lemma ProductFetchNeverErrs(token: Option<string>, pages: seq<Reply>)
    requires token.Some? ==> FirstStop(ProductSteps(pages)) < |pages|
    ensures !ProductFetch(token, pages).Err?
    ensures ProductFetch(token, pages).Ok? <==>
      token.Some? && pages[FirstStop(ProductSteps(pages))].Body?
      && Get(pages[FirstStop(ProductSteps(pages))].json, "products") == Array([])
  {
    if token.Some? {
      var n := FirstStop(ProductSteps(pages));
      var last := ProductStep(pages[n]);
      assert !last.Failed?;
      assert last.EndOfPages? <==>
        pages[n].Body? && Get(pages[n].json, "products") == Array([]);
    }
  }
}
