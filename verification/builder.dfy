/**
  The pure part of `CreateRequest` in postmanHelper.go: the URL, the body and
  every header value of a request template are resolved through
  `ReplaceVariables`; headers are set one after another, so a later header with
  the same key replaces an earlier one. The `*http.Request` is replaced by a
  plain record.
*/
module Builder {
  import opened Wrappers
  import opened Collection
  import opened Variables

  /** What `http.NewRequest` receives, plus the header set built afterwards. */
  datatype HttpRequest = HttpRequest(httpMethod: string, url: string, body: string, header: map<string, string>)

  /** The header at position `i` is the last one in `hs` with its key. */
  predicate LastWithKey(hs: seq<Header>, i: int)
  {
    0 <= i < |hs| && forall j :: i < j < |hs| ==> hs[j].key != hs[i].key
  }

  /** The keys declared by a header list. */
  function HeaderKeys(hs: seq<Header>): set<string>
  {
    set h | h in hs :: h.key
  }

  /** One iteration order of `vars` per header: each header value is resolved by its own call. */
  predicate IterationOrders(vars: Store, orders: seq<seq<string>>)
  {
    forall i :: 0 <= i < |orders| ==> IsIterationOrder(vars, orders[i])
  }

  /** How the header list and its orders look once the first header is set. */
  lemma HeadersAfterFirst(hs: seq<Header>, vars: Store, orders: seq<seq<string>>)
    requires 0 < |hs| && |orders| == |hs| && IterationOrders(vars, orders)
    ensures IterationOrders(vars, orders[1..])
    ensures forall i :: 1 <= i < |hs| ==> hs[1..][i - 1] == hs[i] && orders[1..][i - 1] == orders[i]
    ensures forall i :: 1 <= i < |hs| && LastWithKey(hs, i) ==> LastWithKey(hs[1..], i - 1)
    ensures LastWithKey(hs, 0) ==> hs[0].key !in HeaderKeys(hs[1..])
    ensures HeaderKeys(hs) == {hs[0].key} + HeaderKeys(hs[1..])
  {
    assert forall i :: 1 <= i < |hs| ==> hs[1..][i - 1] == hs[i] && orders[1..][i - 1] == orders[i];
    assert forall i :: 0 <= i < |hs| - 1 ==> orders[1..][i] == orders[i + 1];
  }

  /**
    `req.Header.Set(key, ReplaceVariables(value))` for each header in turn,
    starting from `acc`; header `i` is resolved with the map visited in `orders[i]`.
  */
  function SetHeaders(acc: map<string, string>, hs: seq<Header>, vars: Store, orders: seq<seq<string>>): (r: map<string, string>)
    requires |orders| == |hs| && IterationOrders(vars, orders)
    ensures r.Keys == acc.Keys + HeaderKeys(hs)
    ensures forall key :: key in acc && key !in HeaderKeys(hs) ==> r[key] == acc[key]
    ensures forall i :: LastWithKey(hs, i) ==> r[hs[i].key] == ReplaceVariables(hs[i].value, vars, orders[i])
    decreases |hs|
  {
    if |hs| == 0 then acc
    else
      var first := ReplaceVariables(hs[0].value, vars, orders[0]);
      var r := SetHeaders(acc[hs[0].key := first], hs[1..], vars, orders[1..]);
      HeadersAfterFirst(hs, vars, orders);
      r
  }

  /**
    The body is resolved only when it is present and non-empty; otherwise it is
    empty. A present body without placeholders of stored keys is kept as written.
  */
  function ResolveBody(body: Option<Body>, vars: Store, order: seq<string>): (r: string)
    requires IsIterationOrder(vars, order)
    ensures body.None? ==> r == ""
    ensures body.Some? && PlaceholderFree(body.value.raw, vars) ==> r == body.value.raw
    ensures body.Some? && body.value.raw != "" ==> r == ReplaceVariables(body.value.raw, vars, order)
  {
    if body.Some? && body.value.raw != "" then ReplaceVariables(body.value.raw, vars, order) else ""
  }

  /**
    `CreateRequest(item)` for a leaf carrying `request`. Every `ReplaceVariables`
    call ranges over the map afresh, so the URL, the body and each header value
    are resolved under their own iteration order.
  */
  function CreateRequest(request: Request, vars: Store, urlOrder: seq<string>, bodyOrder: seq<string>,
                         headerOrders: seq<seq<string>>): (r: HttpRequest)
    requires IsIterationOrder(vars, urlOrder) && IsIterationOrder(vars, bodyOrder)
    requires |headerOrders| == |request.header| && IterationOrders(vars, headerOrders)
    ensures r.httpMethod == request.httpMethod
    ensures r.url == ReplaceVariables(request.url.raw, vars, urlOrder)
    ensures request.body.None? ==> r.body == ""
    ensures request.body.Some? && request.body.value.raw == "" ==> r.body == ""
    ensures request.body.Some? && request.body.value.raw != "" ==>
      r.body == ReplaceVariables(request.body.value.raw, vars, bodyOrder)
    ensures r.header.Keys == HeaderKeys(request.header)
    ensures forall i :: LastWithKey(request.header, i) ==>
      r.header[request.header[i].key] == ReplaceVariables(request.header[i].value, vars, headerOrders[i])
  {
    HttpRequest(
      request.httpMethod,
      ReplaceVariables(request.url.raw, vars, urlOrder),
      ResolveBody(request.body, vars, bodyOrder),
      SetHeaders(map[], request.header, vars, headerOrders))
  }

  /** No `{{k}}` of a stored key occurs anywhere in the template's URL, body or header values. */
  predicate TemplateFree(request: Request, vars: Store)
  {
    && PlaceholderFree(request.url.raw, vars)
    && (request.body.Some? ==> PlaceholderFree(request.body.value.raw, vars))
    && (forall i :: 0 <= i < |request.header| ==> PlaceholderFree(request.header[i].value, vars))
  }

  /**
    A template without placeholders is sent as written, whatever the orders:
    the raw URL, the raw body (empty when absent), and for each header key the
    raw value of the last header with that key.
  */
  lemma {:induction false} CreateRequestWithoutPlaceholdersKeepsTemplate(
    request: Request, vars: Store, urlOrder: seq<string>, bodyOrder: seq<string>, headerOrders: seq<seq<string>>)
    requires IsIterationOrder(vars, urlOrder) && IsIterationOrder(vars, bodyOrder)
    requires |headerOrders| == |request.header| && IterationOrders(vars, headerOrders)
    requires TemplateFree(request, vars)
    ensures CreateRequest(request, vars, urlOrder, bodyOrder, headerOrders).url == request.url.raw
    ensures CreateRequest(request, vars, urlOrder, bodyOrder, headerOrders).body ==
      (if request.body.Some? then request.body.value.raw else "")
    ensures forall i :: LastWithKey(request.header, i) ==>
      CreateRequest(request, vars, urlOrder, bodyOrder, headerOrders).header[request.header[i].key] == request.header[i].value
  {
    var r := CreateRequest(request, vars, urlOrder, bodyOrder, headerOrders);
    forall i | LastWithKey(request.header, i)
      ensures r.header[request.header[i].key] == request.header[i].value
    {
      assert PlaceholderFree(request.header[i].value, vars);
    }
  }

  /** Of two headers with the same key, the value of the second, resolved by its own call, is the one sent. */
  lemma RepeatedHeaderLastWins(request: Request, key: string, first: string, second: string, vars: Store,
                               urlOrder: seq<string>, bodyOrder: seq<string>, headerOrders: seq<seq<string>>)
    requires IsIterationOrder(vars, urlOrder) && IsIterationOrder(vars, bodyOrder)
    requires |headerOrders| == 2 && IterationOrders(vars, headerOrders)
    requires request.header == [Header(key, first), Header(key, second)]
    ensures CreateRequest(request, vars, urlOrder, bodyOrder, headerOrders).header ==
      map[key := ReplaceVariables(second, vars, headerOrders[1])]
  {
    var hs := request.header;
    assert hs[0] in hs && hs[1] in hs;
    assert HeaderKeys(hs) == {key};
    assert LastWithKey(hs, 1);
  }

  /**
    The URL and the body of one request can be resolved under different map
    orders: with `a -> {{b}}` and `b -> x`, a URL and a body both written
    `{{a}}` can come out as `x` and `{{b}}`.
  */
  lemma UrlAndBodyMayUseDifferentOrders()
    ensures var vars := map["a" := "{{b}}", "b" := "x"];
      var request := Request("GET", URL("{{a}}"), [], Some(Body("{{a}}")));
      && IsIterationOrder(vars, ["a", "b"])
      && IsIterationOrder(vars, ["b", "a"])
      && CreateRequest(request, vars, ["a", "b"], ["b", "a"], []).url == "x"
      && CreateRequest(request, vars, ["a", "b"], ["b", "a"], []).body == "{{b}}"
  {
    IterationOrderIsObservable();
  }
}
