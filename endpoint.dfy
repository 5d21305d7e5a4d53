/**
 * The status endpoint (endpoint.go): lists the registered flags, filtered by the
 * request's query, either as an HTML page for browsers or as a JSON document.
 */
module Endpoint {
  import opened Wrappers
  import opened Text
  import opened Registry
  import opened Common

  /** One entry of the listing (`flagJson`). */
  datatype FlagJson = FlagJson(
    name: string,
    description: string,
    currentValue: string,
    defaultValue: string,
    isChanged: bool,
    isDynamic: bool)

  /** The parts of an HTTP request the endpoint reads: the first value of each query key, and the Accept header. */
  datatype Request = Request(query: map<string, string>, accept: string)

  /** How the listing is answered; both carry the listed entries, whose rendering is not modelled. */
  datatype Reply = HtmlPage(flags: seq<FlagJson>) | JsonDocument(flags: seq<FlagJson>)

  /** `url.Values.Get`: the empty string for a missing key. */
  function QueryGet(query: map<string, string>, key: string): (v: string)
    ensures key in query ==> v == query[key]
    ensures key !in query ==> v == ""
  {
    if key in query then query[key] else ""
  }

  /** The three filters of the query: `only_changed` set to anything, `type=dynamic`, `type=static`. */
  predicate Listed(f: Flag, query: map<string, string>): (r: bool)
    ensures "only_changed" !in query && "type" !in query ==> r
    ensures QueryGet(query, "type") !in {"dynamic", "static"} ==> (r <==> QueryGet(query, "only_changed") == "" || f.changed)
    ensures r && QueryGet(query, "type") == "dynamic" ==> IsFlagDynamic(f)
    ensures r && QueryGet(query, "type") == "static" ==> !IsFlagDynamic(f)
  {
    && (QueryGet(query, "only_changed") != "" ==> f.changed)
    && (QueryGet(query, "type") == "dynamic" ==> IsFlagDynamic(f))
    && (QueryGet(query, "type") == "static" ==> !IsFlagDynamic(f))
  }

  /** The visited flags that pass the query's filters, in visiting order. */
  function Selected(visited: seq<Flag>, query: map<string, string>): (r: seq<Flag>)
    ensures |r| <= |visited|
    decreases |visited|
  {
    if visited == [] then []
    else
      var f := visited[|visited| - 1];
      Selected(visited[..|visited| - 1], query) + (if Listed(f, query) then [f] else [])
  }

  /** A flag is listed exactly when it is visited and passes the filters. */
  lemma {:induction false} SelectedMembers(visited: seq<Flag>, query: map<string, string>, f: Flag)
    ensures f in Selected(visited, query) <==> f in visited && Listed(f, query)
    decreases |visited|
  {
    if visited != [] {
      var init := visited[..|visited| - 1];
      SelectedMembers(init, query, f);
      assert visited == init + [visited[|visited| - 1]];
    }
  }

  /** Filtering keeps the visiting order: it distributes over concatenation. */
  lemma {:induction false} SelectedAppend(a: seq<Flag>, b: seq<Flag>, query: map<string, string>)
    ensures Selected(a + b, query) == Selected(a, query) + Selected(b, query)
    decreases |b|
  {
    if b == [] {
      assert a + b == a;
    } else {
      var b' := b[..|b| - 1];
      assert (a + b)[..|a + b| - 1] == a + b' && (a + b)[|a + b| - 1] == b[|b| - 1];
      SelectedAppend(a, b', query);
    }
  }

  /** Filtering never repeats a flag: each occurs in the listing at most as often as it was visited. */
  lemma {:induction false} SelectedAtMostOnce(visited: seq<Flag>, query: map<string, string>)
    ensures multiset(Selected(visited, query)) <= multiset(visited)
    decreases |visited|
  {
    if visited != [] {
      var init := visited[..|visited| - 1];
      SelectedAtMostOnce(init, query);
      assert visited == init + [visited[|visited| - 1]];
    }
  }

  /** A query without filters lists every visited flag. */
  lemma {:induction false} SelectedUnfiltered(visited: seq<Flag>, query: map<string, string>)
    requires "only_changed" !in query && "type" !in query
    ensures Selected(visited, query) == visited
    decreases |visited|
  {
    if visited != [] {
      SelectedUnfiltered(visited[..|visited| - 1], query);
      assert visited[..|visited| - 1] + [visited[|visited| - 1]] == visited;
    }
  }

  /** `type=dynamic` and `type=static` split the listing between them: every flag is in exactly one. */
  lemma {:induction false} DynamicStaticPartition(visited: seq<Flag>, query: map<string, string>)
    ensures |Selected(visited, query["type" := "dynamic"])| + |Selected(visited, query["type" := "static"])|
         == |Selected(visited, query - {"type"})|
    decreases |visited|
  {
    if visited != [] {
      DynamicStaticPartition(visited[..|visited| - 1], query);
    }
  }

  /** `prettyPrintJson`: the indented document, or "PRETTY_ERROR" when `indent` (json.Indent) rejects the input. */
  function PrettyPrintJson(indent: string -> Option<string>, input: string): (out: string)
    ensures indent(input).Some? ==> out == indent(input).value
    ensures indent(input).None? ==> out == "PRETTY_ERROR"
  {
    match indent(input)
    case Some(pretty) => pretty
    case None => "PRETTY_ERROR"
  }

  /** `flagToJson`: values of a type whose name mentions "json" are pretty-printed. */
  function FlagToJson(f: Flag, indent: string -> Option<string>): (j: FlagJson)
    ensures j.name == f.name && j.description == f.usage
    ensures j.isChanged == f.changed && j.isDynamic == IsFlagDynamic(f)
    ensures !Contains(f.typeName, "json") ==> j.currentValue == f.value && j.defaultValue == f.defValue
    ensures Contains(f.typeName, "json") ==>
      j.currentValue == PrettyPrintJson(indent, f.value) && j.defaultValue == PrettyPrintJson(indent, f.defValue)
  {
    var plain := FlagJson(f.name, f.usage, f.value, f.defValue, f.changed, IsFlagDynamic(f));
    if Contains(f.typeName, "json") then
      plain.(currentValue := PrettyPrintJson(indent, f.value), defaultValue := PrettyPrintJson(indent, f.defValue))
    else plain
  }

  /** `requestIsBrowser`: the Accept header mentions "html" somewhere. */
  predicate RequestIsBrowser(req: Request): (r: bool)
    ensures r <==> exists i :: 0 <= i <= |req.accept| && HasPrefix(req.accept[i..], "html")
    ensures |req.accept| < 4 ==> !r
  {
    ContainsAt(req.accept, "html");
    Contains(req.accept, "html")
  }

  /** A browser gets HTML unless it asks for `format=json`; everyone else gets JSON. */
  function Answer(req: Request, listing: seq<FlagJson>): (reply: Reply)
    ensures reply.flags == listing
    ensures reply.HtmlPage? <==> RequestIsBrowser(req) && QueryGet(req.query, "format") != "json"
  {
    if RequestIsBrowser(req) && QueryGet(req.query, "format") != "json" then HtmlPage(listing)
    else JsonDocument(listing)
  }

  /** An Accept header holding "text/html" anywhere marks a browser. */
  lemma BrowserAccept(req: Request, i: nat)
    requires i + 9 <= |req.accept| && req.accept[i..i + 9] == "text/html"
    ensures RequestIsBrowser(req)
  {
    var s := req.accept;
    assert s[i + 5..][..4] == s[i..i + 9][5..];
    assert HasPrefix(s[i + 5..], "html");
    ContainsAt(s, "html");
  }

  lemma SelectedStep(visited: seq<Flag>, i: nat, query: map<string, string>)
    requires i < |visited|
    ensures Selected(visited[..i + 1], query)
         == Selected(visited[..i], query) + (if Listed(visited[i], query) then [visited[i]] else [])
  {
    assert visited[..i + 1][..i] == visited[..i] && visited[..i + 1][i] == visited[i];
  }

  /** The listing entries of the selected flags, in order. */
  function Rendered(selected: seq<Flag>, indent: string -> Option<string>): (entries: seq<FlagJson>)
    ensures |entries| == |selected|
    ensures forall i :: 0 <= i < |selected| ==> entries[i] == FlagToJson(selected[i], indent)
    decreases |selected|
  {
    if selected == [] then []
    else Rendered(selected[..|selected| - 1], indent) + [FlagToJson(selected[|selected| - 1], indent)]
  }

  lemma RenderedSnoc(selected: seq<Flag>, f: Flag, indent: string -> Option<string>)
    ensures Rendered(selected + [f], indent) == Rendered(selected, indent) + [FlagToJson(f, indent)]
  {
    assert (selected + [f])[..|selected|] == selected;
  }

  lemma ListingStep(visited: seq<Flag>, i: nat, query: map<string, string>, indent: string -> Option<string>)
    requires i < |visited|
    ensures Listed(visited[i], query) ==>
      Rendered(Selected(visited[..i + 1], query), indent)
      == Rendered(Selected(visited[..i], query), indent) + [FlagToJson(visited[i], indent)]
    ensures !Listed(visited[i], query) ==>
      Rendered(Selected(visited[..i + 1], query), indent) == Rendered(Selected(visited[..i], query), indent)
  {
    var before := Selected(visited[..i], query);
    SelectedStep(visited, i, query);
    if Listed(visited[i], query) {
      RenderedSnoc(before, visited[i], indent);
    } else {
      assert before + [] == before;
    }
  }

  /** The `VisitAll` callback of `ListFlags`, run over the visited flags: appends the entry of each selected one. */
  method CollectListed(visited: seq<Flag>, query: map<string, string>, indent: string -> Option<string>)
    returns (listing: seq<FlagJson>)
    ensures listing == Rendered(Selected(visited, query), indent)
  {
    listing := [];
    var i := 0;
    while i < |visited|
      invariant 0 <= i <= |visited|
      invariant listing == Rendered(Selected(visited[..i], query), indent)
    {
      var f := visited[i];
      ListingStep(visited, i, query, indent);
      if Listed(f, query) {
        listing := listing + [FlagToJson(f, indent)];
      }
      i := i + 1;
    }
    assert visited[..i] == visited;
  }

  /** `ListFlags`: lists the flags the query selects, in visiting order, in the format the request calls for. */
  method ListFlags(flagSet: FlagSet, req: Request, indent: string -> Option<string>) returns (reply: Reply)
    requires flagSet.Valid()
    ensures reply.flags == Rendered(Selected(flagSet.All(), req.query), indent)
    ensures reply.HtmlPage? <==> RequestIsBrowser(req) && QueryGet(req.query, "format") != "json"
  {
    var listing := CollectListed(flagSet.All(), req.query, indent);
    reply := Answer(req, listing);
  }
}
