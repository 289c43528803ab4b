/** `SimpleGraphQLClient` (app/sgqlc.py): picks the field and arguments for a node,
    has sgqlc render them, rewrites the printed text into the remote service's dialect,
    sends it and classifies the answer. The sgqlc printer and the transport are
    parameters. */
module Sgqlc {
  import opened Http
  import opened Text
  import opened Dicts
  import opened Schema
  import opened QueryText

  /** The nodes a query can be generated for. */
  const NODES: seq<string> := ["experiment", "dataset_description", "dataset_description_filter",
                               "manifest", "manifest_filter", "case", "case_filter"]

  const NO_QUERY := "GraphQL query cannot be generated by sgqlc"
  const MISSING_FIELDS := "Missing one or more fields in the request body"
  const NO_DATA := "Data cannot be found in the node"

  /** The one restriction put on `manifests`: only the scaffold view files. */
  const MANIFEST_RESTRICTION := "manifests(additional_types: [\"application/x.vnd.abi.scaffold.view+json\"])"

  /** A keyword argument of the sgqlc field call. `NullArg` is Python's None. */
  datatype ArgValue = IntArg(n: int) | ListArg(items: seq<string>) | SearchArg(term: SearchTerm) | NullArg

  /** The field sgqlc is asked to select, by its schema attribute name, with its keyword
      arguments in the order they are passed. */
  datatype Selection = Selection(field: string, args: seq<(string, ArgValue)>)

  /** `item.filter[key] if key in item.filter else None` */
  function FromFilter(filter: Dict<string, seq<string>>, key: string): ArgValue
  {
    if HasKey(filter, key) then ListArg(Get(filter, key)) else NullArg
  }

  function Offset(limit: int, page: int): int
  {
    (page - 1) * limit
  }

  function Paging(limit: int, page: int): seq<(string, ArgValue)>
  {
    [("first", IntArg(limit)), ("offset", IntArg(Offset(limit, page)))]
  }

  /** The if/elif dispatch of `generate_query`. */
  function SelectionFor(node: string, filter: Dict<string, seq<string>>, search: SearchTerm,
                        limit: int, page: int): Result<Selection>
  {
    var paging := Paging(limit, page);
    if node == "experiment" then
      Ok(Selection("experiment", paging + [("submitter_id", FromFilter(filter, "submitter_id"))]))
    else if node == "dataset_description" then
      Ok(Selection("datasetDescription", paging + [("submitter_id", FromFilter(filter, "submitter_id"))]))
    else if node == "dataset_description_filter" then
      Ok(Selection("datasetDescriptionFilter", paging))
    else if node == "manifest" then
      Ok(Selection("manifest", paging + [("quick_search", SearchArg(search)),
                                         ("additional_types", FromFilter(filter, "additional_types"))]))
    else if node == "manifest_filter" then
      Ok(Selection("manifestFilter", paging + [("additional_types", FromFilter(filter, "additional_types"))]))
    else if node == "case" then
      Ok(Selection("case", paging + [("quick_search", SearchArg(search))]))
    else if node == "case_filter" then
      Ok(Selection("caseFilter", paging + [("species", FromFilter(filter, "species")),
                                           ("sex", FromFilter(filter, "sex")),
                                           ("age_category", FromFilter(filter, "age_category"))]))
    else
      Err(HttpError(NOT_FOUND, NO_QUERY))
  }

  // ---------------------------------------------------------------------------
  // The dispatch as a table: which filter keys each node reads, and which nodes take
  // the search term.

  function FilterKeys(node: string): seq<string>
  {
    if node == "experiment" || node == "dataset_description" then ["submitter_id"]
    else if node == "manifest" || node == "manifest_filter" then ["additional_types"]
    else if node == "case_filter" then ["species", "sex", "age_category"]
    else []
  }

  predicate TakesSearch(node: string)
  {
    node == "manifest" || node == "case"
  }

  function FilterArgs(node: string, filter: Dict<string, seq<string>>): seq<(string, ArgValue)>
  {
    var keys := FilterKeys(node);
    seq(|keys|, i requires 0 <= i < |keys| => (keys[i], FromFilter(filter, keys[i])))
  }

  /** The dispatch accepts exactly the seven nodes and rejects every other one with
      NotFound; each accepted node gets `first`/`offset`, then the search term if it
      takes one, then one argument per filter key of the table, each read from the
      filter only when the key is present. */
  lemma SelectionTable(node: string, filter: Dict<string, seq<string>>, search: SearchTerm,
                       limit: int, page: int)
    ensures SelectionFor(node, filter, search, limit, page).Ok? <==> node in NODES
    ensures node !in NODES ==> SelectionFor(node, filter, search, limit, page) == Err(HttpError(NOT_FOUND, NO_QUERY))
    ensures node in NODES ==>
      SelectionFor(node, filter, search, limit, page).value.args ==
      Paging(limit, page) + (if TakesSearch(node) then [("quick_search", SearchArg(search))] else [])
        + FilterArgs(node, filter)
  {
  }

  /** Only the table's keys of the filter matter: two filters that agree on them give
      the same selection. */
  lemma SelectionReadsOnlyFilterKeys(node: string, f: Dict<string, seq<string>>, g: Dict<string, seq<string>>,
                                     search: SearchTerm, limit: int, page: int)
    requires forall k :: k in FilterKeys(node) ==> FromFilter(f, k) == FromFilter(g, k)
    ensures SelectionFor(node, f, search, limit, page) == SelectionFor(node, g, search, limit, page)
  {
    SelectionTable(node, f, search, limit, page);
    SelectionTable(node, g, search, limit, page);
    if node in NODES {
      assert FilterArgs(node, f) == FilterArgs(node, g);
    }
  }

  /** `offset = (page-1)*limit`: zero on the first page and never negative, and each
      page starts where the previous one ends, so consecutive pages neither overlap nor
      leave a gap. */
  lemma OffsetBounds(limit: int, page: int)
    requires limit >= 0 && page >= 1
    ensures Offset(limit, page) >= 0
    ensures page == 1 ==> Offset(limit, page) == 0
    ensures Offset(limit, page + 1) == Offset(limit, page) + limit
  {
  }

  // ---------------------------------------------------------------------------
  // Printing: with every argument name already in snake case, the arguments whose
  // value is None disappear from the printed list once the null elision has run.

  /** The argument list as sgqlc prints it, given how it prints one value. */
  function Printed(args: seq<(string, ArgValue)>, show: ArgValue -> string): (r: seq<(string, string)>)
    ensures |r| == |args|
    ensures forall i :: 0 <= i < |args| ==> r[i] == (args[i].0, show(args[i].1))
  {
    if args == [] then [] else [(args[0].0, show(args[0].1))] + Printed(args[1..], show)
  }

  function NonNull(args: seq<(string, ArgValue)>): (r: seq<(string, ArgValue)>)
    ensures forall i :: 0 <= i < |r| ==> r[i].1 != NullArg
  {
    if args == [] then [] else (if args[0].1 == NullArg then [] else [args[0]]) + NonNull(args[1..])
  }

  /** How sgqlc prints values: None as `null`, anything else as a value that neither
      starts nor ends with a lowercase letter or `_` and has no colon. */
  ghost predicate PrintsPlainly(show: ArgValue -> string)
  {
    show(NullArg) == "null" && forall v :: v != NullArg ==> IsPlainValue(show(v))
  }

  lemma {:induction false} WithoutNullsPrinted(args: seq<(string, ArgValue)>, show: ArgValue -> string)
    requires PrintsPlainly(show)
    ensures WithoutNulls(Printed(args, show)) == Printed(NonNull(args), show)
    decreases |args|
  {
    if args != [] {
      WithoutNullsPrinted(args[1..], show);
      if args[0].1 != NullArg {
        assert !IsPlainValue("null");
        assert NonNull(args) == [args[0]] + NonNull(args[1..]);
      }
    }
  }

  predicate ArgNamesAreNames(args: seq<(string, ArgValue)>)
  {
    forall i :: 0 <= i < |args| ==> IsName(args[i].0)
  }

  lemma SelectionArgNames(node: string, filter: Dict<string, seq<string>>, search: SearchTerm,
                          limit: int, page: int)
    requires node in NODES
    ensures ArgNamesAreNames(SelectionFor(node, filter, search, limit, page).value.args)
  {
    assert IsName("first") && IsName("offset") && IsName("submitter_id") && IsName("quick_search");
    assert IsName("additional_types") && IsName("species") && IsName("sex") && IsName("age_category");
  }

  /** For every accepted node, deleting `name: null` from the printed argument list
      leaves exactly the arguments that are not None, in order: a filter key that is
      absent from the request leaves no trace in the query. */
  lemma NullArgumentsDisappear(node: string, filter: Dict<string, seq<string>>, search: SearchTerm,
                               limit: int, page: int, show: ArgValue -> string)
    requires node in NODES && PrintsPlainly(show)
    ensures var args := SelectionFor(node, filter, search, limit, page).value.args;
      ElideNulls(ArgList(Printed(args, show))) == ArgList(Printed(NonNull(args), show))
  {
    var args := SelectionFor(node, filter, search, limit, page).value.args;
    SelectionArgNames(node, filter, search, limit, page);
    assert args[0] == ("first", IntArg(limit));
    NullsElided(args, show);
  }

  /** Printed arguments with snake-case names, the first of them not None, lose exactly
      their None arguments to the elision. */
  lemma NullsElided(args: seq<(string, ArgValue)>, show: ArgValue -> string)
    requires args != [] && args[0].1 != NullArg && ArgNamesAreNames(args) && PrintsPlainly(show)
    ensures ElideNulls(ArgList(Printed(args, show))) == ArgList(Printed(NonNull(args), show))
  {
    var p := Printed(args, show);
    assert WellPrinted(p);
    ElideNullArguments(p);
    WithoutNullsPrinted(args[1..], show);
    var n := NonNull(args[1..]);
    assert NonNull(args) == [args[0]] + n;
    assert Printed(NonNull(args), show) == [p[0]] + Printed(n, show);
  }

  // ---------------------------------------------------------------------------
  // `convert_query`

  /** The node name `convert_query` leaves behind: `_filter` removed when the name
      contains "filter". */
  function NodeAfter(node: string): string
  {
    if Contains(node, "filter") then ReplaceAll(node, "_filter", "") else node
  }

  /** The printed text in snake case, with the `null` arguments deleted. */
  function Elided(rendered: string): string
  {
    var snake := SnakeCase(rendered);
    if Contains(snake, "null") then ElideNulls(snake) else snake
  }

  function Stripped(node: string, query: string): string
  {
    if Contains(node, "filter") then ReplaceAll(query, "_filter", "") else query
  }

  function Restricted(query: string): string
  {
    if Contains(query, "manifests") then ReplaceAll(query, "manifests", MANIFEST_RESTRICTION) else query
  }

  /** The rewritten query text, without the outer braces. */
  function RewrittenBody(node: string, filter: Dict<string, seq<string>>, search: SearchTerm,
                         rendered: string): string
  {
    var stripped := Stripped(node, Elided(rendered));
    if search.SearchResult? then Restricted(stripped) + CountField(NodeAfter(node), filter) else stripped
  }

  /** `convert_query`: the final text, and the new value of `item.node`. */
  function Convert(node: string, filter: Dict<string, seq<string>>, search: SearchTerm,
                   rendered: string): (string, string)
  {
    ("{" + RewrittenBody(node, filter, search, rendered) + "}", NodeAfter(node))
  }

  /** The `in` guards in front of the substitutions never change the text: each
      substitution is applied unconditionally with the same result. */
  lemma ConvertGuardsIrrelevant(node: string, filter: Dict<string, seq<string>>, search: SearchTerm,
                                rendered: string)
    ensures var elided := ElideNulls(SnakeCase(rendered));
      var stripped := if Contains(node, "filter") then ReplaceAll(elided, "_filter", "") else elided;
      RewrittenBody(node, filter, search, rendered) ==
        if search.SearchResult? then ReplaceAll(stripped, "manifests", MANIFEST_RESTRICTION) + CountField(NodeAfter(node), filter)
        else stripped
  {
    var snake := SnakeCase(rendered);
    if !Contains(snake, "null") { NullGuardIrrelevant(snake); }
    var stripped := Stripped(node, Elided(rendered));
    if !Contains(stripped, "manifests") { ReplaceAllAbsent(stripped, "manifests", MANIFEST_RESTRICTION); }
  }

  /** For a quick search (the query endpoint), the rewriting of a given rendered text
      does not read the filter, and no count field is added: the text is the elided,
      renamed rendering in braces. (The filter still shapes the rendered text itself,
      through the selection's arguments.) */
  lemma ConvertQuickSearch(node: string, filter: Dict<string, seq<string>>, other: Dict<string, seq<string>>,
                           text: string, rendered: string)
    ensures Convert(node, filter, QuickSearch(text), rendered) == Convert(node, other, QuickSearch(text), rendered)
    ensures Convert(node, filter, QuickSearch(text), rendered).0 == "{" + Stripped(node, Elided(rendered)) + "}"
  {
  }

  /** For a previous search result (the pagination endpoint), the count field for the
      renamed node, carrying the request's filter, closes the query. */
  lemma ConvertSearchResult(node: string, filter: Dict<string, seq<string>>, fields: Dict<string, seq<string>>,
                            rendered: string)
    ensures var text := Convert(node, filter, SearchResult(fields), rendered).0;
      var tail := CountField(NodeAfter(node), filter) + "}";
      |tail| <= |text| && text[|text| - |tail|..] == tail
  {
    var head := Restricted(Stripped(node, Elided(rendered)));
    var tail := CountField(NodeAfter(node), filter);
    assert RewrittenBody(node, filter, SearchResult(fields), rendered) == head + tail;
    assert "{" + (head + tail) + "}" == ("{" + head) + (tail + "}");
  }

  lemma NoFilterIn(u: string)
    requires 'l' !in u
    ensures !Contains(u, "filter")
  {
    if Contains(u, "filter") { ContainsHasChars(u, "filter", 2); }
  }

  /** `_filter` occurs in base + "_filter" only at the end when base has no `l` and none
      of its last three characters is `_`. */
  lemma DropFilterSuffix(base: string)
    requires |base| >= 3 && 'l' !in base
    requires base[|base| - 1] != '_' && base[|base| - 2] != '_' && base[|base| - 3] != '_'
    ensures Contains(base + "_filter", "filter")
    ensures ReplaceAll(base + "_filter", "_filter", "") == base
  {
    var s := base + "_filter";
    assert s[|base| + 1..|base| + 7] == "filter";
    OccursThenContains(s, "filter", |base| + 1);
    forall k | 0 <= k < |base| ensures !OccursAt(s, "_filter", k) {
      if k + 7 <= |s| {
        assert s[k..k + 7][0] == s[k] && s[k..k + 7][3] == s[k + 3];
        if k + 3 < |base| { assert s[k + 3] == base[k + 3]; } else { assert s[k] == base[k]; }
      }
    }
    ReplaceAllSuffix(base, "_filter", "");
    assert base + "" == base;
  }

  /** The three filter nodes become their plain nodes, which the count field and the
      answer lookup then use. */
  lemma DatasetDescriptionFilterRenamed()
    ensures NodeAfter("dataset_description_filter") == "dataset_description"
  {
    FilterNodeRenamed("dataset_description", "dataset_description_filter");
  }

  lemma ManifestFilterRenamed()
    ensures NodeAfter("manifest_filter") == "manifest"
  {
    FilterNodeRenamed("manifest", "manifest_filter");
  }

  lemma CaseFilterRenamed()
    ensures NodeAfter("case_filter") == "case"
  {
    FilterNodeRenamed("case", "case_filter");
  }

  /** A filter node `<base>_filter` is renamed to base when base has no `l` and does
      not end in an underscore within its last three characters. */
  lemma FilterNodeRenamed(base: string, node: string)
    requires node == base + "_filter"
    requires |base| >= 3 && 'l' !in base
    requires base[|base| - 1] != '_' && base[|base| - 2] != '_' && base[|base| - 3] != '_'
    ensures NodeAfter(node) == base
  {
    DropFilterSuffix(base);
  }

  /** The other nodes keep their names. */
  lemma PlainNodesKept()
    ensures NodeAfter("experiment") == "experiment"
    ensures NodeAfter("dataset_description") == "dataset_description"
    ensures NodeAfter("manifest") == "manifest"
    ensures NodeAfter("case") == "case"
  {
    PlainNodeKept("experiment");
    PlainNodeKept("dataset_description");
    PlainNodeKept("manifest");
    PlainNodeKept("case");
  }

  lemma PlainNodeKept(node: string)
    requires 'l' !in node
    ensures NodeAfter(node) == node
  {
    NoFilterIn(node);
  }

  // ---------------------------------------------------------------------------
  // `generate_query` and `get_queried_result`

  /** `generate_query` on the request's fields: the query text and the new node name. */
  function Generate(node: Option<string>, filter: Dict<string, seq<string>>, search: SearchTerm,
                    limit: int, page: int, render: Selection -> string): Result<(string, string)>
  {
    if node.None? then Err(HttpError(NOT_FOUND, NO_QUERY))
    else
      var selection :- SelectionFor(node.value, filter, search, limit, page);
      Ok(Convert(node.value, filter, search, render(selection)))
  }

  method GenerateQuery(item: QueryItem, render: Selection -> string) returns (r: Result<string>)
    modifies item`node
    ensures var g := Generate(old(item.node), item.filter, item.search, item.limit, item.page, render);
      (g.Ok? ==> r == Ok(g.value.0) && item.node == Some(g.value.1)) &&
      (g.Err? ==> r == Err(g.error) && item.node == old(item.node))
  {
    if item.node.None? {
      return Err(HttpError(NOT_FOUND, NO_QUERY));
    }
    var node := item.node.value;
    var selection := SelectionFor(node, item.filter, item.search, item.limit, item.page);
    if selection.Err? {
      return Err(selection.error);
    }
    var query := SnakeCase(render(selection.value));
    if Contains(query, "null") {
      query := ElideNulls(query);
    }
    if Contains(node, "filter") {
      query := ReplaceAll(query, "_filter", "");
      item.node := Some(ReplaceAll(node, "_filter", ""));
    }
    if item.search.SearchResult? {
      if Contains(query, "manifests") {
        query := ReplaceAll(query, "manifests", MANIFEST_RESTRICTION);
      }
      query := query + CountField(item.node.value, item.filter);
    }
    return Ok("{" + query + "}");
  }

  /** What the transport gives back: the `data` part of the answer, or the message of
      the exception it raised. */
  datatype Response = Answer(data: Data) | Raised(message: string)

  /** The checks after the query was sent, on the node name `convert_query` left. */
  function Classify(node: string, response: Response): Result<Data>
  {
    if response.Raised? then Err(HttpError(NOT_FOUND, response.message))
    else if node !in response.data then Err(Crash("KeyError: the answer has no entry for the node"))
    else if response.data[node] == [] then Err(HttpError(NOT_FOUND, NO_DATA))
    else Ok(response.data)
  }

  /** `get_queried_result` on the request's fields. */
  function QueriedResult(node: Option<string>, filter: Dict<string, seq<string>>, search: SearchTerm,
                         limit: int, page: int, render: Selection -> string,
                         execute: string -> Response): Result<Data>
  {
    if node.None? then Err(HttpError(BAD_REQUEST, MISSING_FIELDS))
    else
      var generated :- Generate(node, filter, search, limit, page, render);
      Classify(generated.1, execute(generated.0))
  }

  method GetQueriedResult(item: QueryItem, render: Selection -> string, execute: string -> Response)
    returns (r: Result<Data>)
    modifies item`node
    ensures r == QueriedResult(old(item.node), item.filter, item.search, item.limit, item.page, render, execute)
    ensures var g := Generate(old(item.node), item.filter, item.search, item.limit, item.page, render);
      item.node == if g.Ok? then Some(g.value.1) else old(item.node)
  {
    if item.node.None? {
      return Err(HttpError(BAD_REQUEST, MISSING_FIELDS));
    }
    var query := GenerateQuery(item, render);
    if query.Err? {
      return Err(query.error);
    }
    var response := execute(query.value);
    if response.Raised? {
      return Err(HttpError(NOT_FOUND, response.message));
    }
    var node := item.node.value;
    if node !in response.data {
      return Err(Crash("KeyError: the answer has no entry for the node"));
    }
    if response.data[node] != [] {
      return Ok(response.data);
    }
    return Err(HttpError(NOT_FOUND, NO_DATA));
  }

  /** A request without a node, or with a node outside the seven, is refused before any
      query is printed or sent: the result does not depend on the printer or the
      transport. */
  lemma RefusedBeforeSending(node: Option<string>, filter: Dict<string, seq<string>>, search: SearchTerm,
                             limit: int, page: int, render: Selection -> string, render': Selection -> string,
                             execute: string -> Response, execute': string -> Response)
    requires node.None? || node.value !in NODES
    ensures QueriedResult(node, filter, search, limit, page, render, execute) ==
            QueriedResult(node, filter, search, limit, page, render', execute')
    ensures node.None? ==>
      QueriedResult(node, filter, search, limit, page, render, execute) == Err(HttpError(BAD_REQUEST, MISSING_FIELDS))
    ensures node.Some? ==>
      QueriedResult(node, filter, search, limit, page, render, execute) == Err(HttpError(NOT_FOUND, NO_QUERY))
  {
    if node.Some? {
      SelectionTable(node.value, filter, search, limit, page);
    }
  }

  /** A query that was sent succeeds exactly when the transport answered and the answer
      holds a non-empty list under the renamed node; the answer is then returned as it
      came. A transport failure surfaces as NotFound carrying its message. */
  lemma ClassifyOutcomes(node: string, response: Response)
    ensures Classify(node, response).Ok? <==>
      response.Answer? && node in response.data && response.data[node] != []
    ensures Classify(node, response).Ok? ==> Classify(node, response).value == response.data
    ensures response.Raised? ==> Classify(node, response) == Err(HttpError(NOT_FOUND, response.message))
    ensures response.Answer? && node in response.data && response.data[node] == [] ==>
      Classify(node, response) == Err(HttpError(NOT_FOUND, NO_DATA))
  {
  }
}
