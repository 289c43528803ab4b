# 12 Labours portal gateway core, modelled in Dafny

The gateway sits between the 12 Labours web portal and two back ends: a Gen3 metadata service, queried over GraphQL, and an iRODS data store. This project models four of its parts and proves what each of them promises.

- **The GraphQL query synthesiser (`SimpleGraphQLClient`)**
  - It turns a request into a query through a table of seven nodes. The rendered text is rewritten from camelCase to snake_case, `null` arguments are removed and `_filter` node names are stripped.
  - For the pagination endpoint, the manifest list is restricted to scaffold views and a count field is added.
  - The answer is classified as data, "not found" or an error.
  - Modules `QueryText` and `Sgqlc`.
- **The facet generator (`FilterGenerator`)**
  - It has a table of filter dimensions, each with a title, a node, a field and facets (a label mapped to a raw value). Dynamic dimensions are filled in from sampled records.
  - Labels are the title case of raw values.
  - It also computes the extra facets a user with private access scopes can see.
  - Module `Facets`.
- **The authenticator (`Authenticator`)**
  - It keeps an identity table seeded with the public user and checks bearer tokens against it. Expired identities are removed.
  - It revokes a user's authority and issues access tokens from a YAML user list.
  - Module `Auth`.
- **The keyword search (`Search`)**
  - It narrows a filter to the hits of a previous search.
  - It ranks datasets by how many catalogue rows contain a keyword as a whole word.
  - Module `Search`.

The supporting modules are:
- `Http`: status codes, failures and results.
- `Text`: the Python string operations the code relies on, such as `in`, `re.sub` with a literal pattern, `split(sep)[0]`, `str.title()` and `<` on strings.
- `Dicts`: insertion-ordered dictionaries. Assignment replaces a value in place or appends the key, as in Python.
- `Schema`: the request object and the shape of answers.

A few conventions run through the model:
- **Errors.** A Python exception that escapes a handler is a `Crash` failure. An `HTTPException` is an `HttpError` with its status and detail.
- **Objects that change state.** Their state is held in Dafny classes: the request's `node` and `filter`, the filter table, and the identity table. The methods that change that state are proved against specification functions. Lemmas about those functions state the properties.
- **Outside the model.** The GraphQL printer, the transport, the metadata fetch, the clock, JWT encoding and decoding, and the YAML read are all parameters.

Where the code and its design notes disagree, the model follows the code:
- An expired identity is removed and then refused with 401.
- In the public pass of facet discovery, the first raw value seen for a label wins.
- Population of the filter table commits dimension by dimension. It can stop part-way and leave earlier dimensions filled.
- The query synthesiser restricts only the `manifests` selection.
- The query synthesiser adds no access-scope argument to the query.

## Model

| member | source | states |
|---|---|---|
| QueryText.SnakeCaseOfCamelName | app/sgqlc.py:29-31 | a camelCase node or argument name becomes its words joined by underscores, all in lower case |
| QueryText.InsertUnderscoresOnlyAddsUnderscores | app/sgqlc.py:31 | the first substitution only inserts underscores: erasing underscores gives the original text |
| QueryText.InsertUnderscoresLength | app/sgqlc.py:31 | the first substitution adds exactly one character per lower-to-upper boundary |
| QueryText.InsertUnderscoresLeavesNoBoundary | app/sgqlc.py:31 | no lower-to-upper boundary is left after the first substitution |
| QueryText.LowerAfterUnderscoreAt | app/sgqlc.py:31 | the second substitution lower-cases exactly the upper-case letters right after an underscore, and keeps every other character |
| QueryText.NullGuardIrrelevant | app/sgqlc.py:33-35 | a text without "null" is left unchanged by the elision, so the guard never changes the result |
| QueryText.ElideNullArguments | app/sgqlc.py:32-35 | in a printed argument list, elision deletes exactly the later arguments whose value is null and keeps the first argument |
| Sgqlc.SelectionTable | app/sgqlc.py:53-122 | exactly the seven nodes are accepted, and any other is refused with 404 and its message; each node gets first/offset, then quick_search where it takes one, then its filter keys in order |
| Sgqlc.SelectionReadsOnlyFilterKeys | app/sgqlc.py:53-119 | two filters that agree on the node's filter keys give the same selection |
| Sgqlc.OffsetBounds | app/sgqlc.py:59-60 | the offset is zero on page 1 and never negative; consecutive pages follow each other without overlap or gap |
| Sgqlc.NullArgumentsDisappear | app/sgqlc.py:30-35 | for every accepted node, the printed arguments after elision are exactly the non-null arguments in order, so an absent filter key leaves no trace |
| Sgqlc.ConvertGuardsIrrelevant | app/sgqlc.py:28-47 | the rewritten query equals the unguarded substitutions; the manifest restriction and the count field appear only for a search-result request |
| Sgqlc.ConvertQuickSearch | app/sgqlc.py:40-47 | for a quick search, convert_query's rewriting of a given rendered text does not read the filter and adds no count field: the result is the null-elided, renamed rendering in braces |
| Sgqlc.ConvertSearchResult | app/sgqlc.py:17-47 | with a search result the query ends with the count field for the renamed node, carrying the filter |
| Sgqlc.FilterNodeRenamed | app/sgqlc.py:36-39 | a `<base>_filter` node of the table is renamed to its base |
| Sgqlc.DatasetDescriptionFilterRenamed | app/sgqlc.py:36-39 | dataset_description_filter becomes dataset_description |
| Sgqlc.ManifestFilterRenamed | app/sgqlc.py:36-39 | manifest_filter becomes manifest |
| Sgqlc.CaseFilterRenamed | app/sgqlc.py:36-39 | case_filter becomes case |
| Sgqlc.PlainNodesKept | app/sgqlc.py:36-39 | the four plain nodes keep their names |
| Sgqlc.GenerateQuery | app/sgqlc.py:53-122 | the query text is the rewriting of the rendered selection; on success the request's node becomes the renamed node, and on refusal it is unchanged |
| Sgqlc.GetQueriedResult | app/sgqlc.py:124-139 | the result is the missing-node 400, the synthesiser's refusal, the transport's failure as 404, 404 for an empty node list, or the answer's data |
| Sgqlc.RefusedBeforeSending | app/sgqlc.py:124-129 | a request without a node, or with an unknown node, is refused without depending on the printer or the transport |
| Sgqlc.ClassifyOutcomes | app/sgqlc.py:130-139 | a sent query succeeds exactly when the transport answered with a non-empty list under the node, and the data is returned unchanged |
| Text.ContainsIff | app/sgqlc.py:33 | `p in s` holds exactly when p occurs at some position of s |
| Text.ReplaceAllAbsent | app/sgqlc.py:33-39 | a substitution whose pattern does not occur leaves the text unchanged |
| Text.TitleSameIffLowerSame | app/filter_generator.py:83 | two values get the same label exactly when they are equal ignoring case |
| Text.TitleIdempotent | app/filter_generator.py:83 | a label is already in title case |
| Dicts.PutGet | app/filter_generator.py:85 | after `d[k] = v` a lookup of k finds v and every other key keeps its value |
| Dicts.MergeDisjoint | app/filter_generator.py:131 | merging a dictionary with no key in common into another appends its entries in order, keeping every old value |
| Dicts.SortByKey | app/filter_generator.py:138-139 | `dict(sorted(items))` is in strictly ascending key order and a permutation of the entries |
| Facets.InitialFilters | app/filter_generator.py:6-71 | the initial table has distinct dimensions and distinct labels, and the dimensions without facets are exactly the dynamic ones |
| Facets.AddFacetSpec | app/filter_generator.py:82-85 | a label already in `exist` is never overwritten; otherwise the value is stored under its label and other labels keep their values |
| Facets.ValuesMembership | app/filter_generator.py:96-102 | a value is collected exactly when some record's field is a list holding it, or is that string and not "NA" |
| Facets.DiscoverPublic | app/filter_generator.py:87-103 | the public pass gives one facet per distinct label in the values, holding the first raw value with that label |
| Facets.DiscoverExtra | app/filter_generator.py:87-103 | the extra pass finds exactly the labels the public facets lack, each with the last raw value having it |
| Facets.FilterFacets | app/filter_generator.py:87-103 | the found facets have distinct labels, and in the extra pass none of them is a public label |
| Facets.UpdateFilterFacets | app/filter_generator.py:87-103 | the facets of a dimension are those found in its node's records, or the KeyError of a missing node |
| Facets.ScanRecords | app/filter_generator.py:95-103 | the record loop computes the discovery over the records' values in record order, or the KeyError of a record without the field |
| Facets.AddRecordValue | app/filter_generator.py:97-102 | a non-empty list adds each of its elements in turn, a string other than "NA" adds itself, and any other value adds nothing |
| Facets.UpdateTempNodeDict | app/filter_generator.py:105-111 | the node is fetched only when not yet cached; all cached nodes are kept |
| Facets.AccessScope | app/filter_generator.py:115-118 | the scope loop computes PrivateScope, so it keeps the user's scopes other than the public one, in their order and with their repetitions |
| Facets.ExtraDimension | app/filter_generator.py:123-139 | one dimension of the extra loop: a static dimension changes nothing, a failed fetch or a missing field ends the run with its error, and new labels add the dimension's entry |
| Facets.PrivateScopeInOrder | app/filter_generator.py:115-118 | the scope is the access list with entries deleted, so the user's scopes keep their order |
| Facets.PrivateScopeCounts | app/filter_generator.py:115-118 | every non-public scope keeps all its occurrences in the access list, and the public scope does not occur |
| Facets.PrivateScope | app/filter_generator.py:115-118 | the scope holds exactly the user's scopes other than the public one, and is empty for a public-only user |
| Facets.OnlyPublicScope | app/filter_generator.py:120-121 | a user with only the public scope gets the empty extra map |
| Facets.ExtraFiltersEntries | app/filter_generator.py:120-140 | each extra entry is a dynamic dimension with the public title, node and field; it keeps every public facet, adds at least one title-cased new label, and is sorted by label |
| Facets.FilterGenerator.GenerateExtraFilter | app/filter_generator.py:113-140 | the loop computes the extra map without writing the filter table |
| Facets.StepAt | app/filter_generator.py:146-156 | at an empty dimension the run either stops without returning True, or commits non-empty sorted facets with the node cached |
| Facets.PopulateCommitsInOrder | app/filter_generator.py:142-157 | population commits empty dimensions in order and leaves filled ones alone; True means all dimensions have facets; otherwise it stopped at an empty dimension and left it and all later ones as they were |
| Facets.PopulateIdempotent | app/filter_generator.py:142-157 | after a run returning True, a second run fetches nothing, changes nothing and returns True |
| Facets.PopulateFetchesOnce | app/filter_generator.py:144-148 | within a run each node is fetched at most once, and only for a dimension without facets |
| Facets.CommitKeepsWellFormed | app/filter_generator.py:155-156 | writing sorted facets into one dimension keeps the dimension names and every dimension's labels distinct |
| Facets.FilterGenerator.constructor | app/filter_generator.py:75-77 | a generator starts from the initial table |
| Facets.FilterGenerator.GenerateFilterDictionary | app/filter_generator.py:142-157 | the loop's new table, result and fetches are those of the population run, and the table stays well formed |
| Auth.Authenticator.constructor | middleware/auth.py:18-21 | the table holds only the public user, whose one policy is the public access value up to its first '-' |
| Auth.AuthenticateUndefined | middleware/auth.py:25-26 | the token "undefined" gets the public user and changes nothing |
| Auth.AuthenticateAccepts | middleware/auth.py:23-32 | a token is accepted exactly when it is "undefined" or carries a cached identity that has not expired (with the correction, the public identity never expires); an accepted token leaves the table unchanged and yields the cached user |
| Auth.AuthenticateRejects | middleware/auth.py:28-38 | every refusal is 401 "Invalid authentication credentials"; a refusal removes at most the presented identity, and only when it has expired |
| Auth.AuthenticateKeepsPublic | middleware/auth.py:30-31 | with the correction, authentication never removes the public user |
| Auth.PublicEvictedAsWritten | middleware/auth.py:30-32 | as written, a public-identity token after the public expiry removes the public entry, and anonymous requests then get 401 |
| Auth.AuthenticateDiffersOnlyOnPublic | middleware/auth.py:23-38 | the corrected authentication equals the written one except for an expired public identity |
| Auth.Authenticator.AuthenticateToken | middleware/auth.py:23-38 | the method's result and new table are those of the corrected authentication |
| Auth.AccessScopeIsPolicies | middleware/auth.py:40-45 | the scope is the authenticated user's policy list; a refused token gives the 401 |
| Auth.Authenticator.GetUserAccessScope | middleware/auth.py:40-45 | the method's result and new table are those of the scope function |
| Auth.RevokeRemovesOnlyCaller | middleware/auth.py:47-54 | revoking the public user is refused with its own 401 and changes nothing; any other authenticated user's entry alone is removed, and the result is True |
| Auth.Authenticator.RevokeUserAuthority | middleware/auth.py:47-54 | the method's result and new table are those of the revocation function |
| Auth.CreateAuthorityCases | middleware/auth.py:56-67 | the e-mail is the identity up to '>'; an unknown e-mail gets the public user, a cached identity its cached user, and a new identity a user with the e-mail's policies; an entry without policies raises KeyError |
| Auth.Authenticator.CreateUserAuthority | middleware/auth.py:56-67 | the method's result and new table are those of the creation function |
| Auth.AccessTokenEncodesUser | middleware/auth.py:69-85 | an unreadable user list gives 404 "User data not found in the provided path"; otherwise the token encodes the user that creation yields |
| Auth.Authenticator.GenerateAccessToken | middleware/auth.py:69-85 | the method's result and new table are those of the token function |
| Search.KeepSubsequence | app/search.py:17-22 | the narrowed list is a subsequence of the search hits |
| Search.KeepCounts | app/search.py:17-22 | a hit the filter allows keeps all its occurrences, and no other value occurs |
| Search.KeepMembers | app/search.py:17-22 | a value is in the narrowed list exactly when it is a hit and the filter allows it |
| Search.FilterRelationAnd | app/search.py:14-24 | the relation succeeds exactly when the search result has `submitter_id` and the filter is empty, the hits are empty or the filter has the key; only `submitter_id` is written; it becomes the hits, or their AND with the old list |
| Search.SearchFilterRelation | app/search.py:14-24 | the method writes the filter of the relation, or leaves it unchanged on error |
| Search.TokensIff | app/search.py:34-35 | a string is a token of the text exactly when it occurs there as a whole run of letters and digits |
| Search.KeywordMatch | app/search.py:34-36 | only a non-empty keyword of letters and digits that occurs in the text can match |
| Search.Query | app/search.py:30-32 | the query returns the catalogue rows of the search fields whose value contains the keyword |
| Search.DatasetOfCollection | app/search.py:37-38 | a collection under the endpoint yields its relative name |
| Search.TallyCounts | app/search.py:39-42 | each hit adds exactly one to its dataset's count, and only hit datasets are counted |
| Search.TallyKeys | app/search.py:39-42 | datasets are counted in the order of their first hit |
| Search.RankSpec | app/search.py:43 | ranking is a stable sort by decreasing count: it keeps the entries, counts never increase, and equal counts keep their order |
| Search.RankUnique | app/search.py:43 | ranking keeps the dataset names distinct |
| Search.CountRow | app/search.py:34-42 | a row whose value has the keyword among its tokens adds one hit to its dataset; any other row changes nothing |
| Search.CountHit | app/search.py:39-42 | a dataset's count is set to 1 on its first hit and goes up by one on each later hit |
| Search.BumpGet | app/search.py:39-42 | after one hit the hit dataset's count is one more than before, counting from 0 when it was absent, and every other count is unchanged |
| Search.CountRows | app/search.py:33-42 | the row loop adds the hits of one keyword to the counts |
| Search.DatasetListMembers | app/search.py:26-43 | every dataset with a hit is listed exactly once, and nothing else is |
| Search.DatasetListOrder | app/search.py:26-43 | a dataset with more hits comes first; datasets with equal hits keep the order of their first hits |
| Search.GenerateDatasetList | app/search.py:26-43 | the nested loops and the final sort compute the ranked dataset list |

## Left out

- The GraphQL printer (`sgqlc.Operation`) is the `render` parameter. The properties of the query text are proved for any printing of the selection; null elision is proved for printings that show plain values. A quick-search text that itself contains `word: null` is also rewritten by the elision; the model's `Convert` does this as the code does, but the elision lemmas do not cover that case.
- The transport to the metadata service is the `execute` parameter. The data fetch of the facet generator is the `fetch` parameter, the result of a query for a node and an access list.
  - The generator calls `get_queried_result` with one argument, while the client method takes two. The model abstracts from this mismatch.
- The mapped access-scope dimension's node `experiment_filter` is not among the synthesiser's seven nodes. The fetch parameter does not tie the two parts together, so a fetch that fails for this node is a case of the model, not a fact about it.
- Regular expressions are modelled on the patterns used: literal patterns such as `_filter`, `manifests` and `<endpoint>/`, and the two fixed case rewrites. An endpoint URL containing regular-expression metacharacters is treated literally.
- The snake-case rewrite also applies to quoted values in the query. The model applies it to the whole rendered text, as the code does, but proves nothing about values.
- The count-field argument is modelled as the net effect of the repr-based rewriting for keys and values without quotes, backslashes or line breaks.
- `get_filters` is a plain accessor and is not modelled.
- The module-level `FILTERS` table is shared by all generator instances. The model holds it in the generator's `filters` field, so sharing between instances is not captured.
- `GraphQLQueryItem` defaults (app/data_schema.py) and the `User` class (middleware/user.py) are not part of this model.
  - A user's expiry time is given when the user is created.
  - The public user's expiry is a constructor parameter.
- JWT encoding and decoding are parameters. Decoding gives the token's claims, or nothing when it raises.
- The clock is the `now` parameter, and times are integers.
- Reading the YAML user list from iRODS is a parameter: the `users` map, or nothing when the read fails. An entry is reduced to its `policies` list, if it has one.
- The iRODS catalogue is given as a sequence of rows, in the order the query returns them.
  - The `LIKE` filter is substring containment. A case-insensitive `LIKE` would only add rows that the case-sensitive token check then rejects.
- Search.SearchFilterRelation: with an empty filter, Python shares the search list object with the filter. The model copies the value, and aliasing is not modelled.
- The HTTP framework, dependency injection, headers, `async` and concurrent requests sharing the tables are not modelled.
- Auth.Authenticator.AuthenticateToken follows the corrected authentication in the Findings below. The as-written behaviour is Auth.AuthenticateAsWritten. Auth.Authenticator.GetUserAccessScope and Auth.Authenticator.RevokeUserAuthority authenticate first, so they follow the corrected authentication too.

## Findings

| source | as written | input that shows it | evidently intended | confidence | as-written member | corrected member |
|---|---|---|---|---|---|---|
| middleware/auth.py:30-31 | an expired identity is deleted whatever it is, the public user included | a token whose identity is `public` (issued at lines 66-67 and 83-84 for an e-mail missing from the user list), presented after the public user's expiry time; from then on the anonymous token "undefined" gets 401 | the default public authority stays in the table, as the refusal to revoke it at lines 49-51 shows | medium, not executed; the public user's expiry comes from middleware/user.py, which is not part of this model | Auth.PublicEvictedAsWritten | Auth.AuthenticateKeepsPublic |
