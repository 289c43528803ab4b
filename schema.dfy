/** The request object the handlers pass around (GraphQLQueryItem) and the shape of
    the metadata service's answers. The request is an object: the query synthesiser
    rewrites its `node` and the search step rewrites its `filter` in place. */
module Schema {
  import opened Http
  import opened Dicts

  /** `item.search`: a quick-search text, or the dictionary of a previous search
      result (`{"submitter_id": [...]}`) for the pagination endpoint. */
  datatype SearchTerm =
    | QuickSearch(text: string)
    | SearchResult(fields: Dict<string, seq<string>>)

  /** One field of a metadata record: a string, a list of strings, or anything else
      (null, a number). */
  datatype FieldValue = StrValue(s: string) | ListValue(items: seq<string>) | OtherValue

  type Record = map<string, FieldValue>

  /** The `data` part of an answer: node name to its list of records. */
  type Data = map<string, seq<Record>>

  class QueryItem {
    var node: Option<string>
    var filter: Dict<string, seq<string>>
    var search: SearchTerm
    var limit: int
    var page: int
    var access: Option<seq<string>>

    constructor (node: Option<string>, filter: Dict<string, seq<string>>, search: SearchTerm,
                 limit: int, page: int, access: Option<seq<string>>)
      ensures this.node == node && this.filter == filter && this.search == search
      ensures this.limit == limit && this.page == page && this.access == access
    {
      this.node := node;
      this.filter := filter;
      this.search := search;
      this.limit := limit;
      this.page := page;
      this.access := access;
    }
  }
}
