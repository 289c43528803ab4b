/** Facet discovery (app/filter_generator.py): the table of filter dimensions, the
    extraction of raw values from sampled records, their title-cased labels, and the
    two ways the labels are collected: the public pass, which builds a dimension's
    facets from scratch, and the extra pass, which only looks for labels the public
    table lacks. */
module Facets {
  import opened Http
  import opened Text
  import opened Dicts
  import opened Schema

  /** A facet's raw value: one string for a discovered facet, or a list of strings for
      the hand-written MIME type groups. */
  datatype FacetValue = Raw(s: string) | RawList(items: seq<string>)

  /** One filter dimension: its display title, the node and field it samples, and its
      facets from label to raw value. */
  datatype FilterSpec = FilterSpec(title: string, node: string, field: string, facets: Dict<string, FacetValue>)

  type Filters = Dict<string, FilterSpec>

  /** The remote fetch of one node's records, under an access scope or the public one. */
  type Fetch = (string, Option<seq<string>>) -> Result<Data>

  const INITIAL_FILTERS: Filters := [
    ("MAPPED_AGE_CATEGORY", FilterSpec("Age Category", "case_filter", "age_category", [])),
    ("MAPPED_ANATOMICAL_STRUCTURE", FilterSpec("Anatomical Structure", "dataset_description_filter", "study_organ_system", [])),
    ("MAPPED_SEX", FilterSpec("Sex", "case_filter", "sex", [])),
    ("MAPPED_MIME_TYPE", FilterSpec("Mime Type", "manifest_filter", "additional_types", [
      ("Plot", RawList(["text/vnd.abi.plot+tab-separated-values", "text/vnd.abi.plot+Tab-separated-values",
                        "text/vnd.abi.plot+csv"])),
      ("Scaffold", RawList(["application/x.vnd.abi.scaffold.meta+json", "inode/vnd.abi.scaffold+file"]))])),
    ("MAPPED_SPECIES", FilterSpec("Species", "case_filter", "species", [
      ("Cat", Raw("Felis catus")), ("Human", Raw("Homo sapiens")), ("Mouse", Raw("Mus musculus")),
      ("Pig", Raw("Sus scrofa")), ("Rat", Raw("Rattus norvegicus"))])),
    ("MAPPED_ACCESS_SCOPE", FilterSpec("Access Scope", "experiment_filter", "project_id", []))
  ]

  /** The dimensions whose facets are discovered from the data. */
  const DYNAMIC_FILTERS: seq<string> := ["MAPPED_AGE_CATEGORY", "MAPPED_ANATOMICAL_STRUCTURE", "MAPPED_SEX",
                                         "MAPPED_ACCESS_SCOPE"]

  /** Every dimension of the table has distinct facet labels. */
  ghost predicate WellFormed(filters: Filters)
  {
    UniqueKeys(filters) && forall i :: 0 <= i < |filters| ==> UniqueKeys(filters[i].1.facets)
  }

  /** The initial table is well formed, and the dimensions that start without facets
      are exactly the dynamic ones. */
  lemma InitialFilters()
    ensures WellFormed(INITIAL_FILTERS)
    ensures forall i :: 0 <= i < |INITIAL_FILTERS| ==>
      (INITIAL_FILTERS[i].1.facets == [] <==> INITIAL_FILTERS[i].0 in DYNAMIC_FILTERS)
  {
    var species := INITIAL_FILTERS[4].1.facets;
    assert forall i, j :: 0 <= i < j < |species| ==> species[i].0 != species[j].0;
  }

  // ---------------------------------------------------------------------------
  // `add_facets` and the values a record contributes

  /** `add_facets(facets, exist, value)`: the value is stored under its title-cased
      label unless `exist` already has that label. */
  function AddFacet(facets: Dict<string, string>, exist: seq<string>, value: string): Dict<string, string>
  {
    var name := Title(value);
    if name in exist then facets else Put(facets, name, value)
  }

  /** A label already in `exist` never gets a new value; otherwise the value lands under
      its label, and every other label keeps its value. */
  lemma AddFacetSpec(facets: Dict<string, string>, exist: seq<string>, value: string, tag: string)
    requires HasKey(facets, tag) || tag == Title(value)
    ensures var r := AddFacet(facets, exist, value);
      (Title(value) in exist ==> r == facets) &&
      (Title(value) !in exist ==>
        HasKey(r, tag) && Get(r, tag) == if tag == Title(value) then value else Get(facets, tag))
  {
    if Title(value) !in exist {
      PutGet(facets, Title(value), value, tag);
    }
  }

  /** What one field value contributes: every element of a list, a string unless it is
      "NA", nothing otherwise. */
  function Contribution(value: FieldValue): seq<string>
  {
    match value
    case ListValue(items) => items
    case StrValue(s) => if s == "NA" then [] else [s]
    case OtherValue => []
  }

  predicate AllHaveField(records: seq<Record>, field: string)
  {
    forall i :: 0 <= i < |records| ==> field in records[i]
  }

  /** The raw values of a field over the records, in record order. */
  function Values(records: seq<Record>, field: string): seq<string>
    requires AllHaveField(records, field)
  {
    if records == [] then [] else Contribution(records[0][field]) + Values(records[1..], field)
  }

  /** A value is collected exactly when some record contributes it: a record whose
      field is a list holding it, or is that very string and not "NA". */
  lemma {:induction false} ValuesMembership(records: seq<Record>, field: string, v: string)
    requires AllHaveField(records, field)
    ensures v in Values(records, field) <==>
      exists i :: 0 <= i < |records| && v in Contribution(records[i][field])
    ensures v in Values(records, field) ==> v != "NA" || exists i :: 0 <= i < |records| && records[i][field].ListValue?
    decreases |records|
  {
    if records != [] {
      var rest := records[1..];
      ValuesMembership(rest, field, v);
      assert forall i :: 0 <= i < |rest| ==> rest[i] == records[i + 1];
      if exists i :: 0 <= i < |records| && v in Contribution(records[i][field]) {
        var i :| 0 <= i < |records| && v in Contribution(records[i][field]);
        if i > 0 { assert v in Contribution(rest[i - 1][field]); }
      }
    }
  }

  // ---------------------------------------------------------------------------
  // The two passes of `update_filter_facets`

  /** The facets found in values, scanned in order. In the public pass (`exist` is None)
      the labels already found are the ones that block a value; in the extra pass the
      given public labels do. */
  function Discover(values: seq<string>, exist: Option<seq<string>>): Dict<string, string>
  {
    AddAll([], values, exist)
  }

  /** `add_facets` applied to each value in turn, starting from `found`. */
  function AddAll(found: Dict<string, string>, values: seq<string>, exist: Option<seq<string>>): Dict<string, string>
    decreases |values|
  {
    if values == [] then found else AddAll(AddFacet(found, Blocking(found, exist), values[0]), values[1..], exist)
  }

  /** The labels that block a value: those found so far in the public pass, the public
      ones in the extra pass. */
  function Blocking(found: Dict<string, string>, exist: Option<seq<string>>): seq<string>
  {
    if exist.None? then KeysOf(found) else exist.value
  }

  lemma {:induction false} AddAllAppend(found: Dict<string, string>, a: seq<string>, b: seq<string>, exist: Option<seq<string>>)
    ensures AddAll(found, a + b, exist) == AddAll(AddAll(found, a, exist), b, exist)
    decreases |a|
  {
    if a == [] {
      assert a + b == b;
    } else {
      assert (a + b)[1..] == a[1..] + b;
      AddAllAppend(AddFacet(found, Blocking(found, exist), a[0]), a[1..], b, exist);
    }
  }

  lemma DiscoverSnoc(values: seq<string>, v: string, exist: Option<seq<string>>)
    ensures Discover(values + [v], exist) == AddFacet(Discover(values, exist), Blocking(Discover(values, exist), exist), v)
  {
    AddAllAppend([], values, [v], exist);
  }

  predicate HasLabel(values: seq<string>, tag: string)
  {
    exists i :: 0 <= i < |values| && Title(values[i]) == tag
  }

  predicate FirstWithLabel(values: seq<string>, i: int, tag: string)
  {
    0 <= i < |values| && Title(values[i]) == tag && forall j :: 0 <= j < i ==> Title(values[j]) != tag
  }

  predicate LastWithLabel(values: seq<string>, i: int, tag: string)
  {
    0 <= i < |values| && Title(values[i]) == tag && forall j :: i < j < |values| ==> Title(values[j]) != tag
  }

  lemma HasLabelSnoc(values: seq<string>, tag: string)
    requires values != []
    ensures HasLabel(values, tag) <==>
      HasLabel(values[..|values| - 1], tag) || Title(values[|values| - 1]) == tag
  {
    var n := |values| - 1;
    if HasLabel(values, tag) {
      var i :| 0 <= i < |values| && Title(values[i]) == tag;
      if i < n { assert values[..n][i] == values[i]; }
    }
    if HasLabel(values[..n], tag) {
      var i :| 0 <= i < n && Title(values[..n][i]) == tag;
      assert values[i] == values[..n][i];
    }
  }

  lemma FirstWithLabelExtends(values: seq<string>, v: string, i: int, tag: string)
    requires FirstWithLabel(values, i, tag)
    ensures FirstWithLabel(values + [v], i, tag)
  {
    assert forall j :: 0 <= j <= i ==> (values + [v])[j] == values[j];
  }

  lemma LastWithLabelExtends(values: seq<string>, v: string, i: int, tag: string)
    requires LastWithLabel(values, i, tag) && Title(v) != tag
    ensures LastWithLabel(values + [v], i, tag)
  {
    assert forall j :: 0 <= j < |values| ==> (values + [v])[j] == values[j];
  }

  lemma HasLabelAppend(values: seq<string>, v: string)
    ensures forall tag :: HasLabel(values + [v], tag) <==> HasLabel(values, tag) || Title(v) == tag
  {
    var vs := values + [v];
    assert vs[..|vs| - 1] == values;
    forall tag ensures HasLabel(vs, tag) <==> HasLabel(values, tag) || Title(v) == tag {
      HasLabelSnoc(vs, tag);
    }
  }

  /** What the public pass has established after scanning `values`. */
  ghost predicate PublicFacets(values: seq<string>, found: Dict<string, string>)
  {
    && UniqueKeys(found)
    && (forall tag :: HasKey(found, tag) <==> HasLabel(values, tag))
    && (forall tag :: HasKey(found, tag) ==> exists i :: FirstWithLabel(values, i, tag) && Get(found, tag) == values[i])
  }

  lemma PublicStep(values: seq<string>, found: Dict<string, string>, v: string)
    requires PublicFacets(values, found)
    ensures PublicFacets(values + [v], AddFacet(found, KeysOf(found), v))
  {
    var vs := values + [v];
    var r := AddFacet(found, KeysOf(found), v);
    HasLabelAppend(values, v);
    if HasKey(found, Title(v)) {
      forall tag | HasKey(r, tag)
        ensures exists i :: FirstWithLabel(vs, i, tag) && Get(r, tag) == vs[i]
      {
        var i :| FirstWithLabel(values, i, tag) && Get(found, tag) == values[i];
        FirstWithLabelExtends(values, v, i, tag);
      }
    } else {
      PutAbsent(found, Title(v), v);
      PutUnique(found, Title(v), v);
      PutKeys(found, Title(v), v);
      forall tag | HasKey(r, tag)
        ensures exists i :: FirstWithLabel(vs, i, tag) && Get(r, tag) == vs[i]
      {
        PutGet(found, Title(v), v, tag);
        if tag == Title(v) {
          assert FirstWithLabel(vs, |values|, tag);
        } else {
          var i :| FirstWithLabel(values, i, tag) && Get(found, tag) == values[i];
          FirstWithLabelExtends(values, v, i, tag);
        }
      }
    }
  }

  /** Public pass: one facet per distinct label, and the raw value kept for a label is
      the first one seen with it; later values with the same label are dropped. */
  lemma DiscoverPublic(values: seq<string>)
    ensures UniqueKeys(Discover(values, None))
    ensures forall tag :: HasKey(Discover(values, None), tag) <==> HasLabel(values, tag)
    ensures forall tag :: HasKey(Discover(values, None), tag) ==>
      exists i :: FirstWithLabel(values, i, tag) && Get(Discover(values, None), tag) == values[i]
  {
    DiscoverPublicFacets(values);
  }

  lemma {:induction false} DiscoverPublicFacets(values: seq<string>)
    ensures PublicFacets(values, Discover(values, None))
    decreases |values|
  {
    if values != [] {
      var n := |values| - 1;
      var pre := values[..n];
      DiscoverPublicFacets(pre);
      assert values == pre + [values[n]];
      DiscoverSnoc(pre, values[n], None);
      PublicStep(pre, Discover(pre, None), values[n]);
    }
  }

  /** What the extra pass has established after scanning `values`. */
  ghost predicate ExtraFacets(values: seq<string>, public: seq<string>, found: Dict<string, string>)
  {
    && UniqueKeys(found)
    && (forall tag :: HasKey(found, tag) <==> HasLabel(values, tag) && tag !in public)
    && (forall tag :: HasKey(found, tag) ==> exists i :: LastWithLabel(values, i, tag) && Get(found, tag) == values[i])
  }

  lemma ExtraStep(values: seq<string>, public: seq<string>, found: Dict<string, string>, v: string)
    requires ExtraFacets(values, public, found)
    ensures ExtraFacets(values + [v], public, AddFacet(found, public, v))
  {
    var vs := values + [v];
    var r := AddFacet(found, public, v);
    HasLabelAppend(values, v);
    if Title(v) in public {
      forall tag | HasKey(r, tag)
        ensures exists i :: LastWithLabel(vs, i, tag) && Get(r, tag) == vs[i]
      {
        var i :| LastWithLabel(values, i, tag) && Get(found, tag) == values[i];
        LastWithLabelExtends(values, v, i, tag);
      }
    } else {
      PutUnique(found, Title(v), v);
      PutKeys(found, Title(v), v);
      forall tag | HasKey(r, tag)
        ensures exists i :: LastWithLabel(vs, i, tag) && Get(r, tag) == vs[i]
      {
        PutGet(found, Title(v), v, tag);
        if tag == Title(v) {
          assert LastWithLabel(vs, |values|, tag);
        } else {
          var i :| LastWithLabel(values, i, tag) && Get(found, tag) == values[i];
          LastWithLabelExtends(values, v, i, tag);
        }
      }
    }
  }

  /** Extra pass: a label is found exactly when some value has it and the public table
      lacks it, so no public label's value can be replaced by the merge; the raw value
      kept is the last one seen with the label. */
  lemma DiscoverExtra(values: seq<string>, public: seq<string>)
    ensures UniqueKeys(Discover(values, Some(public)))
    ensures forall tag :: HasKey(Discover(values, Some(public)), tag) <==>
      HasLabel(values, tag) && tag !in public
    ensures forall tag :: HasKey(Discover(values, Some(public)), tag) ==>
      exists i :: LastWithLabel(values, i, tag) && Get(Discover(values, Some(public)), tag) == values[i]
  {
    DiscoverExtraFacets(values, public);
  }

  lemma {:induction false} DiscoverExtraFacets(values: seq<string>, public: seq<string>)
    ensures ExtraFacets(values, public, Discover(values, Some(public)))
    decreases |values|
  {
    if values != [] {
      var n := |values| - 1;
      var pre := values[..n];
      DiscoverExtraFacets(pre, public);
      assert values == pre + [values[n]];
      DiscoverSnoc(pre, values[n], Some(public));
      ExtraStep(pre, public, Discover(pre, Some(public)), values[n]);
    }
  }

  // ---------------------------------------------------------------------------
  // `update_filter_facets` over the fetched data

  /** The node whose records a dimension samples: its filter node without `_filter`. */
  function NodeName(node: string): string
  {
    ReplaceAll(node, "_filter", "")
  }

  /** `update_filter_facets(temp_data, element, is_extra)`: the facets found in the
      sampled records of the dimension, or the KeyError raised by a missing node or a
      record without the dimension's field. */
  function FilterFacets(temp: map<string, Data>, spec: FilterSpec, exist: Option<seq<string>>)
    : (r: Result<Dict<string, string>>)
    ensures r.Ok? ==> UniqueKeys(r.value)
    ensures r.Ok? && exist.Some? ==> forall k :: 0 <= k < |r.value| ==> r.value[k].0 !in exist.value
  {
    if spec.node !in temp || NodeName(spec.node) !in temp[spec.node] then Err(Crash("KeyError"))
    else RecordFacets(temp[spec.node][NodeName(spec.node)], spec.field, exist)
  }

  /** The facets found in the records, or the KeyError of a record without the field. */
  function RecordFacets(records: seq<Record>, field: string, exist: Option<seq<string>>)
    : (r: Result<Dict<string, string>>)
    ensures r.Ok? ==> UniqueKeys(r.value)
    ensures r.Ok? && exist.Some? ==> forall k :: 0 <= k < |r.value| ==> r.value[k].0 !in exist.value
  {
    if !AllHaveField(records, field) then Err(Crash("KeyError"))
    else
      var values := Values(records, field);
      if exist.None? then
        DiscoverPublic(values);
        Ok(Discover(values, exist))
      else
        DiscoverExtra(values, exist.value);
        var found := Discover(values, exist);
        assert forall k :: 0 <= k < |found| ==> HasKey(found, found[k].0) by {
          forall k | 0 <= k < |found| ensures HasKey(found, found[k].0) { assert KeysOf(found)[k] == found[k].0; }
        }
        Ok(found)
  }

  /** The inner loop of `update_filter_facets` over the elements of a list field. */
  method AddEach(found: Dict<string, string>, items: seq<string>, exist: Option<seq<string>>)
    returns (r: Dict<string, string>)
    ensures r == AddAll(found, items, exist)
  {
    r := found;
    var j := 0;
    while j < |items|
      invariant 0 <= j <= |items|
      invariant AddAll(r, items[j..], exist) == AddAll(found, items, exist)
    {
      assert items[j..][1..] == items[j + 1..];
      r := AddFacet(r, Blocking(r, exist), items[j]);
      j := j + 1;
    }
  }

  /** `update_filter_facets`: the node and its records are looked up, then the records
      are scanned. */
  method UpdateFilterFacets(temp: map<string, Data>, spec: FilterSpec, exist: Option<seq<string>>)
    returns (r: Result<Dict<string, string>>)
    ensures r == FilterFacets(temp, spec, exist)
  {
    if spec.node !in temp || NodeName(spec.node) !in temp[spec.node] {
      return Err(Crash("KeyError"));
    }
    r := ScanRecords(temp[spec.node][NodeName(spec.node)], spec.field, exist);
  }

  /** The loop of `update_filter_facets`, record by record and list element by list
      element, computes `RecordFacets`. */
  method ScanRecords(records: seq<Record>, field: string, exist: Option<seq<string>>)
    returns (r: Result<Dict<string, string>>)
    ensures r == RecordFacets(records, field, exist)
  {
    ghost var all := AllHaveField(records, field);
    var found: Dict<string, string> := [];
    var i := 0;
    while i < |records|
      invariant 0 <= i <= |records|
      invariant AllHaveField(records[..i], field)
      invariant all ==>
        AllHaveField(records[i..], field) &&
        AddAll(found, Values(records[i..], field), exist) == Discover(Values(records, field), exist)
    {
      if field !in records[i] {
        assert !all;
        return Err(Crash("KeyError"));
      }
      var value := records[i][field];
      if all {
        ValuesStep(records, i, field);
        AddAllAppend(found, Contribution(value), Values(records[i + 1..], field), exist);
      }
      found := AddRecordValue(found, value, exist);
      FieldPrefix(records, i, field);
      i := i + 1;
    }
    assert records[..i] == records && records[i..] == [];
    return Ok(found);
  }

  /** The body of the record loop: one record's value added to the facets. */
  method AddRecordValue(found: Dict<string, string>, value: FieldValue, exist: Option<seq<string>>)
    returns (r: Dict<string, string>)
    ensures r == AddAll(found, Contribution(value), exist)
  {
    r := found;
    if value.ListValue? && value.items != [] {
      r := AddEach(found, value.items, exist);
    } else if value.StrValue? && value.s != "NA" {
      assert [value.s][1..] == [];
      r := AddFacet(found, Blocking(found, exist), value.s);
    }
  }

  lemma ValuesStep(records: seq<Record>, i: int, field: string)
    requires AllHaveField(records, field) && 0 <= i < |records|
    ensures AllHaveField(records[i..], field) && AllHaveField(records[i + 1..], field)
    ensures Values(records[i..], field) == Contribution(records[i][field]) + Values(records[i + 1..], field)
  {
    var tail, rest := records[i..], records[i + 1..];
    forall k | 0 <= k < |tail| ensures field in tail[k] {
      assert tail[k] == records[i + k];
    }
    forall k | 0 <= k < |rest| ensures field in rest[k] {
      assert rest[k] == records[i + 1 + k];
    }
    assert tail[1..] == rest;
  }

  lemma FieldPrefix(records: seq<Record>, i: int, field: string)
    requires 0 <= i < |records| && AllHaveField(records[..i], field) && field in records[i]
    ensures AllHaveField(records[..i + 1], field)
  {
    assert records[..i + 1] == records[..i] + [records[i]];
  }

  /** `update_temp_node_dict`: the node is fetched only when this call has not fetched
      it yet. */
  function CacheNode(temp: map<string, Data>, node: string, access: Option<seq<string>>, fetch: Fetch)
    : Result<map<string, Data>>
  {
    if node in temp then Ok(temp)
    else
      var data :- fetch(node, access);
      Ok(temp[node := data])
  }

  /** The insertion of `update_temp_node_dict` into the per-call node table. */
  method UpdateTempNodeDict(temp: map<string, Data>, node: string, access: Option<seq<string>>, fetch: Fetch)
    returns (r: Result<map<string, Data>>)
    ensures r == CacheNode(temp, node, access, fetch)
    ensures r.Ok? ==> node in r.value && forall n :: n in temp ==> n in r.value && r.value[n] == temp[n]
  {
    if node !in temp {
      var data := fetch(node, access);
      if data.Err? {
        return Err(data.error);
      }
      return Ok(temp[node := data.value]);
    }
    return Ok(temp);
  }

  function AsRaw(d: Dict<string, string>): (r: Dict<string, FacetValue>)
    ensures |r| == |d|
    ensures forall i :: 0 <= i < |d| ==> r[i] == (d[i].0, Raw(d[i].1))
  {
    seq(|d|, i requires 0 <= i < |d| => (d[i].0, Raw(d[i].1)))
  }

  // ---------------------------------------------------------------------------
  // `generate_extra_filter`

  /** The scopes of a user without the public one, in their order. */
  function PrivateScope(access: seq<string>, publicAccess: string): (r: seq<string>)
    ensures forall x :: x in r <==> x in access && x != publicAccess
    ensures (forall x :: x in access ==> x == publicAccess) ==> r == []
  {
    if access == [] then []
    else
      var n := |access| - 1;
      var pre := PrivateScope(access[..n], publicAccess);
      assert access == access[..n] + [access[n]];
      assert access[n] in access;
      if access[n] == publicAccess then pre else pre + [access[n]]
  }

  /** The scope keeps the user's scopes in the order of the access list. */
  lemma {:induction false} PrivateScopeInOrder(access: seq<string>, publicAccess: string)
    ensures IsSubsequence(PrivateScope(access, publicAccess), access)
    decreases |access|
  {
    if access != [] {
      var n := |access| - 1;
      PrivateScopeInOrder(access[..n], publicAccess);
      SubsequenceSnoc(PrivateScope(access[..n], publicAccess), access[..n], access[n]);
      assert access == access[..n] + [access[n]];
    }
  }

  /** The scope holds every occurrence of each non-public scope of the access list,
      and no occurrence of the public one. */
  lemma {:induction false} PrivateScopeCounts(access: seq<string>, publicAccess: string)
    ensures forall x :: multiset(PrivateScope(access, publicAccess))[x] == (if x == publicAccess then 0 else multiset(access)[x])
    decreases |access|
  {
    if access != [] {
      var n := |access| - 1;
      PrivateScopeCounts(access[..n], publicAccess);
      assert access == access[..n] + [access[n]];
    }
  }

  /** The entry of a dimension in the extra map: the public facets merged with the new
      ones, in label order. */
  function ExtraEntry(spec: FilterSpec, found: Dict<string, string>): FilterSpec
    requires UniqueKeys(spec.facets)
  {
    MergeUnique(spec.facets, AsRaw(found));
    FilterSpec(spec.title, spec.node, spec.field, SortByKey(Merge(spec.facets, AsRaw(found))))
  }

  /** The loop of `generate_extra_filter` over the dimensions, from dimension i on. */
  function ExtraFrom(filters: Filters, i: nat, scope: seq<string>, temp: map<string, Data>,
                     extra: Dict<string, FilterSpec>, fetch: Fetch): Result<Dict<string, FilterSpec>>
    requires WellFormed(filters)
    decreases |filters| - i
  {
    if i >= |filters| then Ok(extra)
    else if filters[i].0 !in DYNAMIC_FILTERS then ExtraFrom(filters, i + 1, scope, temp, extra, fetch)
    else
      var spec := filters[i].1;
      var cached :- CacheNode(temp, spec.node, Some(scope), fetch);
      var found :- FilterFacets(cached, spec, Some(KeysOf(spec.facets)));
      if found == [] then ExtraFrom(filters, i + 1, scope, cached, extra, fetch)
      else ExtraFrom(filters, i + 1, scope, cached, Put(extra, filters[i].0, ExtraEntry(spec, found)), fetch)
  }

  /** `generate_extra_filter(access)` */
  function ExtraFilters(filters: Filters, access: seq<string>, publicAccess: string, fetch: Fetch)
    : Result<Dict<string, FilterSpec>>
    requires WellFormed(filters)
  {
    var scope := PrivateScope(access, publicAccess);
    if scope == [] then Ok([]) else ExtraFrom(filters, 0, scope, map[], [], fetch)
  }

  /** An extra entry keeps the public dimension's title, node and field, keeps every
      public facet unchanged, adds at least one label the public table lacks, labels
      each added raw value by its title case, and lists the facets in label order. */
  ghost predicate ExtendsPublic(public: FilterSpec, extra: FilterSpec)
  {
    && extra.title == public.title && extra.node == public.node && extra.field == public.field
    && SortedByKey(extra.facets)
    && (forall j :: 0 <= j < |public.facets| ==> public.facets[j] in extra.facets)
    && (exists j :: 0 <= j < |extra.facets| && !HasKey(public.facets, extra.facets[j].0))
    && (forall j :: 0 <= j < |extra.facets| && !HasKey(public.facets, extra.facets[j].0) ==>
          extra.facets[j].1.Raw? && Title(extra.facets[j].1.s) == extra.facets[j].0)
  }

  ghost predicate IsExtraEntry(filters: Filters, e: (string, FilterSpec))
  {
    e.0 in DYNAMIC_FILTERS && exists i :: 0 <= i < |filters| && filters[i].0 == e.0 && ExtendsPublic(filters[i].1, e.1)
  }

  /** The extra pass labels each found value by its title case, away from the public labels. */
  lemma ExtraFound(public: Dict<string, FacetValue>, values: seq<string>)
    ensures var found := Discover(values, Some(KeysOf(public)));
      UniqueKeys(found) &&
      forall k :: 0 <= k < |found| ==> !HasKey(public, found[k].0) && Title(found[k].1) == found[k].0
  {
    var found := Discover(values, Some(KeysOf(public)));
    DiscoverExtra(values, KeysOf(public));
    forall k | 0 <= k < |found| ensures !HasKey(public, found[k].0) && Title(found[k].1) == found[k].0 {
      assert KeysOf(found)[k] == found[k].0;
      GetAt(found, k);
    }
  }

  lemma MergeNew(public: Dict<string, FacetValue>, found: Dict<string, string>)
    requires UniqueKeys(found)
    requires forall k :: 0 <= k < |found| ==> !HasKey(public, found[k].0)
    ensures Merge(public, AsRaw(found)) == public + AsRaw(found)
  {
    var raw := AsRaw(found);
    assert Disjoint(public, raw) by {
      forall i, j | 0 <= i < |public| && 0 <= j < |raw| ensures public[i].0 != raw[j].0 {
        assert KeysOf(public)[i] == public[i].0;
      }
    }
    MergeDisjoint(public, raw);
  }

  lemma SortedExtends(spec: FilterSpec, found: Dict<string, string>, sorted: Dict<string, FacetValue>)
    requires found != []
    requires forall k :: 0 <= k < |found| ==> !HasKey(spec.facets, found[k].0) && Title(found[k].1) == found[k].0
    requires SortedByKey(sorted) && multiset(sorted) == multiset(spec.facets + AsRaw(found))
    ensures ExtendsPublic(spec, FilterSpec(spec.title, spec.node, spec.field, sorted))
  {
    SortedKeepsPublic(spec.facets, AsRaw(found), sorted);
    SortedHasNew(spec.facets, found, sorted);
    SortedLabelsNew(spec.facets, found, sorted);
  }

  lemma SortedKeepsPublic(public: Dict<string, FacetValue>, raw: Dict<string, FacetValue>, sorted: Dict<string, FacetValue>)
    requires multiset(sorted) == multiset(public + raw)
    ensures forall j :: 0 <= j < |public| ==> public[j] in sorted
  {
    forall j | 0 <= j < |public| ensures public[j] in sorted {
      assert (public + raw)[j] == public[j];
      assert public[j] in multiset(public + raw);
    }
  }

  lemma SortedHasNew(public: Dict<string, FacetValue>, found: Dict<string, string>, sorted: Dict<string, FacetValue>)
    requires found != [] && !HasKey(public, found[0].0)
    requires multiset(sorted) == multiset(public + AsRaw(found))
    ensures exists j :: 0 <= j < |sorted| && !HasKey(public, sorted[j].0)
  {
    var raw := AsRaw(found);
    assert raw[0] in multiset(public + raw) by { assert (public + raw)[|public|] == raw[0]; }
    var m :| 0 <= m < |sorted| && sorted[m] == raw[0];
    assert !HasKey(public, sorted[m].0);
  }

  lemma SortedLabelsNew(public: Dict<string, FacetValue>, found: Dict<string, string>, sorted: Dict<string, FacetValue>)
    requires forall k :: 0 <= k < |found| ==> Title(found[k].1) == found[k].0
    requires multiset(sorted) == multiset(public + AsRaw(found))
    ensures forall j :: 0 <= j < |sorted| && !HasKey(public, sorted[j].0) ==>
      sorted[j].1.Raw? && Title(sorted[j].1.s) == sorted[j].0
  {
    var raw := AsRaw(found);
    var merged := public + raw;
    forall j | 0 <= j < |sorted| && !HasKey(public, sorted[j].0)
      ensures sorted[j].1.Raw? && Title(sorted[j].1.s) == sorted[j].0
    {
      assert sorted[j] in multiset(merged);
      var k :| 0 <= k < |merged| && merged[k] == sorted[j];
      assert k >= |public|;
      assert merged[k] == raw[k - |public|];
    }
  }

  lemma ExtraEntryExtends(spec: FilterSpec, values: seq<string>)
    requires UniqueKeys(spec.facets)
    requires Discover(values, Some(KeysOf(spec.facets))) != []
    ensures ExtendsPublic(spec, ExtraEntry(spec, Discover(values, Some(KeysOf(spec.facets)))))
  {
    var found := Discover(values, Some(KeysOf(spec.facets)));
    ExtraFound(spec.facets, values);
    MergeNew(spec.facets, found);
    SortedExtends(spec, found, ExtraEntry(spec, found).facets);
  }

  lemma {:induction false} ExtraFromEntries(filters: Filters, i: nat, scope: seq<string>, temp: map<string, Data>,
                                            extra: Dict<string, FilterSpec>, fetch: Fetch)
    requires WellFormed(filters)
    requires forall e :: e in extra ==> IsExtraEntry(filters, e)
    ensures var r := ExtraFrom(filters, i, scope, temp, extra, fetch);
      r.Ok? ==> forall e :: e in r.value ==> IsExtraEntry(filters, e)
    decreases |filters| - i
  {
    if i < |filters| {
      if filters[i].0 !in DYNAMIC_FILTERS {
        ExtraFromEntries(filters, i + 1, scope, temp, extra, fetch);
      } else {
        var spec := filters[i].1;
        var cached := CacheNode(temp, spec.node, Some(scope), fetch);
        if cached.Ok? {
          var found := FilterFacets(cached.value, spec, Some(KeysOf(spec.facets)));
          if found.Ok? {
            if found.value == [] {
              ExtraFromEntries(filters, i + 1, scope, cached.value, extra, fetch);
            } else {
              var records := cached.value[spec.node][NodeName(spec.node)];
              ExtraEntryExtends(spec, Values(records, spec.field));
              var e := (filters[i].0, ExtraEntry(spec, found.value));
              assert IsExtraEntry(filters, e);
              PutEntries(extra, e.0, e.1);
              ExtraFromEntries(filters, i + 1, scope, cached.value, Put(extra, e.0, e.1), fetch);
            }
          }
        }
      }
    }
  }

  /** Every entry of the extra map is a dynamic dimension that extends its public
      counterpart with at least one new label. */
  lemma ExtraFiltersEntries(filters: Filters, access: seq<string>, publicAccess: string, fetch: Fetch)
    requires WellFormed(filters)
    ensures var r := ExtraFilters(filters, access, publicAccess, fetch);
      r.Ok? ==> forall e :: e in r.value ==> IsExtraEntry(filters, e)
  {
    ExtraFromEntries(filters, 0, PrivateScope(access, publicAccess), map[], [], fetch);
  }

  /** A user with no scope but the public one gets the empty extra map, with no fetch. */
  lemma OnlyPublicScope(filters: Filters, access: seq<string>, publicAccess: string, fetch: Fetch)
    requires WellFormed(filters)
    requires forall x :: x in access ==> x == publicAccess
    ensures ExtraFilters(filters, access, publicAccess, fetch) == Ok([])
  {
  }

  // ---------------------------------------------------------------------------
  // `generate_filter_dictionary`

  /** The table after a population run, its return value (or the error it raised), and
      the nodes it fetched, in order. */
  datatype Outcome = Outcome(filters: Filters, result: Result<bool>, fetched: seq<string>)

  /** Discovered facets as committed: in ascending label order. */
  function Committed(found: Dict<string, string>): Dict<string, FacetValue>
    requires UniqueKeys(found)
  {
    SortByKey(AsRaw(found))
  }

  /** What happens at a dimension without facets: the run stops with a result, or the
      dimension is committed and the run goes on with the node table grown. */
  datatype Step = Stop(result: Result<bool>) | Commit(cached: map<string, Data>, facets: Dict<string, FacetValue>)

  function StepAt(spec: FilterSpec, temp: map<string, Data>, fetch: Fetch): (r: Step)
    ensures r.Stop? ==> r.result != Ok(true)
    ensures r.Commit? ==> r.facets != [] && SortedByKey(r.facets) && spec.node in r.cached && temp.Keys <= r.cached.Keys
  {
    match CacheNode(temp, spec.node, None, fetch)
    case Err(e) => Stop(Err(e))
    case Ok(cached) =>
      match FilterFacets(cached, spec, None)
      case Err(e) => Stop(Err(e))
      case Ok(found) => if found == [] then Stop(Ok(false)) else Commit(cached, Committed(found))
  }

  /** An outcome preceded by the fetches made before it. */
  function Logged(log: seq<string>, o: Outcome): Outcome
  {
    o.(fetched := log + o.fetched)
  }

  /** The loop of `generate_filter_dictionary`, from dimension i on; `temp` holds the
      nodes already fetched. */
  function PopulateFrom(filters: Filters, i: nat, temp: map<string, Data>, fetch: Fetch): Outcome
    decreases |filters| - i
  {
    if i >= |filters| then Outcome(filters, Ok(true), [])
    else if filters[i].1.facets != [] then PopulateFrom(filters, i + 1, temp, fetch)
    else
      var log := if filters[i].1.node in temp then [] else [filters[i].1.node];
      match StepAt(filters[i].1, temp, fetch)
      case Stop(result) => Outcome(filters, result, log)
      case Commit(cached, facets) =>
        Logged(log, PopulateFrom(filters[i := (filters[i].0, filters[i].1.(facets := facets))], i + 1, cached, fetch))
  }

  function Populate(filters: Filters, fetch: Fetch): Outcome
  {
    PopulateFrom(filters, 0, map[], fetch)
  }

  /** A dimension is left as it was, or was empty and got sorted facets. */
  predicate FilledIn(before: FilterSpec, after: FilterSpec)
  {
    after == before ||
    (before.facets == [] && after.facets != [] && SortedByKey(after.facets) &&
     after.title == before.title && after.node == before.node && after.field == before.field)
  }

  /** The pass stopped at dimension `j`: an empty dimension from `j` on is left as it was,
      together with everything after it, and every empty dimension between `i` and `j` was filled. */
  ghost predicate StopsAt(before: Filters, i: nat, o: Outcome, j: int)
  {
    && |o.filters| == |before| && i <= j < |before| && before[j].1.facets == []
    && (forall k :: j <= k < |before| ==> o.filters[k] == before[k])
    && (forall k :: i <= k < j && before[k].1.facets == [] ==> o.filters[k].1.facets != [])
  }

  ghost predicate PopulatedFrom(before: Filters, i: nat, o: Outcome)
  {
    && |o.filters| == |before|
    && (forall k :: 0 <= k < i && k < |before| ==> o.filters[k] == before[k])
    && (forall k :: i <= k < |before| ==> o.filters[k].0 == before[k].0 && FilledIn(before[k].1, o.filters[k].1))
    && (o.result == Ok(true) ==> forall k :: i <= k < |before| ==> o.filters[k].1.facets != [])
    && (o.result != Ok(true) ==> exists j :: StopsAt(before, i, o, j))
  }

  lemma ShapeAfterSkip(before: Filters, i: nat, o: Outcome)
    requires i < |before| && before[i].1.facets != []
    requires PopulatedFrom(before, i + 1, o)
    ensures PopulatedFrom(before, i, o)
  {
    assert o.filters[i] == before[i];
    if o.result != Ok(true) {
      var j :| StopsAt(before, i + 1, o, j);
      assert StopsAt(before, i, o, j);
    }
  }

  lemma ShapeAfterCommit(before: Filters, i: nat, spec: FilterSpec, o: Outcome)
    requires i < |before| && before[i].1.facets == []
    requires spec.facets != [] && SortedByKey(spec.facets) && spec == before[i].1.(facets := spec.facets)
    requires PopulatedFrom(before[i := (before[i].0, spec)], i + 1, o)
    ensures PopulatedFrom(before, i, o)
  {
    var after := before[i := (before[i].0, spec)];
    assert FilledIn(before[i].1, spec);
    assert forall k :: 0 <= k < |before| && k != i ==> after[k] == before[k];
    if o.result != Ok(true) {
      var j :| StopsAt(after, i + 1, o, j);
      assert before[j] == after[j];
      assert StopsAt(before, i, o, j);
    }
  }

  /** The fetch log plays no part in the shape of an outcome. */
  lemma ShapeIgnoresLog(before: Filters, i: nat, o: Outcome, log: seq<string>)
    requires PopulatedFrom(before, i, o)
    ensures PopulatedFrom(before, i, Logged(log, o))
  {
    var p := Logged(log, o);
    assert p.filters == o.filters && p.result == o.result;
    if o.result != Ok(true) {
      var j :| StopsAt(before, i, o, j);
      assert StopsAt(before, i, p, j);
    }
  }

  lemma ShapeAfterStop(before: Filters, i: nat, o: Outcome)
    requires i < |before| && before[i].1.facets == []
    requires o.filters == before && o.result != Ok(true)
    ensures PopulatedFrom(before, i, o)
  {
    assert StopsAt(before, i, o, i);
  }

  lemma {:induction false} PopulateFromShape(filters: Filters, i: nat, temp: map<string, Data>, fetch: Fetch)
    requires i <= |filters|
    ensures PopulatedFrom(filters, i, PopulateFrom(filters, i, temp, fetch))
    decreases |filters| - i
  {
    if i < |filters| {
      var spec := filters[i].1;
      if spec.facets != [] {
        PopulateFromShape(filters, i + 1, temp, fetch);
        PopulateSkips(filters, i, temp, fetch);
        ShapeAfterSkip(filters, i, PopulateFrom(filters, i, temp, fetch));
      } else if StepAt(spec, temp, fetch).Commit? {
        var step := StepAt(spec, temp, fetch);
        var after := filters[i := (filters[i].0, spec.(facets := step.facets))];
        var log := if spec.node in temp then [] else [spec.node];
        var rest := PopulateFrom(after, i + 1, step.cached, fetch);
        PopulateCommits(filters, i, temp, fetch);
        PopulateFromShape(after, i + 1, step.cached, fetch);
        ShapeIgnoresLog(after, i + 1, rest, log);
        ShapeAfterCommit(filters, i, spec.(facets := step.facets), Logged(log, rest));
      } else {
        PopulateStops(filters, i, temp, fetch);
        ShapeAfterStop(filters, i, PopulateFrom(filters, i, temp, fetch));
      }
    }
  }

  /** Population goes through the dimensions in order and commits each empty one as a
      sorted map; it leaves the others as they were. When it returns True every
      dimension has facets; when it returns False or raises, it stopped at an empty
      dimension that it leaves empty together with every later dimension, while the
      empty dimensions before it stay committed. */
  lemma PopulateCommitsInOrder(filters: Filters, fetch: Fetch)
    ensures PopulatedFrom(filters, 0, Populate(filters, fetch))
  {
    PopulateFromShape(filters, 0, map[], fetch);
  }

  lemma {:induction false} PopulateFromFilled(filters: Filters, i: nat, temp: map<string, Data>, fetch: Fetch)
    requires forall k :: i <= k < |filters| ==> filters[k].1.facets != []
    ensures PopulateFrom(filters, i, temp, fetch) == Outcome(filters, Ok(true), [])
    decreases |filters| - i
  {
    if i < |filters| {
      PopulateFromFilled(filters, i + 1, temp, fetch);
    }
  }

  /** After a run that returns True, a second run finds no empty dimension: it fetches
      nothing, changes nothing and returns True, whatever the data. */
  lemma PopulateIdempotent(filters: Filters, fetch: Fetch, again: Fetch)
    requires Populate(filters, fetch).result == Ok(true)
    ensures var after := Populate(filters, fetch).filters;
      Populate(after, again) == Outcome(after, Ok(true), [])
  {
    PopulateCommitsInOrder(filters, fetch);
    PopulateFromFilled(Populate(filters, fetch).filters, 0, map[], again);
  }

  ghost predicate FetchedOnce(filters: Filters, temp: map<string, Data>, fetched: seq<string>)
  {
    && (forall a, b :: 0 <= a < b < |fetched| ==> fetched[a] != fetched[b])
    && (forall a :: 0 <= a < |fetched| ==> fetched[a] !in temp)
    && (forall a :: 0 <= a < |fetched| ==>
          exists k :: 0 <= k < |filters| && filters[k].1.facets == [] && filters[k].1.node == fetched[a])
  }

  lemma {:induction false} PopulateFromFetchesOnce(filters: Filters, i: nat, temp: map<string, Data>, fetch: Fetch)
    ensures FetchedOnce(filters, temp, PopulateFrom(filters, i, temp, fetch).fetched)
    decreases |filters| - i
  {
    if i < |filters| {
      var spec := filters[i].1;
      if spec.facets != [] {
        PopulateFromFetchesOnce(filters, i + 1, temp, fetch);
      } else {
        var step := StepAt(spec, temp, fetch);
        if step.Commit? {
          var after := filters[i := (filters[i].0, spec.(facets := step.facets))];
          PopulateFromFetchesOnce(after, i + 1, step.cached, fetch);
          var rest := PopulateFrom(after, i + 1, step.cached, fetch).fetched;
          var log := if spec.node in temp then [] else [spec.node];
          FetchedOnceAfterCommit(filters, i, temp, after, step.cached, log, rest);
        }
      }
    }
  }

  lemma FetchedOnceAfterCommit(filters: Filters, i: nat, temp: map<string, Data>, after: Filters,
                               cached: map<string, Data>, log: seq<string>, rest: seq<string>)
    requires i < |filters| && filters[i].1.facets == []
    requires |after| == |filters| && forall k :: 0 <= k < |filters| && k != i ==> after[k] == filters[k]
    requires after[i].1.facets != []
    requires log == if filters[i].1.node in temp then [] else [filters[i].1.node]
    requires filters[i].1.node in cached && temp.Keys <= cached.Keys
    requires FetchedOnce(after, cached, rest)
    ensures FetchedOnce(filters, temp, log + rest)
  {
    var all := log + rest;
    forall a | 0 <= a < |all|
      ensures exists k :: 0 <= k < |filters| && filters[k].1.facets == [] && filters[k].1.node == all[a]
    {
      if a < |log| {
        assert filters[i].1.node == all[a];
      } else {
        assert all[a] == rest[a - |log|];
        var k :| 0 <= k < |after| && after[k].1.facets == [] && after[k].1.node == rest[a - |log|];
        assert after[k] == filters[k];
      }
    }
    forall a, b | 0 <= a < b < |all| ensures all[a] != all[b] {
      if a < |log| { assert all[b] == rest[b - 1]; }
      else { assert all[a] == rest[a - |log|] && all[b] == rest[b - |log|]; }
    }
  }

  /** Within one run each node is fetched at most once, and only for a dimension that
      had no facets. */
  lemma PopulateFetchesOnce(filters: Filters, fetch: Fetch)
    ensures FetchedOnce(filters, map[], Populate(filters, fetch).fetched)
  {
    PopulateFromFetchesOnce(filters, 0, map[], fetch);
  }

  lemma LoggedTwice(a: seq<string>, b: seq<string>, o: Outcome)
    ensures Logged(a, Logged(b, o)) == Logged(a + b, o)
  {
    assert a + (b + o.fetched) == (a + b) + o.fetched;
  }

  lemma PopulateSkips(filters: Filters, i: nat, temp: map<string, Data>, fetch: Fetch)
    requires i < |filters| && filters[i].1.facets != []
    ensures PopulateFrom(filters, i, temp, fetch) == PopulateFrom(filters, i + 1, temp, fetch)
  {
  }

  lemma PopulateStops(filters: Filters, i: nat, temp: map<string, Data>, fetch: Fetch)
    requires i < |filters| && filters[i].1.facets == [] && StepAt(filters[i].1, temp, fetch).Stop?
    ensures PopulateFrom(filters, i, temp, fetch) ==
      Outcome(filters, StepAt(filters[i].1, temp, fetch).result, if filters[i].1.node in temp then [] else [filters[i].1.node])
  {
  }

  lemma PopulateCommits(filters: Filters, i: nat, temp: map<string, Data>, fetch: Fetch)
    requires i < |filters| && filters[i].1.facets == [] && StepAt(filters[i].1, temp, fetch).Commit?
    ensures var step := StepAt(filters[i].1, temp, fetch);
      PopulateFrom(filters, i, temp, fetch) ==
      Logged(if filters[i].1.node in temp then [] else [filters[i].1.node],
             PopulateFrom(filters[i := (filters[i].0, filters[i].1.(facets := step.facets))], i + 1, step.cached, fetch))
  {
  }

  // ---------------------------------------------------------------------------

  /** Committing sorted facets to one dimension keeps the table well formed. */
  lemma CommitKeepsWellFormed(filters: Filters, i: nat, spec: FilterSpec)
    requires WellFormed(filters) && i < |filters| && SortedByKey(spec.facets)
    ensures WellFormed(filters[i := (filters[i].0, spec)])
  {
    var after := filters[i := (filters[i].0, spec)];
    forall a, b | 0 <= a < b < |after| ensures after[a].0 != after[b].0 {
      assert after[a].0 == filters[a].0 && after[b].0 == filters[b].0;
    }
    SortedIsUnique(spec.facets);
  }

  /** The first loop of `generate_extra_filter`: the user's scopes other than the public one. */
  method AccessScope(access: seq<string>, publicAccess: string) returns (scope: seq<string>)
    ensures scope == PrivateScope(access, publicAccess)
  {
    scope := [];
    var i := 0;
    while i < |access|
      invariant 0 <= i <= |access|
      invariant scope == PrivateScope(access[..i], publicAccess)
    {
      assert access[..i + 1][..i] == access[..i];
      if access[i] != publicAccess {
        scope := scope + [access[i]];
      }
      i := i + 1;
    }
    assert access[..i] == access;
  }

  /** One turn of the dimension loop of `generate_extra_filter`: a dynamic dimension
      fetches its node for the scope if needed and adds its entry when new labels turn
      up; the rest of the loop then goes on from the next dimension. */
  method ExtraDimension(filters: Filters, k: nat, scope: seq<string>, temp: map<string, Data>,
                        extra: Dict<string, FilterSpec>, fetch: Fetch)
    returns (r: Result<(map<string, Data>, Dict<string, FilterSpec>)>)
    requires WellFormed(filters) && k < |filters|
    ensures r.Err? ==> ExtraFrom(filters, k, scope, temp, extra, fetch) == Err(r.error)
    ensures r.Ok? ==> ExtraFrom(filters, k, scope, temp, extra, fetch) == ExtraFrom(filters, k + 1, scope, r.value.0, r.value.1, fetch)
  {
    var key, spec := filters[k].0, filters[k].1;
    if key !in DYNAMIC_FILTERS {
      return Ok((temp, extra));
    }
    var cached := temp;
    if spec.node !in temp {
      var data := fetch(spec.node, Some(scope));
      if data.Err? {
        return Err(data.error);
      }
      cached := temp[spec.node := data.value];
    }
    var found := UpdateFilterFacets(cached, spec, Some(KeysOf(spec.facets)));
    if found.Err? {
      return Err(found.error);
    }
    if found.value == [] {
      return Ok((cached, extra));
    }
    return Ok((cached, Put(extra, key, ExtraEntry(spec, found.value))));
  }

  /** The generator and the filter table it shares. */
  class FilterGenerator {
    var filters: Filters

    ghost predicate Valid()
      reads this
    {
      WellFormed(filters)
    }

    constructor ()
      ensures filters == INITIAL_FILTERS && Valid()
    {
      filters := INITIAL_FILTERS;
      InitialFilters();
    }

    /** `generate_extra_filter(access)`: reads the table and never writes it. */
    method GenerateExtraFilter(access: seq<string>, publicAccess: string, fetch: Fetch)
      returns (r: Result<Dict<string, FilterSpec>>)
      requires Valid()
      ensures r == ExtraFilters(filters, access, publicAccess, fetch)
    {
      var scope := AccessScope(access, publicAccess);
      var extra: Dict<string, FilterSpec> := [];
      if scope != [] {
        var temp: map<string, Data> := map[];
        var k := 0;
        while k < |filters|
          invariant 0 <= k <= |filters|
          invariant ExtraFilters(filters, access, publicAccess, fetch) == ExtraFrom(filters, k, scope, temp, extra, fetch)
        {
          var step := ExtraDimension(filters, k, scope, temp, extra, fetch);
          if step.Err? {
            return Err(step.error);
          }
          temp, extra := step.value.0, step.value.1;
          k := k + 1;
        }
      }
      return Ok(extra);
    }

    /** `generate_filter_dictionary()`: fills in every dimension without facets, in
        order, and stops at the first one for which nothing is found. */
    method GenerateFilterDictionary(fetch: Fetch) returns (r: Result<bool>, ghost fetched: seq<string>)
      requires Valid()
      modifies this
      ensures Valid()
      ensures Outcome(filters, r, fetched) == Populate(old(filters), fetch)
    {
      var temp: map<string, Data> := map[];
      fetched := [];
      var i := 0;
      while i < |filters|
        invariant 0 <= i <= |filters|
        invariant WellFormed(filters)
        invariant Populate(old(filters), fetch) == Logged(fetched, PopulateFrom(filters, i, temp, fetch))
      {
        var key, spec := filters[i].0, filters[i].1;
        if spec.facets == [] {
          ghost var log := if spec.node in temp then [] else [spec.node];
          var cached := UpdateTempNodeDict(temp, spec.node, None, fetch);
          if cached.Err? {
            PopulateStops(filters, i, temp, fetch);
            r, fetched := Err(cached.error), fetched + log;
            return;
          }
          var found := UpdateFilterFacets(cached.value, spec, None);
          if found.Err? || found.value == [] {
            PopulateStops(filters, i, temp, fetch);
            r, fetched := if found.Err? then Err(found.error) else Ok(false), fetched + log;
            return;
          }
          var facets := Committed(found.value);
          var after := filters[i := (key, spec.(facets := facets))];
          assert StepAt(spec, temp, fetch) == Commit(cached.value, facets);
          PopulateCommits(filters, i, temp, fetch);
          LoggedTwice(fetched, log, PopulateFrom(after, i + 1, cached.value, fetch));
          CommitKeepsWellFormed(filters, i, spec.(facets := facets));
          filters, temp, fetched := after, cached.value, fetched + log;
        }
        i := i + 1;
      }
      r := Ok(true);
    }
  }
}
