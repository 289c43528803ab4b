/** The search step (app/search.py): narrowing a filter to the ordered hits of a
    previous search, and ranking datasets by how many metadata rows mention a
    keyword as a whole word. The `Search` class holds no state, so its two
    operations are module-level methods; the iRODS catalogue is a parameter. */
module Search {
  import opened Http
  import opened Text
  import opened Dicts
  import opened Schema

  const SUBMITTER_ID := "submitter_id"

  /** The metadata attributes a keyword is looked for in. */
  const SEARCH_FIELDS: seq<string> := ["TITLE", "SUBTITLE", "CONTRIBUTOR"]

  // ---------------------------------------------------------------------------
  // `search_filter_relation`

  /** The hits of `hits` that the filter list allows, in search order. */
  function Keep(hits: seq<string>, allowed: seq<string>): seq<string>
  {
    if hits == [] then []
    else (if hits[0] in allowed then [hits[0]] else []) + Keep(hits[1..], allowed)
  }

  /** The kept list keeps the search order: it is the search list with some hits
      deleted. */
  lemma {:induction false} KeepSubsequence(hits: seq<string>, allowed: seq<string>)
    ensures IsSubsequence(Keep(hits, allowed), hits)
  {
    if hits != [] {
      var k := Keep(hits[1..], allowed);
      KeepSubsequence(hits[1..], allowed);
      if hits[0] in allowed {
        assert Keep(hits, allowed) == [hits[0]] + k;
        assert ([hits[0]] + k)[1..] == k;
      } else {
        assert Keep(hits, allowed) == k;
      }
    }
  }

  /** Every allowed hit keeps all its occurrences and no other value occurs. */
  lemma {:induction false} KeepCounts(hits: seq<string>, allowed: seq<string>)
    ensures forall x :: multiset(Keep(hits, allowed))[x] == if x in allowed then multiset(hits)[x] else 0
  {
    if hits != [] {
      KeepCounts(hits[1..], allowed);
      assert hits == [hits[0]] + hits[1..];
    }
  }

  lemma KeepMembers(hits: seq<string>, allowed: seq<string>)
    ensures forall x :: x in Keep(hits, allowed) <==> x in hits && x in allowed
  {
    KeepCounts(hits, allowed);
    forall x ensures x in Keep(hits, allowed) <==> x in hits && x in allowed {
      assert x in Keep(hits, allowed) <==> multiset(Keep(hits, allowed))[x] > 0;
      assert x in hits <==> multiset(hits)[x] > 0;
    }
  }

  /** The filter's `submitter_id` list, or nothing when it has none. */
  function Allowed(filter: Dict<string, seq<string>>): seq<string>
  {
    if HasKey(filter, SUBMITTER_ID) then Get(filter, SUBMITTER_ID) else []
  }

  /** The new filter: with no filter the search hits become the filter; otherwise the
      filter's `submitter_id` list is narrowed to the hits it contains. A plain-text
      search has no `submitter_id`, and neither has a search result lacking the key;
      a non-empty filter without the key fails at the first hit it checks. */
  function FilterRelation(filter: Dict<string, seq<string>>, search: SearchTerm): Result<Dict<string, seq<string>>>
  {
    if search.QuickSearch? then Err(Crash("TypeError"))
    else if !HasKey(search.fields, SUBMITTER_ID) then Err(Crash("KeyError"))
    else
      var hits := Get(search.fields, SUBMITTER_ID);
      if filter == [] then Ok(Put(filter, SUBMITTER_ID, hits))
      else if hits != [] && !HasKey(filter, SUBMITTER_ID) then Err(Crash("KeyError"))
      else Ok(Put(filter, SUBMITTER_ID, Keep(hits, Allowed(filter))))
  }

  /** Search and filter combine with AND: the new `submitter_id` list holds, in search
      order and with repetitions, exactly the hits the old filter allowed (all hits
      when there was no filter). Only `submitter_id` is written. */
  lemma FilterRelationAnd(filter: Dict<string, seq<string>>, search: SearchTerm)
    ensures FilterRelation(filter, search).Ok? <==>
      search.SearchResult? && HasKey(search.fields, SUBMITTER_ID) &&
      (filter == [] || Get(search.fields, SUBMITTER_ID) == [] || HasKey(filter, SUBMITTER_ID))
    ensures FilterRelation(filter, search).Ok? ==>
      var f := FilterRelation(filter, search).value;
      var hits := Get(search.fields, SUBMITTER_ID);
      var list := Get(f, SUBMITTER_ID);
      HasKey(f, SUBMITTER_ID) &&
      (forall k :: HasKey(f, k) <==> HasKey(filter, k) || k == SUBMITTER_ID) &&
      (forall k :: k != SUBMITTER_ID && HasKey(filter, k) ==> Get(f, k) == Get(filter, k)) &&
      (filter == [] ==> list == hits) &&
      (filter != [] ==>
        IsSubsequence(list, hits) &&
        forall x :: multiset(list)[x] == if x in Allowed(filter) then multiset(hits)[x] else 0)
  {
    if search.SearchResult? && HasKey(search.fields, SUBMITTER_ID) {
      var hits := Get(search.fields, SUBMITTER_ID);
      var v := if filter == [] then hits else Keep(hits, Allowed(filter));
      PutKeys(filter, SUBMITTER_ID, v);
      PutGet(filter, SUBMITTER_ID, v, SUBMITTER_ID);
      forall k | k != SUBMITTER_ID && HasKey(filter, k)
        ensures Get(Put(filter, SUBMITTER_ID, v), k) == Get(filter, k)
      {
        PutGet(filter, SUBMITTER_ID, v, k);
      }
      KeepSubsequence(hits, Allowed(filter));
      KeepCounts(hits, Allowed(filter));
    }
  }

  method SearchFilterRelation(item: QueryItem) returns (r: Result<()>)
    modifies item`filter
    ensures var f := FilterRelation(old(item.filter), item.search);
      (f.Ok? ==> r == Ok(()) && item.filter == f.value) &&
      (f.Err? ==> r == Err(f.error) && item.filter == old(item.filter))
  {
    if item.search.QuickSearch? {
      return Err(Crash("TypeError"));
    }
    if !HasKey(item.search.fields, SUBMITTER_ID) {
      return Err(Crash("KeyError"));
    }
    var hits := Get(item.search.fields, SUBMITTER_ID);
    if item.filter != [] {
      ghost var allowed := Allowed(item.filter);
      var list := [];
      var i := 0;
      while i < |hits|
        invariant 0 <= i <= |hits|
        invariant item.filter == old(item.filter)
        invariant i > 0 ==> HasKey(item.filter, SUBMITTER_ID)
        invariant Keep(hits, allowed) == list + Keep(hits[i..], allowed)
      {
        if !HasKey(item.filter, SUBMITTER_ID) {
          return Err(Crash("KeyError"));
        }
        KeepStep(hits, i, allowed);
        var kept := if hits[i] in Get(item.filter, SUBMITTER_ID) then [hits[i]] else [];
        ConcatAssoc(list, kept, Keep(hits[i + 1..], allowed));
        list := list + kept;
        i := i + 1;
      }
      assert hits[i..] == [];
      assert list + [] == list;
      FilterRelationNarrows(item.filter, item.search);
      item.filter := Put(item.filter, SUBMITTER_ID, list);
    } else {
      item.filter := Put(item.filter, SUBMITTER_ID, hits);
    }
    return Ok(());
  }

  lemma KeepStep(hits: seq<string>, i: int, allowed: seq<string>)
    requires 0 <= i < |hits|
    ensures Keep(hits[i..], allowed) == (if hits[i] in allowed then [hits[i]] else []) + Keep(hits[i + 1..], allowed)
  {
    assert hits[i..][1..] == hits[i + 1..];
  }

  /** A filter that is not empty is narrowed when the key is there, or when there is
      no hit to check. */
  lemma FilterRelationNarrows(filter: Dict<string, seq<string>>, search: SearchTerm)
    requires search.SearchResult? && HasKey(search.fields, SUBMITTER_ID) && filter != []
    requires Get(search.fields, SUBMITTER_ID) == [] || HasKey(filter, SUBMITTER_ID)
    ensures FilterRelation(filter, search) ==
      Ok(Put(filter, SUBMITTER_ID, Keep(Get(search.fields, SUBMITTER_ID), Allowed(filter))))
  {
  }

  // ---------------------------------------------------------------------------
  // `re.findall("[a-zA-Z0-9]+", s)`: the maximal runs of ASCII letters and digits

  predicate AllAlnum(s: string)
  {
    forall i :: 0 <= i < |s| ==> IsAlnum(s[i])
  }

  /** The length of the run of letters and digits s starts with. */
  function RunLength(s: string): (k: nat)
    ensures k <= |s|
    ensures forall j :: 0 <= j < k ==> IsAlnum(s[j])
    ensures k < |s| ==> !IsAlnum(s[k])
  {
    if s == [] || !IsAlnum(s[0]) then 0 else 1 + RunLength(s[1..])
  }

  function Tokens(s: string): seq<string>
    decreases |s|
  {
    if s == [] then []
    else
      var k := RunLength(s);
      if k == 0 then Tokens(s[1..]) else [s[..k]] + Tokens(s[k..])
  }

  /** t occurs at i in s as a whole word: a non-empty run of letters and digits with
      neither a letter nor a digit right before or right after it. */
  predicate WholeWordAt(s: string, t: string, i: int)
  {
    t != [] && AllAlnum(t) && OccursAt(s, t, i) &&
    (i == 0 || !IsAlnum(s[i - 1])) && (i + |t| == |s| || !IsAlnum(s[i + |t|]))
  }

  lemma ShiftWord(s: string, d: nat, t: string, i: int)
    requires 0 < d <= |s| && WholeWordAt(s[d..], t, i)
    requires i > 0 || !IsAlnum(s[d - 1])
    ensures WholeWordAt(s, t, i + d)
  {
    assert s[i + d..i + d + |t|] == s[d..][i..i + |t|];
    if i > 0 { assert s[i + d - 1] == s[d..][i - 1]; }
    if i + |t| < |s| - d { assert s[i + d + |t|] == s[d..][i + |t|]; }
  }

  lemma UnshiftWord(s: string, d: nat, t: string, i: int)
    requires d <= i && WholeWordAt(s, t, i)
    ensures WholeWordAt(s[d..], t, i - d)
  {
    assert s[i..i + |t|] == s[d..][i - d..i - d + |t|];
    if i > d { assert s[i - 1] == s[d..][i - d - 1]; }
    if i + |t| < |s| { assert s[i + |t|] == s[d..][i - d + |t|]; }
  }

  /** A run of letters and digits followed by the end or by another character is the
      run the text starts with. */
  lemma {:induction false} MaximalRun(s: string, n: nat)
    requires n <= |s| && (forall j :: 0 <= j < n ==> IsAlnum(s[j]))
    requires n == |s| || !IsAlnum(s[n])
    ensures n == RunLength(s)
  {
    if s != [] && IsAlnum(s[0]) {
      MaximalRun(s[1..], n - 1);
    }
  }

  /** A keyword is among the tokens of a text exactly when it occurs in the text as a
      whole word. */
  lemma {:induction false} TokensIff(s: string, t: string)
    ensures t in Tokens(s) <==> exists i :: WholeWordAt(s, t, i)
    decreases |s|
  {
    if s != [] {
      var k := RunLength(s);
      if k == 0 {
        TokensIff(s[1..], t);
        TokensIffSkip(s, t);
      } else {
        TokensIff(s[k..], t);
        TokensIffRun(s, t);
      }
    }
  }

  /** Text that starts with another character: the tokens and the whole words are
      those of the rest. */
  lemma TokensIffSkip(s: string, t: string)
    requires s != [] && RunLength(s) == 0
    requires t in Tokens(s[1..]) <==> exists i :: WholeWordAt(s[1..], t, i)
    ensures t in Tokens(s) <==> exists i :: WholeWordAt(s, t, i)
  {
    if t in Tokens(s) {
      var i :| WholeWordAt(s[1..], t, i);
      ShiftWord(s, 1, t, i);
    }
    if exists i :: WholeWordAt(s, t, i) {
      var i :| WholeWordAt(s, t, i);
      assert s[i] == t[0] && IsAlnum(s[i]);
      UnshiftWord(s, 1, t, i);
    }
  }

  /** Text that starts with a run: the run is a token and a whole word, and the other
      tokens and whole words are those after it. */
  lemma TokensIffRun(s: string, t: string)
    requires RunLength(s) > 0
    requires t in Tokens(s[RunLength(s)..]) <==> exists i :: WholeWordAt(s[RunLength(s)..], t, i)
    ensures t in Tokens(s) <==> exists i :: WholeWordAt(s, t, i)
  {
    var k := RunLength(s);
    assert Tokens(s) == [s[..k]] + Tokens(s[k..]);
    if t in Tokens(s) {
      TokenIsWord(s, t);
    }
    if exists i :: WholeWordAt(s, t, i) {
      var i :| WholeWordAt(s, t, i);
      WordIsToken(s, t, i);
    }
  }

  lemma TokenIsWord(s: string, t: string)
    requires RunLength(s) > 0
    requires t in Tokens(s[RunLength(s)..]) ==> exists i :: WholeWordAt(s[RunLength(s)..], t, i)
    requires t in [s[..RunLength(s)]] + Tokens(s[RunLength(s)..])
    ensures exists i :: WholeWordAt(s, t, i)
  {
    var k := RunLength(s);
    if t == s[..k] {
      assert WholeWordAt(s, t, 0);
    } else {
      assert t in Tokens(s[k..]);
      var i :| WholeWordAt(s[k..], t, i);
      assert s[k..][i] == t[0] && IsAlnum(s[k + i]);
      ShiftWord(s, k, t, i);
    }
  }

  lemma WordIsToken(s: string, t: string, i: int)
    requires RunLength(s) > 0 && WholeWordAt(s, t, i)
    requires (exists j :: WholeWordAt(s[RunLength(s)..], t, j)) ==> t in Tokens(s[RunLength(s)..])
    ensures t in [s[..RunLength(s)]] + Tokens(s[RunLength(s)..])
  {
    var k := RunLength(s);
    if i == 0 {
      assert forall j :: 0 <= j < |t| ==> s[j] == t[j];
      MaximalRun(s, |t|);
      assert t == s[..k];
    } else {
      assert !IsAlnum(s[i - 1]);
      UnshiftWord(s, k, t, i);
    }
  }

  /** Only a non-empty keyword of letters and digits that occurs in the text can be
      one of its tokens; a keyword with any other character never matches. */
  lemma KeywordMatch(s: string, keyword: string)
    requires keyword in Tokens(s)
    ensures keyword != [] && AllAlnum(keyword) && Contains(s, keyword)
  {
    TokensIff(s, keyword);
    var i :| WholeWordAt(s, keyword, i);
    OccursThenContains(s, keyword, i);
  }

  // ---------------------------------------------------------------------------
  // `generate_dataset_list`

  /** A row of the iRODS catalogue: a collection and one metadata attribute of it. */
  datatype MetaRow = MetaRow(collection: string, name: string, value: string)

  /** The rows the iRODS query returns for a keyword: attributes among the search
      fields whose value contains the keyword. */
  function Query(catalogue: seq<MetaRow>, keyword: string): (rows: seq<MetaRow>)
    ensures forall r :: r in rows <==> r in catalogue && r.name in SEARCH_FIELDS && Contains(r.value, keyword)
  {
    if catalogue == [] then []
    else
      var r := catalogue[0];
      (if r.name in SEARCH_FIELDS && Contains(r.value, keyword) then [r] else []) + Query(catalogue[1..], keyword)
  }

  /** The dataset of a collection: its name with every "<endpoint>/" removed. */
  function Dataset(collection: string, endpoint: string): string
  {
    ReplaceAll(collection, endpoint + "/", "")
  }

  /** A collection under the endpoint yields its own relative name. */
  lemma DatasetOfCollection(endpoint: string, id: string)
    requires !Contains(id, endpoint + "/")
    ensures Dataset(endpoint + "/" + id, endpoint) == id
  {
    ReplaceAllPrefix(endpoint + "/", "", id);
    ReplaceAllAbsent(id, endpoint + "/", "");
  }

  /** The dataset of every row in which the keyword is a token, in row order. */
  function RowHits(keyword: string, rows: seq<MetaRow>, endpoint: string): seq<string>
  {
    if rows == [] then []
    else
      (if keyword in Tokens(rows[0].value) then [Dataset(rows[0].collection, endpoint)] else []) +
      RowHits(keyword, rows[1..], endpoint)
  }

  /** The hits of every keyword, keyword by keyword. */
  function Hits(keywords: seq<string>, catalogue: seq<MetaRow>, endpoint: string): seq<string>
  {
    if keywords == [] then []
    else RowHits(keywords[0], Query(catalogue, keywords[0]), endpoint) + Hits(keywords[1..], catalogue, endpoint)
  }

  /** Counting one more hit of x. */
  function Bump(d: Dict<string, nat>, x: string): Dict<string, nat>
  {
    Put(d, x, if HasKey(d, x) then Get(d, x) + 1 else 1)
  }

  /** The counts after adding every hit of `hits` to d, in order. */
  function Tally(d: Dict<string, nat>, hits: seq<string>): Dict<string, nat>
    decreases |hits|
  {
    if hits == [] then d else Tally(Bump(d, hits[0]), hits[1..])
  }

  lemma {:induction false} TallyAppend(d: Dict<string, nat>, a: seq<string>, b: seq<string>)
    ensures Tally(d, a + b) == Tally(Tally(d, a), b)
    decreases |a|
  {
    if a != [] {
      assert (a + b)[0] == a[0] && (a + b)[1..] == a[1..] + b;
      TallyAppend(Bump(d, a[0]), a[1..], b);
    } else {
      assert a + b == b;
    }
  }

  lemma BumpSpec(d: Dict<string, nat>, x: string)
    requires UniqueKeys(d)
    ensures UniqueKeys(Bump(d, x))
    ensures forall k :: HasKey(Bump(d, x), k) <==> HasKey(d, k) || k == x
    ensures forall k :: HasKey(Bump(d, x), k) ==>
      Get(Bump(d, x), k) == (if HasKey(d, k) then Get(d, k) else 0) + (if k == x then 1 else 0)
  {
    var v := if HasKey(d, x) then Get(d, x) + 1 else 1;
    PutUnique(d, x, v);
    PutKeys(d, x, v);
    forall k | HasKey(Bump(d, x), k)
      ensures Get(Bump(d, x), k) == (if HasKey(d, k) then Get(d, k) else 0) + (if k == x then 1 else 0)
    {
      PutGet(d, x, v, k);
    }
  }

  /** Each hit adds exactly one to its dataset's count: a dataset is counted when it
      was already or is hit, and its count grows by the number of its hits. */
  lemma TallyCounts(d: Dict<string, nat>, hits: seq<string>)
    requires UniqueKeys(d)
    ensures UniqueKeys(Tally(d, hits))
    ensures forall k :: HasKey(Tally(d, hits), k) <==> HasKey(d, k) || k in hits
    ensures forall k :: HasKey(Tally(d, hits), k) ==>
      Get(Tally(d, hits), k) == (if HasKey(d, k) then Get(d, k) else 0) + multiset(hits)[k]
  {
    TallyUnique(d, hits);
    forall k ensures HasKey(Tally(d, hits), k) <==> HasKey(d, k) || k in hits {
      TallyHas(d, hits, k);
    }
    forall k | HasKey(Tally(d, hits), k)
      ensures Get(Tally(d, hits), k) == (if HasKey(d, k) then Get(d, k) else 0) + multiset(hits)[k]
    {
      TallyGet(d, hits, k);
    }
  }

  lemma {:induction false} TallyUnique(d: Dict<string, nat>, hits: seq<string>)
    requires UniqueKeys(d)
    ensures UniqueKeys(Tally(d, hits))
    decreases |hits|
  {
    if hits != [] {
      BumpSpec(d, hits[0]);
      TallyUnique(Bump(d, hits[0]), hits[1..]);
    }
  }

  lemma {:induction false} TallyHas(d: Dict<string, nat>, hits: seq<string>, k: string)
    ensures HasKey(Tally(d, hits), k) <==> HasKey(d, k) || k in hits
    decreases |hits|
  {
    if hits != [] {
      BumpHas(d, hits[0], k);
      TallyHas(Bump(d, hits[0]), hits[1..], k);
      assert k in hits <==> k == hits[0] || k in hits[1..];
    }
  }

  lemma {:induction false} TallyGet(d: Dict<string, nat>, hits: seq<string>, k: string)
    requires HasKey(Tally(d, hits), k)
    ensures Get(Tally(d, hits), k) == (if HasKey(d, k) then Get(d, k) else 0) + multiset(hits)[k]
    decreases |hits|
  {
    if hits != [] {
      var x, rest := hits[0], hits[1..];
      var b := Bump(d, x);
      assert Tally(d, hits) == Tally(b, rest);
      TallyGet(b, rest, k);
      CountCons(hits, k);
      BumpHas(d, x, k);
      if HasKey(b, k) {
        BumpGet(d, x, k);
      }
    }
  }

  lemma CountCons(hits: seq<string>, k: string)
    requires hits != []
    ensures multiset(hits)[k] == (if k == hits[0] then 1 else 0) + multiset(hits[1..])[k]
  {
    assert hits == [hits[0]] + hits[1..];
  }

  lemma BumpHas(d: Dict<string, nat>, x: string, k: string)
    ensures HasKey(Bump(d, x), k) <==> HasKey(d, k) || k == x
  {
    PutKeys(d, x, if HasKey(d, x) then Get(d, x) + 1 else 1);
  }

  lemma BumpGet(d: Dict<string, nat>, x: string, k: string)
    requires HasKey(Bump(d, x), k)
    ensures Get(Bump(d, x), k) == (if HasKey(d, k) then Get(d, k) else 0) + (if k == x then 1 else 0)
  {
    BumpHas(d, x, k);
    PutGet(d, x, if HasKey(d, x) then Get(d, x) + 1 else 1, k);
  }

  /** The hits without repetitions, in order of first appearance, leaving out those
      already seen. */
  function FirstSeen(seen: seq<string>, hits: seq<string>): seq<string>
    decreases |hits|
  {
    if hits == [] then []
    else if hits[0] in seen then FirstSeen(seen, hits[1..])
    else [hits[0]] + FirstSeen(seen + [hits[0]], hits[1..])
  }

  /** A newly counted dataset is appended, so the counts list datasets in the order
      their first hit came in. */
  lemma BumpKeys(d: Dict<string, nat>, x: string)
    ensures KeysOf(Bump(d, x)) == if x in KeysOf(d) then KeysOf(d) else KeysOf(d) + [x]
  {
  }

  lemma {:induction false} TallyKeys(d: Dict<string, nat>, hits: seq<string>)
    ensures KeysOf(Tally(d, hits)) == KeysOf(d) + FirstSeen(KeysOf(d), hits)
    decreases |hits|
  {
    if hits == [] {
      assert KeysOf(d) + [] == KeysOf(d);
    } else {
      var x := hits[0];
      var b := Bump(d, x);
      var ks := KeysOf(d);
      BumpKeys(d, x);
      TallyKeys(b, hits[1..]);
      assert Tally(d, hits) == Tally(b, hits[1..]);
      FirstSeenStep(ks, hits);
    }
  }

  lemma FirstSeenStep(ks: seq<string>, hits: seq<string>)
    requires hits != []
    ensures ks + FirstSeen(ks, hits) ==
      var ks' := if hits[0] in ks then ks else ks + [hits[0]];
      ks' + FirstSeen(ks', hits[1..])
  {
    if hits[0] !in ks {
      var rest := FirstSeen(ks + [hits[0]], hits[1..]);
      assert ks + ([hits[0]] + rest) == ks + [hits[0]] + rest;
    }
  }


  /** Inserting an entry in front of every entry whose count is not larger. */
  function InsertRanked(x: (string, nat), s: Dict<string, nat>): Dict<string, nat>
  {
    if s == [] then [x]
    else if s[0].1 > x.1 then [s[0]] + InsertRanked(x, s[1..])
    else [x] + s
  }

  /** `sorted(d, key=d.get, reverse=True)` on the entries: by count, largest first;
      equal counts keep their order. */
  function Rank(d: Dict<string, nat>): Dict<string, nat>
  {
    if d == [] then [] else InsertRanked(d[0], Rank(d[1..]))
  }

  predicate Descending(s: Dict<string, nat>)
  {
    forall i, j :: 0 <= i < j < |s| ==> s[i].1 >= s[j].1
  }

  /** The entries with count c, in order. */
  function WithCount(s: Dict<string, nat>, c: nat): Dict<string, nat>
  {
    if s == [] then [] else (if s[0].1 == c then [s[0]] else []) + WithCount(s[1..], c)
  }

  lemma InsertRankedEntries(x: (string, nat), s: Dict<string, nat>)
    ensures multiset(InsertRanked(x, s)) == multiset{x} + multiset(s)
    ensures forall c :: WithCount(InsertRanked(x, s), c) == (if x.1 == c then [x] else []) + WithCount(s, c)
  {
    InsertRankedMultiset(x, s);
    forall c ensures WithCount(InsertRanked(x, s), c) == (if x.1 == c then [x] else []) + WithCount(s, c) {
      InsertRankedWithCount(x, s, c);
    }
  }

  lemma {:induction false} InsertRankedMultiset(x: (string, nat), s: Dict<string, nat>)
    ensures multiset(InsertRanked(x, s)) == multiset{x} + multiset(s)
  {
    if s != [] && s[0].1 > x.1 {
      InsertRankedMultiset(x, s[1..]);
      assert s == [s[0]] + s[1..];
    }
  }

  /** The entries with count c of a list that starts with e. */
  lemma WithCountCons(e: (string, nat), s: Dict<string, nat>, c: nat)
    ensures WithCount([e] + s, c) == (if e.1 == c then [e] else []) + WithCount(s, c)
  {
    assert ([e] + s)[1..] == s;
  }

  lemma {:induction false} InsertRankedWithCount(x: (string, nat), s: Dict<string, nat>, c: nat)
    ensures WithCount(InsertRanked(x, s), c) == (if x.1 == c then [x] else []) + WithCount(s, c)
  {
    var own: Dict<string, nat> := if x.1 == c then [x] else [];
    if s != [] && s[0].1 > x.1 {
      var t := InsertRanked(x, s[1..]);
      InsertRankedWithCount(x, s[1..], c);
      WithCountCons(s[0], t, c);
      WithCountCons(s[0], s[1..], c);
      assert s == [s[0]] + s[1..];
      var head: Dict<string, nat> := if s[0].1 == c then [s[0]] else [];
      assert head == [] || own == [];
      assert head + (own + WithCount(s[1..], c)) == own + (head + WithCount(s[1..], c));
    } else {
      WithCountCons(x, s, c);
    }
  }

  lemma {:induction false} InsertRankedDescending(x: (string, nat), s: Dict<string, nat>)
    requires Descending(s)
    ensures Descending(InsertRanked(x, s))
  {
    if s != [] && s[0].1 > x.1 {
      InsertRankedDescending(x, s[1..]);
      InsertRankedEntries(x, s[1..]);
      var t := InsertRanked(x, s[1..]);
      forall j | 0 <= j < |t| ensures s[0].1 >= t[j].1 {
        assert t[j] in multiset(t);
      }
    }
  }

  /** The ranking is a stable sort by decreasing count: counts never increase along
      it, it holds the same entries, and the entries of any one count keep their
      order. */
  lemma {:induction false} RankSpec(d: Dict<string, nat>)
    ensures Descending(Rank(d))
    ensures multiset(Rank(d)) == multiset(d)
    ensures forall c :: WithCount(Rank(d), c) == WithCount(d, c)
  {
    if d != [] {
      RankSpec(d[1..]);
      InsertRankedDescending(d[0], Rank(d[1..]));
      InsertRankedEntries(d[0], Rank(d[1..]));
      assert d == [d[0]] + d[1..];
    }
  }

  lemma {:induction false} InsertRankedUnique(x: (string, nat), s: Dict<string, nat>)
    requires UniqueKeys(s) && forall e :: e in s ==> e.0 != x.0
    ensures UniqueKeys(InsertRanked(x, s))
  {
    if s != [] && s[0].1 > x.1 {
      InsertRankedUnique(x, s[1..]);
      InsertRankedEntries(x, s[1..]);
      var t := InsertRanked(x, s[1..]);
      forall j | 0 <= j < |t| ensures s[0].0 != t[j].0 {
        assert t[j] in multiset(t);
        assert t[j] == x || t[j] in s[1..];
      }
    }
  }

  /** Ranking keeps the keys unique. */
  lemma {:induction false} RankUnique(d: Dict<string, nat>)
    requires UniqueKeys(d)
    ensures UniqueKeys(Rank(d))
  {
    if d != [] {
      RankUnique(d[1..]);
      RankSpec(d[1..]);
      forall e | e in Rank(d[1..]) ensures e.0 != d[0].0 {
        assert e in multiset(Rank(d[1..]));
        var p :| 0 <= p < |d[1..]| && d[1..][p] == e;
        assert d[p + 1] == e;
      }
      InsertRankedUnique(d[0], Rank(d[1..]));
    }
  }

  /** Each ranked entry is the count its key has in the dictionary. */
  lemma RankLookup(d: Dict<string, nat>, i: int)
    requires UniqueKeys(d) && 0 <= i < |Rank(d)|
    ensures HasKey(d, Rank(d)[i].0) && Get(d, Rank(d)[i].0) == Rank(d)[i].1
  {
    RankSpec(d);
    assert Rank(d)[i] in multiset(d);
    var p :| 0 <= p < |d| && d[p] == Rank(d)[i];
    GetAt(d, p);
  }

  /** The result of `generate_dataset_list`: the counted datasets, most hits first. */
  function DatasetList(keywords: seq<string>, catalogue: seq<MetaRow>, endpoint: string): seq<string>
  {
    KeysOf(Rank(Tally([], Hits(keywords, catalogue, endpoint))))
  }

  /** Ranking lists the keys of the dictionary. */
  lemma RankKeys(d: Dict<string, nat>)
    ensures forall x :: x in KeysOf(Rank(d)) <==> HasKey(d, x)
  {
    var r := Rank(d);
    RankSpec(d);
    forall x ensures x in KeysOf(r) <==> x in KeysOf(d) {
      if x in KeysOf(r) {
        var i :| 0 <= i < |r| && KeysOf(r)[i] == x;
        assert r[i] in multiset(d);
        var p :| 0 <= p < |d| && d[p] == r[i];
        assert KeysOf(d)[p] == x;
      }
      if x in KeysOf(d) {
        var p :| 0 <= p < |d| && KeysOf(d)[p] == x;
        assert d[p] in multiset(r);
        var i :| 0 <= i < |r| && r[i] == d[p];
        assert KeysOf(r)[i] == x;
      }
    }
  }

  /** Every dataset with a hit is listed exactly once and nothing else is. */
  lemma DatasetListMembers(keywords: seq<string>, catalogue: seq<MetaRow>, endpoint: string)
    ensures var hits := Hits(keywords, catalogue, endpoint);
      var r := DatasetList(keywords, catalogue, endpoint);
      (forall x :: x in r <==> x in hits) &&
      (forall i, j :: 0 <= i < j < |r| ==> r[i] != r[j])
  {
    var hits := Hits(keywords, catalogue, endpoint);
    var counts := Tally([], hits);
    var ranked := Rank(counts);
    var r := KeysOf(ranked);
    TallyCounts([], hits);
    RankKeys(counts);
    RankUnique(counts);
    forall i, j | 0 <= i < j < |r| ensures r[i] != r[j] {
      assert r[i] == ranked[i].0 && r[j] == ranked[j].0;
    }
  }

  /** A dataset with more hits comes before one with fewer; datasets with as many
      hits keep the order in which their first hits came in. */
  lemma DatasetListOrder(keywords: seq<string>, catalogue: seq<MetaRow>, endpoint: string)
    ensures var hits := Hits(keywords, catalogue, endpoint);
      var r := DatasetList(keywords, catalogue, endpoint);
      forall i, j :: 0 <= i < j < |r| ==> multiset(hits)[r[i]] >= multiset(hits)[r[j]]
    ensures var hits := Hits(keywords, catalogue, endpoint);
      var counts := Tally([], hits);
      KeysOf(counts) == FirstSeen([], hits) &&
      forall c :: WithCount(Rank(counts), c) == WithCount(counts, c)
  {
    var hits := Hits(keywords, catalogue, endpoint);
    var counts := Tally([], hits);
    var ranked := Rank(counts);
    var r := KeysOf(ranked);
    TallyCounts([], hits);
    TallyKeys([], hits);
    RankSpec(counts);
    forall i, j | 0 <= i < j < |r| ensures multiset(hits)[r[i]] >= multiset(hits)[r[j]] {
      RankLookup(counts, i);
      RankLookup(counts, j);
    }
  }

  /** Adds the hits of one keyword's rows to the counts. */
  method CountRows(d: Dict<string, nat>, keyword: string, rows: seq<MetaRow>, endpoint: string)
    returns (r: Dict<string, nat>)
    ensures r == Tally(d, RowHits(keyword, rows, endpoint))
  {
    r := d;
    var j := 0;
    while j < |rows|
      invariant 0 <= j <= |rows|
      invariant Tally(r, RowHits(keyword, rows[j..], endpoint)) == Tally(d, RowHits(keyword, rows, endpoint))
    {
      CountRowStep(r, keyword, rows, j, endpoint);
      r := CountRow(r, keyword, rows[j], endpoint);
      j := j + 1;
    }
    assert rows[j..] == [];
  }

  /** One row: when the keyword is one of its value's tokens, its dataset's count goes
      up by one, starting from 1. */
  method CountRow(d: Dict<string, nat>, keyword: string, row: MetaRow, endpoint: string)
    returns (r: Dict<string, nat>)
    ensures r == if keyword in Tokens(row.value) then Bump(d, Dataset(row.collection, endpoint)) else d
  {
    r := d;
    if keyword in Tokens(row.value) {
      var dataset := Dataset(row.collection, endpoint);
      r := CountHit(r, dataset);
    }
  }

  method CountHit(d: Dict<string, nat>, dataset: string) returns (r: Dict<string, nat>)
    ensures r == Bump(d, dataset)
  {
    if !HasKey(d, dataset) {
      r := Put(d, dataset, 1);
    } else {
      r := Put(d, dataset, Get(d, dataset) + 1);
    }
  }

  /** Counting the hits from row j on is counting row j's hit, if any, and then the
      hits after it. */
  lemma CountRowStep(d: Dict<string, nat>, keyword: string, rows: seq<MetaRow>, j: int, endpoint: string)
    requires 0 <= j < |rows|
    ensures Tally(d, RowHits(keyword, rows[j..], endpoint)) ==
      Tally(if keyword in Tokens(rows[j].value) then Bump(d, Dataset(rows[j].collection, endpoint)) else d,
            RowHits(keyword, rows[j + 1..], endpoint))
  {
    var rest := RowHits(keyword, rows[j + 1..], endpoint);
    assert rows[j..][1..] == rows[j + 1..];
    if keyword in Tokens(rows[j].value) {
      TallyStep(d, Dataset(rows[j].collection, endpoint), rest);
    } else {
      assert RowHits(keyword, rows[j..], endpoint) == rest;
    }
  }

  lemma TallyStep(d: Dict<string, nat>, x: string, rest: seq<string>)
    ensures Tally(d, [x] + rest) == Tally(Bump(d, x), rest)
  {
    assert ([x] + rest)[1..] == rest;
  }

  method GenerateDatasetList(keywords: seq<string>, catalogue: seq<MetaRow>, endpoint: string)
    returns (r: seq<string>)
    ensures r == DatasetList(keywords, catalogue, endpoint)
  {
    var counts: Dict<string, nat> := [];
    var k := 0;
    while k < |keywords|
      invariant 0 <= k <= |keywords|
      invariant Tally(counts, Hits(keywords[k..], catalogue, endpoint)) == Tally([], Hits(keywords, catalogue, endpoint))
    {
      var rows := Query(catalogue, keywords[k]);
      assert keywords[k..][1..] == keywords[k + 1..];
      assert Hits(keywords[k..], catalogue, endpoint) ==
             RowHits(keywords[k], rows, endpoint) + Hits(keywords[k + 1..], catalogue, endpoint);
      TallyAppend(counts, RowHits(keywords[k], rows, endpoint), Hits(keywords[k + 1..], catalogue, endpoint));
      counts := CountRows(counts, keywords[k], rows, endpoint);
      k := k + 1;
    }
    r := KeysOf(Rank(counts));
  }
}
