/** The text rewrites `SimpleGraphQLClient` applies to the query sgqlc prints
    (app/sgqlc.py:17-47): camelCase to snake_case, deletion of `name: null`
    arguments, and the count field appended to pagination queries. Each regular
    expression is modelled as the left-to-right, non-overlapping scan `re.sub` does. */
module QueryText {
  import opened Text
  import opened Dicts

  // ---------------------------------------------------------------------------
  // camelCase to snake_case

  /** A lowercase letter directly followed by an uppercase one. */
  predicate CamelBoundary(s: string, i: int)
  {
    0 <= i && i + 1 < |s| && IsLower(s[i]) && IsUpper(s[i + 1])
  }

  /** `re.sub('([a-z])([A-Z])', r'\1_\2', s)` */
  function InsertUnderscores(s: string): (r: string)
    ensures |r| >= |s|
    ensures s != [] ==> r != [] && r[0] == s[0]
    decreases |s|
  {
    if |s| < 2 then s
    else if IsLower(s[0]) && IsUpper(s[1]) then [s[0], '_', s[1]] + InsertUnderscores(s[2..])
    else [s[0]] + InsertUnderscores(s[1..])
  }

  /** `re.sub('_[A-Z]', lambda x: x.group(0).lower(), s)` */
  function LowerAfterUnderscore(s: string): (r: string)
    ensures |r| == |s|
    decreases |s|
  {
    if |s| < 2 then s
    else if s[0] == '_' && IsUpper(s[1]) then ['_', ToLower(s[1])] + LowerAfterUnderscore(s[2..])
    else [s[0]] + LowerAfterUnderscore(s[1..])
  }

  function SnakeCase(s: string): string
  {
    LowerAfterUnderscore(InsertUnderscores(s))
  }

  /** s with every occurrence of c deleted. */
  function Erase(s: string, c: char): (r: string)
    ensures c !in r
  {
    if s == [] then [] else (if s[0] == c then [] else [s[0]]) + Erase(s[1..], c)
  }

  lemma {:induction false} EraseAppend(a: string, b: string, c: char)
    ensures Erase(a + b, c) == Erase(a, c) + Erase(b, c)
    decreases |a|
  {
    if a != [] {
      var h := if a[0] == c then [] else [a[0]];
      assert (a + b)[0] == a[0];
      assert (a + b)[1..] == a[1..] + b;
      EraseAppend(a[1..], b, c);
      calc {
        Erase(a + b, c);
        h + Erase(a[1..] + b, c);
        h + (Erase(a[1..], c) + Erase(b, c));
        (h + Erase(a[1..], c)) + Erase(b, c);
        Erase(a, c) + Erase(b, c);
      }
    } else {
      assert a + b == b;
    }
  }

  /** The number of camelCase boundaries of s. */
  function Boundaries(s: string): nat
  {
    if |s| < 2 then 0 else (if CamelBoundary(s, 0) then 1 else 0) + Boundaries(s[1..])
  }

  /** The first rewrite changes nothing but underscores: erasing them gives the same
      text. */
  lemma {:induction false} InsertUnderscoresOnlyAddsUnderscores(s: string)
    ensures Erase(InsertUnderscores(s), '_') == Erase(s, '_')
    decreases |s|
  {
    if |s| < 2 {
    } else if IsLower(s[0]) && IsUpper(s[1]) {
      var t := InsertUnderscores(s[2..]);
      InsertUnderscoresOnlyAddsUnderscores(s[2..]);
      EraseAppend([s[0], '_', s[1]], t, '_');
      assert s == [s[0], s[1]] + s[2..];
      EraseAppend([s[0], s[1]], s[2..], '_');
      assert Erase([s[0], '_', s[1]], '_') == [s[0], s[1]] == Erase([s[0], s[1]], '_');
    } else {
      InsertUnderscoresOnlyAddsUnderscores(s[1..]);
      EraseAppend([s[0]], InsertUnderscores(s[1..]), '_');
      assert s == [s[0]] + s[1..];
      EraseAppend([s[0]], s[1..], '_');
    }
  }

  /** The first rewrite adds exactly one character per camelCase boundary. */
  lemma {:induction false} InsertUnderscoresLength(s: string)
    ensures |InsertUnderscores(s)| == |s| + Boundaries(s)
    decreases |s|
  {
    if |s| < 2 {
    } else if IsLower(s[0]) && IsUpper(s[1]) {
      InsertUnderscoresLength(s[2..]);
      assert Boundaries(s[1..]) == Boundaries(s[2..]) by {
        if |s[1..]| >= 2 { assert !CamelBoundary(s[1..], 0); assert s[1..][1..] == s[2..]; }
      }
    } else {
      InsertUnderscoresLength(s[1..]);
    }
  }

  /** After the first rewrite no camelCase boundary is left. */
  lemma {:induction false} InsertUnderscoresLeavesNoBoundary(s: string)
    ensures forall i :: !CamelBoundary(InsertUnderscores(s), i)
    decreases |s|
  {
    var r := InsertUnderscores(s);
    if |s| < 2 {
    } else if IsLower(s[0]) && IsUpper(s[1]) {
      var t := InsertUnderscores(s[2..]);
      InsertUnderscoresLeavesNoBoundary(s[2..]);
      forall i ensures !CamelBoundary(r, i) {
        if 3 <= i { assert CamelBoundary(r, i) ==> CamelBoundary(t, i - 3); }
      }
    } else {
      var t := InsertUnderscores(s[1..]);
      InsertUnderscoresLeavesNoBoundary(s[1..]);
      forall i ensures !CamelBoundary(r, i) {
        if 1 <= i { assert CamelBoundary(r, i) ==> CamelBoundary(t, i - 1); }
      }
    }
  }

  /** The second rewrite lower-cases exactly the uppercase letters that follow an
      underscore. */
  lemma {:induction false} LowerAfterUnderscoreAt(s: string, i: int)
    requires 0 <= i < |s|
    ensures LowerAfterUnderscore(s)[i] ==
      if i > 0 && s[i - 1] == '_' && IsUpper(s[i]) then ToLower(s[i]) else s[i]
    decreases |s|
  {
    if |s| < 2 {
    } else if s[0] == '_' && IsUpper(s[1]) {
      if i >= 2 { LowerAfterUnderscoreAt(s[2..], i - 2); }
    } else {
      if i >= 1 { LowerAfterUnderscoreAt(s[1..], i - 1); }
    }
  }

  // A camelCase name is a lowercase word followed by capitalised words.

  predicate IsWord(w: string)
  {
    w != [] && forall i :: 0 <= i < |w| ==> IsLower(w[i])
  }

  /** Words that can follow the first one: a single-letter word would put two capitals
      side by side, which the rewrite does not separate. */
  predicate LaterWords(ws: seq<string>)
  {
    forall i :: 0 <= i < |ws| ==> IsWord(ws[i]) && |ws[i]| >= 2
  }

  function Capitalized(w: string): string
    requires w != []
  {
    [ToUpper(w[0])] + w[1..]
  }

  function CamelTail(ws: seq<string>): string
    requires LaterWords(ws)
  {
    if ws == [] then [] else Capitalized(ws[0]) + CamelTail(ws[1..])
  }

  function UnderscoredTail(ws: seq<string>): string
    requires LaterWords(ws)
  {
    if ws == [] then [] else "_" + Capitalized(ws[0]) + UnderscoredTail(ws[1..])
  }

  function SnakeTail(ws: seq<string>): string
  {
    if ws == [] then [] else "_" + ws[0] + SnakeTail(ws[1..])
  }

  lemma {:induction false} InsertUnderscoresWord(w: string, t: string)
    requires IsWord(w)
    ensures InsertUnderscores(w + t) == w[..|w| - 1] + InsertUnderscores([w[|w| - 1]] + t)
    decreases |w|
  {
    var last := [w[|w| - 1]] + t;
    if |w| > 1 {
      var v := w[1..];
      IsWordTail(w);
      assert w + t == [w[0]] + (v + t);
      assert (v + t)[0] == w[1];
      InsertUnderscoresLowerStep(w[0], v + t);
      InsertUnderscoresWord(v, t);
      assert v[|v| - 1] == w[|w| - 1];
      var x := InsertUnderscores(last);
      assert w[..|w| - 1] == [w[0]] + v[..|v| - 1];
      assert [w[0]] + (v[..|v| - 1] + x) == w[..|w| - 1] + x;
    } else {
      assert w + t == last;
      assert w[..|w| - 1] == [];
    }
  }

  lemma IsWordTail(w: string)
    requires IsWord(w) && |w| > 1
    ensures IsWord(w[1..])
  {
    forall i | 0 <= i < |w[1..]| ensures IsLower(w[1..][i]) { assert w[1..][i] == w[i + 1]; }
  }

  /** A lowercase letter not followed by a capital is copied unchanged. */
  lemma InsertUnderscoresLowerStep(c: char, s: string)
    requires IsLower(c) && (s == [] || IsLower(s[0]))
    ensures InsertUnderscores([c] + s) == [c] + InsertUnderscores(s)
  {
    assert ([c] + s)[1..] == s;
  }

  lemma InsertUnderscoresAtBoundary(l: char, u: char, rest: string)
    requires IsLower(l) && IsUpper(u)
    ensures InsertUnderscores([l] + ([u] + rest)) == [l, '_', u] + InsertUnderscores(rest)
  {
    assert [l] + ([u] + rest) == [l, u] + rest;
    assert ([l, u] + rest)[2..] == rest;
  }

  lemma LaterWordsTail(ws: seq<string>)
    requires LaterWords(ws) && ws != []
    ensures LaterWords(ws[1..])
  {
    forall i | 0 <= i < |ws[1..]| ensures IsWord(ws[1..][i]) && |ws[1..][i]| >= 2 { assert ws[1..][i] == ws[i + 1]; }
  }

  /** The boundary between a word and the capital that starts the next one gets an
      underscore. */
  lemma InsertUnderscoresAfterWord(w: string, u: char, rest: string)
    requires IsWord(w) && IsUpper(u)
    ensures InsertUnderscores(w + ([u] + rest)) == w + (['_', u] + InsertUnderscores(rest))
  {
    var l := w[|w| - 1];
    var p := w[..|w| - 1];
    var r := InsertUnderscores(rest);
    InsertUnderscoresWord(w, [u] + rest);
    InsertUnderscoresAtBoundary(l, u, rest);
    assert p + [l] == w;
    assert p + ([l, '_', u] + r) == w + (['_', u] + r);
  }

  lemma CamelTailCons(ws: seq<string>)
    requires LaterWords(ws) && ws != []
    ensures LaterWords(ws[1..])
    ensures CamelTail(ws) == [ToUpper(ws[0][0])] + (ws[0][1..] + CamelTail(ws[1..]))
    ensures UnderscoredTail(ws) == ['_', ToUpper(ws[0][0])] + (ws[0][1..] + UnderscoredTail(ws[1..]))
  {
    LaterWordsTail(ws);
    var u, v := ToUpper(ws[0][0]), ws[0][1..];
    var c, d := CamelTail(ws[1..]), UnderscoredTail(ws[1..]);
    assert CamelTail(ws) == ([u] + v) + c;
    ConcatAssoc([u], v, c);
    assert UnderscoredTail(ws) == ("_" + ([u] + v)) + d;
    ConcatAssoc("_", [u] + v, d);
    ConcatAssoc([u], v, d);
    ConcatAssoc("_", [u], v + d);
    assert "_" + [u] == ['_', u];
  }

  lemma InsertUnderscoresOneWord(w: string)
    requires IsWord(w)
    ensures InsertUnderscores(w) == w
  {
    InsertUnderscoresWord(w, []);
    assert w + [] == w && w[..|w| - 1] + [w[|w| - 1]] == w;
  }

  lemma {:induction false} InsertUnderscoresCamel(w: string, ws: seq<string>)
    requires IsWord(w) && LaterWords(ws)
    ensures InsertUnderscores(w + CamelTail(ws)) == w + UnderscoredTail(ws)
    decreases |ws|
  {
    if ws == [] {
      InsertUnderscoresOneWord(w);
      assert w + CamelTail(ws) == w && w + UnderscoredTail(ws) == w;
    } else {
      var u := ToUpper(ws[0][0]);
      var v := ws[0][1..];
      var rest := v + CamelTail(ws[1..]);
      CamelTailCons(ws);
      InsertUnderscoresAfterWord(w, u, rest);
      InsertUnderscoresCamel(v, ws[1..]);
    }
  }

  lemma {:induction false} LowerAfterUnderscoreWord(w: string, t: string)
    requires IsWord(w)
    ensures LowerAfterUnderscore(w + t) == w + LowerAfterUnderscore(t)
    decreases |w|
  {
    if |w| == 1 {
      assert w + t == [w[0]] + t;
      LowerAfterUnderscoreStep(w[0], t);
      assert [w[0]] == w;
    } else {
      IsWordTail(w);
      assert w + t == [w[0]] + (w[1..] + t);
      LowerAfterUnderscoreStep(w[0], w[1..] + t);
      LowerAfterUnderscoreWord(w[1..], t);
      ConcatAssoc([w[0]], w[1..], LowerAfterUnderscore(t));
      assert [w[0]] + w[1..] == w;
    }
  }

  /** A character other than `_` is copied unchanged. */
  lemma LowerAfterUnderscoreStep(c: char, t: string)
    requires c != '_'
    ensures LowerAfterUnderscore([c] + t) == [c] + LowerAfterUnderscore(t)
  {
    if t != [] { assert ([c] + t)[1..] == t; }
  }

  /** `_` followed by a capital: the capital is lowered. */
  lemma LowerAfterUnderscoreUpper(u: char, t: string)
    requires IsUpper(u)
    ensures LowerAfterUnderscore(['_', u] + t) == ['_', ToLower(u)] + LowerAfterUnderscore(t)
  {
    assert (['_', u] + t)[2..] == t;
  }

  lemma {:induction false} LowerAfterUnderscoreCamel(ws: seq<string>)
    requires LaterWords(ws)
    ensures LowerAfterUnderscore(UnderscoredTail(ws)) == SnakeTail(ws)
    decreases |ws|
  {
    if ws != [] {
      var v := ws[0];
      CamelTailCons(ws);
      var u := ToUpper(v[0]);
      var later := UnderscoredTail(ws[1..]);
      LowerAfterUnderscoreUpper(u, v[1..] + later);
      IsWordTail(v);
      LowerAfterUnderscoreWord(v[1..], later);
      LowerAfterUnderscoreCamel(ws[1..]);
      assert ToLower(u) == v[0];
      var snake := SnakeTail(ws[1..]);
      assert SnakeTail(ws) == ("_" + v) + snake;
      assert "_" + v == ['_', v[0]] + v[1..];
      ConcatAssoc(['_', v[0]], v[1..], snake);
    }
  }

  /** A camelCase name, as the schema declares nodes and arguments
      (`datasetDescriptionFilter`, `submitterId`), becomes its words joined by
      underscores (`dataset_description_filter`, `submitter_id`), the form the remote
      service expects. */
  lemma SnakeCaseOfCamelName(w: string, ws: seq<string>)
    requires IsWord(w) && LaterWords(ws)
    ensures SnakeCase(w + CamelTail(ws)) == w + SnakeTail(ws)
  {
    InsertUnderscoresCamel(w, ws);
    LowerAfterUnderscoreWord(w, UnderscoredTail(ws));
    LowerAfterUnderscoreCamel(ws);
  }

  // ---------------------------------------------------------------------------
  // Deletion of null arguments: `re.sub('[,]? [_a-z]+: null', '', s)`.
  // The match at a position is unique: backtracking over `[,]?` cannot help (a comma
  // is not a space), and `[_a-z]+` must be followed by `:`, which it cannot contain.

  predicate IsNameChar(c: char) { IsLower(c) || c == '_' }

  /** A non-empty word of `[_a-z]` characters: an argument name after snake-casing. */
  predicate IsName(n: string)
  {
    n != [] && forall i :: 0 <= i < |n| ==> IsNameChar(n[i])
  }

  /** Length of the leading run of `[_a-z]` characters. */
  function NameRun(s: string): (n: nat)
    ensures n <= |s|
    ensures forall i :: 0 <= i < n ==> IsNameChar(s[i])
    ensures n < |s| ==> !IsNameChar(s[n])
  {
    if s == [] || !IsNameChar(s[0]) then 0 else 1 + NameRun(s[1..])
  }

  /** `: null` at position e of s. */
  predicate NullTailAt(s: string, e: int)
  {
    0 <= e && e + 6 <= |s| && s[e] == ':' && s[e + 1] == ' ' &&
    s[e + 2] == 'n' && s[e + 3] == 'u' && s[e + 4] == 'l' && s[e + 5] == 'l'
  }

  /** Length of the match of `[,]? [_a-z]+: null` at the start of s; 0 when none. */
  function NullArgAt(s: string): (n: nat)
    ensures n <= |s|
    ensures n > 0 ==> n >= 8
  {
    var c := if s != [] && s[0] == ',' then 1 else 0;
    if |s| <= c || s[c] != ' ' then 0
    else
      var e := c + 1 + NameRun(s[c + 1..]);
      if e == c + 1 || !NullTailAt(s, e) then 0 else e + 6
  }

  function ElideNulls(s: string): string
    decreases |s|
  {
    if s == [] then []
    else
      var n := NullArgAt(s);
      if n > 0 then ElideNulls(s[n..]) else [s[0]] + ElideNulls(s[1..])
  }

  lemma NullArgHasNull(s: string)
    requires NullArgAt(s) > 0
    ensures Contains(s, "null")
  {
    var n := NullArgAt(s);
    assert s[n - 4..n] == "null";
    OccursThenContains(s, "null", n - 4);
  }

  lemma ContainsFromTail(s: string, p: string)
    requires s != [] && Contains(s[1..], p)
    ensures Contains(s, p)
  {
  }

  /** The guard `if "null" in q` never changes the result: without "null" there is
      nothing to delete. */
  lemma {:induction false} NullGuardIrrelevant(s: string)
    requires !Contains(s, "null")
    ensures ElideNulls(s) == s
    decreases |s|
  {
    if s != [] {
      if NullArgAt(s) > 0 { NullArgHasNull(s); }
      if Contains(s[1..], "null") { ContainsFromTail(s, "null"); }
      NullGuardIrrelevant(s[1..]);
    }
  }

  // ---------------------------------------------------------------------------
  // What the deletion does to an argument list as sgqlc prints it, `(name: value, ...)`,
  // once the names are in snake case. Values are printed text: `null`, or a value that
  // neither starts nor ends with a name character and has no colon (a number, a quoted
  // string without a colon, a list of such strings).

  predicate IsPlainValue(v: string)
  {
    v != [] && !IsNameChar(v[0]) && !IsNameChar(v[|v| - 1]) && ':' !in v
  }

  predicate WellPrinted(args: seq<(string, string)>)
  {
    forall i :: 0 <= i < |args| ==> IsName(args[i].0) && (args[i].1 == "null" || IsPlainValue(args[i].1))
  }

  function ArgText(a: (string, string)): string
  {
    a.0 + ": " + a.1
  }

  /** `, name: value` for each argument after the first. */
  function MoreArgs(args: seq<(string, string)>): string
  {
    if args == [] then "" else ", " + ArgText(args[0]) + MoreArgs(args[1..])
  }

  function ArgList(args: seq<(string, string)>): string
  {
    if args == [] then "()" else "(" + ArgText(args[0]) + MoreArgs(args[1..]) + ")"
  }

  function WithoutNulls(args: seq<(string, string)>): (r: seq<(string, string)>)
    ensures forall i :: 0 <= i < |r| ==> r[i].1 != "null" && r[i] in args
  {
    if args == [] then []
    else (if args[0].1 == "null" then [] else [args[0]]) + WithoutNulls(args[1..])
  }

  /** A prefix in which no match starts is copied unchanged. */
  lemma ElideNullsKeepsPrefix(u: string, w: string)
    requires forall k :: 0 <= k < |u| ==> NullArgAt((u + w)[k..]) == 0
    ensures ElideNulls(u + w) == u + ElideNulls(w)
  {
    NoMatchFromAll(u + w, |u|);
    ElideKeepsUnmatched(u, w);
  }

  /** No match starts at any of the first n positions of s. */
  predicate NoMatchBefore(s: string, n: nat)
    decreases n
  {
    n == 0 || (s != [] && NullArgAt(s) == 0 && NoMatchBefore(s[1..], n - 1))
  }

  lemma {:induction false} NoMatchFromAll(s: string, n: nat)
    requires n <= |s| && forall k :: 0 <= k < n ==> NullArgAt(s[k..]) == 0
    ensures NoMatchBefore(s, n)
    decreases n
  {
    if n > 0 {
      assert s[0..] == s;
      forall k | 0 <= k < n - 1 ensures NullArgAt(s[1..][k..]) == 0 {
        assert s[1..][k..] == s[k + 1..];
      }
      NoMatchFromAll(s[1..], n - 1);
    }
  }

  lemma {:induction false} ElideKeepsUnmatched(u: string, w: string)
    requires NoMatchBefore(u + w, |u|)
    ensures ElideNulls(u + w) == u + ElideNulls(w)
    decreases |u|
  {
    if u != [] {
      var t := u[1..] + w;
      assert (u + w)[1..] == t;
      assert u + w == [u[0]] + t;
      ElideStep(u[0], t);
      ElideKeepsUnmatched(u[1..], w);
      ConcatAssoc([u[0]], u[1..], ElideNulls(w));
      assert [u[0]] + u[1..] == u;
    } else {
      assert u + w == w;
    }
  }

  lemma NameRunOfName(n: string, t: string)
    requires IsName(n) && (t == [] || !IsNameChar(t[0]))
    ensures NameRun(n + t) == |n|
    decreases |n|
  {
    var s := n + t;
    assert s[0] == n[0];
    assert s[1..] == n[1..] + t;
    if |n| > 1 {
      IsNameTail(n);
      NameRunOfName(n[1..], t);
    } else {
      assert n[1..] + t == t;
    }
  }

  lemma IsNameTail(n: string)
    requires IsName(n) && |n| > 1
    ensures IsName(n[1..])
  {
    forall i | 0 <= i < |n[1..]| ensures IsNameChar(n[1..][i]) { assert n[1..][i] == n[i + 1]; }
  }

  /** Where a value without colons is followed by `,`, `)` or nothing, no match starts
      inside the value. */
  lemma NoNullArgInValue(x: string, w: string)
    requires x != [] && ':' !in x && !IsNameChar(x[|x| - 1])
    requires w == [] || w[0] == ',' || w[0] == ')'
    ensures NullArgAt(x + w) == 0
  {
    var s := x + w;
    var c := if s[0] == ',' then 1 else 0;
    if |s| > c && s[c] == ' ' {
      if c + 1 < |x| {
        var t := s[c + 1..];
        assert t == x[c + 1..] + w;
        assert t[|x| - 1 - (c + 1)] == x[|x| - 1];
        var run := NameRun(t);
        assert c + 1 + run < |x|;
        assert s[c + 1 + run] == x[c + 1 + run] != ':';
      } else {
        assert s[c + 1..] == w;
      }
    }
  }

  /** One step of the scan where no match starts. */
  lemma ElideStep(c: char, t: string)
    requires NullArgAt([c] + t) == 0
    ensures ElideNulls([c] + t) == [c] + ElideNulls(t)
  {
    assert ([c] + t)[1..] == t;
  }

  /** A prefix without commas and spaces is copied unchanged. */
  lemma ElideKeepsWord(u: string, w: string)
    requires forall i :: 0 <= i < |u| ==> u[i] != ',' && u[i] != ' '
    ensures ElideNulls(u + w) == u + ElideNulls(w)
  {
    forall k | 0 <= k < |u| ensures NullArgAt((u + w)[k..]) == 0 {
      assert (u + w)[k..][0] == u[k];
    }
    ElideNullsKeepsPrefix(u, w);
  }

  lemma ElideKeepsValue(v: string, w: string)
    requires v == "null" || IsPlainValue(v)
    requires w == [] || w[0] == ',' || w[0] == ')'
    ensures ElideNulls(v + w) == v + ElideNulls(w)
  {
    if v == "null" {
      ElideKeepsWord(v, w);
    } else {
      forall k | 0 <= k < |v| ensures NullArgAt((v + w)[k..]) == 0 {
        assert (v + w)[k..] == v[k..] + w;
        assert v[k..][|v[k..]| - 1] == v[|v| - 1];
        NoNullArgInValue(v[k..], w);
      }
      ElideNullsKeepsPrefix(v, w);
    }
  }

  /** The space between a name and its value never starts a match. */
  lemma NoNullArgBeforeValue(v: string, w: string)
    requires v == "null" || IsPlainValue(v)
    requires w == [] || w[0] == ',' || w[0] == ')'
    ensures NullArgAt(" " + v + w) == 0
  {
    var s := " " + v + w;
    assert s[1..] == v + w;
    if v == "null" {
      NameRunOfName(v, w);
      if 11 <= |s| { assert s[5] == w[0]; }
    } else {
      assert s[1] == v[0];
    }
  }

  lemma ElideKeepsSpacedValue(v: string, w: string)
    requires v == "null" || IsPlainValue(v)
    requires w == [] || w[0] == ',' || w[0] == ')'
    ensures ElideNulls([' '] + (v + w)) == [' '] + (v + ElideNulls(w))
  {
    NoNullArgBeforeValue(v, w);
    assert " " + v + w == [' '] + (v + w);
    ElideStep(' ', v + w);
    ElideKeepsValue(v, w);
  }

  lemma ElideKeepsNameAndValue(n: string, v: string, w: string)
    requires IsName(n) && (v == "null" || IsPlainValue(v))
    requires w == [] || w[0] == ',' || w[0] == ')'
    ensures ElideNulls(n + ([':'] + ([' '] + (v + w)))) == n + ([':'] + ([' '] + (v + ElideNulls(w))))
  {
    var t2 := [' '] + (v + w);
    ElideKeepsWord(n, [':'] + t2);
    ElideKeepsWord([':'], t2);
    ElideKeepsSpacedValue(v, w);
  }

  lemma ArgTextParts(a: (string, string), w: string)
    ensures ArgText(a) + w == a.0 + ([':'] + ([' '] + (a.1 + w)))
  {
  }

  /** `name: value` followed by `,`, `)` or nothing is copied unchanged. */
  lemma ElideKeepsArgument(a: (string, string), w: string)
    requires IsName(a.0) && (a.1 == "null" || IsPlainValue(a.1))
    requires w == [] || w[0] == ',' || w[0] == ')'
    ensures ElideNulls(ArgText(a) + w) == ArgText(a) + ElideNulls(w)
  {
    ArgTextParts(a, w);
    ArgTextParts(a, ElideNulls(w));
    ElideKeepsNameAndValue(a.0, a.1, w);
  }

  /** The separator in front of a `null` argument starts a match covering the whole
      argument. */
  lemma SeparatorMatchesNull(n: string, w: string)
    requires IsName(n)
    requires w == [] || w[0] == ',' || w[0] == ')'
    ensures NullArgAt(", " + ArgText((n, "null")) + w) == |", " + ArgText((n, "null"))|
  {
    var s := ", " + ArgText((n, "null")) + w;
    assert s[2..] == n + (": null" + w);
    NameRunOfName(n, ": null" + w);
    assert NullTailAt(s, 2 + |n|);
  }

  /** Before any other argument, neither separator character starts a match. */
  lemma SeparatorKeepsValue(a: (string, string), w: string)
    requires IsName(a.0) && IsPlainValue(a.1)
    ensures NullArgAt(", " + ArgText(a) + w) == 0
    ensures NullArgAt(" " + ArgText(a) + w) == 0
  {
    var n, v := a.0, a.1;
    var s := ", " + ArgText(a) + w;
    assert s[2..] == n + (": " + v + w);
    NameRunOfName(n, ": " + v + w);
    assert s[4 + |n|] == v[0];
    var s' := " " + ArgText(a) + w;
    assert s'[1..] == n + (": " + v + w);
    assert s'[3 + |n|] == v[0];
  }

  lemma WellPrintedTail(args: seq<(string, string)>)
    requires WellPrinted(args) && args != []
    ensures WellPrinted(args[1..])
  {
    forall i | 0 <= i < |args[1..]| ensures IsName(args[1..][i].0) && (args[1..][i].1 == "null" || IsPlainValue(args[1..][i].1)) {
      assert args[1..][i] == args[i + 1];
    }
  }

  /** A match at the start is deleted and the scan resumes after it. */
  lemma ElideSkip(s: string)
    requires NullArgAt(s) > 0
    ensures ElideNulls(s) == ElideNulls(s[NullArgAt(s)..])
  {
  }

  lemma MoreArgsParts(args: seq<(string, string)>)
    requires args != []
    ensures MoreArgs(args) + ")" == [','] + ([' '] + (ArgText(args[0]) + (MoreArgs(args[1..]) + ")")))
    ensures MoreArgs(args) + ")" == (", " + ArgText(args[0])) + (MoreArgs(args[1..]) + ")")
  {
    var a, m := ArgText(args[0]), MoreArgs(args[1..]);
    var e := m + ")";
    assert MoreArgs(args) == (", " + a) + m;
    ConcatAssoc(", " + a, m, ")");
    ConcatAssoc(", ", a, e);
    assert ", " == [','] + [' '];
    ConcatAssoc([','], [' '], a + e);
  }

  lemma WithoutNullsCons(args: seq<(string, string)>)
    requires args != []
    ensures WithoutNulls(args) == if args[0].1 == "null" then WithoutNulls(args[1..]) else [args[0]] + WithoutNulls(args[1..])
  {
  }

  lemma SeparatorParts(a: (string, string), w: string)
    ensures ", " + ArgText(a) + w == [','] + ([' '] + (ArgText(a) + w))
    ensures " " + ArgText(a) + w == [' '] + (ArgText(a) + w)
  {
  }

  /** An argument with a value other than `null` is kept with its separator. */
  lemma ElideKeepsSeparatedArgument(a: (string, string), w: string)
    requires IsName(a.0) && IsPlainValue(a.1)
    requires w == [] || w[0] == ',' || w[0] == ')'
    ensures ElideNulls(", " + ArgText(a) + w) == ", " + ArgText(a) + ElideNulls(w)
  {
    SeparatorKeepsValue(a, w);
    SeparatorParts(a, w);
    SeparatorParts(a, ElideNulls(w));
    ElideStep(',', [' '] + (ArgText(a) + w));
    ElideStep(' ', ArgText(a) + w);
    ElideKeepsArgument(a, w);
  }

  lemma {:induction false} ElideMoreArgs(args: seq<(string, string)>)
    requires WellPrinted(args)
    ensures ElideNulls(MoreArgs(args) + ")") == MoreArgs(WithoutNulls(args)) + ")"
    decreases |args|
  {
    if args == [] {
      assert ElideNulls(")") == ")";
    } else {
      var a := args[0];
      var w := MoreArgs(args[1..]) + ")";
      assert IsName(a.0) && (a.1 == "null" || IsPlainValue(a.1));
      WellPrintedTail(args);
      ElideMoreArgs(args[1..]);
      assert w[0] == ',' || w[0] == ')';
      MoreArgsParts(args);
      WithoutNullsCons(args);
      if a.1 == "null" {
        var s := (", " + ArgText(a)) + w;
        SeparatorMatchesNull(a.0, w);
        ElideSkip(s);
        assert s[|", " + ArgText(a)|..] == w;
      } else {
        ElideKeepsSeparatedArgument(a, w);
        MoreArgsParts(WithoutNulls(args));
      }
    }
  }

  /** Null elision deletes exactly the null-valued arguments after the first one of a
      printed argument list; the first argument, which has no separator in front of
      it, is always kept. */
  lemma ElideNullArguments(args: seq<(string, string)>)
    requires WellPrinted(args) && args != []
    ensures ElideNulls(ArgList(args)) == "(" + ArgText(args[0]) + MoreArgs(WithoutNulls(args[1..])) + ")"
  {
    var a := args[0];
    var w := MoreArgs(args[1..]) + ")";
    ArgListParts(args, MoreArgs(WithoutNulls(args[1..])));
    assert IsName(a.0) && (a.1 == "null" || IsPlainValue(a.1));
    WellPrintedTail(args);
    ElideMoreArgs(args[1..]);
    assert w[0] == ',' || w[0] == ')';
    ElideStep('(', ArgText(a) + w);
    ElideKeepsArgument(a, w);
  }

  lemma ArgListParts(args: seq<(string, string)>, m: string)
    requires args != []
    ensures ArgList(args) == ['('] + (ArgText(args[0]) + (MoreArgs(args[1..]) + ")"))
    ensures "(" + ArgText(args[0]) + m + ")" == ['('] + (ArgText(args[0]) + (m + ")"))
  {
  }

  // ---------------------------------------------------------------------------
  // The count field. Its argument is Python's repr of `item.filter` (a dictionary
  // from key to list of strings), with the outer braces removed, every quoted
  // `[_a-z]+` word unquoted and the remaining single quotes turned into double
  // quotes. For keys and values without quotes, backslashes or line breaks, the net
  // effect is: a `[_a-z]+` word stands bare, anything else in double quotes.

  function CountToken(x: string): string
  {
    if IsName(x) then x else "\"" + x + "\""
  }

  /** Items joined with `, `. */
  function Join(xs: seq<string>): string
  {
    if xs == [] then "" else if |xs| == 1 then xs[0] else xs[0] + ", " + Join(xs[1..])
  }

  function CountEntry(e: (string, seq<string>)): string
  {
    CountToken(e.0) + ": [" + Join(seq(|e.1|, i requires 0 <= i < |e.1| => CountToken(e.1[i]))) + "]"
  }

  function CountArguments(filter: Dict<string, seq<string>>): string
  {
    Join(seq(|filter|, i requires 0 <= i < |filter| => CountEntry(filter[i])))
  }

  /** `total: _<node>_count`, with the filter as its argument when there is one. */
  function CountField(node: string, filter: Dict<string, seq<string>>): string
  {
    if filter == [] then "total: _" + node + "_count"
    else "total: _" + node + "_count(" + CountArguments(filter) + ")"
  }
}
