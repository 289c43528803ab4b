/** String operations the gateway borrows from Python: ASCII character classes,
    `in` on strings, `re.sub` with a literal pattern, `str.split(sep)[0]`,
    `str.title()` and the ordering `<` on `str`. Strings are sequences of
    characters; only ASCII letters and digits have a case or a class. */
module Text {

  predicate IsLower(c: char) { 'a' <= c <= 'z' }
  predicate IsUpper(c: char) { 'A' <= c <= 'Z' }
  predicate IsLetter(c: char) { IsLower(c) || IsUpper(c) }
  predicate IsDigit(c: char) { '0' <= c <= '9' }
  predicate IsAlnum(c: char) { IsLetter(c) || IsDigit(c) }

  function ToLower(c: char): (d: char)
    ensures IsLetter(c) <==> IsLetter(d)
    ensures IsLetter(c) ==> IsLower(d)
    ensures !IsUpper(c) ==> d == c
  {
    if IsUpper(c) then (c as int + 32) as char else c
  }

  function ToUpper(c: char): (d: char)
    ensures IsLetter(c) <==> IsLetter(d)
    ensures IsLetter(c) ==> IsUpper(d)
    ensures !IsLower(c) ==> d == c
  {
    if IsLower(c) then (c as int - 32) as char else c
  }

  /** Upper and lower case of a letter determine each other. */
  lemma CaseOfLetter(c: char, d: char)
    requires IsLetter(c) && IsLetter(d)
    ensures ToLower(c) == ToLower(d) <==> ToUpper(c) == ToUpper(d)
    ensures ToLower(ToUpper(c)) == ToLower(c) && ToUpper(ToLower(c)) == ToUpper(c)
  {
  }

  function LowerAll(s: string): (r: string)
    ensures |r| == |s|
    ensures forall i :: 0 <= i < |s| ==> r[i] == ToLower(s[i])
  {
    seq(|s|, i requires 0 <= i < |s| => ToLower(s[i]))
  }

  // ---------------------------------------------------------------------------
  // Substrings: Python's `p in s`

  predicate OccursAt(s: string, p: string, i: int)
  {
    0 <= i && i + |p| <= |s| && s[i..i + |p|] == p
  }

  predicate Contains(s: string, p: string)
    decreases |s|
  {
    if |s| < |p| then false
    else s[..|p|] == p || (s != [] && Contains(s[1..], p))
  }

  /** `p in s` holds exactly when p occurs at some position of s. */
  lemma {:induction false} ContainsIff(s: string, p: string)
    ensures Contains(s, p) <==> exists i :: OccursAt(s, p, i)
    decreases |s|
  {
    if |s| < |p| {
      assert forall i :: !OccursAt(s, p, i);
    } else if s[..|p|] == p {
      assert OccursAt(s, p, 0);
    } else {
      ContainsIff(s[1..], p);
      if Contains(s[1..], p) {
        var i :| OccursAt(s[1..], p, i);
        OccursInTail(s, p, i);
      }
      if exists i :: OccursAt(s, p, i) {
        var i :| OccursAt(s, p, i);
        assert i != 0;
        assert s[1..][i - 1..i - 1 + |p|] == s[i..i + |p|];
        assert OccursAt(s[1..], p, i - 1);
      }
    }
  }

  lemma OccursThenContains(s: string, p: string, i: int)
    requires OccursAt(s, p, i)
    ensures Contains(s, p)
  {
    ContainsIff(s, p);
  }

  lemma OccursInTail(s: string, p: string, i: int)
    requires s != [] && OccursAt(s[1..], p, i)
    ensures OccursAt(s, p, i + 1)
  {
    assert s[i + 1..i + 1 + |p|] == s[1..][i..i + |p|];
  }

  lemma OccursInSuffix(s: string, k: nat, p: string, i: int)
    requires k <= |s| && OccursAt(s[k..], p, i)
    ensures OccursAt(s, p, i + k)
  {
    assert s[i + k..i + k + |p|] == s[k..][i..i + |p|];
  }

  // ---------------------------------------------------------------------------
  // `re.sub(p, r, s)` for a pattern p without regular-expression metacharacters:
  // scan left to right, replace each match and resume after it.

  function ReplaceAll(s: string, p: string, r: string): string
    requires p != []
    decreases |s|
  {
    if |s| < |p| then s
    else if s[..|p|] == p then r + ReplaceAll(s[|p|..], p, r)
    else [s[0]] + ReplaceAll(s[1..], p, r)
  }

  /** A text without the pattern is left as it is, so a guard `if p in s:` in front
      of the substitution never changes the outcome. */
  lemma {:induction false} ReplaceAllAbsent(s: string, p: string, r: string)
    requires p != []
    requires !Contains(s, p)
    ensures ReplaceAll(s, p, r) == s
    decreases |s|
  {
    if |s| >= |p| {
      ReplaceAllAbsent(s[1..], p, r);
    }
  }

  /** A match at the start is replaced and the scan resumes right after it. */
  lemma {:induction false} ReplaceAllPrefix(p: string, r: string, rest: string)
    requires p != []
    ensures ReplaceAll(p + rest, p, r) == r + ReplaceAll(rest, p, r)
  {
    assert (p + rest)[..|p|] == p;
    assert (p + rest)[|p|..] == rest;
  }

  /** When p occurs in u + p only at the very end, the replacement rewrites just that
      last occurrence. */
  lemma {:induction false} ReplaceAllSuffix(u: string, p: string, r: string)
    requires p != []
    requires forall k :: 0 <= k < |u| ==> !OccursAt(u + p, p, k)
    ensures ReplaceAll(u + p, p, r) == u + r
    decreases |u|
  {
    if u == [] {
      assert u + p == p + [];
      ReplaceAllPrefix(p, r, []);
      assert ReplaceAll([], p, r) == [];
    } else {
      ReplaceAllSuffixShift(u, p, r);
      ReplaceAllSuffix(u[1..], p, r);
      assert [u[0]] + (u[1..] + r) == u + r;
    }
  }

  lemma ReplaceAllSuffixShift(u: string, p: string, r: string)
    requires p != [] && u != []
    requires forall k :: 0 <= k < |u| ==> !OccursAt(u + p, p, k)
    ensures ReplaceAll(u + p, p, r) == [u[0]] + ReplaceAll(u[1..] + p, p, r)
    ensures forall k :: 0 <= k < |u[1..]| ==> !OccursAt(u[1..] + p, p, k)
  {
    var s, t := u + p, u[1..] + p;
    assert !OccursAt(s, p, 0);
    assert s[0..|p|] == s[..|p|];
    assert s[1..] == t;
    forall k | 0 <= k < |u[1..]| ensures !OccursAt(t, p, k) {
      if OccursAt(t, p, k) { OccursInTail(s, p, k); }
    }
  }

  /** a can be obtained from b by deleting elements. */
  predicate IsSubsequence<T(==)>(a: seq<T>, b: seq<T>)
    decreases |b|
  {
    a == [] || (b != [] && ((a[0] == b[0] && IsSubsequence(a[1..], b[1..])) || IsSubsequence(a, b[1..])))
  }

  /** Appending an element to b keeps a subsequence of b one, whether or not the
      element is appended to a as well. */
  lemma {:induction false} SubsequenceSnoc<T>(a: seq<T>, b: seq<T>, x: T)
    requires IsSubsequence(a, b)
    ensures IsSubsequence(a, b + [x]) && IsSubsequence(a + [x], b + [x])
    decreases |b|
  {
    if b == [] {
      assert a == [] && a + [x] == [x] && b + [x] == [x];
      assert [x][1..] == [];
    } else {
      assert (b + [x])[0] == b[0] && (b + [x])[1..] == b[1..] + [x];
      if a == [] {
        SubsequenceSnoc(a, b[1..], x);
        assert a + [x] == [x];
      } else if a[0] == b[0] && IsSubsequence(a[1..], b[1..]) {
        SubsequenceSnoc(a[1..], b[1..], x);
        assert (a + [x])[0] == a[0] && (a + [x])[1..] == a[1..] + [x];
      } else {
        SubsequenceSnoc(a, b[1..], x);
      }
    }
  }

  lemma ConcatAssoc<T>(a: seq<T>, b: seq<T>, c: seq<T>)
    ensures (a + b) + c == a + (b + c)
  {
  }

  /** Every character of p appears in a text that contains p. */
  lemma ContainsHasChars(s: string, p: string, j: int)
    requires Contains(s, p) && 0 <= j < |p|
    ensures p[j] in s
  {
    ContainsIff(s, p);
    var i :| OccursAt(s, p, i);
    assert s[i + j] == s[i..i + |p|][j];
  }

  // ---------------------------------------------------------------------------
  // `s.split(sep)[0]`

  function Before(s: string, sep: char): (r: string)
    ensures |r| <= |s| && r == s[..|r|]
    ensures sep !in r
    ensures |r| < |s| ==> s[|r|] == sep
  {
    if s == [] then []
    else if s[0] == sep then []
    else [s[0]] + Before(s[1..], sep)
  }

  // ---------------------------------------------------------------------------
  // `str.title()` on ASCII text: a letter is upper-cased when it starts the text
  // or follows a character that is not a letter, and lower-cased otherwise.

  function TitleFrom(s: string, afterLetter: bool): (r: string)
    ensures |r| == |s|
  {
    if s == [] then []
    else
      var c := s[0];
      var t := if !IsLetter(c) then c else if afterLetter then ToLower(c) else ToUpper(c);
      [t] + TitleFrom(s[1..], IsLetter(c))
  }

  function Title(s: string): (r: string)
    ensures |r| == |s|
  {
    TitleFrom(s, false)
  }

  /** The case `str.title()` gives the character at position i of s. */
  function TitleCharAt(s: string, i: nat): char
    requires i < |s|
  {
    if !IsLetter(s[i]) then s[i]
    else if i > 0 && IsLetter(s[i - 1]) then ToLower(s[i])
    else ToUpper(s[i])
  }

  lemma {:induction false} TitleFromAt(s: string, b: bool, i: nat)
    requires i < |s|
    ensures TitleFrom(s, b)[i] ==
      if !IsLetter(s[i]) then s[i]
      else if (i > 0 && IsLetter(s[i - 1])) || (i == 0 && b) then ToLower(s[i])
      else ToUpper(s[i])
    decreases i
  {
    if i > 0 {
      TitleFromAt(s[1..], IsLetter(s[0]), i - 1);
    }
  }

  lemma TitleAt(s: string, i: nat)
    requires i < |s|
    ensures Title(s)[i] == TitleCharAt(s, i)
  {
    TitleFromAt(s, false, i);
  }

  /** Two raw values get the same title-cased label exactly when they are equal
      ignoring case: the label is a function of the lower-cased text, and lower-casing
      the label gives back the lower-cased text. */
  lemma TitleSameIffLowerSame(s: string, t: string)
    ensures Title(s) == Title(t) <==> LowerAll(s) == LowerAll(t)
  {
    if Title(s) == Title(t) {
      forall i | 0 <= i < |s| ensures LowerAll(s)[i] == LowerAll(t)[i] {
        TitleAt(s, i);
        TitleAt(t, i);
        assert Title(s)[i] == Title(t)[i];
        if IsLetter(s[i]) { CaseOfLetter(s[i], s[i]); }
        if IsLetter(t[i]) { CaseOfLetter(t[i], t[i]); }
      }
    }
    if LowerAll(s) == LowerAll(t) {
      assert |s| == |t|;
      forall i | 0 <= i < |s| ensures Title(s)[i] == Title(t)[i] {
        TitleAt(s, i);
        TitleAt(t, i);
        assert LowerAll(s)[i] == LowerAll(t)[i];
        assert IsLetter(s[i]) <==> IsLetter(t[i]);
        if i > 0 {
          assert LowerAll(s)[i - 1] == LowerAll(t)[i - 1];
          assert IsLetter(s[i - 1]) <==> IsLetter(t[i - 1]);
        }
        if IsLetter(s[i]) { CaseOfLetter(s[i], t[i]); }
      }
    }
  }

  /** A label is already in title case. */
  lemma TitleIdempotent(s: string)
    ensures Title(Title(s)) == Title(s)
  {
    var t := Title(s);
    forall i | 0 <= i < |s| ensures Title(t)[i] == t[i] {
      TitleAt(t, i);
      TitleAt(s, i);
      if i > 0 { TitleAt(s, i - 1); }
      if IsLetter(s[i]) { CaseOfLetter(s[i], s[i]); }
    }
  }

  // ---------------------------------------------------------------------------
  // Python's `<` on `str`: lexicographic by code point.

  predicate LexLess(a: string, b: string)
  {
    if a == [] then b != []
    else if b == [] then false
    else if a[0] != b[0] then a[0] < b[0]
    else LexLess(a[1..], b[1..])
  }

  lemma {:induction false} LexLessIrreflexive(a: string)
    ensures !LexLess(a, a)
  {
    if a != [] { LexLessIrreflexive(a[1..]); }
  }

  lemma {:induction false} LexLessAsymmetric(a: string, b: string)
    requires LexLess(a, b)
    ensures !LexLess(b, a)
  {
    if a != [] && b != [] && a[0] == b[0] { LexLessAsymmetric(a[1..], b[1..]); }
  }

  lemma {:induction false} LexLessTransitive(a: string, b: string, c: string)
    requires LexLess(a, b) && LexLess(b, c)
    ensures LexLess(a, c)
  {
    if a != [] && b != [] && c != [] && a[0] == b[0] && b[0] == c[0] {
      LexLessTransitive(a[1..], b[1..], c[1..]);
    }
  }

  lemma {:induction false} LexLessTotal(a: string, b: string)
    requires a != b
    ensures LexLess(a, b) || LexLess(b, a)
  {
    if a != [] && b != [] && a[0] == b[0] {
      assert a == [a[0]] + a[1..] && b == [b[0]] + b[1..];
      LexLessTotal(a[1..], b[1..]);
    }
  }
}
