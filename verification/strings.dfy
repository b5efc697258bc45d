/** ASCII string utilities mirroring the Python `str` operations the assistant
    relies on: case mapping, substring tests, `strip`, `replace`, `re.split`
    on a character class, and `sorted(set(...))` under Python's code-point
    order. Only ASCII behaviour is modelled. */
module Strings {

  /** `str.isspace()` restricted to ASCII: tab, line feed, vertical tab, form
      feed, carriage return, the four information separators and space. This
      is also the set `\s` matches in a `str` pattern. */
  predicate IsSpace(c: char) {
    c == ' ' || ('\t' <= c <= '\r') || ('\U{1C}' <= c <= '\U{1F}')
  }

  predicate IsAsciiUpper(c: char) { 'A' <= c <= 'Z' }
  predicate IsAsciiLower(c: char) { 'a' <= c <= 'z' }
  predicate IsAsciiLetter(c: char) { IsAsciiUpper(c) || IsAsciiLower(c) }
  predicate IsDigit(c: char) { '0' <= c <= '9' }

  /** A regex word character (`\w`) restricted to ASCII. */
  predicate IsWordChar(c: char) { IsAsciiLetter(c) || IsDigit(c) || c == '_' }

  function LowerChar(c: char): (d: char)
    ensures !IsAsciiUpper(d)
    ensures IsAsciiUpper(c) ==> IsAsciiLower(d)
    ensures !IsAsciiUpper(c) ==> d == c
  {
    if IsAsciiUpper(c) then (c as int + 32) as char else c
  }

  function UpperChar(c: char): (d: char)
    ensures !IsAsciiLower(d)
    ensures IsAsciiLower(c) ==> IsAsciiUpper(d)
    ensures !IsAsciiLower(c) ==> d == c
  {
    if IsAsciiLower(c) then (c as int - 32) as char else c
  }

  /** `s.lower()` on ASCII text. */
  function Lower(s: string): (r: string)
    ensures |r| == |s|
    ensures forall i | 0 <= i < |s| :: r[i] == LowerChar(s[i])
  {
    if |s| == 0 then [] else [LowerChar(s[0])] + Lower(s[1..])
  }

  /** `s.upper()` on ASCII text. */
  function Upper(s: string): (r: string)
    ensures |r| == |s|
    ensures forall i | 0 <= i < |s| :: r[i] == UpperChar(s[i])
  {
    if |s| == 0 then [] else [UpperChar(s[0])] + Upper(s[1..])
  }

  predicate NoUpper(s: string) { forall i | 0 <= i < |s| :: !IsAsciiUpper(s[i]) }
  predicate NoLower(s: string) { forall i | 0 <= i < |s| :: !IsAsciiLower(s[i]) }

  lemma LowerIsLowercase(s: string)
    ensures NoUpper(Lower(s))
  {
  }

  /** Lowercasing distributes over concatenation. */
  lemma LowerConcat(a: string, b: string)
    ensures Lower(a + b) == Lower(a) + Lower(b)
  {
    assert forall i | 0 <= i < |a + b| :: Lower(a + b)[i] == (Lower(a) + Lower(b))[i];
  }

  /** Lowercasing text that has no upper-case letter changes nothing. */
  lemma LowerOfLowercase(s: string)
    requires NoUpper(s)
    ensures Lower(s) == s
  {
  }

  lemma UpperOfUppercase(s: string)
    requires NoLower(s)
    ensures Upper(s) == s
  {
  }

  /** `s.startswith(p)`, written character by character. */
  predicate PrefixOf(p: string, s: string) {
    |p| == 0 || (|s| > 0 && p[0] == s[0] && PrefixOf(p[1..], s[1..]))
  }

  lemma {:induction false} PrefixOfIff(p: string, s: string)
    ensures PrefixOf(p, s) <==> |p| <= |s| && s[..|p|] == p
  {
    if |p| > 0 && |s| > 0 {
      PrefixOfIff(p[1..], s[1..]);
      if |p| <= |s| && s[..|p|] == p {
        assert s[1..][..|p| - 1] == p[1..];
      }
      if PrefixOf(p, s) {
        assert s[..|p|] == [s[0]] + s[1..][..|p| - 1];
      }
    }
  }

  /** `s.startswith(p)`, as a slice comparison. */
  predicate StartsWith(s: string, p: string) {
    |p| <= |s| && s[..|p|] == p
  }

  /** `needle in hay` for Python strings. */
  predicate Contains(hay: string, needle: string) {
    PrefixOf(needle, hay) || (|hay| > 0 && Contains(hay[1..], needle))
  }

  /** The needle occurs at position `i` of the haystack. */
  predicate OccursAt(hay: string, needle: string, i: int) {
    0 <= i && i + |needle| <= |hay| && hay[i..i + |needle|] == needle
  }

  /** An occurrence in the tail is an occurrence one place further on. */
  lemma OccursShift(hay: string, needle: string, i: int)
    requires |hay| > 0 && OccursAt(hay[1..], needle, i)
    ensures OccursAt(hay, needle, i + 1)
  {
    assert hay[1..][i..i + |needle|] == hay[i + 1..i + 1 + |needle|];
  }

  /** An occurrence past the first place is an occurrence in the tail. */
  lemma OccursUnshift(hay: string, needle: string, i: int)
    requires i > 0 && OccursAt(hay, needle, i)
    ensures OccursAt(hay[1..], needle, i - 1)
  {
    assert hay[1..][i - 1..i - 1 + |needle|] == hay[i..i + |needle|];
  }

  lemma {:induction false} ContainsAt(hay: string, needle: string, i: int)
    requires OccursAt(hay, needle, i)
    ensures Contains(hay, needle)
    decreases i
  {
    if i == 0 {
      PrefixOfIff(needle, hay);
    } else {
      OccursUnshift(hay, needle, i);
      ContainsAt(hay[1..], needle, i - 1);
    }
  }

  lemma {:induction false} ContainsSomewhere(hay: string, needle: string)
    requires Contains(hay, needle)
    ensures exists i :: OccursAt(hay, needle, i)
  {
    if PrefixOf(needle, hay) {
      PrefixOfIff(needle, hay);
      assert OccursAt(hay, needle, 0);
    } else {
      ContainsSomewhere(hay[1..], needle);
      var i :| OccursAt(hay[1..], needle, i);
      OccursShift(hay, needle, i);
    }
  }

  lemma ContainsIff(hay: string, needle: string)
    ensures Contains(hay, needle) <==> exists i :: OccursAt(hay, needle, i)
  {
    if Contains(hay, needle) {
      ContainsSomewhere(hay, needle);
    }
    if exists i :: OccursAt(hay, needle, i) {
      var i :| OccursAt(hay, needle, i);
      ContainsAt(hay, needle, i);
    }
  }

  /** An occurrence recognised character by character. */
  lemma ContainsByChars(hay: string, needle: string, i: nat)
    requires i + |needle| <= |hay|
    requires forall k | 0 <= k < |needle| :: hay[i + k] == needle[k]
    ensures Contains(hay, needle)
  {
    assert hay[i..i + |needle|] == needle;
    ContainsAt(hay, needle, i);
  }

  /** Substring containment is transitive. */
  lemma ContainsTransitive(a: string, b: string, c: string)
    requires Contains(a, b) && Contains(b, c)
    ensures Contains(a, c)
  {
    ContainsIff(a, b);
    ContainsIff(b, c);
    var i :| OccursAt(a, b, i);
    var j :| OccursAt(b, c, j);
    forall t | 0 <= t < |c| ensures a[i + j + t] == c[t] {
      assert c[t] == b[j..j + |c|][t] == b[j + t];
      assert b[j + t] == a[i..i + |b|][j + t];
    }
    assert a[i + j..i + j + |c|] == c;
    ContainsAt(a, c, i + j);
  }

  /** An occurrence at `i` fixes the haystack's character at `i + k`. */
  lemma OccursAtIndex(hay: string, needle: string, i: int, k: int)
    requires OccursAt(hay, needle, i) && 0 <= k < |needle|
    ensures hay[i + k] == needle[k]
  {
    assert hay[i..i + |needle|][k] == hay[i + k];
  }

  /** A needle holding a character the haystack lacks cannot occur in it. */
  lemma AbsentChar(hay: string, needle: string, c: char)
    requires c in needle && c !in hay
    ensures !Contains(hay, needle)
  {
    ContainsIff(hay, needle);
    var k :| 0 <= k < |needle| && needle[k] == c;
    forall i ensures !OccursAt(hay, needle, i) {
      if OccursAt(hay, needle, i) {
        OccursAtIndex(hay, needle, i, k);
      }
    }
  }

  /** A needle holding a character outside the haystack's alphabet does
      not occur in it. The alphabet is a set of code points, which keeps
      the comparisons integer ones. */
  lemma AbsentOutside(hay: string, needle: string, k: nat, alphabet: set<int>)
    requires k < |needle| && needle[k] as int !in alphabet
    requires forall i | 0 <= i < |hay| :: hay[i] as int in alphabet
    ensures !Contains(hay, needle)
  {
    AbsentChar(hay, needle, needle[k]);
  }

  /** A needle cannot occur where its first and its `m`-th characters are
      never both in place. */
  lemma AbsentPair(hay: string, needle: string, m: nat)
    requires 0 < m < |needle|
    requires forall k | 0 <= k && k + |needle| <= |hay| :: hay[k] != needle[0] || hay[k + m] != needle[m]
    ensures !Contains(hay, needle)
  {
    ContainsIff(hay, needle);
    forall i ensures !OccursAt(hay, needle, i) {
      if OccursAt(hay, needle, i) {
        OccursAtIndex(hay, needle, i, 0);
        OccursAtIndex(hay, needle, i, m);
      }
    }
  }

  /** An occurrence of a needle without the character `sep` lies wholly on
      one side of a `sep` in the haystack. */
  lemma SplitAtSeparator(a: string, sep: char, b: string, needle: string)
    requires sep !in needle
    requires Contains(a + [sep] + b, needle)
    ensures Contains(a, needle) || Contains(b, needle)
  {
    var h := a + [sep] + b;
    ContainsIff(h, needle);
    var i :| OccursAt(h, needle, i);
    if i + |needle| <= |a| {
      assert a[i..i + |needle|] == h[i..i + |needle|];
      ContainsAt(a, needle, i);
    } else if i > |a| {
      var o := i - |a| - 1;
      assert b[o..o + |needle|] == h[i..i + |needle|];
      ContainsAt(b, needle, o);
    } else {
      OccursAtIndex(h, needle, i, |a| - i);
      assert false;
    }
  }

  /** Number of leading whitespace characters. */
  function LeadingSpace(s: string): (n: nat)
    ensures n <= |s|
    ensures forall k | 0 <= k < n :: IsSpace(s[k])
    ensures n < |s| ==> !IsSpace(s[n])
  {
    if |s| > 0 && IsSpace(s[0]) then 1 + LeadingSpace(s[1..]) else 0
  }

  /** Length of `s` once trailing whitespace is removed. */
  function TrailingEnd(s: string): (n: nat)
    ensures n <= |s|
    ensures forall k | n <= k < |s| :: IsSpace(s[k])
    ensures n > 0 ==> !IsSpace(s[n - 1])
  {
    if |s| > 0 && IsSpace(s[|s| - 1]) then TrailingEnd(s[..|s| - 1]) else |s|
  }

  predicate Stripped(s: string) {
    |s| == 0 || (!IsSpace(s[0]) && !IsSpace(s[|s| - 1]))
  }

  /** `s.strip()`: the text between the leading and trailing whitespace. */
  function Strip(s: string): (r: string)
    ensures Stripped(r)
    ensures |r| <= |s|
    ensures |r| == 0 <==> forall k | 0 <= k < |s| :: IsSpace(s[k])
    ensures Stripped(s) ==> r == s
    ensures forall k | 0 <= k < |r| :: r[k] in s
  {
    var e := TrailingEnd(s);
    var b := LeadingSpace(s[..e]);
    assert forall k | 0 <= k < b :: IsSpace(s[k]) by {
      forall k | 0 <= k < b ensures IsSpace(s[k]) {
        assert s[..e][k] == s[k];
      }
    }
    assert b < e ==> !IsSpace(s[b]) by {
      if b < e { assert s[..e][b] == s[b]; }
    }
    s[b..e]
  }

  /** `s.replace(a, b)` for single characters. */
  function ReplaceChar(s: string, a: char, b: char): (r: string)
    ensures |r| == |s|
    ensures forall i | 0 <= i < |s| :: r[i] == (if s[i] == a then b else s[i])
  {
    if |s| == 0 then [] else [if s[0] == a then b else s[0]] + ReplaceChar(s[1..], a, b)
  }

  /** `s.replace(pat, repl)`: non-overlapping occurrences, left to right. */
  function ReplaceAll(s: string, pat: string, repl: string): (r: string)
    requires |pat| > 0
    decreases |s|
  {
    if |s| == 0 then []
    else if PrefixOf(pat, s) then (PrefixOfIff(pat, s); repl + ReplaceAll(s[|pat|..], pat, repl))
    else [s[0]] + ReplaceAll(s[1..], pat, repl)
  }

  /** Replacing a pattern that never occurs is the identity. */
  lemma {:induction false} ReplaceAllAbsent(s: string, pat: string, repl: string)
    requires |pat| > 0 && !Contains(s, pat)
    ensures ReplaceAll(s, pat, repl) == s
  {
    if |s| > 0 {
      ReplaceAllAbsent(s[1..], pat, repl);
    }
  }

  /** A replacement never introduces a character that neither the text nor
      the replacement holds. */
  lemma {:induction false} ReplaceAllChars(s: string, pat: string, repl: string, c: char)
    requires |pat| > 0 && c !in s && c !in repl
    ensures c !in ReplaceAll(s, pat, repl)
  {
    if |s| > 0 {
      if PrefixOf(pat, s) {
        PrefixOfIff(pat, s);
        ReplaceAllChars(s[|pat|..], pat, repl, c);
      } else {
        ReplaceAllChars(s[1..], pat, repl, c);
      }
    }
  }

  /** A replacement keeps the first character when no match starts with it. */
  lemma ReplaceAllFirst(s: string, pat: string, repl: string)
    requires |pat| > 0 && |s| > 0 && s[0] != pat[0]
    ensures |ReplaceAll(s, pat, repl)| > 0 && ReplaceAll(s, pat, repl)[0] == s[0]
  {
  }

  /** A replacement keeps the last character when no match can end with
      it. */
  lemma {:induction false} ReplaceAllLast(s: string, pat: string, repl: string)
    requires |pat| > 0 && |repl| > 0 && |s| > 0 && s[|s| - 1] != pat[|pat| - 1]
    ensures var r := ReplaceAll(s, pat, repl); |r| > 0 && r[|r| - 1] == s[|s| - 1]
    decreases |s|
  {
    var r := ReplaceAll(s, pat, repl);
    if PrefixOf(pat, s) {
      PrefixOfIff(pat, s);
      if |s| > |pat| {
        var t := s[|pat|..];
        ReplaceAllLast(t, pat, repl);
        assert t[|t| - 1] == s[|s| - 1];
        assert r == repl + ReplaceAll(t, pat, repl);
      }
    } else if |s| > 1 {
      var t := s[1..];
      ReplaceAllLast(t, pat, repl);
      assert r == [s[0]] + ReplaceAll(t, pat, repl);
    }
  }

  /** A replacement passes over text that cannot start a match. */
  lemma {:induction false} ReplaceAllSkip(w: string, rest: string, pat: string, repl: string)
    requires |pat| > 0
    requires forall i | 0 <= i < |w| :: w[i] != pat[0]
    ensures ReplaceAll(w + rest, pat, repl) == w + ReplaceAll(rest, pat, repl)
    decreases |w|
  {
    if |w| == 0 {
      assert w + rest == rest;
    } else {
      var s := w + rest;
      assert s[0] == w[0];
      assert !PrefixOf(pat, s);
      assert ReplaceAll(s, pat, repl) == [s[0]] + ReplaceAll(s[1..], pat, repl);
      assert s[1..] == w[1..] + rest;
      ReplaceAllSkip(w[1..], rest, pat, repl);
      assert w == [w[0]] + w[1..];
    }
  }

  /** A match at the start is replaced and the scan resumes after it. */
  lemma ReplaceAllAtStart(pat: string, rest: string, repl: string)
    requires |pat| > 0
    ensures ReplaceAll(pat + rest, pat, repl) == repl + ReplaceAll(rest, pat, repl)
  {
    var s := pat + rest;
    assert s[..|pat|] == pat;
    PrefixOfIff(pat, s);
    assert s[|pat|..] == rest;
  }

  /** Index of the first character of `s` that is in `seps`, or `|s|`. */
  function FirstIndexIn(s: string, seps: set<char>): (k: nat)
    ensures k <= |s|
    ensures forall i | 0 <= i < k :: s[i] !in seps
    ensures k < |s| ==> s[k] in seps
  {
    if |s| == 0 || s[0] in seps then 0 else 1 + FirstIndexIn(s[1..], seps)
  }

  predicate FreeOf(s: string, seps: set<char>) {
    forall i | 0 <= i < |s| :: s[i] !in seps
  }

  /** `re.split("[...]", s)` for a character class: the maximal runs between
      separators, empty runs included. */
  function SplitOn(s: string, seps: set<char>): (r: seq<string>)
    ensures |r| >= 1
    ensures forall p | p in r :: FreeOf(p, seps)
    decreases |s|
  {
    var k := FirstIndexIn(s, seps);
    if k == |s| then [s] else [s[..k]] + SplitOn(s[k + 1..], seps)
  }

  /** `sep.join(ps)` for a one-character separator. */
  function Join(ps: seq<string>, sep: char): string
    requires |ps| >= 1
  {
    if |ps| == 1 then ps[0] else ps[0] + [sep] + Join(ps[1..], sep)
  }

  /** Splitting undoes joining when no piece holds the separator. */
  lemma {:induction false} SplitJoin(ps: seq<string>, sep: char, seps: set<char>)
    requires |ps| >= 1 && sep in seps
    requires forall p | p in ps :: FreeOf(p, seps)
    ensures SplitOn(Join(ps, sep), seps) == ps
  {
    var s := Join(ps, sep);
    if |ps| == 1 {
      assert ps[0] in ps;
      assert FirstIndexIn(s, seps) == |s|;
    } else {
      var rest := Join(ps[1..], sep);
      assert s == ps[0] + [sep] + rest;
      var k := FirstIndexIn(s, seps);
      assert forall i | 0 <= i < |ps[0]| :: s[i] == ps[0][i];
      assert s[|ps[0]|] == sep;
      assert ps[0] in ps;
      assert k == |ps[0]|;
      assert s[..k] == ps[0];
      assert s[k + 1..] == rest;
      SplitJoin(ps[1..], sep, seps);
    }
  }

  // ----- Python's ordering of `str` values (code point by code point) -----

  predicate Less(a: string, b: string) {
    if |a| == 0 then |b| > 0
    else if |b| == 0 then false
    else a[0] < b[0] || (a[0] == b[0] && Less(a[1..], b[1..]))
  }

  lemma {:induction false} LessIrreflexive(a: string)
    ensures !Less(a, a)
  {
    if |a| > 0 { LessIrreflexive(a[1..]); }
  }

  lemma {:induction false} LessTransitive(a: string, b: string, c: string)
    requires Less(a, b) && Less(b, c)
    ensures Less(a, c)
  {
    if |a| > 0 && |b| > 0 && |c| > 0 && a[0] == b[0] == c[0] {
      LessTransitive(a[1..], b[1..], c[1..]);
    }
  }

  lemma {:induction false} LessTotal(a: string, b: string)
    requires a != b
    ensures Less(a, b) || Less(b, a)
  {
    if |a| > 0 && |b| > 0 && a[0] == b[0] {
      assert a == [a[0]] + a[1..] && b == [b[0]] + b[1..];
      LessTotal(a[1..], b[1..]);
    }
  }

  lemma LessAsymmetric(a: string, b: string)
    requires Less(a, b)
    ensures !Less(b, a)
  {
    if Less(b, a) {
      LessTransitive(a, b, a);
      LessIrreflexive(a);
    }
  }

  /** Strictly increasing: sorted and free of duplicates. */
  predicate StrictlySorted(xs: seq<string>) {
    forall i, j | 0 <= i < j < |xs| :: Less(xs[i], xs[j])
  }

  lemma StrictlySortedDistinct(xs: seq<string>, i: int, j: int)
    requires StrictlySorted(xs) && 0 <= i < j < |xs|
    ensures xs[i] != xs[j]
  {
    LessIrreflexive(xs[i]);
  }

  /** Inserts `x` into a strictly sorted list unless it is already there. */
  function Insert(x: string, xs: seq<string>): (r: seq<string>)
    requires StrictlySorted(xs)
    ensures StrictlySorted(r)
    ensures forall y :: y in r <==> y == x || y in xs
  {
    if |xs| == 0 then [x]
    else if x == xs[0] then xs
    else if Less(x, xs[0]) then
      assert forall j | 0 < j < |xs| :: Less(x, xs[j]) by {
        forall j | 0 < j < |xs| ensures Less(x, xs[j]) { LessTransitive(x, xs[0], xs[j]); }
      }
      [x] + xs
    else
      LessTotal(x, xs[0]);
      var t := Insert(x, xs[1..]);
      assert forall j | 0 <= j < |t| :: Less(xs[0], t[j]) by {
        forall j | 0 <= j < |t| ensures Less(xs[0], t[j]) {
          if t[j] != x {
            assert t[j] in t;
            assert t[j] in xs[1..];
            var k :| 0 <= k < |xs[1..]| && xs[1..][k] == t[j];
            assert xs[k + 1] == t[j];
          }
        }
      }
      [xs[0]] + t
  }

  /** `sorted(set(xs))`. */
  function SortedDistinct(xs: seq<string>): (r: seq<string>)
    ensures StrictlySorted(r)
    ensures forall y :: y in r <==> y in xs
  {
    if |xs| == 0 then [] else Insert(xs[|xs| - 1], SortedDistinct(xs[..|xs| - 1]))
  }

  /** Two strictly sorted lists with the same elements are the same list, so
      `sorted(set(...))` depends only on the set of its input. */
  lemma {:induction false} StrictlySortedUnique(xs: seq<string>, ys: seq<string>)
    requires StrictlySorted(xs) && StrictlySorted(ys)
    requires forall y :: y in xs <==> y in ys
    ensures xs == ys
  {
    if |xs| > 0 { assert xs[0] in xs; }
    if |ys| > 0 { assert ys[0] in ys; }
    if |xs| > 0 && |ys| > 0 {
      var k :| 0 <= k < |ys| && ys[k] == xs[0];
      var m :| 0 <= m < |xs| && xs[m] == ys[0];
      if k > 0 && m > 0 {
        LessAsymmetric(ys[0], ys[k]);
        assert false;
      }
      assert xs[0] == ys[0];
      forall y ensures y in xs[1..] <==> y in ys[1..] {
        if y in xs[1..] {
          var p :| 1 <= p < |xs| && xs[p] == y;
          StrictlySortedDistinct(xs, 0, p);
          assert y in ys;
          var q :| 0 <= q < |ys| && ys[q] == y;
          assert q != 0;
        }
        if y in ys[1..] {
          var p :| 1 <= p < |ys| && ys[p] == y;
          StrictlySortedDistinct(ys, 0, p);
          assert y in xs;
          var q :| 0 <= q < |xs| && xs[q] == y;
          assert q != 0;
        }
      }
      StrictlySortedUnique(xs[1..], ys[1..]);
    }
  }

  /** `sorted(set(xs))` is the identity on a list that is already strictly sorted. */
  lemma SortedDistinctOfSorted(xs: seq<string>)
    requires StrictlySorted(xs)
    ensures SortedDistinct(xs) == xs
  {
    StrictlySortedUnique(SortedDistinct(xs), xs);
  }

  /** `sorted(set(xs))` depends only on which strings `xs` holds. */
  lemma SortedDistinctSameElements(xs: seq<string>, ys: seq<string>)
    requires forall y :: y in xs <==> y in ys
    ensures SortedDistinct(xs) == SortedDistinct(ys)
  {
    StrictlySortedUnique(SortedDistinct(xs), SortedDistinct(ys));
  }

  /** The strings in `xs`, as a set. */
  function Elements(xs: seq<string>): (s: set<string>)
    ensures forall y :: y in s <==> y in xs
  {
    set y | y in xs
  }
}
