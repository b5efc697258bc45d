/** Course-code canonicalisation (`_normalize_single_code`) and the course
    codes found in free text (`parse_completed_freeform`), from
    backend/ai_agent.py. */
module Codes {
  import opened Strings
  import opened Optional
  import opened Scan

  /** Text that `_normalize_single_code` can produce: no lower-case letter,
      no space, no surrounding whitespace. */
  predicate CodeText(s: string) {
    NoLower(s) && ' ' !in s && Stripped(s)
  }

  /** `raw.upper().strip().replace(" ", "-")`. */
  function Prepare(raw: string): (s: string)
    ensures CodeText(s)
  {
    var u := Upper(raw);
    var st := Strip(u);
    assert NoLower(st) by {
      forall k | 0 <= k < |st| ensures !IsAsciiLower(st[k]) {
        assert st[k] in u;
      }
    }
    var r := ReplaceChar(st, ' ', '-');
    assert forall k | 0 <= k < |r| :: r[k] != ' ';
    r
  }

  /** Preparation leaves code text alone. */
  lemma PrepareCodeText(s: string)
    requires CodeText(s)
    ensures Prepare(s) == s
  {
    UpperOfUppercase(s);
    assert forall k | 0 <= k < |s| :: s[k] != ' ';
    assert ReplaceChar(s, ' ', '-') == s;
  }

  /** The department aliases that are rewritten to COMSC. */
  predicate HasCsAlias(s: string) {
    StartsWith(s, "CS-") || StartsWith(s, "COMPSCI-") || StartsWith(s, "COMSCI-") || StartsWith(s, "COMPSC-")
  }

  lemma AliasHasHyphen(s: string)
    requires HasCsAlias(s)
    ensures '-' in s
  {
    if StartsWith(s, "CS-") {
      assert s[2] == s[..3][2];
    } else if StartsWith(s, "COMPSCI-") {
      assert s[7] == s[..8][7];
    } else if StartsWith(s, "COMSCI-") {
      assert s[6] == s[..7][6];
    } else {
      assert s[6] == s[..7][6];
    }
  }

  /** `s.split("-", 1)[1]`: the text after the first hyphen. */
  function AfterFirstHyphen(s: string): (r: string)
    requires '-' in s
    ensures |r| < |s| && r == s[|s| - |r|..]
  {
    var k := FirstIndexIn(s, {'-'});
    assert k < |s| by {
      var j :| 0 <= j < |s| && s[j] == '-';
    }
    s[k + 1..]
  }

  /** "COMSC-" followed by anything carries none of the aliases. */
  lemma ComscNotAlias(x: string)
    ensures !HasCsAlias("COMSC-" + x)
    ensures StartsWith("COMSC-" + x, "COMSC-")
  {
    var s := "COMSC-" + x;
    assert s[..6] == "COMSC-";
    assert s[1] == 'O' && s[3] == 'S' && s[5] == '-';
  }

  /** Rewriting an alias of code text gives code text. */
  lemma AliasKeepsCodeText(s: string, rest: string)
    requires CodeText(s) && '-' in s && rest == AfterFirstHyphen(s)
    ensures CodeText("COMSC-" + rest)
  {
    var r := "COMSC-" + rest;
    assert forall k | 0 <= k < |rest| :: rest[k] == s[|s| - |rest| + k];
    assert forall k | 6 <= k < |r| :: r[k] == rest[k - 6];
  }

  /** Lines 127-128: a CS-family prefix becomes "COMSC-". The result never
      carries an alias, and code text stays code text. */
  function RewriteAlias(s: string): (r: string)
    ensures !HasCsAlias(r)
    ensures HasCsAlias(s) ==> StartsWith(r, "COMSC-")
    ensures HasCsAlias(s) ==> '-' in s && r == "COMSC" + "-" + AfterFirstHyphen(s)
    ensures !HasCsAlias(s) ==> r == s
    ensures CodeText(s) ==> CodeText(r)
  {
    if HasCsAlias(s) then
      AliasHasHyphen(s);
      var rest := AfterFirstHyphen(s);
      ComscNotAlias(rest);
      assert "COMSC-" + rest == "COMSC" + "-" + rest;
      if CodeText(s) then AliasKeepsCodeText(s, rest); "COMSC-" + rest
      else "COMSC-" + rest
    else s
  }

  // ----- the pattern ^([A-Z&]+)[- ]?(\d+[A-Z]?)$ -----

  predicate AllDept(l: string) { forall k | 0 <= k < |l| :: InClass(l[k], DeptChar) }

  /** The language of `\d+[A-Z]?` running to the end of the string. */
  predicate DigitTail(d: string) {
    |d| >= 1 && IsDigit(d[0]) &&
    (forall k | 0 <= k < |d| - 1 :: IsDigit(d[k])) &&
    (IsDigit(d[|d| - 1]) || IsAsciiUpper(d[|d| - 1]))
  }

  /** The separators `[- ]?` allows. */
  predicate IsSep(sep: string) { sep == "" || sep == "-" || sep == " " }

  /** The two groups of the pattern, when it matches. The department run is
      greedy and cannot give characters back usefully, so the match is
      decided left to right. */
  function ParseDeptNum(s: string): (r: Option<(string, string)>)
    ensures r.Some? ==> |r.value.0| > 0 && AllDept(r.value.0) && DigitTail(r.value.1)
  {
    var n := Run(s, 0, DeptChar);
    if n == 0 then None
    else if n < |s| && (s[n] == '-' || s[n] == ' ') && DigitTail(s[n + 1..]) then Some((s[..n], s[n + 1..]))
    else if DigitTail(s[n..]) then Some((s[..n], s[n..]))
    else None
  }

  /** The department run of `l + x` is `l` when `x` starts with a character
      outside `[A-Z&]`. */
  lemma DeptRunOf(l: string, x: string)
    requires |l| > 0 && AllDept(l) && |x| > 0 && !InClass(x[0], DeptChar)
    ensures Run(l + x, 0, DeptChar) == |l|
    ensures (l + x)[..|l|] == l && (l + x)[|l|..] == x
  {
    var s := l + x;
    assert forall k | 0 <= k < |l| :: InClass(s[k], DeptChar) by {
      forall k | 0 <= k < |l| ensures InClass(s[k], DeptChar) { assert s[k] == l[k]; }
    }
    assert !InClass(s[|l|], DeptChar);
  }

  /** Every string of the pattern's language matches, with exactly its parts
      as the groups. */
  lemma ParseDeptNumComplete(l: string, sep: string, d: string)
    requires |l| > 0 && AllDept(l) && IsSep(sep) && DigitTail(d)
    ensures ParseDeptNum(l + sep + d) == Some((l, d))
  {
    var s := l + sep + d;
    assert s == l + (sep + d);
    DeptRunOf(l, sep + d);
    if sep != "" {
      assert s[|l| + 1..] == d;
    }
  }

  /** After a department run and a hyphen, the pattern matches exactly when
      the rest is a number with an optional letter. */
  lemma ParseAfterHyphen(l: string, rest: string)
    requires |l| > 0 && AllDept(l)
    ensures ParseDeptNum(l + "-" + rest) == if DigitTail(rest) then Some((l, rest)) else None
  {
    var s := l + "-" + rest;
    assert s == l + ("-" + rest);
    DeptRunOf(l, "-" + rest);
    assert s[|l| + 1..] == rest;
  }

  /** `f"{m.group(1)}-{m.group(2)}"` when the pattern matches. */
  function Reemit(s: string): string {
    match ParseDeptNum(s)
    case Some((l, d)) => l + "-" + d
    case None => s
  }

  /** The canonical DEPT-NUM shape: the pattern matches and the text already
      has a single hyphen between the two groups. */
  predicate CanonicalForm(c: string) {
    match ParseDeptNum(c)
    case Some((l, d)) => c == l + "-" + d
    case None => false
  }

  lemma EmitCanonical(l: string, d: string)
    requires |l| > 0 && AllDept(l) && DigitTail(d)
    ensures CanonicalForm(l + "-" + d) && CodeText(l + "-" + d)
  {
    ParseAfterHyphen(l, d);
    var c := l + "-" + d;
    forall k | 0 <= k < |c| ensures !IsAsciiLower(c[k]) && c[k] != ' ' {
      if k < |l| { assert c[k] == l[k]; } else if k > |l| { assert c[k] == d[k - |l| - 1]; }
    }
    assert c[0] == l[0] && c[|c| - 1] == d[|d| - 1];
  }

  lemma ComscIsDept()
    ensures AllDept("COMSC")
  {
  }

  /** The first hyphen of `l + "-" + d` is the one after the department. */
  lemma AfterHyphenOfEmit(l: string, d: string)
    requires AllDept(l)
    ensures AfterFirstHyphen(l + "-" + d) == d
  {
    var s := l + "-" + d;
    assert forall k | 0 <= k < |l| :: s[k] == l[k];
    assert s[|l|] == '-';
    assert FirstIndexIn(s, {'-'}) == |l|;
    assert s[|l| + 1..] == d;
  }

  /** The codes `_normalize_single_code` can return: code text that is
      either in canonical DEPT-NUM form, or not matched by the pattern at
      all and then outside the alias family. */
  predicate WrittenCode(c: string) {
    CodeText(c) && (CanonicalForm(c) || (ParseDeptNum(c).None? && !HasCsAlias(c)))
  }

  /** `_normalize_single_code` as written. The alias rewrite runs before the
      pattern re-emits the hyphen, so a code written without a separator
      keeps its alias department: "CS61A" becomes "CS-61A". */
  function NormalizeSingleCodeAsWritten(raw: string): (r: string)
    ensures CodeText(r)
    ensures WrittenCode(r)
    ensures HasCsAlias(Prepare(raw)) ==> StartsWith(r, "COMSC-")
    ensures ParseDeptNum(RewriteAlias(Prepare(raw))).Some? ==> CanonicalForm(r)
    ensures ParseDeptNum(RewriteAlias(Prepare(raw))).None? ==> r == RewriteAlias(Prepare(raw))
  {
    var s := RewriteAlias(Prepare(raw));
    match ParseDeptNum(s)
    case Some((l, d)) =>
      EmitCanonical(l, d);
      if HasCsAlias(Prepare(raw)) then
        AliasHasHyphen(Prepare(raw));
        var rest := AfterFirstHyphen(Prepare(raw));
        ComscIsDept();
        assert s == "COMSC" + "-" + rest;
        ParseAfterHyphen("COMSC", rest);
        ComscNotAlias(d);
        l + "-" + d
      else l + "-" + d
    case None => s
  }

  /** `_normalize_single_code` with the alias rewrite also applied to the
      re-emitted code, so that "CS61A", "CS 61A" and "CS-61A" all become
      "COMSC-61A". */
  function NormalizeSingleCode(raw: string): (r: string)
    ensures CodeText(r)
    ensures !HasCsAlias(r)
    ensures HasCsAlias(Prepare(raw)) ==> StartsWith(r, "COMSC-")
    ensures ParseDeptNum(RewriteAlias(Prepare(raw))).Some? ==> CanonicalForm(r)
  {
    var w := NormalizeSingleCodeAsWritten(raw);
    var r := RewriteAlias(w);
    assert CanonicalForm(w) && HasCsAlias(w) ==> CanonicalForm(r) by {
      if CanonicalForm(w) && HasCsAlias(w) {
        var p := ParseDeptNum(w).value;
        AfterHyphenOfEmit(p.0, p.1);
        assert r == "COMSC" + "-" + p.1;
        ComscIsDept();
        EmitCanonical("COMSC", p.1);
      }
    }
    r
  }

  /** The corrected normaliser is idempotent: its output is a fixed point. */
  lemma NormalizeIdempotent(raw: string)
    ensures NormalizeSingleCode(NormalizeSingleCode(raw)) == NormalizeSingleCode(raw)
  {
    var w := RewriteAlias(Prepare(raw));
    var z := NormalizeSingleCodeAsWritten(raw);
    var y := NormalizeSingleCode(raw);
    assert z == Reemit(w);
    PrepareCodeText(y);
    assert RewriteAlias(y) == y;
    match ParseDeptNum(w)
    case Some((l, d)) =>
      assert z == l + "-" + d;
      if HasCsAlias(z) {
        AfterHyphenOfEmit(l, d);
        assert y == "COMSC" + "-" + d;
        ComscIsDept();
        ParseAfterHyphen("COMSC", d);
      } else {
        ParseAfterHyphen(l, d);
      }
      assert Reemit(y) == y;
    case None =>
      assert y == w;
      assert Reemit(y) == y;
  }

  /** A canonical code outside the alias family is a fixed point of both
      the written and the corrected normaliser. */
  lemma CanonicalFixed(c: string)
    requires CanonicalForm(c) && !HasCsAlias(c)
    ensures NormalizeSingleCodeAsWritten(c) == c
    ensures NormalizeSingleCode(c) == c
  {
    var p := ParseDeptNum(c).value;
    EmitCanonical(p.0, p.1);
    PrepareCodeText(c);
  }

  /** A department run glued to its number is code text without a hyphen. */
  lemma GluedCodeText(l: string, d: string)
    requires |l| > 0 && AllDept(l) && DigitTail(d)
    ensures CodeText(l + d) && '-' !in l + d
  {
    var x := l + d;
    forall k | 0 <= k < |x| ensures !IsAsciiLower(x[k]) && x[k] != ' ' && x[k] != '-' {
      if k < |l| { assert x[k] == l[k]; } else { assert x[k] == d[k - |l|]; }
    }
    assert x[0] == l[0] && x[|x| - 1] == d[|d| - 1];
  }

  /** A canonical code is what the written normaliser makes of the same
      code written without its hyphen. */
  lemma GluedReached(l: string, d: string)
    requires |l| > 0 && AllDept(l) && DigitTail(d)
    ensures NormalizeSingleCodeAsWritten(l + d) == l + "-" + d
  {
    var x := l + d;
    GluedCodeText(l, d);
    PrepareCodeText(x);
    if HasCsAlias(x) { AliasHasHyphen(x); }
    assert RewriteAlias(Prepare(x)) == x;
    assert x == l + "" + d;
    ParseDeptNumComplete(l, "", d);
    AsWrittenIsReemit(x);
  }

  /** An unmatched code outside the alias family is its own normal form. */
  lemma UnmatchedFixed(c: string)
    requires CodeText(c) && ParseDeptNum(c).None? && !HasCsAlias(c)
    ensures NormalizeSingleCodeAsWritten(c) == c
  {
    PrepareCodeText(c);
  }

  /** The written normaliser returns exactly the written codes: every result
      is one, and every one is the result of some input. */
  lemma WrittenCodeIff(c: string)
    ensures WrittenCode(c) <==> exists x :: NormalizeSingleCodeAsWritten(x) == c
  {
    if WrittenCode(c) {
      if CanonicalForm(c) {
        var p := ParseDeptNum(c).value;
        GluedReached(p.0, p.1);
      } else {
        UnmatchedFixed(c);
      }
    }
  }

  /** Two passes of the written normaliser compute the corrected one. */
  lemma TwoPasses(raw: string)
    ensures NormalizeSingleCodeAsWritten(NormalizeSingleCodeAsWritten(raw)) == NormalizeSingleCode(raw)
  {
    var w := RewriteAlias(Prepare(raw));
    var z := NormalizeSingleCodeAsWritten(raw);
    var y := NormalizeSingleCode(raw);
    PrepareCodeText(z);
    assert NormalizeSingleCodeAsWritten(z) == Reemit(RewriteAlias(z));
    match ParseDeptNum(w)
    case Some((l, d)) =>
      assert z == l + "-" + d;
      if HasCsAlias(z) {
        AfterHyphenOfEmit(l, d);
        assert RewriteAlias(z) == "COMSC" + "-" + d == y;
        ComscIsDept();
        ParseAfterHyphen("COMSC", d);
      } else {
        ParseAfterHyphen(l, d);
      }
    case None =>
      assert z == w && RewriteAlias(z) == z;
  }

  /** The written normaliser settles after two passes: a third changes
      nothing. */
  lemma AsWrittenSettles(raw: string)
    ensures var twice := NormalizeSingleCodeAsWritten(NormalizeSingleCodeAsWritten(raw));
      NormalizeSingleCodeAsWritten(twice) == twice
  {
    var once := NormalizeSingleCodeAsWritten(raw);
    TwoPasses(raw);
    TwoPasses(once);
  }

  lemma ExampleCodeFacts()
    ensures AllDept("CS") && AllDept("COMSC") && DigitTail("61A")
    ensures "CS61A" == "CS" + "" + "61A"
    ensures "CS-61A" == "CS" + "-" + "61A"
    ensures "COMSC-61A" == "COMSC" + "-" + "61A"
    ensures !HasCsAlias("CS61A") && HasCsAlias("CS-61A")
    ensures CodeText("CS61A") && CodeText("CS-61A")
  {
    assert "CS61A"[..3][2] == '6';
    assert "CS-61A"[..3] == "CS-";
  }

  /** The written normaliser is not idempotent: "CS61A" becomes "CS-61A",
      which a second pass turns into "COMSC-61A". */
  lemma AsWrittenNotIdempotent()
    ensures NormalizeSingleCodeAsWritten("CS61A") == "CS-61A"
    ensures NormalizeSingleCodeAsWritten("CS-61A") == "COMSC-61A"
    ensures NormalizeSingleCode("CS61A") == "COMSC-61A"
  {
    ExampleCodeFacts();
    PrepareCodeText("CS61A");
    PrepareCodeText("CS-61A");
    ParseDeptNumComplete("CS", "", "61A");
    AfterHyphenOfEmit("CS", "61A");
    ParseAfterHyphen("COMSC", "61A");
  }

  lemma PrepareIs(g: string, target: string)
    requires |g| > 0 && !IsSpace(g[0]) && !IsSpace(g[|g| - 1])
    requires |target| == |g| && forall k | 0 <= k < |g| :: target[k] == PrepChar(g[k])
    ensures Prepare(g) == target
  {
    PrepareChars(g);
  }

  lemma PreparedExamples()
    ensures Prepare("cs 61a") == "CS-61A"
    ensures Prepare("MATH192") == "MATH192"
  {
    var g := "cs 61a";
    assert PrepChar(g[0]) == 'C' && PrepChar(g[1]) == 'S' && PrepChar(g[2]) == '-';
    assert PrepChar(g[3]) == '6' && PrepChar(g[4]) == '1' && PrepChar(g[5]) == 'A';
    PrepareIs(g, "CS-61A");
    MathExampleFacts();
    PrepareCodeText("MATH192");
  }

  lemma MathExampleFacts()
    ensures AllDept("MATH") && DigitTail("192")
    ensures "MATH192" == "MATH" + "" + "192"
    ensures "MATH-192" == "MATH" + "-" + "192"
    ensures !HasCsAlias("MATH192") && !HasCsAlias("MATH-192")
    ensures CodeText("MATH192")
  {
    assert "MATH192"[..3] == "MAT";
    assert "MATH-192"[..3] == "MAT";
  }

  /** Both halves of the normaliser see only the prepared text. */
  lemma SamePrepared(a: string, b: string)
    requires Prepare(a) == Prepare(b)
    ensures NormalizeSingleCode(a) == NormalizeSingleCode(b)
  {
  }

  /** "cs 61a" becomes "COMSC-61A", under both normalisers. */
  lemma NormalizeSpacedAlias()
    ensures NormalizeSingleCodeAsWritten("cs 61a") == "COMSC-61A"
    ensures NormalizeSingleCode("cs 61a") == "COMSC-61A"
  {
    PreparedExamples();
    ExampleCodeFacts();
    PrepareCodeText("CS-61A");
    SamePrepared("cs 61a", "CS-61A");
    AsWrittenIsReemit("cs 61a");
    AsWrittenIsReemit("CS-61A");
    AsWrittenNotIdempotent();
    ComscNotAlias("61A");
    assert "COMSC-61A" == "COMSC-" + "61A";
  }

  lemma GluedPrepared()
    ensures RewriteAlias(Prepare("MATH192")) == "MATH192"
  {
    PreparedExamples();
    MathExampleFacts();
  }

  /** The written normaliser re-emits the prepared, alias-rewritten text. */
  lemma AsWrittenIsReemit(raw: string)
    ensures NormalizeSingleCodeAsWritten(raw) == Reemit(RewriteAlias(Prepare(raw)))
  {
  }

  lemma GluedAsWritten()
    ensures NormalizeSingleCodeAsWritten("MATH192") == "MATH-192"
  {
    GluedPrepared();
    AsWrittenIsReemit("MATH192");
    MathExampleFacts();
    ParseDeptNumComplete("MATH", "", "192");
  }

  /** "MATH192" becomes "MATH-192", under both normalisers. */
  lemma NormalizeGluedCode()
    ensures NormalizeSingleCodeAsWritten("MATH192") == "MATH-192"
    ensures NormalizeSingleCode("MATH192") == "MATH-192"
  {
    GluedAsWritten();
    MathExampleFacts();
  }

  /** An alias prefix is a department run followed by its hyphen. */
  lemma AliasSplit(s: string) returns (n: nat)
    requires HasCsAlias(s)
    ensures 0 < n < |s| && AllDept(s[..n]) && s[n] == '-'
    ensures s == s[..n] + "-" + s[n + 1..]
  {
    if StartsWith(s, "CS-") {
      n := 2;
      assert s[..3] == "CS-";
      assert s[..n] == "CS";
    } else if StartsWith(s, "COMPSCI-") {
      n := 7;
      assert s[..8] == "COMPSCI-";
      assert s[..n] == "COMPSCI";
    } else if StartsWith(s, "COMSCI-") {
      n := 6;
      assert s[..7] == "COMSCI-";
      assert s[..n] == "COMSCI";
    } else {
      n := 6;
      assert s[..7] == "COMPSC-";
      assert s[..n] == "COMPSC";
    }
    assert s == s[..n] + [s[n]] + s[n + 1..];
  }

  /** When the pattern matches a code with an alias department, it still
      matches once the department is rewritten to COMSC. */
  lemma AliasKeepsMatch(s: string)
    requires HasCsAlias(s) && ParseDeptNum(s).Some?
    ensures ParseDeptNum(RewriteAlias(s)).Some?
  {
    var n := AliasSplit(s);
    var rest := s[n + 1..];
    ParseAfterHyphen(s[..n], rest);
    AfterHyphenOfEmit(s[..n], rest);
    assert RewriteAlias(s) == "COMSC" + "-" + rest;
    ComscIsDept();
    ParseAfterHyphen("COMSC", rest);
  }

  /** A code the pattern matches after preparation normalises to the
      canonical DEPT-NUM shape, under either normaliser. */
  lemma MatchedIsCanonical(raw: string)
    requires ParseDeptNum(Prepare(raw)).Some?
    ensures CanonicalForm(NormalizeSingleCodeAsWritten(raw))
    ensures CanonicalForm(NormalizeSingleCode(raw))
  {
    if HasCsAlias(Prepare(raw)) {
      AliasKeepsMatch(Prepare(raw));
    }
  }

  // ----- the code token pattern \b([A-Za-z]{2,}[- ]?\d+[A-Za-z]?)\b -----

  /** Digits followed by at most one letter of either case, to the end. */
  predicate DigitsThenLetter(d: string) {
    |d| >= 1 && IsDigit(d[0]) &&
    (forall k | 0 <= k < |d| - 1 :: IsDigit(d[k])) &&
    (IsDigit(d[|d| - 1]) || IsAsciiLetter(d[|d| - 1]))
  }

  /** The text of a token: `a >= 2` letters, a separator of length `sepLen`
      (a hyphen or a space), then digits and an optional letter. */
  predicate TokenShape(g: string, a: nat, sepLen: nat) {
    2 <= a && sepLen <= 1 && a + sepLen < |g| &&
    (forall k | 0 <= k < a :: IsAsciiLetter(g[k])) &&
    (sepLen == 1 ==> g[a] == '-' || g[a] == ' ') &&
    DigitsThenLetter(g[a + sepLen..])
  }

  /** What preparation does to one character of a text without
      surrounding whitespace. */
  function PrepChar(c: char): char {
    if UpperChar(c) == ' ' then '-' else UpperChar(c)
  }

  lemma PrepareChars(g: string)
    requires |g| > 0 && !IsSpace(g[0]) && !IsSpace(g[|g| - 1])
    ensures |Prepare(g)| == |g|
    ensures forall k | 0 <= k < |g| :: Prepare(g)[k] == PrepChar(g[k])
  {
    var u := Upper(g);
    assert Stripped(u);
  }

  lemma PrepDept(g: string, l: string)
    requires |l| == |g| && forall k | 0 <= k < |g| :: IsAsciiLetter(g[k]) && l[k] == PrepChar(g[k])
    ensures AllDept(l)
  {
  }

  lemma PrepDigitTail(g: string, d: string)
    requires DigitsThenLetter(g)
    requires |d| == |g| && forall k | 0 <= k < |g| :: d[k] == PrepChar(g[k])
    ensures DigitTail(d)
  {
  }

  /** A slice of a prepared text is the prepared slice, character by
      character. */
  lemma PrepSlice(g: string, s: string, lo: nat, hi: nat)
    requires |s| == |g| && forall k | 0 <= k < |g| :: s[k] == PrepChar(g[k])
    requires lo <= hi <= |g|
    ensures |s[lo..hi]| == |g[lo..hi]|
    ensures forall k | 0 <= k < hi - lo :: s[lo..hi][k] == PrepChar(g[lo..hi][k])
  {
  }

  lemma ParsesPrepared(g: string, s: string, a: nat, sepLen: nat)
    requires TokenShape(g, a, sepLen)
    requires |s| == |g| && forall k | 0 <= k < |g| :: s[k] == PrepChar(g[k])
    ensures ParseDeptNum(s).Some?
  {
    var l := s[..a];
    var sep := s[a..a + sepLen];
    var d := s[a + sepLen..];
    assert s == l + sep + d;
    PrepSlice(g, s, 0, a);
    PrepDept(g[..a], l);
    PrepSlice(g, s, a + sepLen, |g|);
    PrepDigitTail(g[a + sepLen..], d);
    if sepLen == 1 {
      assert sep == [PrepChar(g[a])];
    }
    ParseDeptNumComplete(l, sep, d);
  }

  /** Every token matches the code pattern once prepared. */
  lemma ShapeParses(g: string, a: nat, sepLen: nat)
    requires TokenShape(g, a, sepLen)
    ensures ParseDeptNum(Prepare(g)).Some?
  {
    var g' := g[a + sepLen..];
    assert g[|g| - 1] == g'[|g'| - 1];
    PrepareChars(g);
    ParsesPrepared(g, Prepare(g), a, sepLen);
  }

  /** The token `t[i..end]`, recognised by its parts. */
  lemma SliceShape(t: string, i: nat, a: nat, sepLen: nat, end: nat)
    requires 2 <= a && sepLen <= 1 && i + a + sepLen < end <= |t|
    requires forall k | i <= k < i + a :: IsAsciiLetter(t[k])
    requires sepLen == 1 ==> t[i + a] == '-' || t[i + a] == ' '
    requires forall k | i + a + sepLen <= k < end - 1 :: IsDigit(t[k])
    requires IsDigit(t[i + a + sepLen])
    requires IsDigit(t[end - 1]) || IsAsciiLetter(t[end - 1])
    ensures ParseDeptNum(Prepare(t[i..end])).Some?
  {
    var g := t[i..end];
    var d := g[a + sepLen..];
    assert forall k | 0 <= k < |d| :: d[k] == t[i + a + sepLen + k];
    assert forall k | 0 <= k < a :: g[k] == t[i + k];
    assert TokenShape(g, a, sepLen);
    ShapeParses(g, a, sepLen);
  }

  /** A token that ends after the digit run, or one letter later. */
  lemma TailShape(t: string, i: nat, a: nat, sepLen: nat, end: nat)
    requires 2 <= a && sepLen <= 1 && i + a + sepLen < |t|
    requires forall k | i <= k < i + a :: IsAsciiLetter(t[k])
    requires sepLen == 1 ==> t[i + a] == '-' || t[i + a] == ' '
    requires IsDigit(t[i + a + sepLen])
    requires var e := i + a + sepLen + Run(t, i + a + sepLen, Digit);
      end == e || (end == e + 1 && e < |t| && IsAsciiLetter(t[e]))
    ensures ParseDeptNum(Prepare(t[i..end])).Some?
  {
    var q := i + a + sepLen;
    var n := Run(t, q, Digit);
    assert forall k | q <= k < q + n :: IsDigit(t[k]);
    SliceShape(t, i, a, sepLen, end);
  }

  /** The digits and optional letter of a token, and its closing `\b`. */
  function CodeTail(t: string, i: nat, a: nat, sepLen: nat): (h: Option<Hit>)
    requires 2 <= a && sepLen <= 1 && i + a + sepLen < |t|
    requires forall k | i <= k < i + a :: IsAsciiLetter(t[k])
    requires sepLen == 1 ==> t[i + a] == '-' || t[i + a] == ' '
    requires IsDigit(t[i + a + sepLen])
    ensures h.Some? ==> i < h.value.end <= |t| && h.value.group == t[i..h.value.end]
    ensures h.Some? ==> var e := i + a + sepLen + Run(t, i + a + sepLen, Digit);
      h.value.end == e || (h.value.end == e + 1 && e < |t| && IsAsciiLetter(t[e]))
  {
    var q := i + a + sepLen;
    var e := q + Run(t, q, Digit);
    if e < |t| && IsAsciiLetter(t[e]) && Boundary(t, e + 1) then Some(Hit(t[i..e + 1], e + 1))
    else if Boundary(t, e) then Some(Hit(t[i..e], e))
    else None
  }

  /** A tail found matches the code pattern once prepared. */
  lemma TailParses(t: string, i: nat, a: nat, sepLen: nat)
    requires 2 <= a && sepLen <= 1 && i + a + sepLen < |t|
    requires forall k | i <= k < i + a :: IsAsciiLetter(t[k])
    requires sepLen == 1 ==> t[i + a] == '-' || t[i + a] == ' '
    requires IsDigit(t[i + a + sepLen])
    requires CodeTail(t, i, a, sepLen).Some?
    ensures ParseDeptNum(Prepare(CodeTail(t, i, a, sepLen).value.group)).Some?
  {
    TailShape(t, i, a, sepLen, CodeTail(t, i, a, sepLen).value.end);
  }

  /** The token pattern tried at position `i`. The letter run is greedy and
      giving letters back never helps, so the match is decided left to
      right; a separator not followed by a digit ends the attempt. */
  function CodeTokenAt(t: string, i: nat): (h: Option<Hit>)
    requires i <= |t|
    ensures h.Some? ==> i < h.value.end <= |t| && h.value.group == t[i..h.value.end]
  {
    if !Boundary(t, i) then None
    else
      var a := Run(t, i, Letter);
      var p := i + a;
      if a < 2 then None
      else if p < |t| && (t[p] == '-' || t[p] == ' ') && Run(t, p + 1, Digit) > 0 then CodeTail(t, i, a, 1)
      else if Run(t, p, Digit) > 0 then CodeTail(t, i, a, 0)
      else None
  }

  /** A token found at `i` is the tail found after the letter run and a
      separator of length `sepLen`. */
  lemma TokenAtIsTail(t: string, i: nat) returns (sepLen: nat)
    requires i <= |t| && CodeTokenAt(t, i).Some?
    ensures var a := Run(t, i, Letter);
      2 <= a && sepLen <= 1 && i + a + sepLen < |t| &&
      (forall k | i <= k < i + a :: IsAsciiLetter(t[k])) &&
      (sepLen == 1 ==> t[i + a] == '-' || t[i + a] == ' ') &&
      IsDigit(t[i + a + sepLen]) &&
      CodeTokenAt(t, i) == CodeTail(t, i, a, sepLen)
  {
    var a := Run(t, i, Letter);
    var p := i + a;
    if p < |t| && (t[p] == '-' || t[p] == ' ') && Run(t, p + 1, Digit) > 0 {
      sepLen := 1;
    } else {
      sepLen := 0;
    }
  }

  /** A token found at `i` matches the code pattern once prepared. */
  lemma TokenAtParses(t: string, i: nat)
    requires i <= |t| && CodeTokenAt(t, i).Some?
    ensures ParseDeptNum(Prepare(CodeTokenAt(t, i).value.group)).Some?
  {
    var sepLen := TokenAtIsTail(t, i);
    TailParses(t, i, Run(t, i, Letter), sepLen);
  }

  /** `re.findall` of the token pattern from position `i`. */
  function CodeTokensFrom(t: string, i: nat): (r: seq<string>)
    requires i <= |t|
    decreases |t| - i
  {
    if i == |t| then []
    else
      match CodeTokenAt(t, i)
      case Some(h) => [h.group] + CodeTokensFrom(t, h.end)
      case None => CodeTokensFrom(t, i + 1)
  }

  /** Every token found matches the code pattern once prepared. */
  lemma {:induction false} TokensParse(t: string, i: nat)
    requires i <= |t|
    ensures forall tok | tok in CodeTokensFrom(t, i) :: ParseDeptNum(Prepare(tok)).Some?
    decreases |t| - i
  {
    if i < |t| {
      match CodeTokenAt(t, i)
      case Some(h) =>
        TokenAtParses(t, i);
        TokensParse(t, h.end);
      case None => TokensParse(t, i + 1);
    }
  }

  /** `parse_completed_freeform`: the normalised form of every token, under
      the normaliser as written. Each element is a canonical DEPT-NUM code;
      one outside the alias family is a fixed point of the normaliser, while
      one like "CS-61A" (from "CS61A") still carries its alias. */
  function ParseCompletedFreeform(text: string): (r: set<string>)
    ensures forall c | c in r :: CanonicalForm(c) && WrittenCode(c)
    ensures forall c | c in r :: !HasCsAlias(c) ==> NormalizeSingleCodeAsWritten(c) == c
    ensures forall c :: c in r <==>
      exists tok :: tok in CodeTokensFrom(text, 0) && c == NormalizeSingleCodeAsWritten(tok)
  {
    var toks := CodeTokensFrom(text, 0);
    TokensParse(text, 0);
    forall tok | tok in toks
      ensures CanonicalForm(NormalizeSingleCodeAsWritten(tok))
      ensures !HasCsAlias(NormalizeSingleCodeAsWritten(tok)) ==>
        NormalizeSingleCodeAsWritten(NormalizeSingleCodeAsWritten(tok)) == NormalizeSingleCodeAsWritten(tok)
    {
      MatchedIsCanonical(tok);
      if !HasCsAlias(NormalizeSingleCodeAsWritten(tok)) {
        CanonicalFixed(NormalizeSingleCodeAsWritten(tok));
      }
    }
    NormalizedTokens(toks)
  }

  function NormalizedTokens(toks: seq<string>): set<string> {
    set tok | tok in toks :: NormalizeSingleCodeAsWritten(tok)
  }

  // ----- a worked example -----

  /** A run of a class is exactly as long as the characters in it. */
  lemma {:induction false} RunIs(t: string, i: nat, cls: CharClass, n: nat)
    requires i + n <= |t|
    requires forall k | i <= k < i + n :: InClass(t[k], cls)
    requires i + n < |t| ==> !InClass(t[i + n], cls)
    ensures Run(t, i, cls) == n
    decreases n
  {
    if n > 0 {
      RunIs(t, i + 1, cls, n - 1);
    }
  }

  /** Positions where no token starts are skipped by the scan. */
  lemma {:induction false} SkipNoTokens(t: string, i: nat, j: nat)
    requires i <= j <= |t|
    requires forall k | i <= k < j :: CodeTokenAt(t, k).None?
    ensures CodeTokensFrom(t, i) == CodeTokensFrom(t, j)
    decreases j - i
  {
    if i < j {
      assert CodeTokenAt(t, i).None?;
      assert CodeTokensFrom(t, i) == CodeTokensFrom(t, i + 1);
      SkipNoTokens(t, i + 1, j);
    }
  }

  /** The scan finds the next token: when the first position from `i` at
      which the pattern matches is `k`, the result starts with the token
      at `k` and resumes at its end, as `re.findall` does. */
  lemma NextTokenFound(t: string, i: nat, k: nat)
    requires i <= k < |t|
    requires forall m | i <= m < k :: CodeTokenAt(t, m).None?
    requires CodeTokenAt(t, k).Some?
    ensures var h := CodeTokenAt(t, k).value;
      CodeTokensFrom(t, i) == [h.group] + CodeTokensFrom(t, h.end)
  {
    SkipNoTokens(t, i, k);
  }

  /** The scan finds nothing exactly when the pattern matches at no
      position from `i` on. */
  lemma {:induction false} NoTokensIff(t: string, i: nat)
    requires i <= |t|
    ensures CodeTokensFrom(t, i) == [] <==> forall k | i <= k < |t| :: CodeTokenAt(t, k).None?
    decreases |t| - i
  {
    if i < |t| {
      NoTokensIff(t, i + 1);
      if CodeTokenAt(t, i).None? {
        assert CodeTokensFrom(t, i) == CodeTokensFrom(t, i + 1);
        assert (forall k | i <= k < |t| :: CodeTokenAt(t, k).None?) <==>
               (forall k | i + 1 <= k < |t| :: CodeTokenAt(t, k).None?);
      }
    }
  }

  /** No token starts inside a word or at a non-letter. */
  lemma NoTokenInsideWord(t: string, k: nat)
    requires k < |t|
    requires !IsAsciiLetter(t[k]) || (k > 0 && IsWordChar(t[k - 1]) && IsWordChar(t[k]))
    ensures CodeTokenAt(t, k).None?
  {
    if IsAsciiLetter(t[k]) {
      assert !Boundary(t, k);
    } else {
      RunIs(t, k, Letter, 0);
    }
  }

  /** No token starts at a word followed by a space and a non-digit. */
  lemma NoTokenAtWord(t: string, k: nat, n: nat)
    requires k + n + 1 < |t|
    requires forall j | k <= j < k + n :: IsAsciiLetter(t[j])
    requires t[k + n] == ' ' && !IsDigit(t[k + n + 1])
    ensures CodeTokenAt(t, k).None?
  {
    RunIs(t, k, Letter, n);
    RunIs(t, k + n, Digit, 0);
    RunIs(t, k + n + 1, Digit, 0);
  }

  lemma TookExampleToken(t: string)
    requires t == "I already took COMSC-110"
    ensures CodeTokenAt(t, 15) == Some(Hit("COMSC-110", 24))
  {
    RunIs(t, 15, Letter, 5);
    RunIs(t, 21, Digit, 3);
    assert Boundary(t, 15) && Boundary(t, 24);
    assert t[15..24] == "COMSC-110";
  }

  lemma TookExampleInside(t: string, k: nat)
    requires t == "I already took COMSC-110"
    requires 0 <= k < 15 && k != 0 && k != 2 && k != 10
    ensures CodeTokenAt(t, k).None?
  {
    NoTokenInsideWord(t, k);
  }

  lemma TookExampleSkips(t: string)
    requires t == "I already took COMSC-110"
    ensures CodeTokensFrom(t, 0) == CodeTokensFrom(t, 15)
  {
    forall k | 0 <= k < 15 ensures CodeTokenAt(t, k).None? {
      if k == 0 {
        NoTokenAtWord(t, 0, 1);
      } else if k == 2 {
        NoTokenAtWord(t, 2, 7);
      } else if k == 10 {
        NoTokenAtWord(t, 10, 4);
      } else {
        TookExampleInside(t, k);
      }
    }
    SkipNoTokens(t, 0, 15);
  }

  lemma TookExampleTokens(t: string)
    requires t == "I already took COMSC-110"
    ensures CodeTokensFrom(t, 0) == ["COMSC-110"]
  {
    TookExampleSkips(t);
    TookExampleToken(t);
    assert CodeTokensFrom(t, 24) == [];
  }

  lemma ComscCodeFixed()
    ensures NormalizeSingleCodeAsWritten("COMSC-110") == "COMSC-110"
  {
    ComscIsDept();
    assert DigitTail("110");
    EmitCanonical("COMSC", "110");
    ComscNotAlias("110");
    assert "COMSC-110" == "COMSC" + "-" + "110" == "COMSC-" + "110";
    CanonicalFixed("COMSC-110");
  }

  lemma OneTokenSet(tok: string)
    ensures NormalizedTokens([tok]) == {NormalizeSingleCodeAsWritten(tok)}
  {
    assert forall x :: x in [tok] <==> x == tok;
  }

  /** A text with a single token yields the normalised token alone. */
  lemma FreeformOfOneToken(text: string, tok: string)
    requires CodeTokensFrom(text, 0) == [tok]
    ensures ParseCompletedFreeform(text) == {NormalizeSingleCodeAsWritten(tok)}
  {
    assert ParseCompletedFreeform(text) == NormalizedTokens([tok]);
    OneTokenSet(tok);
  }

  /** A glued alias code keeps its alias department: a text whose only token
      is "CS61A" records "CS-61A", not "COMSC-61A". */
  lemma GluedAliasKept(text: string)
    requires CodeTokensFrom(text, 0) == ["CS61A"]
    ensures ParseCompletedFreeform(text) == {"CS-61A"}
  {
    FreeformOfOneToken(text, "CS61A");
    AsWrittenNotIdempotent();
  }

  /** "I already took COMSC-110" yields exactly {"COMSC-110"}. */
  lemma CompletedExample()
    ensures ParseCompletedFreeform("I already took COMSC-110") == {"COMSC-110"}
  {
    TookExampleTokens("I already took COMSC-110");
    FreeformOfOneToken("I already took COMSC-110", "COMSC-110");
    ComscCodeFixed();
  }
}
