/** Concrete facts about campus recognition in backend/ai_agent.py: each
    campus key, read back as text, is recognised as itself, and a query that
    only says "Cal" selects UC Berkeley through the literal substring test. */
module CampusFacts {
  import opened Strings
  import opened Optional
  import opened Campus
  import TypoFacts

  // ----- absence and rewriting, in general -----

  /** A pattern that does not occur is nowhere a whole word. */
  lemma NoWholeWord(t: string, w: string)
    requires !Contains(t, w)
    ensures forall k :: !WholeWordAt(t, w, k)
  {
    forall k: nat ensures !WholeWordAt(t, w, k) {
      if WholeWordAt(t, w, k) {
        PrefixOfIff(w, t[k..]);
        assert t[k..k + |w|] == t[k..][..|w|];
        ContainsAt(t, w, k);
      }
    }
  }

  /** A rewrite whose pattern does not occur leaves the text alone. */
  lemma FixSkips(t: string, w: string, r: string)
    requires |w| > 0 && !Contains(t, w)
    ensures SubWord(t, w, r) == t
  {
    NoWholeWord(t, w);
    SubWordNoMatch(t, w, r, 0);
  }

  /** A text that is exactly the pattern is replaced as a whole. */
  lemma FixReplacesAll(t: string, r: string)
    requires |t| > 0 && IsWordChar(t[0]) && IsWordChar(t[|t| - 1])
    ensures SubWord(t, t, r) == r
  {
    PrefixOfIff(t, t[0..]);
    assert WholeWordAt(t, t, 0);
    assert SubWordFrom(t, t, r, |t|) == [];
    assert r + [] == r;
  }

  /** One rewrite of the table, then the rest. */
  lemma FixStep(t: string, fixes: seq<(string, string)>, u: string)
    requires |fixes| > 0 && forall i | 0 <= i < |fixes| :: |fixes[i].0| > 0
    requires SubWord(t, fixes[0].0, fixes[0].1) == u
    ensures ApplyFixes(t, fixes) == ApplyFixes(u, fixes[1..])
  {
  }

  /** The table's rewrites after the first two: "berkley", "ucsd", "uc sd". */
  lemma LaterFixes(fixes: seq<(string, string)>)
    requires fixes == TypoFixes
    ensures |fixes| == 5
    ensures fixes[2].0 == "berkley" && fixes[3].0 == "ucsd" && fixes[4].0 == "uc sd"
    ensures fixes[1] == ("ucb", "uc berkeley") && fixes[3].1 == "uc san diego"
    ensures fixes[0].0 == "usb"
  {
  }

  /** A text in which no pattern of the table occurs after the first `n`
      rewrites is left alone by them. */
  lemma RestUnchanged(t: string, fixes: seq<(string, string)>, n: nat)
    requires n <= |fixes| && forall i | 0 <= i < |fixes| :: |fixes[i].0| > 0
    requires forall i | n <= i < |fixes| :: !Contains(t, fixes[i].0)
    ensures ApplyFixes(t, fixes[n..]) == t
  {
    var rest := fixes[n..];
    forall i, k | 0 <= i < |rest| && 0 <= k <= |t| ensures !WholeWordAt(t, rest[i].0, k) {
      assert rest[i] == fixes[n + i];
      NoWholeWord(t, rest[i].0);
    }
    ApplyFixesNoMatch(t, rest);
  }

  /** No rewrite of the table applies to a text holding none of its
      patterns. */
  lemma NoFixApplies(t: string, fixes: seq<(string, string)>)
    requires fixes == TypoFixes
    requires !Contains(t, "usb") && !Contains(t, "ucb") && !Contains(t, "berkley")
    requires !Contains(t, "ucsd") && !Contains(t, "uc sd")
    ensures ApplyFixes(t, fixes) == t
  {
    TypoTable(fixes);
    LaterFixes(fixes);
    forall i | 0 <= i < |fixes| ensures !Contains(t, fixes[i].0) {
      if i == 0 {
      } else if i == 1 {
      } else if i == 2 {
      } else if i == 3 {
      } else {
      }
    }
    RestUnchanged(t, fixes, 0);
    assert fixes[0..] == fixes;
  }

  /** The text holds none of the patterns of the typo table. */
  predicate PatternFree(t: string) {
    && !Contains(t, "usb") && !Contains(t, "ucb") && !Contains(t, "berkley")
    && !Contains(t, "ucsd") && !Contains(t, "uc sd")
  }

  /** A question whose lower-cased form holds no typo pattern is read as
      that lower-cased form. */
  lemma PlainNormalized(q: string, t: string)
    requires Lower(q) == t && PatternFree(t)
    ensures NormalizeTypos(q) == t
  {
    NoFixApplies(t, TypoFixes);
  }

  /** A single rewrite of a text holding its pattern once, as a word. */
  lemma RewriteOnce(q: string, t: string, a: string, w: string, b: string, r: string)
    requires q == a + w + b && t == a + r + b
    requires TypoFacts.WordEdged(w) && TypoFacts.WordChars(w)
    requires |a| > 0 ==> !IsWordChar(a[|a| - 1])
    requires |b| > 0 ==> !IsWordChar(b[0])
    requires !Contains(a, w) && !Contains(b, w)
    ensures SubWord(q, w, r) == t
  {
    TypoFacts.SubWordOnce(a, w, b, r);
  }

  /** The last three rewrites leave a text without their patterns alone. */
  lemma LastThreeSkip(t: string, fixes: seq<(string, string)>)
    requires fixes == TypoFixes
    requires !Contains(t, "berkley") && !Contains(t, "ucsd") && !Contains(t, "uc sd")
    ensures ApplyFixes(t, fixes[2..]) == t
  {
    TypoTable(fixes);
    LaterFixes(fixes);
    forall i | 2 <= i < |fixes| ensures !Contains(t, fixes[i].0) {
      if i == 2 {
      } else if i == 3 {
      } else {
      }
    }
    RestUnchanged(t, fixes, 2);
  }

  /** The last rewrite leaves a text without "uc sd" alone. */
  lemma LastSkips(t: string, fixes: seq<(string, string)>)
    requires fixes == TypoFixes && !Contains(t, "uc sd")
    ensures ApplyFixes(t, fixes[4..]) == t
  {
    TypoTable(fixes);
    LaterFixes(fixes);
    RestUnchanged(t, fixes, 4);
  }

  // ----- detection picks the first mentioned campus -----

  /** Detection picks campus `i` when the normalised text mentions it and no
      earlier campus. */
  lemma DetectFirst(q: string, i: nat)
    requires i < |CampusKeys|
    requires Mentions(NormalizeTypos(q), CampusKeys[i])
    requires forall j | 0 <= j < i :: !Mentions(NormalizeTypos(q), CampusKeys[j])
    ensures DetectCampus(q) == Some(CampusKeys[i])
  {
    CampusTable();
    assert CampusKeys[i] in CampusKeys;
  }

  // ----- "UCB" -----
  // This and the following examples are chains of small lemmas, one fact
  // per lemma, which keeps the unrolling of literal strings within the
  // verifier's resource limit; the last lemma of each chain combines them.

  lemma UcbLower(q: string)
    requires q == "UCB"
    ensures Lower(q) == "ucb"
  {
  }

  lemma UcbSteps(t: string, b: string, fixes: seq<(string, string)>)
    requires t == "ucb" && b == "uc berkeley" && fixes == TypoFixes
    ensures ApplyFixes(t, fixes) == ApplyFixes(b, fixes[2..])
  {
    TypoTable(fixes);
    LaterFixes(fixes);
    AbsentChar(t, "usb", 's');
    FixSkips(t, "usb", fixes[0].1);
    FixStep(t, fixes, t);
    FixReplacesAll(t, b);
    assert fixes[1..][0] == (t, b);
    assert fixes[1..][1..] == fixes[2..];
    FixStep(t, fixes[1..], b);
  }

  lemma BerkeleyLacksPatterns(b: string)
    requires b == "uc berkeley"
    ensures !Contains(b, "berkley") && !Contains(b, "ucsd") && !Contains(b, "uc sd")
  {
    AbsentPair(b, "berkley", 4);
    AbsentChar(b, "ucsd", 'd');
    AbsentChar(b, "uc sd", 'd');
  }

  lemma BerkeleyUnchanged(b: string, fixes: seq<(string, string)>)
    requires b == "uc berkeley" && fixes == TypoFixes
    ensures ApplyFixes(b, fixes[2..]) == b
  {
    BerkeleyLacksPatterns(b);
    LastThreeSkip(b, fixes);
  }

  /** "UCB" normalises to "uc berkeley". */
  lemma UcbNormalized(q: string, b: string, fixes: seq<(string, string)>)
    requires q == "UCB" && b == "uc berkeley" && fixes == TypoFixes
    ensures NormalizeTypos(q) == b
  {
    var t := Lower(q);
    UcbLower(q);
    UcbSteps(t, b, fixes);
    BerkeleyUnchanged(b, fixes);
  }

  lemma BerkeleyMentionsUcb(t: string)
    requires t == "uc berkeley"
    ensures Mentions(t, "UCB")
  {
    ContainsByChars(t, "uc berkeley", 0);
    AnyInIff(t, AliasesOf("UCB"));
    assert "uc berkeley" in AliasesOf("UCB");
  }

  lemma UcbDetected(q: string)
    requires q == "UCB"
    ensures DetectCampus(q) == Some("UCB")
  {
    UcbNormalized(q, "uc berkeley", TypoFixes);
    BerkeleyMentionsUcb(NormalizeTypos(q));
    DetectFirst(q, 0);
  }

  // ----- "UCD" -----

  lemma UcdLower(q: string)
    requires q == "UCD"
    ensures Lower(q) == "ucd"
  {
  }

  /** A text with neither a "b" nor an "l" holds no alias of UC Berkeley. */
  lemma LacksBerkeley(t: string)
    requires 'b' !in t && 'l' !in t
    ensures !Mentions(t, "UCB")
  {
    AnyInIff(t, AliasesOf("UCB"));
    AbsentChar(t, "uc berkeley", 'b');
    AbsentChar(t, "berkeley", 'b');
    AbsentChar(t, "ucb", 'b');
    AbsentChar(t, "cal", 'l');
  }

  lemma UcdIsUcd(t: string)
    requires t == "ucd"
    ensures Mentions(t, "UCD")
  {
    ContainsByChars(t, "ucd", 0);
    AnyInIff(t, AliasesOf("UCD"));
    assert "ucd" in AliasesOf("UCD");
  }

  lemma DetectSecond(q: string)
    requires !Mentions(NormalizeTypos(q), "UCB") && Mentions(NormalizeTypos(q), "UCD")
    ensures DetectCampus(q) == Some("UCD")
  {
    assert CampusKeys[0] == "UCB" && CampusKeys[1] == "UCD";
    DetectFirst(q, 1);
  }

  lemma UcdPlain(t: string)
    requires t == "ucd"
    ensures PatternFree(t)
  {
    AbsentChar(t, "usb", 's');
    AbsentChar(t, "ucb", 'b');
    AbsentChar(t, "berkley", 'b');
    AbsentChar(t, "ucsd", 's');
    AbsentChar(t, "uc sd", 's');
  }

  lemma UcdLetters(t: string)
    requires t == "ucd"
    ensures 'b' !in t && 'l' !in t
  {
  }

  lemma UcdNormalized(q: string)
    requires q == "UCD"
    ensures NormalizeTypos(q) == "ucd"
  {
    UcdLower(q);
    UcdPlain("ucd");
    PlainNormalized(q, "ucd");
  }

  lemma UcdDetected(q: string)
    requires q == "UCD"
    ensures DetectCampus(q) == Some("UCD")
  {
    UcdNormalized(q);
    var t := NormalizeTypos(q);
    UcdLetters(t);
    LacksBerkeley(t);
    UcdIsUcd(t);
    DetectSecond(q);
  }

  // ----- "UCSD" -----

  lemma UcsdLower(q: string)
    requires q == "UCSD"
    ensures Lower(q) == "ucsd"
  {
  }

  lemma UcsdSteps(t: string, d: string, fixes: seq<(string, string)>)
    requires t == "ucsd" && d == "uc san diego" && fixes == TypoFixes
    ensures ApplyFixes(t, fixes) == ApplyFixes(d, fixes[4..])
  {
    TypoTable(fixes);
    LaterFixes(fixes);
    AbsentChar(t, "usb", 'b');
    AbsentChar(t, "ucb", 'b');
    AbsentChar(t, "berkley", 'b');
    FixSkips(t, "usb", fixes[0].1);
    FixStep(t, fixes, t);
    assert fixes[1..][0] == fixes[1];
    FixSkips(t, "ucb", fixes[1].1);
    FixStep(t, fixes[1..], t);
    assert fixes[1..][1..] == fixes[2..] && fixes[2..][0] == fixes[2];
    FixSkips(t, "berkley", fixes[2].1);
    FixStep(t, fixes[2..], t);
    assert fixes[2..][1..] == fixes[3..] && fixes[3..][0] == fixes[3];
    FixReplacesAll(t, d);
    FixStep(t, fixes[3..], d);
    assert fixes[3..][1..] == fixes[4..];
  }

  lemma SanDiegoUnchanged(t: string, fixes: seq<(string, string)>)
    requires t == "uc san diego" && fixes == TypoFixes
    ensures ApplyFixes(t, fixes[4..]) == t
  {
    AbsentPair(t, "uc sd", 4);
    LastSkips(t, fixes);
  }

  /** "UCSD" normalises to "uc san diego". */
  lemma UcsdNormalized(q: string, d: string, fixes: seq<(string, string)>)
    requires q == "UCSD" && d == "uc san diego" && fixes == TypoFixes
    ensures NormalizeTypos(q) == d
  {
    var t := Lower(q);
    UcsdLower(q);
    UcsdSteps(t, d, fixes);
    SanDiegoUnchanged(d, fixes);
  }

  lemma SanDiegoLetters(t: string)
    requires t == "uc san diego"
    ensures 'b' !in t && 'l' !in t
  {
  }

  lemma SanDiegoNotUcd(t: string)
    requires t == "uc san diego"
    ensures !Mentions(t, "UCD")
  {
    AnyInIff(t, AliasesOf("UCD"));
    AbsentChar(t, "uc davis", 'v');
    AbsentChar(t, "davis", 'v');
    AbsentPair(t, "ucd", 2);
  }

  lemma SanDiegoIsUcsd(t: string)
    requires t == "uc san diego"
    ensures Mentions(t, "UCSD")
  {
    ContainsByChars(t, "uc san diego", 0);
    AnyInIff(t, AliasesOf("UCSD"));
    assert "uc san diego" in AliasesOf("UCSD");
  }

  /** Detection of the third key, given that the first two are absent. */
  lemma DetectThird(q: string)
    requires !Mentions(NormalizeTypos(q), "UCB") && !Mentions(NormalizeTypos(q), "UCD")
    requires Mentions(NormalizeTypos(q), "UCSD")
    ensures DetectCampus(q) == Some("UCSD")
  {
    assert CampusKeys[0] == "UCB" && CampusKeys[1] == "UCD" && CampusKeys[2] == "UCSD";
    DetectFirst(q, 2);
  }

  lemma UcsdDetected(q: string)
    requires q == "UCSD"
    ensures DetectCampus(q) == Some("UCSD")
  {
    UcsdNormalized(q, "uc san diego", TypoFixes);
    var t := NormalizeTypos(q);
    SanDiegoLetters(t);
    LacksBerkeley(t);
    SanDiegoNotUcd(t);
    SanDiegoIsUcsd(t);
    DetectThird(q);
  }

  lemma KeysDetectThemselves()
    ensures forall k | k in CampusKeys :: DetectCampus(k) == Some(k)
  {
    forall k | k in CampusKeys ensures DetectCampus(k) == Some(k) {
      if k == "UCB" {
        UcbDetected(k);
      } else if k == "UCD" {
        UcdDetected(k);
      } else {
        UcsdDetected(k);
      }
    }
  }

  // ----- "calculus" -----

  lemma CalculusPlain(q: string)
    requires q == "calculus"
    ensures Lower(q) == q && PatternFree(q)
  {
    assert NoUpper(q);
    LowerOfLowercase(q);
    AbsentChar(q, "usb", 'b');
    AbsentChar(q, "ucb", 'b');
    AbsentChar(q, "berkley", 'b');
    AbsentChar(q, "ucsd", 'd');
    AbsentChar(q, "uc sd", 'd');
  }

  lemma CalculusNormalized(q: string)
    requires q == "calculus"
    ensures NormalizeTypos(q) == q
  {
    CalculusPlain(q);
    PlainNormalized(q, q);
  }

  lemma CalculusMentionsUcb(t: string)
    requires t == "calculus"
    ensures Mentions(t, "UCB")
  {
    ContainsByChars(t, "cal", 0);
    AnyInIff(t, AliasesOf("UCB"));
    assert "cal" in AliasesOf("UCB");
  }

  /** The alias "cal" is a plain substring test, so a query about calculus
      selects UC Berkeley. */
  lemma CalculusSelectsBerkeley(q: string)
    requires q == "calculus"
    ensures "UCB" in DetectCampuses(q)
  {
    CalculusNormalized(q);
    CalculusMentionsUcb(NormalizeTypos(q));
    assert "UCB" in CampusKeys;
  }

  // ----- "I want to transfer to Cal" -----

  /** Lower-casing a text whose middle has no upper-case letter. */
  lemma LowerAround(q: string, x: string, m: string, y: string, t: string, x': string, y': string)
    requires q == x + m + y && t == x' + m + y' && NoUpper(m)
    requires Lower(x) == x' && Lower(y) == y'
    ensures Lower(q) == t
  {
    LowerConcat(x + m, y);
    LowerConcat(x, m);
    LowerOfLowercase(m);
  }

  lemma CalQueryPieces(q: string, mid: string)
    requires q == "I want to transfer to Cal" && mid == " want to transfer to "
    ensures q == "I" + mid + "Cal" && NoUpper(mid)
  {
  }

  lemma CalLowerPieces(t: string, mid: string)
    requires t == "i want to transfer to cal" && mid == " want to transfer to "
    ensures t == "i" + mid + "cal"
  {
  }

  lemma CalWordsLower(x: string, y: string)
    requires x == "I" && y == "Cal"
    ensures Lower(x) == "i" && Lower(y) == "cal"
  {
  }

  lemma CalQueryLower(q: string, t: string)
    requires q == "I want to transfer to Cal" && t == "i want to transfer to cal"
    ensures Lower(q) == t
  {
    var mid := " want to transfer to ";
    CalQueryPieces(q, mid);
    CalLowerPieces(t, mid);
    CalWordsLower("I", "Cal");
    LowerAround(q, "I", mid, "Cal", t, "i", "cal");
  }

  lemma CalQueryLetters(t: string)
    requires t == "i want to transfer to cal"
    ensures 'b' !in t && 'd' !in t
  {
  }

  /** A text with neither a "b" nor a "d" holds no typo pattern. */
  lemma NoBNoD(t: string)
    requires 'b' !in t && 'd' !in t
    ensures PatternFree(t)
  {
    AbsentChar(t, "usb", 'b');
    AbsentChar(t, "ucb", 'b');
    AbsentChar(t, "berkley", 'b');
    AbsentChar(t, "ucsd", 'd');
    AbsentChar(t, "uc sd", 'd');
  }

  lemma CalQueryHasCal(t: string)
    requires t == "i want to transfer to cal"
    ensures Contains(t, "cal")
  {
    ContainsByChars(t, "cal", 22);
  }

  /** A text holding the alias "cal" mentions UC Berkeley. */
  lemma CalMentionsUcb(t: string)
    requires Contains(t, "cal")
    ensures Mentions(t, "UCB")
  {
    AnyInIff(t, AliasesOf("UCB"));
    assert "cal" in AliasesOf("UCB");
  }

  /** The lower-cased question holds no typo pattern, so it is what the
      detector reads, and its last word "cal" is an alias of UC Berkeley. */
  lemma TransferToCal(q: string)
    requires q == "I want to transfer to Cal"
    ensures NormalizeTypos(q) == "i want to transfer to cal"
    ensures "UCB" in DetectCampuses(q)
  {
    var t := "i want to transfer to cal";
    CalQueryLower(q, t);
    CalQueryLetters(t);
    NoBNoD(t);
    PlainNormalized(q, t);
    CalQueryHasCal(t);
    CalMentionsUcb(t);
    assert "UCB" in CampusKeys;
  }

  // ----- "ucb and ucsd requirements" -----

  lemma BothLower(q: string)
    requires q == "ucb and ucsd requirements"
    ensures Lower(q) == q
  {
    assert NoUpper(q);
    LowerOfLowercase(q);
  }

  lemma BothNoUsb(q: string)
    requires q == "ucb and ucsd requirements"
    ensures SubWord(q, "usb", TypoFacts.UcBerkeley) == q
  {
    AbsentPair(q, "usb", 1);
    FixSkips(q, "usb", TypoFacts.UcBerkeley);
  }

  lemma BothQueryPieces(q: string, b: string)
    requires q == "ucb and ucsd requirements" && b == " and ucsd requirements"
    ensures q == [] + "ucb" + b
  {
  }

  lemma BothFirstPieces(t: string, b: string)
    requires t == "uc berkeley and ucsd requirements" && b == " and ucsd requirements"
    ensures t == [] + TypoFacts.UcBerkeley + b
  {
  }

  lemma BothUcbParts(w: string, b: string)
    requires w == "ucb" && b == " and ucsd requirements"
    ensures TypoFacts.WordEdged(w) && TypoFacts.WordChars(w)
    ensures |b| > 0 ==> !IsWordChar(b[0])
    ensures !Contains([], w) && !Contains(b, w)
  {
    AbsentChar([], w, 'u');
    AbsentChar(b, w, 'b');
    TypoFacts.ShortPatternsWordChars();
  }

  lemma BothUcb(q: string, t: string)
    requires q == "ucb and ucsd requirements" && t == "uc berkeley and ucsd requirements"
    ensures SubWord(q, "ucb", TypoFacts.UcBerkeley) == t
  {
    var b := " and ucsd requirements";
    BothQueryPieces(q, b);
    BothFirstPieces(t, b);
    BothUcbParts("ucb", b);
    RewriteOnce(q, t, [], "ucb", b, TypoFacts.UcBerkeley);
  }

  lemma BothNoBerkley(t: string)
    requires t == "uc berkeley and ucsd requirements"
    ensures SubWord(t, "berkley", "berkeley") == t
  {
    AbsentPair(t, "berkley", 4);
    FixSkips(t, "berkley", "berkeley");
  }

  lemma BothUcsdPieces(t: string, u: string, front: string, rest: string)
    requires t == "uc berkeley and ucsd requirements"
    requires u == "uc berkeley and uc san diego requirements"
    requires front == "uc berkeley and " && rest == " requirements"
    ensures t == front + "ucsd" + rest && u == front + TypoFacts.UcSanDiego + rest
  {
  }

  lemma BothUcsdParts(front: string, w: string, rest: string)
    requires front == "uc berkeley and " && w == "ucsd" && rest == " requirements"
    ensures TypoFacts.WordEdged(w) && TypoFacts.WordChars(w)
    ensures |front| > 0 ==> !IsWordChar(front[|front| - 1])
    ensures |rest| > 0 ==> !IsWordChar(rest[0])
    ensures !Contains(front, w) && !Contains(rest, w)
  {
    AbsentChar(front, w, 's');
    AbsentChar(rest, w, 'd');
    TypoFacts.ShortPatternsWordChars();
  }

  lemma BothUcsd(t: string, u: string)
    requires t == "uc berkeley and ucsd requirements"
    requires u == "uc berkeley and uc san diego requirements"
    ensures SubWord(t, "ucsd", TypoFacts.UcSanDiego) == u
  {
    var front, rest := "uc berkeley and ", " requirements";
    BothUcsdPieces(t, u, front, rest);
    BothUcsdParts(front, "ucsd", rest);
    RewriteOnce(t, u, front, "ucsd", rest, TypoFacts.UcSanDiego);
  }

  lemma BothNoUcSd(u: string)
    requires u == "uc berkeley and uc san diego requirements"
    ensures SubWord(u, "uc sd", TypoFacts.UcSanDiego) == u
  {
    AbsentPair(u, "uc sd", 4);
    FixSkips(u, "uc sd", TypoFacts.UcSanDiego);
  }

  /** The five passes on "ucb and ucsd requirements": "ucb" and "ucsd" are
      each rewritten once, and no other pattern occurs. */
  lemma BothRewritten(q: string)
    requires q == "ucb and ucsd requirements"
    ensures NormalizeTypos(q) == "uc berkeley and uc san diego requirements"
  {
    var t := "uc berkeley and ucsd requirements";
    var u := "uc berkeley and uc san diego requirements";
    BothLower(q);
    TypoFacts.TypoPasses(q);
    BothNoUsb(q);
    BothUcb(q, t);
    BothNoBerkley(t);
    BothUcsd(t, u);
    BothNoUcSd(u);
  }

  lemma BothHasBerkeley(t: string)
    requires t == "uc berkeley and uc san diego requirements"
    ensures Contains(t, "uc berkeley")
  {
    ContainsByChars(t, "uc berkeley", 0);
  }

  lemma BothHasSanDiego(t: string)
    requires t == "uc berkeley and uc san diego requirements"
    ensures Contains(t, "uc san diego")
  {
    ContainsByChars(t, "uc san diego", 16);
  }

  lemma BothNoDavisWord(t: string)
    requires t == "uc berkeley and uc san diego requirements"
    ensures !Contains(t, "uc davis") && !Contains(t, "davis")
  {
    AbsentChar(t, "uc davis", 'v');
    AbsentChar(t, "davis", 'v');
  }

  lemma BothNoUcd(t: string)
    requires t == "uc berkeley and uc san diego requirements"
    ensures !Contains(t, "ucd")
  {
    AbsentPair(t, "ucd", 2);
  }

  /** Which campuses a text naming UC Berkeley and UC San Diego, and no
      alias of UC Davis, mentions. */
  lemma BerkeleyAndSanDiegoNamed(t: string)
    requires Contains(t, "uc berkeley") && Contains(t, "uc san diego")
    requires !Contains(t, "uc davis") && !Contains(t, "davis") && !Contains(t, "ucd")
    ensures Mentions(t, "UCB") && !Mentions(t, "UCD") && Mentions(t, "UCSD")
  {
    AnyInIff(t, AliasesOf("UCB"));
    AnyInIff(t, AliasesOf("UCD"));
    AnyInIff(t, AliasesOf("UCSD"));
  }

  /** A question read as naming UC Berkeley and UC San Diego but not UC
      Davis detects exactly those two, in key order. */
  lemma DetectsBerkeleyAndSanDiego(q: string)
    requires Mentions(NormalizeTypos(q), "UCB") && !Mentions(NormalizeTypos(q), "UCD")
    requires Mentions(NormalizeTypos(q), "UCSD")
    ensures DetectCampuses(q) == ["UCB", "UCSD"]
  {
    var want := ["UCB", "UCSD"];
    var r := DetectCampuses(q);
    assert StrictlySorted(want) by {
      CampusTable();
      assert want[0] == CampusKeys[0] && want[1] == CampusKeys[2];
    }
    forall y ensures y in r <==> y in want {
      assert y in CampusKeys <==> y == "UCB" || y == "UCD" || y == "UCSD";
    }
    StrictlySortedUnique(r, want);
  }

  /** "ucb and ucsd requirements" selects exactly UC Berkeley and UC San
      Diego, in key order. */
  lemma BerkeleyAndSanDiego(q: string)
    requires q == "ucb and ucsd requirements"
    ensures DetectCampuses(q) == ["UCB", "UCSD"]
  {
    var t := "uc berkeley and uc san diego requirements";
    BothRewritten(q);
    BothHasBerkeley(t);
    BothHasSanDiego(t);
    BothNoDavisWord(t);
    BothNoUcd(t);
    BerkeleyAndSanDiegoNamed(t);
    DetectsBerkeleyAndSanDiego(q);
  }
}
