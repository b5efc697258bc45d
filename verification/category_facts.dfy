/** Facts about category extraction: a pattern whose keyword is absent
    finds nothing, the lazy quoted group ends at the first closing quote,
    and the worked example `category:"major preparation"`. */
module CategoryFacts {
  import opened Strings
  import opened Optional
  import opened Scan
  import opened Campus
  import opened Categories
  import CampusFacts

  /** Without its keyword, the `only` or `show` pattern matches nowhere. */
  lemma {:induction false} ScanWithoutKeyword(p: Pattern, kw: string, t: string, i: nat)
    requires (p == OnlyPhrase && kw == "only") || (p == ShowOnly && kw == "show")
    requires i <= |t| && !Contains(t, kw)
    ensures ScanFrom(p, t, i) == []
    decreases |t| - i
  {
    if i < |t| {
      ContainsIff(t, kw);
      assert !OccursAt(t, kw, i);
      assert MatchAt(p, t, i).None?;
      ScanWithoutKeyword(p, kw, t, i + 1);
    }
  }

  /** The lazy group runs up to the first closing quote, provided no
      newline comes first. */
  lemma {:induction false} LazyQuotedFinds(t: string, g: nat, k: nat, e: nat)
    requires 1 <= k && g + k <= e < |t|
    requires IsCloseQuote(t[e])
    requires forall j | g <= j < e :: t[j] != '\n'
    requires forall j | g < j < e :: !IsCloseQuote(t[j])
    ensures LazyQuoted(t, g, k) == Some(Hit(t[g..e], e + 1))
    decreases e - g - k
  {
    assert t[g + k - 1] != '\n';
    if g + k < e {
      assert !IsCloseQuote(t[g + k]);
      LazyQuotedFinds(t, g, k + 1, e);
    }
  }

  /** A sorted list holding exactly one value is that value alone. */
  lemma SortedSingleton(r: seq<string>, m: string)
    requires StrictlySorted(r)
    requires forall x :: x in r <==> x == m
    ensures r == [m]
  {
    assert m in r;
    if |r| >= 2 {
      assert r[0] in r && r[1] in r;
      LessIrreflexive(m);
    }
  }

  // ----- category:"major preparation" -----

  lemma ExampleChars(t: string)
    requires t == "category:\"major preparation\""
    ensures |t| == 28 && t[8] == ':' && t[9] == '"' && t[27] == '"'
    ensures forall j | 10 <= j < 27 :: t[j] != '\n' && !IsCloseQuote(t[j])
    ensures t[10..27] == "major preparation"
  {
  }

  /** The code points of every character the example uses: space, `"`,
      `:`, and the letters a c e g i j m n o p r t y. */
  const ExampleCodes: set<int> :=
    {32, 34, 58, 97, 99, 101, 103, 105, 106, 109, 110, 111, 112, 114, 116, 121}

  /** Every character of `s` is one the example uses. */
  predicate OverExampleAlphabet(s: string) {
    forall i | 0 <= i < |s| :: s[i] as int in ExampleCodes
  }

  /** A needle with a character outside the example's alphabet is absent
      from any text over that alphabet. */
  lemma ExampleLacks(s: string, needle: string, k: nat)
    requires OverExampleAlphabet(s)
    requires k < |needle| && needle[k] as int !in ExampleCodes
    ensures !Contains(s, needle)
  {
    AbsentOutside(s, needle, k, ExampleCodes);
  }

  /** What the absence proofs need to know about the example: its
      alphabet, where `g`, `a` and `p` stand, and what follows them. */
  predicate ExampleProfile(t: string) {
    && |t| == 28
    && OverExampleAlphabet(t)
    && (forall i | 0 <= i < |t| && t[i] == 'g' :: i == 4)
    && (forall i | 0 <= i < |t| && t[i] == 'a' :: i == 1 || i == 11 || i == 20 || i == 22)
    && (forall i | 0 <= i < |t| && t[i] == 'p' :: i == 16 || i == 19)
    && t[4] == 'g' && t[5] == 'o' && t[14] == 'r' && t[18] == 'e'
    && t[21] == 'r' && t[23] == 't' && t[25] == 'o'
  }

  lemma ExampleAlphabet(t: string)
    requires t == "category:\"major preparation\""
    ensures OverExampleAlphabet(t)
  {
  }

  lemma ExamplePositions(t: string)
    requires t == "category:\"major preparation\""
    ensures forall i | 0 <= i < |t| && t[i] == 'g' :: i == 4
    ensures forall i | 0 <= i < |t| && t[i] == 'a' :: i == 1 || i == 11 || i == 20 || i == 22
    ensures forall i | 0 <= i < |t| && t[i] == 'p' :: i == 16 || i == 19
  {
  }

  lemma ExampleHasProfile(t: string)
    requires t == "category:\"major preparation\""
    ensures ExampleProfile(t)
  {
    ExampleAlphabet(t);
    ExamplePositions(t);
  }

  /** Text over the example's alphabet has no capital letter. */
  lemma ExampleAlphabetLower(s: string)
    requires OverExampleAlphabet(s)
    ensures NoUpper(s)
  {
    forall i | 0 <= i < |s| ensures !IsAsciiUpper(s[i]) {
      assert s[i] as int in ExampleCodes;
    }
  }

  lemma ExampleLower(t: string)
    requires t == "category:\"major preparation\""
    ensures Lower(t) == t
  {
    ExampleAlphabet(t);
    ExampleAlphabetLower(t);
    LowerOfLowercase(t);
  }

  lemma ExampleQuoted(t: string, m: string)
    requires t == "category:\"major preparation\"" && m == "major preparation"
    ensures QuotedAt(t, 0) == Some(Hit(m, 28))
  {
    ExampleChars(t);
    assert t[0..8] == "category";
    assert Run(t, 8, Space) == 0;
    assert Run(t, 9, Space) == 0;
    LazyQuotedFinds(t, 10, 1, 27);
  }

  lemma ExampleQuotedScan(t: string, m: string)
    requires t == "category:\"major preparation\"" && m == "major preparation"
    ensures ScanFrom(QuotedCategory, t, 0) == [m]
  {
    ExampleQuoted(t, m);
    assert Stripped(m);
    assert PhraseOf(QuotedCategory, m) == m;
    assert ScanFrom(QuotedCategory, t, 28) == [];
  }

  lemma ExampleNoKeywords(t: string)
    requires ExampleProfile(t)
    ensures ScanFrom(OnlyPhrase, t, 0) == [] && ScanFrom(ShowOnly, t, 0) == []
  {
    ExampleLacks(t, "only", 2);
    ExampleLacks(t, "show", 0);
    ScanWithoutKeyword(OnlyPhrase, "only", t, 0);
    ScanWithoutKeyword(ShowOnly, "show", t, 0);
  }

  lemma ExampleUnchanged(t: string)
    requires ExampleProfile(t) && Lower(t) == t
    ensures NormalizeTypos(t) == t
  {
    ExampleLacks(t, "usb", 1);
    ExampleLacks(t, "ucb", 0);
    ExampleLacks(t, "berkley", 0);
    ExampleLacks(t, "ucsd", 0);
    ExampleLacks(t, "uc sd", 0);
    CampusFacts.NoFixApplies(t, TypoFixes);
  }

  lemma ExampleHitsMajor(t: string)
    requires t == "category:\"major preparation\""
    ensures AliasHit(t, "major preparation")
  {
    ExampleChars(t);
    ContainsByChars(t, "major preparation", 10);
  }

  lemma ExampleMissesDivision(t: string)
    requires ExampleProfile(t)
    ensures !AliasHit(t, "lower division major")
  {
    AnyInIff(t, VariantsOf("lower division major"));
    ExampleLacks(t, "lower division major", 0);
    ExampleLacks(t, "ld major", 0);
  }

  /** `ge` is absent: the only `g` is followed by `o`. */
  lemma ExampleNoGe(t: string, needle: string)
    requires ExampleProfile(t)
    requires |needle| >= 2 && needle[0] == 'g' && needle[1] == 'e'
    ensures !Contains(t, needle)
  {
    AbsentPair(t, needle, 1);
  }

  lemma ExampleMissesGeneral(t: string)
    requires ExampleProfile(t)
    ensures !AliasHit(t, "general education")
  {
    AnyInIff(t, VariantsOf("general education"));
    ExampleLacks(t, "general education", 6);
    ExampleNoGe(t, "ge");
    ExampleLacks(t, "breadth", 0);
  }

  /** `area` is absent: no `a` has another `a` three places on. */
  lemma ExampleNoArea(t: string, needle: string)
    requires ExampleProfile(t) && needle == "area"
    ensures !Contains(t, needle)
  {
    AbsentPair(t, needle, 3);
  }

  lemma ExampleMissesBreadth(t: string)
    requires ExampleProfile(t)
    ensures !AliasHit(t, "breadth")
  {
    AnyInIff(t, VariantsOf("breadth"));
    ExampleLacks(t, "breadth", 0);
    ExampleNoGe(t, "ge area");
    ExampleNoArea(t, "area");
  }

  lemma ExampleMissesMath(t: string)
    requires ExampleProfile(t)
    ensures !AliasHit(t, "math")
  {
    AnyInIff(t, VariantsOf("math"));
    ExampleLacks(t, "math", 3);
    ExampleLacks(t, "mathematics", 3);
  }

  lemma ExampleMissesScience(t: string)
    requires ExampleProfile(t)
    ensures !AliasHit(t, "science")
  {
    AnyInIff(t, VariantsOf("science"));
    ExampleLacks(t, "science", 0);
    ExampleLacks(t, "natural science", 8);
    ExampleLacks(t, "biology", 0);
    ExampleLacks(t, "chemistry", 1);
    ExampleLacks(t, "physics", 1);
  }

  /** `programming` is absent: neither `p` has an `o` two places on. */
  lemma ExampleNoProgramming(t: string, needle: string)
    requires ExampleProfile(t) && needle == "programming"
    ensures !Contains(t, needle)
  {
    AbsentPair(t, needle, 2);
  }

  lemma ExampleMissesComputing(t: string)
    requires ExampleProfile(t)
    ensures !AliasHit(t, "computer science")
  {
    AnyInIff(t, VariantsOf("computer science"));
    ExampleLacks(t, "computer science", 9);
    ExampleLacks(t, "cs", 1);
    ExampleNoProgramming(t, "programming");
    ExampleLacks(t, "software", 0);
  }

  /** The fuzzy step selects exactly the key the text spells out. */
  lemma ExampleAliasHits(t: string, m: string)
    requires ExampleProfile(t) && AliasHit(t, m) && m == "major preparation"
    ensures forall k :: k in AliasHitsIn(t, CategoryKeys) <==> k == m
  {
    ExampleMissesDivision(t);
    ExampleMissesGeneral(t);
    ExampleMissesBreadth(t);
    ExampleMissesMath(t);
    ExampleMissesScience(t);
    ExampleMissesComputing(t);
  }

  /** A value that is either the phrase or a key inside it is the phrase,
      when the phrase is the first key and holds none of the others. */
  lemma FirstKeyOnly(keys: seq<string>, p: string, c: string)
    requires |keys| >= 1 && p == keys[0]
    requires forall j | 1 <= j < |keys| :: !Contains(p, keys[j])
    requires (c in keys && Contains(p, c)) || c == p
    ensures c == p
  {
  }

  /** The first key, when it contains none of the others, is its own
      canonical form. */
  lemma CanonicalOfFirstKey(p: string, order: seq<string>)
    requires IsKeyOrder(order) && p == CategoryKeys[0]
    requires forall j | 1 <= j < |CategoryKeys| :: !Contains(p, CategoryKeys[j])
    ensures Canonical(p, order) == p
  {
    CanonicalShape(p, order);
    FirstKeyOnly(CategoryKeys, p, Canonical(p, order));
  }

  lemma PhraseAlphabet(m: string)
    requires m == "major preparation"
    ensures OverExampleAlphabet(m)
  {
  }

  /** A phrase over the example's alphabet holds none of the six keys
      that use another letter. */
  lemma PhraseMissesOthers(m: string)
    requires OverExampleAlphabet(m)
    ensures forall j | 1 <= j < |CategoryKeys| :: !Contains(m, CategoryKeys[j])
  {
    ExampleLacks(m, "lower division major", 0);
    ExampleLacks(m, "general education", 6);
    ExampleLacks(m, "breadth", 0);
    ExampleLacks(m, "math", 3);
    ExampleLacks(m, "science", 0);
    ExampleLacks(m, "computer science", 9);
  }

  /** The only key inside the phrase is the phrase itself. */
  lemma ExampleCanonical(m: string, order: seq<string>)
    requires m == "major preparation" && IsKeyOrder(order)
    ensures Canonical(m, order) == m
  {
    PhraseAlphabet(m);
    PhraseMissesOthers(m);
    CanonicalOfFirstKey(m, order);
  }

  /** Text from which the three strategies pick one phrase, itself its own
      canonical form, normalises to that phrase alone. */
  lemma NormalizeSinglePhrase(text: string, order: seq<string>, m: string)
    requires IsKeyOrder(order)
    requires forall p :: p in Picked(NormalizeTypos(text)) <==> p == m
    requires Canonical(m, order) == m
    ensures NormalizeCategories(text, order) == [m]
  {
    var r := NormalizeCategories(text, order);
    assert forall x :: x in r <==> x == m;
    SortedSingleton(r, m);
  }

  /** The three strategies together pick exactly `m` when the quoted
      pattern yields it alone, the two `only` patterns yield nothing and
      the fuzzy step selects `m` alone. */
  lemma PickedSingle(low: string, m: string)
    requires ScanFrom(QuotedCategory, low, 0) == [m]
    requires ScanFrom(OnlyPhrase, low, 0) == [] && ScanFrom(ShowOnly, low, 0) == []
    requires forall k :: k in AliasHitsIn(low, CategoryKeys) <==> k == m
    ensures forall p :: p in Picked(low) <==> p == m
  {
    ConcatSingle(ScanFrom(QuotedCategory, low, 0), ScanFrom(OnlyPhrase, low, 0),
      ScanFrom(ShowOnly, low, 0), AliasHitsIn(low, CategoryKeys), m);
  }

  lemma ConcatSingle(a: seq<string>, b: seq<string>, c: seq<string>, d: seq<string>, m: string)
    requires a == [m] && b == [] && c == []
    requires forall k :: k in d <==> k == m
    ensures forall p :: p in a + b + c + d <==> p == m
  {
  }

  /** What each strategy picks from the example. */
  lemma ExamplePicked(low: string, m: string)
    requires low == "category:\"major preparation\"" && m == "major preparation"
    ensures forall p :: p in Picked(low) <==> p == m
  {
    ExampleHasProfile(low);
    ExampleQuotedScan(low, m);
    ExampleNoKeywords(low);
    ExampleHitsMajor(low);
    ExampleAliasHits(low, m);
    PickedSingle(low, m);
  }

  /** `category:"major preparation"` yields exactly ["major preparation"],
      whatever the iteration order of the canonical keys. */
  lemma QuotedCategoryExample(text: string, order: seq<string>)
    requires text == "category:\"major preparation\"" && IsKeyOrder(order)
    ensures NormalizeCategories(text, order) == ["major preparation"]
  {
    var m := "major preparation";
    ExampleHasProfile(text);
    ExampleLower(text);
    ExampleUnchanged(text);
    ExamplePicked(NormalizeTypos(text), m);
    ExampleCanonical(m, order);
    NormalizeSinglePhrase(text, order, m);
  }
}
