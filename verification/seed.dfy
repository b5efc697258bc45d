/** Domain intent seeded from the first query (`parse_preferences_seed` in
    backend/ai_agent.py): which domains the text mentions, whether exactly
    one of them is singled out, and the categories kept as hints. */
module Seed {
  import opened Strings
  import opened Optional
  import opened Campus
  import opened Categories

  /** The returned dictionary. `exclusiveDomain` is "cs", "math" or
      "science" when present. */
  datatype SeedPrefs = SeedPrefs(
    requiredOnly: bool,
    exclusiveDomain: Option<string>,
    wantCs: bool,
    wantMath: bool,
    wantScience: bool,
    seedCategories: seq<string>)

  const CsCues: seq<string> := [" cs ", "comsc", "computer science", "programming", "data structures"]
  const MathCues: seq<string> := [" math ", "calculus", "linear algebra", "differential equations"]
  const ScienceCues: seq<string> :=
    [" science ", "physics", "chemistry", "biology", " bio ", " chem ", " phys "]
  const RequiredCues: seq<string> := ["required only", "only required", "must have", "need all"]

  /** `" " + q.lower().strip() + " "`: padding lets " cs " match a whole
      word at either end of the query. */
  function Padded(q: string): string {
    " " + Strip(Lower(q)) + " "
  }

  /** Exactly one of three flags holds. */
  predicate ExactlyOne(a: bool, b: bool, c: bool) {
    (a && !b && !c) || (!a && b && !c) || (!a && !b && c)
  }

  /** The domain singled out by the three flags, if exactly one holds. */
  function Exclusive(cs: bool, math: bool, science: bool): (r: Option<string>)
    ensures r.Some? <==> ExactlyOne(cs, math, science)
    ensures r == Some("cs") <==> cs && !math && !science
    ensures r == Some("math") <==> math && !cs && !science
    ensures r == Some("science") <==> science && !cs && !math
  {
    if cs && !(math || science) then Some("cs")
    else if math && !(cs || science) then Some("math")
    else if science && !(cs || math) then Some("science")
    else None
  }

  function ParsePreferencesSeed(q: string, order: seq<string>): (r: SeedPrefs)
    requires IsKeyOrder(order)
    ensures r.wantCs <==> exists cue :: cue in CsCues && Contains(Padded(q), cue)
    ensures r.wantMath <==> exists cue :: cue in MathCues && Contains(Padded(q), cue)
    ensures r.wantScience <==> exists cue :: cue in ScienceCues && Contains(Padded(q), cue)
    ensures r.requiredOnly <==> exists cue :: cue in RequiredCues && Contains(Padded(q), cue)
    ensures r.exclusiveDomain.Some? <==> ExactlyOne(r.wantCs, r.wantMath, r.wantScience)
    ensures r.exclusiveDomain == Some("cs") <==> r.wantCs && !r.wantMath && !r.wantScience
    ensures r.exclusiveDomain == Some("math") <==> r.wantMath && !r.wantCs && !r.wantScience
    ensures r.exclusiveDomain == Some("science") <==> r.wantScience && !r.wantCs && !r.wantMath
    ensures r.exclusiveDomain.Some? ==> r.seedCategories == []
    ensures r.exclusiveDomain.None? ==> r.seedCategories == NormalizeCategories(q, order)
  {
    var t := Padded(q);
    AnyInIff(t, CsCues);
    AnyInIff(t, MathCues);
    AnyInIff(t, ScienceCues);
    AnyInIff(t, RequiredCues);
    var cs := AnyIn(t, CsCues);
    var math := AnyIn(t, MathCues);
    var science := AnyIn(t, ScienceCues);
    var exclusive := Exclusive(cs, math, science);
    SeedPrefs(
      AnyIn(t, RequiredCues),
      exclusive,
      cs, math, science,
      if exclusive.Some? then [] else NormalizeCategories(q, order))
  }

  /** The seed categories are always sorted, duplicate-free, non-blank
      phrases, whether kept or cleared. */
  lemma SeedCategoriesShape(q: string, order: seq<string>)
    requires IsKeyOrder(order)
    ensures StrictlySorted(ParsePreferencesSeed(q, order).seedCategories)
    ensures forall x | x in ParsePreferencesSeed(q, order).seedCategories :: x != "" && Stripped(x)
  {
  }

  /** Padding of a query that is already lower-case and stripped. */
  lemma PaddedPlain(q: string)
    requires NoUpper(q) && Stripped(q)
    ensures Padded(q) == " " + q + " "
  {
    LowerOfLowercase(q);
  }

  lemma MixedPlain(q: string)
    requires q == "math requirements for computer science"
    ensures NoUpper(q) && Stripped(q)
  {
  }

  lemma MixedMentions(q: string, p: string)
    requires q == "math requirements for computer science"
    requires p == " " + q + " "
    ensures AnyIn(p, MathCues) && AnyIn(p, CsCues)
  {
    ContainsByChars(p, " math ", 0);
    ContainsByChars(p, "computer science", 23);
    AnyInIff(p, MathCues);
    AnyInIff(p, CsCues);
    assert " math " in MathCues && "computer science" in CsCues;
  }

  /** A query naming two domains singles none out and keeps its category
      hints: "math requirements for computer science". */
  lemma MixedIntentKeepsCategories(q: string, order: seq<string>)
    requires q == "math requirements for computer science"
    requires IsKeyOrder(order)
    ensures var r := ParsePreferencesSeed(q, order);
      r.wantCs && r.wantMath && r.exclusiveDomain.None? &&
      r.seedCategories == NormalizeCategories(q, order)
  {
    MixedPlain(q);
    PaddedPlain(q);
    MixedMentions(q, Padded(q));
  }

  // The "cs only" example is a chain of small lemmas, one fact per lemma,
  // which keeps the unrolling of literal strings within the verifier's
  // resource limit; `CsOnlyIsExclusive` combines them.

  lemma CsOnlyPadded(q: string)
    requires q == "cs only"
    ensures Padded(q) == " cs only "
  {
    assert NoUpper(q) && Stripped(q);
    PaddedPlain(q);
  }

  lemma CsOnlyMentionsCs()
    ensures AnyIn(" cs only ", CsCues)
  {
    var p := " cs only ";
    assert p[0..4] == " cs ";
    ContainsAt(p, " cs ", 0);
  }

  /** The letters of " cs only " that no math, science or required-only
      cue can do without. */
  lemma CsOnlyLetters(p: string)
    requires p == " cs only "
    ensures 'm' !in p && 'a' !in p && 'i' !in p && 'd' !in p
    ensures 'p' !in p && 'h' !in p && 'b' !in p && 'r' !in p
  {
  }

  /** A text without the letters m, a, i and d names no math subject. */
  lemma NoMathWithout(p: string)
    requires 'm' !in p && 'a' !in p && 'i' !in p && 'd' !in p
    ensures !AnyIn(p, MathCues)
  {
    AnyInIff(p, MathCues);
    AbsentChar(p, " math ", 'm');
    AbsentChar(p, "calculus", 'a');
    AbsentChar(p, "linear algebra", 'i');
    AbsentChar(p, "differential equations", 'd');
  }

  /** A text without the letters i, p, h and b names no science subject. */
  lemma NoScienceWithout(p: string)
    requires 'i' !in p && 'p' !in p && 'h' !in p && 'b' !in p
    ensures !AnyIn(p, ScienceCues)
  {
    AnyInIff(p, ScienceCues);
    AbsentChar(p, " science ", 'i');
    AbsentChar(p, "physics", 'p');
    AbsentChar(p, "chemistry", 'h');
    AbsentChar(p, "biology", 'b');
    AbsentChar(p, " bio ", 'b');
    AbsentChar(p, " chem ", 'h');
    AbsentChar(p, " phys ", 'p');
  }

  /** A text without the letters r, m and d asks for no required-only filter. */
  lemma NotRequiredWithout(p: string)
    requires 'r' !in p && 'm' !in p && 'd' !in p
    ensures !AnyIn(p, RequiredCues)
  {
    AnyInIff(p, RequiredCues);
    AbsentChar(p, "required only", 'r');
    AbsentChar(p, "only required", 'r');
    AbsentChar(p, "must have", 'm');
    AbsentChar(p, "need all", 'd');
  }

  /** "cs only" singles out the cs domain and clears the category hints. */
  lemma CsOnlyIsExclusive(q: string, order: seq<string>)
    requires q == "cs only"
    requires IsKeyOrder(order)
    ensures ParsePreferencesSeed(q, order).exclusiveDomain == Some("cs")
    ensures ParsePreferencesSeed(q, order).seedCategories == []
    ensures !ParsePreferencesSeed(q, order).requiredOnly
  {
    var p := " cs only ";
    CsOnlyPadded(q);
    CsOnlyMentionsCs();
    CsOnlyLetters(p);
    NoMathWithout(p);
    NoScienceWithout(p);
    NotRequiredWithout(p);
  }
}
