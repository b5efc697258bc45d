/** Course rows of one campus's articulation data and the assistant's row
    filter (`collect_course_rows`, `is_cs_row`, `is_math_row`,
    `is_science_row`, `_row_matches_any_category` and `filter_rows` in
    backend/ai_agent.py). */
module Rows {
  import opened Strings
  import opened Optional
  import opened Json
  import opened Campus
  import opened Categories
  import opened Seed
  import opened Subsequences

  /** One flattened course row. The text fields hold `(value or "")`;
      the requirement count and the units stay as decoded. */
  datatype Row = Row(category: string, minimumRequired: Json, code: string, title: string, units: Json)

  /** `(value or "")` used as text: a falsy value reads as "", and a truthy
      value that is not a string has no string methods (`None`). */
  function TextOf(j: Json): (r: Option<string>)
    ensures j.JStr? ==> r == Some(j.s)
    ensures !j.JStr? ==> (r.Some? <==> !Truthy(j))
    ensures r.Some? && !j.JStr? ==> r.value == ""
  {
    match j
    case JStr(s) => Some(s)
    case _ => if Truthy(j) then None else Some("")
  }

  // ----- collect_course_rows -----

  /** The row built from one DVC course object. */
  function RowFrom(cat: Json, mr: Json, d: seq<(string, Json)>): Option<Row> {
    var code := Or(GetOr(d, "Course_Code", JStr("")), GetOr(d, "Code", JStr("")));
    var title := GetOr(d, "Title", JStr(""));
    var units := Or(GetOr(d, "Units", JStr("")), GetOr(d, "units", JStr("")));
    match (TextOf(cat), TextOf(code), TextOf(title))
    case (Some(c), Some(k), Some(t)) => Some(Row(c, mr, k, t, units))
    case _ => None
  }

  /** Both parts succeed, and their rows are concatenated. */
  function Then(a: Option<seq<Row>>, b: Option<seq<Row>>): (r: Option<seq<Row>>)
    ensures r.Some? <==> a.Some? && b.Some?
    ensures r.Some? ==> r.value == a.value + b.value
  {
    if a.Some? && b.Some? then Some(a.value + b.value) else None
  }

  /** Rows of the items of one DVC block: objects become rows, anything
      else is skipped. */
  function ItemRows(cat: Json, mr: Json, items: seq<Json>): (r: Option<seq<Row>>)
    ensures r.Some? ==> |r.value| <= |items|
  {
    if |items| == 0 then Some([])
    else
      var head: Option<seq<Row>> :=
        match items[0]
        case JObj(d) => (match RowFrom(cat, mr, d) case Some(row) => Some([row]) case None => None)
        case _ => Some([]);
      Then(head, ItemRows(cat, mr, items[1..]))
  }

  /** Rows of the course pairs of a block. A pair that is not an object has
      no `get`, which aborts the whole collection. A DVC value that is not
      a list is treated as a one-element list. */
  function PairRows(cat: Json, mr: Json, pairs: seq<Json>): Option<seq<Row>> {
    if |pairs| == 0 then Some([])
    else
      match pairs[0]
      case JObj(fields) =>
        var block := Get(fields, "DVC").GetOr(JNull);
        var items := if block.JArr? then block.items else [block];
        Then(ItemRows(cat, mr, items), PairRows(cat, mr, pairs[1..]))
      case _ => None
  }

  /** The rows an object contributes itself: only an object with both a
      "Category" and a "Courses" key, whose courses are a list. */
  function OwnRows(fields: seq<(string, Json)>): Option<seq<Row>> {
    if HasKey(fields, "Category") && HasKey(fields, "Courses") then
      var cat := GetOr(fields, "Category", JStr(""));
      var mr := GetOr(fields, "Minimum_Required", JStr(""));
      var courses := GetOr(fields, "Courses", JArr([]));
      if courses.JArr? then PairRows(cat, mr, courses.items) else Some([])
    else Some([])
  }

  /** `_rec`: an object's own rows, then the rows of each of its values in
      order; a list's rows are those of its items in order. */
  function Collect(j: Json): Option<seq<Row>>
    decreases j, 1, 0
  {
    match j
    case JObj(fields) => Then(OwnRows(fields), CollectChildren(j, 0))
    case JArr(_) => CollectChildren(j, 0)
    case _ => Some([])
  }

  function ChildCount(j: Json): nat {
    match j
    case JObj(fields) => |fields|
    case JArr(items) => |items|
    case _ => 0
  }

  /** The rows of the children of `j` from the `k`-th on. */
  function CollectChildren(j: Json, k: nat): Option<seq<Row>>
    decreases j, 0, ChildCount(j) - k
  {
    if k >= ChildCount(j) then Some([])
    else
      match j
      case JObj(fields) => Then(Collect(fields[k].1), CollectChildren(j, k + 1))
      case JArr(items) => Then(Collect(items[k]), CollectChildren(j, k + 1))
  }

  /** The text the de-duplication compares: the stripped code. */
  function CodeKey(): Row -> string {
    (r: Row) => Strip(r.code)
  }

  /** `collect_course_rows`: `None` when the traversal aborts. */
  method CollectCourseRows(campus: Json) returns (r: Option<seq<Row>>)
    ensures r.Some? <==> Collect(campus).Some?
    ensures r.Some? ==> r.value == FirstOccurrences(Collect(campus).value, CodeKey())
    ensures r.Some? ==> IsSubseq(r.value, Collect(campus).value)
    ensures r.Some? ==> forall row | row in r.value :: Strip(row.code) != ""
    ensures r.Some? ==> forall i, j | 0 <= i < j < |r.value| :: Strip(r.value[i].code) != Strip(r.value[j].code)
  {
    var all := Collect(campus);
    if all.None? {
      return None;
    }
    var d := DedupeBy(all.value, CodeKey());
    FirstOccurrencesShape(all.value, CodeKey());
    return Some(d);
  }

  // ----- classifiers -----

  /** `s.startswith(prefixes)` for a tuple of prefixes. */
  predicate StartsWithAny(s: string, prefixes: seq<string>) {
    exists i | 0 <= i < |prefixes| :: StartsWith(s, prefixes[i])
  }

  const CsCodePrefixes: seq<string> := ["COMSC-", "COMSCI-", "COMPSC-", "CS-"]
  const CsTitleWords: seq<string> := ["programming", "data structures", "software"]
  const CsCategoryWords: seq<string> := ["major preparation", "lower division major", "computer science"]
  const MathCodePrefixes: seq<string> := ["MATH-", "STAT-"]
  const MathCategoryWords: seq<string> := ["mathematics", "math"]
  const MathTitleWords: seq<string> := ["calculus", "linear algebra", "differential equations"]
  const ScienceCodePrefixes: seq<string> := ["PHYS-", "CHEM-", "BIOSC-", "BIOL-"]
  const ScienceCategoryWords: seq<string> := ["physics", "chemistry", "biology"]

  predicate IsCsRow(r: Row) {
    StartsWithAny(Upper(r.code), CsCodePrefixes) ||
    AnyIn(Lower(r.title), CsTitleWords) ||
    AnyIn(Lower(r.category), CsCategoryWords)
  }

  predicate IsMathRow(r: Row) {
    StartsWithAny(Upper(r.code), MathCodePrefixes) ||
    AnyIn(Lower(r.category), MathCategoryWords) ||
    AnyIn(Lower(r.title), MathTitleWords)
  }

  /** The category word "science" counts only outside "computer science". */
  predicate IsScienceRow(r: Row) {
    var cat := Lower(r.category);
    StartsWithAny(Upper(r.code), ScienceCodePrefixes) ||
    (Contains(cat, "science") && !Contains(cat, "computer science")) ||
    AnyIn(cat, ScienceCategoryWords)
  }

  /** A category mentioning "computer science" and none of physics,
      chemistry or biology makes a row science only through its code. */
  lemma ComputerScienceIsNotScience(r: Row)
    requires Contains(Lower(r.category), "computer science")
    requires forall w | w in ScienceCategoryWords :: !Contains(Lower(r.category), w)
    ensures IsScienceRow(r) <==> StartsWithAny(Upper(r.code), ScienceCodePrefixes)
  {
    AnyInIff(Lower(r.category), ScienceCategoryWords);
  }

  /** The text "computer science" lacks a character of each science word. */
  lemma LacksChar(cat: string, w: string, c: char)
    requires cat == "computer science"
    requires c in w && c !in "computer science"
    ensures !Contains(cat, w)
  {
    AbsentChar(cat, w, c);
  }

  lemma ComputerScienceSelf(cat: string)
    requires cat == "computer science"
    ensures Contains(cat, "computer science")
  {
    ContainsByChars(cat, "computer science", 0);
  }

  /** The text "computer science" contains none of the science words. */
  lemma ComputerScienceText(cat: string)
    requires cat == "computer science"
    ensures forall w | w in ScienceCategoryWords :: !Contains(cat, w)
  {
    LacksChar(cat, "physics", 'y');
    LacksChar(cat, "chemistry", 'h');
    LacksChar(cat, "biology", 'b');
  }

  /** A "Computer Science" category with a non-science code is not science,
      and is cs. */
  lemma ComputerScienceCategory(r: Row)
    requires Lower(r.category) == "computer science"
    requires !StartsWithAny(Upper(r.code), ScienceCodePrefixes)
    ensures !IsScienceRow(r) && IsCsRow(r)
  {
    ComputerScienceSelf(Lower(r.category));
    ComputerScienceText(Lower(r.category));
    ComputerScienceIsNotScience(r);
    AnyInIff(Lower(r.category), CsCategoryWords);
    assert "computer science" in CsCategoryWords;
  }

  // ----- _row_matches_any_category -----

  /** One requested category against the lower-cased category text: a
      canonical key also matches through its variants. */
  predicate RequestMatches(catText: string, rlow: string) {
    (rlow in CategoryKeys && AnyIn(catText, VariantsOf(rlow) + [rlow])) || Contains(catText, rlow)
  }

  predicate RowMatchesAnyCategory(r: Row, categories: seq<string>) {
    if |categories| == 0 then true
    else
      var catText := Lower(r.category);
      if |catText| == 0 then false
      else exists i | 0 <= i < |categories| :: RequestMatches(catText, Lower(categories[i]))
  }

  /** No request accepts every row; an empty category rejects the row under
      any request; otherwise a request matches when it, or for a canonical
      key one of its variants, occurs in the category. */
  lemma CategoryMatchMeaning(r: Row, categories: seq<string>)
    ensures |categories| == 0 ==> RowMatchesAnyCategory(r, categories)
    ensures |categories| > 0 && r.category == "" ==> !RowMatchesAnyCategory(r, categories)
    ensures |categories| > 0 && r.category != "" ==>
      (RowMatchesAnyCategory(r, categories) <==>
       exists i | 0 <= i < |categories| ::
         Contains(Lower(r.category), Lower(categories[i])) ||
         (Lower(categories[i]) in CategoryKeys &&
          exists v | v in VariantsOf(Lower(categories[i])) :: Contains(Lower(r.category), v)))
  {
    var catText := Lower(r.category);
    forall i | 0 <= i < |categories|
      ensures RequestMatches(catText, Lower(categories[i])) <==>
        Contains(catText, Lower(categories[i])) ||
        (Lower(categories[i]) in CategoryKeys &&
         exists v | v in VariantsOf(Lower(categories[i])) :: Contains(catText, v))
    {
      var rlow := Lower(categories[i]);
      AnyInIff(catText, VariantsOf(rlow) + [rlow]);
      assert forall v :: v in VariantsOf(rlow) + [rlow] <==> v in VariantsOf(rlow) || v == rlow;
    }
  }

  /** Asking for more categories never loses a row. */
  lemma MoreCategoriesKeepRows(r: Row, cats: seq<string>, more: seq<string>)
    requires |cats| > 0 && RowMatchesAnyCategory(r, cats)
    ensures RowMatchesAnyCategory(r, cats + more)
  {
    var i :| 0 <= i < |cats| && RequestMatches(Lower(r.category), Lower(cats[i]));
    assert (cats + more)[i] == cats[i];
  }

  // ----- filter_rows -----

  /** `mr == "all" or (mr.isdigit() and int(mr) > 0)` on `str(mr).lower()`. */
  predicate RequiredText(mr: Json) {
    var s := Lower(PyStr(mr));
    s == "all" || (|s| > 0 && AllDigits(s) && DecimalValue(s) > 0)
  }

  /** A count is required exactly when it is positive. */
  lemma RequiredNumber(n: int)
    ensures RequiredText(JNum(n)) <==> n > 0
  {
    var s := PyStr(JNum(n));
    if n > 0 {
      LowerOfLowercase(s);
    } else if n == 0 {
      assert s == "0";
      assert Lower(s) == "0";
    } else {
      assert s[0] == '-';
      assert Lower(s)[0] == '-';
    }
  }

  /** Digits are unaffected by lower-casing. */
  lemma LowerDigits(s: string)
    ensures AllDigits(Lower(s)) <==> AllDigits(s)
    ensures AllDigits(s) ==> Lower(s) == s
  {
    if AllDigits(s) { LowerOfLowercase(s); }
  }

  /** Text counts are "all" in any case, or a positive decimal; "0" is
      dropped. */
  lemma RequiredString(s: string)
    ensures RequiredText(JStr(s)) <==>
      Lower(s) == "all" || (|s| > 0 && AllDigits(s) && DecimalValue(s) > 0)
  {
    LowerDigits(s);
  }

  /** The arguments of `filter_rows`. */
  datatype Filters = Filters(
    seed: SeedPrefs,
    completedCourses: set<string>,
    completedDomains: set<string>,
    focus: Option<string>,
    requiredOnly: bool,
    categoriesOnly: Option<seq<string>>)

  /** The category requests in force: the explicit list, or else the seed's
      hints. */
  function EffectiveCategories(f: Filters): seq<string> {
    f.categoriesOnly.GetOr(f.seed.seedCategories)
  }

  /** The classifier of a domain name; unknown names classify nothing. */
  predicate InDomain(domain: string, r: Row) {
    (domain == "cs" && IsCsRow(r)) || (domain == "math" && IsMathRow(r)) ||
    (domain == "science" && IsScienceRow(r))
  }

  // The rules a kept row satisfies, each stated on its own.

  predicate NotCompleted(f: Filters, r: Row) {
    forall c | c in f.completedCourses :: Upper(c) != Upper(r.code)
  }

  predicate NotInCompletedDomain(f: Filters, r: Row) {
    forall d | d in f.completedDomains :: !InDomain(d, r)
  }

  predicate MatchesFocus(f: Filters, r: Row) {
    f.focus.Some? && f.focus.value in {"cs", "math", "science"} ==> InDomain(f.focus.value, r)
  }

  predicate MeetsRequired(f: Filters, r: Row) {
    f.requiredOnly ==> RequiredText(r.minimumRequired)
  }

  predicate MatchesExclusive(f: Filters, r: Row) {
    f.focus.None? && f.seed.exclusiveDomain.Some? && f.seed.exclusiveDomain.value in {"cs", "math", "science"} ==>
      InDomain(f.seed.exclusiveDomain.value, r)
  }

  predicate Keep(f: Filters, r: Row) {
    NotCompleted(f, r) && NotInCompletedDomain(f, r) && MatchesFocus(f, r) &&
    MeetsRequired(f, r) && MatchesExclusive(f, r) &&
    RowMatchesAnyCategory(r, EffectiveCategories(f))
  }

  /** Only the three known domain names classify anything. */
  lemma DomainRule(f: Filters, r: Row)
    ensures NotInCompletedDomain(f, r) <==>
      !("science" in f.completedDomains && IsScienceRow(r)) &&
      !("math" in f.completedDomains && IsMathRow(r)) &&
      !("cs" in f.completedDomains && IsCsRow(r))
  {
    if !NotInCompletedDomain(f, r) {
      var d :| d in f.completedDomains && InDomain(d, r);
    }
  }

  function KeepTest(f: Filters): Row -> bool {
    (r: Row) => Keep(f, r)
  }

  /** The checks of one loop iteration of `filter_rows`, in the source's
      order; the row is dropped at the first that fails. They amount to
      `Keep`. */
  function Passes(f: Filters, r: Row, completedUpper: set<string>, categories: seq<string>): (b: bool)
    requires completedUpper == set c | c in f.completedCourses :: Upper(c)
    requires categories == EffectiveCategories(f)
    ensures b <==> Keep(f, r)
  {
    DomainRule(f, r);
    var code := Upper(r.code);
    if code in completedUpper then false
    else if "science" in f.completedDomains && IsScienceRow(r) then false
    else if "math" in f.completedDomains && IsMathRow(r) then false
    else if "cs" in f.completedDomains && IsCsRow(r) then false
    else if f.focus == Some("cs") && !IsCsRow(r) then false
    else if f.focus == Some("math") && !IsMathRow(r) then false
    else if f.focus == Some("science") && !IsScienceRow(r) then false
    else if f.requiredOnly && !RequiredText(r.minimumRequired) then false
    else if f.focus.None? && f.seed.exclusiveDomain == Some("cs") && !IsCsRow(r) then false
    else if f.focus.None? && f.seed.exclusiveDomain == Some("math") && !IsMathRow(r) then false
    else if f.focus.None? && f.seed.exclusiveDomain == Some("science") && !IsScienceRow(r) then false
    else RowMatchesAnyCategory(r, categories)
  }

  /** `filter_rows`. The result is the reference filter by `Keep`: an
      order-preserving selection of exactly the rows that pass every rule. */
  method FilterRows(rows: seq<Row>, f: Filters) returns (kept: seq<Row>)
    ensures kept == FilterBy(rows, KeepTest(f))
    ensures IsSubseq(kept, rows)
    ensures forall r | r in kept :: Keep(f, r)
    ensures forall r | r in rows && Keep(f, r) :: r in kept
  {
    var completedUpper := set c | c in f.completedCourses :: Upper(c);
    var categories := EffectiveCategories(f);
    var pass := (r: Row) => Passes(f, r, completedUpper, categories);
    kept := FilterLoop(rows, pass);
    forall r | r in rows
      ensures pass(r) == KeepTest(f)(r)
    {
    }
    FilterSame(rows, pass, KeepTest(f));
    FilterShape(rows, KeepTest(f));
  }

  /** Completing more courses or domains only removes rows: the result for
      the larger sets is a subsequence of the result for the smaller. */
  lemma MoreCompletedKeepsFewer(rows: seq<Row>, f: Filters, g: Filters)
    requires f.completedCourses <= g.completedCourses
    requires f.completedDomains <= g.completedDomains
    requires g == f.(completedCourses := g.completedCourses, completedDomains := g.completedDomains)
    ensures IsSubseq(FilterBy(rows, KeepTest(g)), FilterBy(rows, KeepTest(f)))
  {
    FilterMonotone(rows, KeepTest(g), KeepTest(f));
  }
}
