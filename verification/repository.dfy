/** The database-backed course lookup (`PostgresRepository` in
    backend/database/repository.py): which campuses are looked up, the
    latest catalogue year of a university, the second row filter, which
    differs from `filter_rows` (exact category names, the required rule
    first, code- and title-only classifiers, no exclusive-domain rule), and
    the list of campuses present. The database is modelled as the rows the
    queries return, in the order they return them. */
module Repository {
  import opened Strings
  import opened Optional
  import opened Json
  import opened Campus
  import opened Subsequences
  import opened Rows

  /** A DVC course row. The code column is never null. */
  datatype DvcCourse = DvcCourse(code: string, title: Option<string>, units: Option<int>)

  /** A category row: its name and its `minimum_required` column, which may
      be null, a number or text. */
  datatype CategoryRow = CategoryRow(name: string, minimumRequired: Json)

  /** A course equivalency joined with its category and DVC course, which
      may be missing. */
  datatype Equivalency = Equivalency(category: CategoryRow, dvc: Option<DvcCourse>)

  datatype YearRow = YearRow(year: string, equivalencies: seq<Equivalency>)
  datatype UniversityRow = UniversityRow(name: string, years: seq<YearRow>)

  /** One returned course. */
  datatype CourseOut = CourseOut(
    dvcCode: string,
    dvcTitle: Option<string>,
    dvcUnits: int,
    category: string,
    minimumRequired: Json)

  /** The arguments of `get_courses` after their defaults: a missing set of
      completed courses or domains is the empty set. */
  datatype Query = Query(
    categories: Option<seq<string>>,
    requiredOnly: bool,
    focus: Option<string>,
    completedCourses: set<string>,
    completedDomains: set<string>)

  /** Campus keys and the university names they are looked up by. */
  const UniversityNames: map<string, string> :=
    map["UCB" := "UC Berkeley", "UCD" := "UC Davis", "UCSD" := "UC San Diego"]

  /** University names and the campus keys `get_campuses` reports. */
  const CodeMap: map<string, string> :=
    map["UC Berkeley" := "UCB", "UC Davis" := "UCD", "UC San Diego" := "UCSD"]

  lemma UniversityNamesKeys()
    ensures UniversityNames.Keys == {"UCB", "UCD", "UCSD"}
    ensures forall k | k in CampusKeys :: k in UniversityNames
    ensures forall k | k in UniversityNames :: k in CampusKeys
  {
  }

  /** The two tables are inverse to each other. */
  lemma NameTablesInverse()
    ensures forall k | k in UniversityNames :: UniversityNames[k] in CodeMap && CodeMap[UniversityNames[k]] == k
    ensures forall n | n in CodeMap :: CodeMap[n] in UniversityNames && UniversityNames[CodeMap[n]] == n
  {
  }

  // ----- classifiers -----

  function TitleText(d: DvcCourse): string {
    Lower(d.title.GetOr(""))
  }

  predicate IsCsCourse(d: DvcCourse) {
    StartsWithAny(Upper(d.code), CsCodePrefixes) || AnyIn(TitleText(d), CsTitleWords)
  }

  predicate IsMathCourse(d: DvcCourse) {
    StartsWithAny(Upper(d.code), MathCodePrefixes) || AnyIn(TitleText(d), MathTitleWords)
  }

  /** Science is recognised by the code alone. */
  predicate IsScienceCourse(d: DvcCourse) {
    StartsWithAny(Upper(d.code), ScienceCodePrefixes)
  }

  /** A course is science exactly when its code starts with PHYS-, CHEM-,
      BIOSC- or BIOL- in any case; the title plays no part. */
  lemma ScienceByCode(d: DvcCourse, t: Option<string>)
    ensures IsScienceCourse(d) <==>
      StartsWith(Upper(d.code), "PHYS-") || StartsWith(Upper(d.code), "CHEM-") ||
      StartsWith(Upper(d.code), "BIOSC-") || StartsWith(Upper(d.code), "BIOL-")
    ensures IsScienceCourse(d) == IsScienceCourse(d.(title := t))
  {
    if IsScienceCourse(d) {
      var i :| 0 <= i < |ScienceCodePrefixes| && StartsWith(Upper(d.code), ScienceCodePrefixes[i]);
    }
    if StartsWith(Upper(d.code), "PHYS-") { assert StartsWith(Upper(d.code), ScienceCodePrefixes[0]); }
    if StartsWith(Upper(d.code), "CHEM-") { assert StartsWith(Upper(d.code), ScienceCodePrefixes[1]); }
    if StartsWith(Upper(d.code), "BIOSC-") { assert StartsWith(Upper(d.code), ScienceCodePrefixes[2]); }
    if StartsWith(Upper(d.code), "BIOL-") { assert StartsWith(Upper(d.code), ScienceCodePrefixes[3]); }
  }

  /** The classifier of a domain name; unknown names classify nothing. */
  predicate InCourseDomain(domain: string, d: DvcCourse) {
    (domain == "cs" && IsCsCourse(d)) || (domain == "math" && IsMathCourse(d)) ||
    (domain == "science" && IsScienceCourse(d))
  }

  // ----- the row filter -----

  /** `categories and cat.name not in categories` fails the row. */
  predicate CategoryAllowed(q: Query, e: Equivalency) {
    q.categories.None? || |q.categories.value| == 0 || e.category.name in q.categories.value
  }

  /** The required rule on `str(cat.minimum_required or "").lower()`. */
  predicate RequiredAllowed(q: Query, e: Equivalency) {
    !q.requiredOnly || RequiredText(Or(e.category.minimumRequired, JStr("")))
  }

  /** The reference rule: the equivalency has a DVC course, and that course
      passes every filter. */
  predicate Admits(q: Query, e: Equivalency) {
    && e.dvc.Some?
    && CategoryAllowed(q, e)
    && RequiredAllowed(q, e)
    && Upper(e.dvc.value.code) !in (set c | c in q.completedCourses :: Upper(c))
    && (forall dom | dom in q.completedDomains :: !InCourseDomain(dom, e.dvc.value))
    && (q.focus.Some? && q.focus.value in {"cs", "math", "science"} ==>
          InCourseDomain(q.focus.value, e.dvc.value))
  }

  /** The returned dictionary of an admitted equivalency: units default to
      0 and a falsy `minimum_required` to the text "None". */
  function ToOut(e: Equivalency): (c: CourseOut)
    requires e.dvc.Some?
    ensures c.dvcCode == e.dvc.value.code && c.dvcTitle == e.dvc.value.title
    ensures c.category == e.category.name
    ensures e.dvc.value.units.None? ==> c.dvcUnits == 0
    ensures Truthy(e.category.minimumRequired) ==> c.minimumRequired == e.category.minimumRequired
    ensures !Truthy(e.category.minimumRequired) ==> c.minimumRequired == JStr("None")
  {
    var d := e.dvc.value;
    CourseOut(d.code, d.title, d.units.GetOr(0), e.category.name,
              Or(e.category.minimumRequired, JStr("None")))
  }

  /** The reference result: the admitted equivalencies, in query order, as
      returned dictionaries. */
  function Selected(es: seq<Equivalency>, q: Query): seq<CourseOut> {
    if |es| == 0 then []
    else
      var last := es[|es| - 1];
      Selected(es[..|es| - 1], q) + (if Admits(q, last) then [ToOut(last)] else [])
  }

  /** The checks of one loop iteration, in the source's order; the
      equivalency is skipped at the first that fails. */
  function Passes(q: Query, e: Equivalency, completedUpper: set<string>): (b: bool)
    requires completedUpper == set c | c in q.completedCourses :: Upper(c)
    ensures b <==> Admits(q, e)
  {
    if e.dvc.None? then false
    else
      var d := e.dvc.value;
      if q.categories.Some? && |q.categories.value| > 0 && e.category.name !in q.categories.value then false
      else if q.requiredOnly && !RequiredText(Or(e.category.minimumRequired, JStr(""))) then false
      else if Upper(d.code) in completedUpper then false
      else if IsCsCourse(d) && "cs" in q.completedDomains then false
      else if IsMathCourse(d) && "math" in q.completedDomains then false
      else if IsScienceCourse(d) && "science" in q.completedDomains then false
      else if q.focus == Some("cs") && !IsCsCourse(d) then false
      else if q.focus == Some("math") && !IsMathCourse(d) then false
      else if q.focus == Some("science") && !IsScienceCourse(d) then false
      else
        assert forall dom | dom in q.completedDomains :: !InCourseDomain(dom, d);
        true
  }

  /** The equivalency loop of `get_courses` for one campus. */
  method CampusCourses(es: seq<Equivalency>, q: Query) returns (courses: seq<CourseOut>)
    ensures courses == Selected(es, q)
  {
    var completedUpper := set c | c in q.completedCourses :: Upper(c);
    courses := [];
    var i := 0;
    while i < |es|
      invariant 0 <= i <= |es|
      invariant courses == Selected(es[..i], q)
    {
      assert es[..i + 1][..i] == es[..i];
      if Passes(q, es[i], completedUpper) {
        courses := courses + [ToOut(es[i])];
      }
      i := i + 1;
    }
    assert es[..|es|] == es;
  }

  /** Every returned course comes from an admitted equivalency, in query
      order, and every admitted equivalency is returned. */
  lemma {:induction false} SelectedMeaning(es: seq<Equivalency>, q: Query)
    ensures forall c | c in Selected(es, q) :: exists e :: e in es && Admits(q, e) && c == ToOut(e)
    ensures forall e | e in es && Admits(q, e) :: ToOut(e) in Selected(es, q)
    ensures |Selected(es, q)| <= |es|
  {
    if |es| > 0 {
      var init := es[..|es| - 1];
      SelectedMeaning(init, q);
      assert es == init + [es[|es| - 1]];
      assert forall e | e in init :: e in es;
    }
  }

  /** The rules each returned course satisfies: an exact category name
      when categories are requested, a required count under required-only,
      a code outside the completed courses in any case, no completed
      domain, and the focus domain. */
  lemma SelectedRules(es: seq<Equivalency>, q: Query, c: CourseOut)
    requires c in Selected(es, q)
    ensures q.categories.Some? && |q.categories.value| > 0 ==> c.category in q.categories.value
    ensures q.requiredOnly ==> RequiredText(c.minimumRequired)
    ensures forall x | x in q.completedCourses :: Upper(x) != Upper(c.dvcCode)
    ensures forall dom | dom in q.completedDomains ::
      !InCourseDomain(dom, DvcCourse(c.dvcCode, c.dvcTitle, None))
    ensures q.focus.Some? && q.focus.value in {"cs", "math", "science"} ==>
      InCourseDomain(q.focus.value, DvcCourse(c.dvcCode, c.dvcTitle, None))
  {
    SelectedMeaning(es, q);
    var e :| e in es && Admits(q, e) && c == ToOut(e);
    var d := e.dvc.value;
    assert DvcCourse(c.dvcCode, c.dvcTitle, None) == d.(units := None);
    BlankNotRequired();
    forall x | x in q.completedCourses ensures Upper(x) != Upper(c.dvcCode) {
      assert Upper(x) in (set y | y in q.completedCourses :: Upper(y));
    }
  }

  /** An empty count is not a required one. */
  lemma BlankNotRequired()
    ensures !RequiredText(JStr(""))
  {
    assert Lower("") == "";
  }

  /** Dropping the required-only flag keeps every admitted equivalency. */
  lemma AdmitsWithoutRequired(q: Query, e: Equivalency)
    requires Admits(q, e)
    ensures Admits(q.(requiredOnly := false), e)
  {
  }

  /** Requiring more only drops courses: the result under required-only is
      a subsequence of the result without it. */
  lemma {:induction false} RequiredOnlyNarrows(es: seq<Equivalency>, q: Query)
    ensures IsSubseq(Selected(es, q.(requiredOnly := true)), Selected(es, q.(requiredOnly := false)))
  {
    if |es| > 0 {
      var init := es[..|es| - 1];
      var last := es[|es| - 1];
      var qt, qf := q.(requiredOnly := true), q.(requiredOnly := false);
      RequiredOnlyNarrows(init, q);
      var bt, bf := Admits(qt, last), Admits(qf, last);
      if bt { AdmitsWithoutRequired(qt, last); }
      if last.dvc.Some? {
        SubseqExtend(Selected(init, qt), Selected(init, qf), ToOut(last), bt, bf);
      } else {
        SubseqExtend(Selected(init, qt), Selected(init, qf), CourseOut("", None, 0, "", JNull), false, false);
      }
    }
  }

  // ----- campus lookup -----

  /** `filter_by(name=...).first()`: the first university with the name. */
  function FindUniversity(unis: seq<UniversityRow>, name: string): (r: Option<UniversityRow>)
    ensures r.Some? ==> r.value in unis && r.value.name == name
    ensures r.None? <==> forall u | u in unis :: u.name != name
  {
    if |unis| == 0 then None
    else if unis[0].name == name then Some(unis[0])
    else FindUniversity(unis[1..], name)
  }

  /** `order_by(Year.year.desc()).first()`: a year row with the greatest
      year; among equal years the first. */
  function LatestYear(years: seq<YearRow>): (r: Option<YearRow>)
    ensures r.None? <==> |years| == 0
    ensures r.Some? ==> r.value in years
    ensures r.Some? ==> forall y | y in years :: !Less(r.value.year, y.year)
  {
    if |years| == 0 then None
    else
      var rest := LatestYear(years[1..]);
      if rest.None? || !Less(years[0].year, rest.value.year) then
        assert forall y | y in years :: y == years[0] || y in years[1..];
        forall y | y in years ensures !Less(years[0].year, y.year) {
          LessIrreflexive(years[0].year);
          if y != years[0] && rest.Some? && Less(years[0].year, y.year) {
            var a, b := years[0].year, rest.value.year;
            assert y in years[1..];
            if a != b {
              LessTotal(a, b);
              LessTransitive(b, a, y.year);
            }
          }
        }
        Some(years[0])
      else
        assert forall y | y in years :: y == years[0] || y in years[1..];
        LessAsymmetric(years[0].year, rest.value.year);
        rest
  }

  /** The equivalencies of a campus's university in its latest year; none
      when the university or any year row is missing. */
  function CampusEquivalencies(unis: seq<UniversityRow>, name: string): (r: seq<Equivalency>)
    ensures FindUniversity(unis, name).None? ==> r == []
    ensures FindUniversity(unis, name).Some? && |FindUniversity(unis, name).value.years| == 0 ==> r == []
  {
    match FindUniversity(unis, name)
    case None => []
    case Some(u) =>
      match LatestYear(u.years)
      case None => []
      case Some(y) => y.equivalencies
  }

  /** `get_courses`: one entry per requested key that names a known
      campus, holding the filtered courses of its latest year. */
  function GetCourses(keys: seq<string>, unis: seq<UniversityRow>, q: Query): (r: map<string, seq<CourseOut>>)
    ensures forall k :: k in r <==> k in keys && k in CampusKeys
    ensures forall k | k in r :: r[k] == Selected(CampusEquivalencies(unis, UniversityNames[k]), q)
  {
    UniversityNamesKeys();
    map k | k in keys && k in UniversityNames :: Selected(CampusEquivalencies(unis, UniversityNames[k]), q)
  }

  /** A known campus whose university or year rows are missing maps to no
      courses. */
  lemma MissingDataGivesNothing(keys: seq<string>, unis: seq<UniversityRow>, q: Query, k: string)
    requires k in keys && k in CampusKeys
    requires forall u | u in unis && u.name == UniversityNames[k] :: |u.years| == 0
    ensures k in GetCourses(keys, unis, q) && GetCourses(keys, unis, q)[k] == []
  {
    UniversityNamesKeys();
  }

  // ----- campuses present -----

  /** `get_campuses`: the keys of the universities present, in table order. */
  function GetCampuses(unis: seq<UniversityRow>): (r: seq<string>)
    ensures forall k | k in r :: k in CampusKeys
    ensures forall k :: k in r <==> k in UniversityNames && exists u :: u in unis && u.name == UniversityNames[k]
    ensures |r| <= |unis|
  {
    UniversityNamesKeys();
    NameTablesInverse();
    if |unis| == 0 then []
    else
      var rest := GetCampuses(unis[1..]);
      assert forall u :: u in unis <==> u == unis[0] || u in unis[1..];
      var n := unis[0].name;
      (if n in CodeMap then [CodeMap[n]] else []) + rest
  }

  /** Every campus listed has a university row, so `get_courses` finds it. */
  lemma ListedCampusesAreFound(unis: seq<UniversityRow>)
    ensures forall k | k in GetCampuses(unis) :: FindUniversity(unis, UniversityNames[k]).Some?
  {
  }
}
