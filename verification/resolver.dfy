/** Post-processing of the language model's reply (`llm_parse_user_message` in
    backend/ai_agent.py). The reply is decoded JSON that may be anything;
    the assistant fills in defaults, resolves campus names to keys,
    normalises the focus, domains, course codes and categories, and merges
    what it finds in the user's own message. Any exception turns into a
    fixed default record. The call to the model is not part of this model:
    its answer is a parameter, `None` when the call or the decoding raised. */
module Resolver {
  import opened Strings
  import opened Optional
  import opened Json
  import opened Campus
  import opened CampusFacts
  import opened Categories
  import opened Codes
  import opened Subsequences

  const FocusValues: set<string> := {"cs", "math", "science", "all"}
  const DomainValues: set<string> := {"cs", "math", "science"}

  /** The resolved query: the fields of the returned dictionary that the
      rest of the assistant reads. The two target fields are kept as the
      model gave them (absent or any value). */
  datatype Parsed = Parsed(
    intent: Json,
    campus: Option<string>,
    campuses: seq<string>,
    targetCourseCode: Option<Json>,
    targetInstitution: Option<Json>,
    focus: Option<string>,
    requiredOnly: bool,
    domainsCompleted: seq<string>,
    completedCourses: seq<string>,
    categories: seq<string>)

  /** The record returned when anything raises. */
  const DefaultParsed: Parsed := Parsed(
    JStr("find_requirements"), None, [], Some(JNull), Some(JNull),
    None, false, [], [], [])

  /** What every resolved query satisfies, whichever path produced it. */
  predicate Valid(p: Parsed) {
    && StrictlySorted(p.campuses)
    && (forall k | k in p.campuses :: k in CampusKeys)
    && p.campus == (if |p.campuses| > 0 then Some(p.campuses[0]) else None)
    && (p.focus.Some? ==> p.focus.value in FocusValues)
    && StrictlySorted(p.domainsCompleted)
    && (forall d | d in p.domainsCompleted :: d in DomainValues)
    && StrictlySorted(p.completedCourses)
    && (forall c | c in p.completedCourses :: WrittenCode(c))
    && StrictlySorted(p.categories)
    && (forall c | c in p.categories :: Strip(c) != "")
    && (p.focus.Some? && p.focus.value in DomainValues ==> p.categories == [])
  }

  // ----- reading the reply -----

  /** The strings of a decoded list, in order; other items are skipped. */
  function StringItems(items: seq<Json>): (r: seq<string>)
    ensures forall s :: s in r <==> JStr(s) in items
  {
    if |items| == 0 then []
    else
      var rest := StringItems(items[1..]);
      assert forall j :: j in items <==> j == items[0] || j in items[1..];
      (if items[0].JStr? then [items[0].s] else []) + rest
  }

  /** `v or []` followed by an `isinstance(v, list)` test: the items of a
      list, and none for a missing value or any other kind. An empty list is
      falsy, but `[]` has the same items. */
  function ListItems(v: Option<Json>): (r: seq<Json>)
    ensures v.Some? && v.value.JArr? ==> r == v.value.items
    ensures !(v.Some? && v.value.JArr?) ==> r == []
  {
    match v
    case Some(JArr(items)) => items
    case _ => []
  }

  /** `data.setdefault(key, {})` followed by a use as a dictionary: the
      fields of the section, `[]` when it is missing, and `None` when it is
      present but not an object, where the first `.get` on it raises. */
  function Section(fields: seq<(string, Json)>, key: string): (r: Option<seq<(string, Json)>>)
    ensures !HasKey(fields, key) ==> r == Some([])
    ensures r.None? <==> HasKey(fields, key) && !Get(fields, key).value.JObj?
  {
    match Get(fields, key)
    case None => Some([])
    case Some(JObj(f)) => Some(f)
    case Some(_) => None
  }

  // ----- campuses -----

  /** `params["campus"]` when it is a string that is not blank, unstripped. */
  function SingleCampus(params: seq<(string, Json)>): (r: seq<string>)
    ensures |r| <= 1
    ensures forall s | s in r :: Get(params, "campus") == Some(JStr(s)) && Strip(s) != ""
  {
    match Get(params, "campus")
    case Some(JStr(s)) => if Strip(s) != "" then [s] else []
    case _ => []
  }

  /** Every campus name gathered from the reply and the message. */
  function CampusInputs(params: seq<(string, Json)>, msg: string): seq<string> {
    StringItems(ListItems(Get(params, "campuses"))) + SingleCampus(params) + DetectCampuses(msg)
  }

  /** `detect_campus_from_query(c) or c.upper().strip()`. */
  function CampusCandidate(c: string): string {
    match DetectCampus(c)
    case Some(k) => k
    case None => Strip(Upper(c))
  }

  /** The resolved campus list: each input name's candidate that is a
      campus key, sorted and de-duplicated. */
  function ResolveCampuses(inputs: seq<string>): (r: seq<string>)
    ensures StrictlySorted(r)
    ensures forall k :: k in r <==> k in CampusKeys && exists c :: c in inputs && CampusCandidate(c) == k
  {
    SortedDistinct(KnownKeys(inputs, CampusCandidate))
  }

  /** A campus key among the inputs survives resolution. */
  lemma KeyInputsKept(inputs: seq<string>, k: string)
    requires k in inputs && k in CampusKeys
    ensures k in ResolveCampuses(inputs)
  {
    KeysDetectThemselves();
    assert CampusCandidate(k) == k;
  }

  // ----- filters -----

  /** `focus_only` lower-cased and stripped when it is a string naming a
      known focus; `None` otherwise. */
  function ResolveFocus(v: Option<Json>): (r: Option<string>)
    ensures r.Some? ==> r.value in FocusValues
    ensures r.Some? <==> v.Some? && v.value.JStr? && Strip(Lower(v.value.s)) in FocusValues
    ensures r.Some? ==> r.value == Strip(Lower(v.value.s))
  {
    match v
    case Some(JStr(s)) => if Strip(Lower(s)) in FocusValues then Some(Strip(Lower(s))) else None
    case _ => None
  }

  /** The known domains named by a list of strings, lower-cased and
      stripped, in input order. */
  function DomainHits(names: seq<string>): (r: seq<string>)
    ensures forall d :: d in r <==> d in DomainValues && exists s :: s in names && Strip(Lower(s)) == d
  {
    if |names| == 0 then []
    else
      var rest := DomainHits(names[1..]);
      assert forall s :: s in names <==> s == names[0] || s in names[1..];
      var d := Strip(Lower(names[0]));
      (if d in DomainValues then [d] else []) + rest
  }

  /** Every item of a decoded list is a string. */
  predicate AllStrings(items: seq<Json>) {
    forall j | j in items :: j.JStr?
  }

  /** `normalize_single_code`, as written, applied to each string, in order. */
  function NormalizeAll(xs: seq<string>): seq<string> {
    MapSeq(xs, NormalizeSingleCodeAsWritten)
  }

  /** The normalised list holds exactly the normal forms of the inputs; each
      is an output of the written normaliser, and a second pass over it gives
      the corrected normal form of its input. */
  lemma NormalizeAllFacts(xs: seq<string>)
    ensures forall c :: c in NormalizeAll(xs) <==> exists x :: x in xs && c == NormalizeSingleCodeAsWritten(x)
    ensures forall c | c in NormalizeAll(xs) :: WrittenCode(c)
    ensures |NormalizeAll(xs)| == |xs|
    ensures forall i | 0 <= i < |xs| ::
      NormalizeSingleCodeAsWritten(NormalizeAll(xs)[i]) == NormalizeSingleCode(xs[i])
  {
    var r := NormalizeAll(xs);
    MapSeqMembers(xs, NormalizeSingleCodeAsWritten);
    forall i | 0 <= i < |xs|
      ensures NormalizeSingleCodeAsWritten(r[i]) == NormalizeSingleCode(xs[i])
    {
      TwoPasses(xs[i]);
    }
  }

  /** The completed courses: the normalised string items of the reply
      together with the codes found in the message, sorted and
      de-duplicated. */
  function ResolveCompleted(items: seq<Json>, msg: string): (r: seq<string>)
    ensures StrictlySorted(r)
    ensures forall c | c in r :: WrittenCode(c)
    ensures forall c :: c in r <==>
      c in ParseCompletedFreeform(msg) || exists s :: JStr(s) in items && c == NormalizeSingleCodeAsWritten(s)
  {
    var toks := CodeTokensFrom(msg, 0);
    NormalizeAllFacts(toks);
    NormalizeAllFacts(StringItems(items));
    assert forall c :: c in NormalizeAll(toks) <==> c in ParseCompletedFreeform(msg);
    SortedDistinct(NormalizeAll(StringItems(items)) + NormalizeAll(toks))
  }

  /** The strings that are not blank once stripped, unstripped, in order. */
  function NonBlank(xs: seq<string>): (r: seq<string>)
    ensures forall x :: x in r <==> x in xs && Strip(x) != ""
  {
    if |xs| == 0 then []
    else
      var rest := NonBlank(xs[1..]);
      assert forall x :: x in xs <==> x == xs[0] || x in xs[1..];
      (if Strip(xs[0]) != "" then [xs[0]] else []) + rest
  }

  /** The categories: the reply's non-blank strings merged with those found
      in the message, and none at all under a domain focus. */
  function ResolveCategories(items: seq<Json>, msg: string, order: seq<string>,
                             focus: Option<string>): (r: seq<string>)
    requires IsKeyOrder(order)
    ensures StrictlySorted(r)
    ensures forall c | c in r :: Strip(c) != ""
    ensures focus.Some? && focus.value in DomainValues ==> r == []
    ensures !(focus.Some? && focus.value in DomainValues) ==> forall c :: c in r <==>
      c in NormalizeCategories(msg, order) || (JStr(c) in items && Strip(c) != "")
  {
    if focus.Some? && focus.value in DomainValues then []
    else
      var local := NormalizeCategories(msg, order);
      assert forall c | c in local :: Strip(c) != "" by {
        forall c | c in local ensures Strip(c) != "" { assert c != "" && Stripped(c); }
      }
      SortedDistinct(NonBlank(StringItems(items)) + local)
  }

  // ----- the whole reply -----

  /** Where the source raises: the reply is not an object, a section is
      present but not an object, or a truthy `domains_completed` list holds
      a value that is not a string. */
  predicate Fails(reply: Json) {
    || !reply.JObj?
    || Section(reply.fields, "parameters").None?
    || Section(reply.fields, "filters").None?
    || !AllStrings(ListItems(Get(Section(reply.fields, "filters").value, "domains_completed")))
  }

  /** The resolution of a decoded reply, or `None` where the source raises. */
  function TryResolve(reply: Json, msg: string, order: seq<string>): (r: Option<Parsed>)
    requires IsKeyOrder(order)
    ensures r.None? <==> Fails(reply)
    ensures r.Some? ==> Valid(r.value)
    ensures r.Some? ==> r.value.intent == GetOr(reply.fields, "intent", JStr("find_requirements"))
    ensures r.Some? ==> forall k | k in DetectCampuses(msg) :: k in r.value.campuses
    ensures r.Some? ==> forall c | c in ParseCompletedFreeform(msg) :: c in r.value.completedCourses
    ensures r.Some? ==> (r.value.requiredOnly <==>
      Truthy(GetOr(Section(reply.fields, "filters").value, "required_only", JBool(false))))
  {
    if Fails(reply) then None
    else
      var params := Section(reply.fields, "parameters").value;
      var filt := Section(reply.fields, "filters").value;
      var inputs := CampusInputs(params, msg);
      var campuses := ResolveCampuses(inputs);
      forall k | k in DetectCampuses(msg) ensures k in campuses {
        KeyInputsKept(inputs, k);
      }
      var focus := ResolveFocus(Get(filt, "focus_only"));
      var domainItems := ListItems(Get(filt, "domains_completed"));
      var domains := SortedDistinct(DomainHits(StringItems(domainItems)));
      Some(Parsed(
        GetOr(reply.fields, "intent", JStr("find_requirements")),
        if |campuses| > 0 then Some(campuses[0]) else None,
        campuses,
        Get(params, "target_course_code"),
        Get(params, "target_institution"),
        focus,
        Truthy(GetOr(filt, "required_only", JBool(false))),
        domains,
        ResolveCompleted(ListItems(Get(filt, "completed_courses")), msg),
        ResolveCategories(ListItems(Get(filt, "categories")), msg, order, focus)))
  }

  lemma DefaultValid()
    ensures Valid(DefaultParsed)
  {
  }

  /** `llm_parse_user_message` after the model call: the resolved reply, or the
      default record when the call, the decoding or the post-processing
      raised. */
  function Resolve(reply: Option<Json>, msg: string, order: seq<string>): (r: Parsed)
    requires IsKeyOrder(order)
    ensures Valid(r)
    ensures reply.None? || Fails(reply.value) ==> r == DefaultParsed
    ensures reply.Some? && !Fails(reply.value) ==> Some(r) == TryResolve(reply.value, msg, order)
  {
    DefaultValid();
    var t := if reply.None? then None else TryResolve(reply.value, msg, order);
    if t.Some? then t.value else DefaultParsed
  }
}
