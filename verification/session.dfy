/** The interactive planning session (`interactive_session` in
    backend/ai_agent.py): the state carried from one follow-up line to the
    next, how the session starts from the first query, and the effect of
    one follow-up line. Reading input, printing, the final formatted summary
    and the logs are not modelled; the language model's replies are
    parameters, resolved by `Resolver.Resolve`. */
module Session {
  import opened Strings
  import opened Optional
  import opened Json
  import opened Scan
  import opened Campus
  import opened Categories
  import opened Codes
  import opened Seed
  import opened Subsequences
  import opened Rows
  import opened Resolver

  /** The query used when the first line is blank. */
  const DefaultQuery: string := "major preparation only for uc berkeley cs and uc davis"

  /** The words of the three remove patterns, in the order they are tried. */
  const RemoveWords: seq<string> := ["remove", "drop", "exclude"]

  /** The session's mutable locals. `terminated` is set by "done". */
  datatype State = State(
    campusKeys: seq<string>,
    completedCourses: set<string>,
    completedDomains: set<string>,
    focus: Option<string>,
    requiredOnly: bool,
    categories: seq<string>,
    seed: SeedPrefs,
    terminated: bool)

  predicate Distinct(xs: seq<string>) {
    forall i, j | 0 <= i < j < |xs| :: xs[i] != xs[j]
  }

  /** What holds of every state of a session over campus data `dataKeys`. */
  predicate Inv(s: State, dataKeys: set<string>) {
    && Distinct(s.campusKeys)
    && (forall k | k in s.campusKeys :: k in dataKeys)
    && (forall c | c in s.completedCourses :: WrittenCode(c))
    && (forall d | d in s.completedDomains :: d in DomainValues)
    && (s.focus.Some? ==> s.focus.value in FocusValues)
    && StrictlySorted(s.categories)
    && (forall c | c in s.categories :: Strip(c) != "")
  }

  /** The filter settings `recompute_remaining` passes to `filter_rows`:
      the category list is always given explicitly. */
  function FiltersOf(s: State): Filters {
    Filters(s.seed, s.completedCourses, s.completedDomains, s.focus, s.requiredOnly, Some(s.categories))
  }

  // ----- list helpers -----

  /** The keys that have campus data, in order. */
  function InData(keys: seq<string>, dataKeys: set<string>): (r: seq<string>)
    ensures IsSubseq(r, keys)
    ensures forall k :: k in r <==> k in keys && k in dataKeys
  {
    var keep := (k: string) => k in dataKeys;
    FilterShape(keys, keep);
    FilterBy(keys, keep)
  }

  /** `for ck in list(campus_keys): if ck in cand_keys: campus_keys.remove(ck)`. */
  function Without(keys: seq<string>, drop: seq<string>): (r: seq<string>)
    ensures IsSubseq(r, keys)
    ensures forall k :: k in r <==> k in keys && k !in drop
  {
    var keep := (k: string) => k !in drop;
    FilterShape(keys, keep);
    FilterBy(keys, keep)
  }

  /** A subsequence of a duplicate-free list is duplicate-free. */
  lemma {:induction false} SubseqDistinct(xs: seq<string>, ys: seq<string>)
    requires IsSubseq(xs, ys) && Distinct(ys)
    ensures Distinct(xs)
    decreases |ys|
  {
    if |xs| > 0 {
      var ys' := ys[..|ys| - 1];
      assert Distinct(ys');
      if xs[|xs| - 1] == ys[|ys| - 1] {
        var xs' := xs[..|xs| - 1];
        SubseqDistinct(xs', ys');
        SubseqMembers(xs', ys');
        forall i | 0 <= i < |xs'| ensures xs'[i] != xs[|xs| - 1] {
          assert xs'[i] in ys';
        }
      } else {
        SubseqDistinct(xs, ys');
      }
    }
  }

  /** Appending the new campuses that have data and are not yet selected,
      in the order given. */
  function AddCampuses(keys: seq<string>, news: seq<string>, dataKeys: set<string>): (r: seq<string>)
    ensures |keys| <= |r| && r[..|keys|] == keys
    ensures forall k :: k in r <==> k in keys || (k in news && k in dataKeys)
    ensures Distinct(keys) ==> Distinct(r)
    decreases |news|
  {
    if |news| == 0 then keys
    else
      var ck := news[0];
      var next := if ck in dataKeys && ck !in keys then keys + [ck] else keys;
      assert forall k :: k in next <==> k in keys || (k == ck && ck in dataKeys);
      assert forall k :: k in news <==> k == ck || k in news[1..];
      var r := AddCampuses(next, news[1..], dataKeys);
      assert r[..|keys|] == r[..|next|][..|keys|];
      r
  }

  // ----- the remove patterns -----

  /** `\s+(?P<campus>.+)` after the word, which ends at `j`, with `\s+`
      holding `m` characters: greedy whitespace that gives characters back
      until the group can start on a character other than a newline. */
  function RemoveGroup(t: string, j: nat, m: nat): (g: Option<string>)
    requires j + m <= |t|
    ensures g.Some? ==> |g.value| > 0 && forall k | 0 <= k < |g.value| :: g.value[k] != '\n'
    ensures g.Some? ==> Contains(t, g.value)
    decreases m
  {
    if m == 0 then None
    else if j + m < |t| && t[j + m] != '\n' then
      var n := Run(t, j + m, NotNewline);
      ContainsAt(t, t[j + m..j + m + n], j + m);
      Some(t[j + m..j + m + n])
    else RemoveGroup(t, j, m - 1)
  }

  /** `\b<word>\s+(?P<campus>.+)` tried at position `i`. */
  function RemoveAt(t: string, word: string, i: nat): (g: Option<string>)
    requires i <= |t|
    ensures g.Some? ==> Boundary(t, i) && OccursAt(t, word, i)
  {
    if !(Boundary(t, i) && OccursAt(t, word, i)) then None
    else RemoveGroup(t, i + |word|, Run(t, i + |word|, Space))
  }

  /** `re.search`: the group of the leftmost match at or after `i`. */
  function SearchRemove(t: string, word: string, i: nat): (g: Option<string>)
    requires i <= |t|
    ensures g.Some? ==> exists k :: i <= k <= |t| && RemoveAt(t, word, k) == g
    ensures g.None? ==> forall k | i <= k <= |t| :: RemoveAt(t, word, k).None?
    decreases |t| - i
  {
    match RemoveAt(t, word, i)
    case Some(g) => Some(g)
    case None => if i == |t| then None else SearchRemove(t, word, i + 1)
  }

  /** The campus text of the first remove pattern that matches, in pattern
      order. */
  function RemoveTarget(low: string, words: seq<string>): (g: Option<string>)
    ensures g.Some? ==> exists w :: w in words && SearchRemove(low, w, 0) == g
    ensures g.None? ==> forall w | w in words :: SearchRemove(low, w, 0).None?
  {
    if |words| == 0 then None
    else
      match SearchRemove(low, words[0], 0)
      case Some(g) => Some(g)
      case None => RemoveTarget(low, words[1..])
  }

  /** The campuses a remove command names, if a remove pattern matches. */
  function RemoveCandidates(low: string): Option<seq<string>> {
    match RemoveTarget(low, RemoveWords)
    case Some(cand) => Some(DetectCampuses(cand))
    case None => None
  }

  /** A remove command takes effect when it names a selected campus. */
  predicate RemovesSome(s: State, low: string) {
    var c := RemoveCandidates(low);
    c.Some? && exists k :: k in s.campusKeys && k in c.value
  }

  // ----- start -----

  /** The first query: the stripped line, or the default when it is blank. */
  function FirstQuery(line: string): (q: string)
    ensures Strip(line) != "" ==> q == Strip(line)
    ensures q != ""
  {
    if Strip(line) != "" then Strip(line) else DefaultQuery
  }

  /** The campuses the session starts with, before the data check: the
      command-line campuses that have data, else the resolved campuses,
      else those detected in the query. */
  function PickCampuses(cli: seq<string>, parsed: Parsed, q: string, dataKeys: set<string>): seq<string> {
    var fromCli := InData(cli, dataKeys);
    if |fromCli| > 0 then fromCli
    else if |parsed.campuses| > 0 then parsed.campuses
    else DetectCampuses(q)
  }

  /** Start of the session from the first line, the model's reply to it,
      the command-line campuses and the loaded campus keys; `None` when no
      campus with data is selected. */
  function Start(line: string, reply: Option<Json>, cli: seq<string>,
                 dataKeys: set<string>, order: seq<string>): (r: Option<State>)
    requires IsKeyOrder(order)
    requires Distinct(cli)
    ensures r.Some? ==> Inv(r.value, dataKeys) && |r.value.campusKeys| > 0 && !r.value.terminated
    ensures r.Some? ==> r.value.seed == ParsePreferencesSeed(FirstQuery(line), order)
    ensures r.None? <==> InData(PickCampuses(cli, Resolve(reply, FirstQuery(line), order),
                                            FirstQuery(line), dataKeys), dataKeys) == []
  {
    var q := FirstQuery(line);
    var parsed := Resolve(reply, q, order);
    var keys := InData(PickCampuses(cli, parsed, q, dataKeys), dataKeys);
    if |keys| == 0 then None
    else
      var seed := ParsePreferencesSeed(q, order);
      var cats := if |parsed.categories| > 0 then parsed.categories else seed.seedCategories;
      SeedCategoriesShape(q, order);
      assert forall c | c in seed.seedCategories :: Strip(c) != "";
      var picked := PickCampuses(cli, parsed, q, dataKeys);
      PickedDistinct(cli, parsed, q, dataKeys);
      SubseqDistinct(keys, picked);
      Some(State(keys, Elements(parsed.completedCourses), Elements(parsed.domainsCompleted),
                 parsed.focus, parsed.requiredOnly, cats, seed, false))
  }

  /** The campuses picked at the start carry no duplicates. */
  lemma PickedDistinct(cli: seq<string>, parsed: Parsed, q: string, dataKeys: set<string>)
    requires Distinct(cli) && Valid(parsed)
    ensures Distinct(PickCampuses(cli, parsed, q, dataKeys))
  {
    if |InData(cli, dataKeys)| > 0 {
      SubseqDistinct(InData(cli, dataKeys), cli);
    } else {
      StrictlySortedDistinctAll(parsed.campuses);
      StrictlySortedDistinctAll(DetectCampuses(q));
    }
  }

  lemma StrictlySortedDistinctAll(xs: seq<string>)
    requires StrictlySorted(xs)
    ensures Distinct(xs)
  {
    forall i, j | 0 <= i < j < |xs| ensures xs[i] != xs[j] {
      StrictlySortedDistinct(xs, i, j);
    }
  }

  // ----- one follow-up line -----

  /** The merge turn: the follow-up's resolved parse `fp` and the codes,
      categories and campuses found in the line itself are merged in. */
  function Merge(s: State, follow: string, fp: Parsed, dataKeys: set<string>, order: seq<string>): (r: State)
    requires IsKeyOrder(order)
    ensures r.seed == s.seed && r.terminated == s.terminated
  {
    var news := if |fp.campuses| > 0 then fp.campuses else DetectCampuses(follow);
    s.(completedCourses := s.completedCourses + Elements(fp.completedCourses) + ParseCompletedFreeform(follow),
       completedDomains := s.completedDomains + Elements(fp.domainsCompleted),
       focus := if fp.focus.Some? then fp.focus else s.focus,
       requiredOnly := fp.requiredOnly,
       categories := SortedDistinct(s.categories + fp.categories + NormalizeCategories(follow, order)),
       campusKeys := AddCampuses(s.campusKeys, news, dataKeys))
  }

  /** The branch of the loop body a stripped follow-up line takes, tried in
      order: blank, exact "done", exact "reset", "clear categories"
      anywhere, a remove pattern that names a selected campus, and
      otherwise a merge. */
  datatype Command = Ignore | Done | Reset | ClearCategories | Remove(names: seq<string>) | MergeTurn

  function CommandOf(s: State, follow: string): Command {
    var low := NormalizeTypos(follow);
    if follow == "" then Ignore
    else if low == "done" then Done
    else if low == "reset" then Reset
    else if Contains(low, "clear categories") then ClearCategories
    else if RemovesSome(s, low) then Remove(RemoveCandidates(low).value)
    else MergeTurn
  }

  /** The effect of a command on the state; `follow` is the stripped line. */
  function Apply(s: State, c: Command, follow: string, reply: Option<Json>, dataKeys: set<string>,
                 order: seq<string>): (r: State)
    requires IsKeyOrder(order)
    ensures r.seed == s.seed
    ensures r.terminated && !s.terminated ==> c == Done && r == s.(terminated := true)
  {
    match c
    case Ignore => s
    case Done => s.(terminated := true)
    case Reset => s.(completedCourses := {}, completedDomains := {})
    case ClearCategories => s.(categories := [])
    case Remove(names) => s.(campusKeys := Without(s.campusKeys, names))
    case MergeTurn => Merge(s, follow, Resolve(reply, follow, order), dataKeys, order)
  }

  /** One follow-up line. `reply` is the model's answer for the line, read
      only on a merge turn. A terminated session takes no more lines. */
  function Step(s: State, line: string, reply: Option<Json>, dataKeys: set<string>,
                order: seq<string>): (r: State)
    requires IsKeyOrder(order)
    ensures r.seed == s.seed
    ensures s.terminated ==> r == s
    ensures r.terminated ==> r == s.(terminated := true)
  {
    if s.terminated then s
    else Apply(s, CommandOf(s, Strip(line)), Strip(line), reply, dataKeys, order)
  }

  // ----- properties of a step -----

  /** A remove turn keeps the session invariant. */
  lemma RemoveKeepsInv(s: State, drop: seq<string>, dataKeys: set<string>)
    requires Inv(s, dataKeys)
    ensures Inv(s.(campusKeys := Without(s.campusKeys, drop)), dataKeys)
  {
    SubseqDistinct(Without(s.campusKeys, drop), s.campusKeys);
  }

  /** A merge turn with a resolved parse keeps the session invariant. */
  lemma MergeKeepsInv(s: State, follow: string, fp: Parsed, dataKeys: set<string>, order: seq<string>)
    requires IsKeyOrder(order) && Inv(s, dataKeys) && Valid(fp)
    ensures Inv(Merge(s, follow, fp, dataKeys, order), dataKeys)
  {
    var local := NormalizeCategories(follow, order);
    assert forall c | c in local :: Strip(c) != "" by {
      forall c | c in local ensures Strip(c) != "" { assert c != "" && Stripped(c); }
    }
    var r := Merge(s, follow, fp, dataKeys, order);
    assert forall c | c in r.categories :: Strip(c) != "";
  }

  /** Every command keeps the session invariant. */
  lemma ApplyKeepsInv(s: State, c: Command, follow: string, reply: Option<Json>,
                      dataKeys: set<string>, order: seq<string>)
    requires IsKeyOrder(order) && Inv(s, dataKeys)
    ensures Inv(Apply(s, c, follow, reply, dataKeys, order), dataKeys)
  {
    match c
    case Remove(names) => RemoveKeepsInv(s, names, dataKeys);
    case MergeTurn => MergeKeepsInv(s, follow, Resolve(reply, follow, order), dataKeys, order);
    case _ =>
  }

  /** Every step keeps the session invariant. */
  lemma StepKeepsInv(s: State, line: string, reply: Option<Json>, dataKeys: set<string>,
                     order: seq<string>)
    requires IsKeyOrder(order) && Inv(s, dataKeys)
    ensures Inv(Step(s, line, reply, dataKeys, order), dataKeys)
  {
    ApplyKeepsInv(s, CommandOf(s, Strip(line)), Strip(line), reply, dataKeys, order);
  }

  /** A blank line changes nothing. */
  lemma BlankLineIgnored(s: State, line: string, reply: Option<Json>, dataKeys: set<string>,
                         order: seq<string>)
    requires IsKeyOrder(order) && Strip(line) == ""
    ensures Step(s, line, reply, dataKeys, order) == s
  {
  }

  /** "done" ends the session and changes nothing else. */
  lemma DoneTerminates(s: State, line: string, reply: Option<Json>, dataKeys: set<string>,
                       order: seq<string>)
    requires IsKeyOrder(order) && !s.terminated
    requires Strip(line) != "" && NormalizeTypos(Strip(line)) == "done"
    ensures Step(s, line, reply, dataKeys, order) == s.(terminated := true)
  {
    assert CommandOf(s, Strip(line)) == Done;
  }

  /** "reset" empties the completed courses and domains and nothing else. */
  lemma ResetClearsCompleted(s: State, line: string, reply: Option<Json>, dataKeys: set<string>,
                             order: seq<string>)
    requires IsKeyOrder(order) && !s.terminated
    requires Strip(line) != "" && NormalizeTypos(Strip(line)) == "reset"
    ensures Step(s, line, reply, dataKeys, order) == s.(completedCourses := {}, completedDomains := {})
  {
    assert CommandOf(s, Strip(line)) == Reset;
  }

  /** After "reset" every row that was shown for a campus is shown again. */
  lemma ResetShowsMore(s: State, line: string, reply: Option<Json>, dataKeys: set<string>,
                       order: seq<string>, rows: seq<Row>)
    requires IsKeyOrder(order) && !s.terminated
    requires Strip(line) != "" && NormalizeTypos(Strip(line)) == "reset"
    ensures IsSubseq(FilterBy(rows, KeepTest(FiltersOf(s))),
                     FilterBy(rows, KeepTest(FiltersOf(Step(s, line, reply, dataKeys, order)))))
  {
    var r := Step(s, line, reply, dataKeys, order);
    ResetClearsCompleted(s, line, reply, dataKeys, order);
    MoreCompletedKeepsFewer(rows, FiltersOf(r), FiltersOf(s));
  }

  /** "clear categories" anywhere in a line that is not "done" or "reset"
      empties the category list and nothing else. */
  lemma ClearCategoriesOnly(s: State, line: string, reply: Option<Json>, dataKeys: set<string>,
                            order: seq<string>)
    requires IsKeyOrder(order) && !s.terminated && Strip(line) != ""
    requires NormalizeTypos(Strip(line)) != "done" && NormalizeTypos(Strip(line)) != "reset"
    requires Contains(NormalizeTypos(Strip(line)), "clear categories")
    ensures Step(s, line, reply, dataKeys, order) == s.(categories := [])
  {
    assert CommandOf(s, Strip(line)) == ClearCategories;
  }

  /** A remove command deletes exactly the selected campuses it names and
      keeps the others in order; it may leave no campus at all. */
  lemma RemoveDeletesNamed(s: State, line: string, reply: Option<Json>, dataKeys: set<string>,
                           order: seq<string>)
    requires IsKeyOrder(order) && !s.terminated && Strip(line) != ""
    requires var low := NormalizeTypos(Strip(line));
      low != "done" && low != "reset" && !Contains(low, "clear categories") && RemovesSome(s, low)
    ensures var r := Step(s, line, reply, dataKeys, order);
      var named := RemoveCandidates(NormalizeTypos(Strip(line))).value;
      && r == s.(campusKeys := r.campusKeys)
      && IsSubseq(r.campusKeys, s.campusKeys)
      && |r.campusKeys| < |s.campusKeys|
      && (forall k :: k in r.campusKeys <==> k in s.campusKeys && k !in named)
  {
    var named := RemoveCandidates(NormalizeTypos(Strip(line))).value;
    RemoveStep(s, line, reply, dataKeys, order);
    WithoutShrinks(s.campusKeys, named);
  }

  /** A line whose remove command takes effect drops the named campuses. */
  lemma RemoveStep(s: State, line: string, reply: Option<Json>, dataKeys: set<string>,
                   order: seq<string>)
    requires IsKeyOrder(order) && !s.terminated && Strip(line) != ""
    requires var low := NormalizeTypos(Strip(line));
      low != "done" && low != "reset" && !Contains(low, "clear categories") && RemovesSome(s, low)
    ensures Step(s, line, reply, dataKeys, order) ==
      s.(campusKeys := Without(s.campusKeys, RemoveCandidates(NormalizeTypos(Strip(line))).value))
  {
    var f := Strip(line);
    var named := RemoveCandidates(NormalizeTypos(f)).value;
    var c := CommandOf(s, f);
    assert c == Remove(named);
    assert Step(s, line, reply, dataKeys, order) == Apply(s, c, f, reply, dataKeys, order);
    ApplyRemove(s, named, f, reply, dataKeys, order);
  }

  lemma ApplyRemove(s: State, names: seq<string>, f: string, reply: Option<Json>, dataKeys: set<string>,
                    order: seq<string>)
    requires IsKeyOrder(order)
    ensures Apply(s, Remove(names), f, reply, dataKeys, order) == s.(campusKeys := Without(s.campusKeys, names))
  {
  }

  /** Dropping names of which one is present shortens the list. */
  lemma WithoutShrinks(keys: seq<string>, drop: seq<string>)
    requires exists k :: k in keys && k in drop
    ensures |Without(keys, drop)| < |keys|
  {
    var k :| k in keys && k in drop;
    SubseqLength(Without(keys, drop), keys, k);
  }

  /** A proper subsequence misses an element, so it is shorter. */
  lemma {:induction false} SubseqLength(xs: seq<string>, ys: seq<string>, y: string)
    requires IsSubseq(xs, ys) && y in ys && y !in xs
    ensures |xs| < |ys|
    decreases |ys|
  {
    if |xs| > 0 {
      var ys' := ys[..|ys| - 1];
      if xs[|xs| - 1] == ys[|ys| - 1] {
        assert y in ys';
        SubseqLength(xs[..|xs| - 1], ys', y);
      } else {
        SubseqLengthLe(xs, ys');
      }
    }
  }

  lemma {:induction false} SubseqLengthLe(xs: seq<string>, ys: seq<string>)
    requires IsSubseq(xs, ys)
    ensures |xs| <= |ys|
    decreases |ys|
  {
    if |xs| > 0 {
      if xs[|xs| - 1] == ys[|ys| - 1] {
        SubseqLengthLe(xs[..|xs| - 1], ys[..|ys| - 1]);
      } else {
        SubseqLengthLe(xs, ys[..|ys| - 1]);
      }
    }
  }

  /** What a merge does to the state. */
  lemma MergeGrows(s: State, follow: string, fp: Parsed, dataKeys: set<string>, order: seq<string>)
    requires IsKeyOrder(order)
    ensures var r := Merge(s, follow, fp, dataKeys, order);
      && s.completedCourses <= r.completedCourses
      && ParseCompletedFreeform(follow) <= r.completedCourses
      && (forall c | c in fp.completedCourses :: c in r.completedCourses)
      && s.completedDomains <= r.completedDomains
      && (forall c | c in s.categories :: c in r.categories)
      && (forall c | c in NormalizeCategories(follow, order) :: c in r.categories)
      && |s.campusKeys| <= |r.campusKeys| && r.campusKeys[..|s.campusKeys|] == s.campusKeys
      && (forall k | k in r.campusKeys :: k in s.campusKeys || k in dataKeys)
      && r.focus == (if fp.focus.Some? then fp.focus else s.focus)
      && r.requiredOnly == fp.requiredOnly
  {
  }

  /** On a merge turn the completed sets, the categories and the campus list
      only grow, new campuses are appended, the focus changes only when the
      follow-up names one, and the required-only flag always takes the
      follow-up's value. */
  lemma MergeFacts(s: State, line: string, reply: Option<Json>, dataKeys: set<string>,
                   order: seq<string>)
    requires IsKeyOrder(order) && !s.terminated && Strip(line) != ""
    requires var low := NormalizeTypos(Strip(line));
      low != "done" && low != "reset" && !Contains(low, "clear categories") && !RemovesSome(s, low)
    ensures var r := Step(s, line, reply, dataKeys, order);
      var fp := Resolve(reply, Strip(line), order);
      && r == Merge(s, Strip(line), fp, dataKeys, order)
      && s.completedCourses <= r.completedCourses
      && ParseCompletedFreeform(Strip(line)) <= r.completedCourses
      && s.completedDomains <= r.completedDomains
      && (forall c | c in s.categories :: c in r.categories)
      && (forall c | c in NormalizeCategories(Strip(line), order) :: c in r.categories)
      && |s.campusKeys| <= |r.campusKeys| && r.campusKeys[..|s.campusKeys|] == s.campusKeys
      && (forall k | k in r.campusKeys :: k in s.campusKeys || k in dataKeys)
      && r.focus == (if fp.focus.Some? then fp.focus else s.focus)
      && r.requiredOnly == fp.requiredOnly
      && !r.terminated && r.seed == s.seed
  {
    var follow := Strip(line);
    assert CommandOf(s, follow) == MergeTurn;
    MergeGrows(s, follow, Resolve(reply, follow, order), dataKeys, order);
  }

  // ----- examples -----
  // The "remove ucd" example is a chain of small lemmas, one fact per lemma,
  // which keeps the unrolling of literal strings within the verifier's
  // resource limit; `RemoveUcdExample` combines them.

  lemma RemoveUcdPlain(t: string)
    requires t == "remove ucd"
    ensures NormalizeTypos(t) == t
  {
    assert NoUpper(t);
    LowerOfLowercase(t);
    RemoveUcdNoFix(t);
  }

  lemma RemoveUcdNoFix(t: string)
    requires t == "remove ucd"
    ensures ApplyFixes(t, TypoFixes) == t
  {
    AbsentChar(t, "usb", 'b');
    AbsentChar(t, "ucb", 'b');
    AbsentChar(t, "berkley", 'b');
    AbsentChar(t, "ucsd", 's');
    AbsentChar(t, "uc sd", 's');
    CampusFacts.NoFixApplies(t, TypoFixes);
  }

  lemma RemoveUcdGroup(t: string, g: string)
    requires t == "remove ucd" && g == "ucd"
    ensures RemoveTarget(t, RemoveWords) == Some(g)
  {
    assert !WordAt(t, -1) && WordAt(t, 0);
    assert t[0..6] == "remove";
    assert Run(t, 7, Space) == 0;
    assert Run(t, 6, Space) == 1;
    assert Run(t, 10, NotNewline) == 0;
    assert Run(t, 7, NotNewline) == 3;
    assert t[7..10] == g;
    assert RemoveGroup(t, 6, 1) == Some(g);
    assert RemoveAt(t, "remove", 0) == Some(g);
  }

  /** "ucd" is already in normal form. */
  lemma UcdReadAsItself(c: string)
    requires c == "ucd"
    ensures NormalizeTypos(c) == "ucd"
  {
    assert NoUpper(c);
    LowerOfLowercase(c);
    CampusFacts.UcdPlain(c);
    CampusFacts.PlainNormalized(c, c);
  }

  lemma UcdCandidates(c: string)
    requires c == "ucd"
    ensures "UCD" in DetectCampuses(c) && "UCB" !in DetectCampuses(c)
  {
    UcdReadAsItself(c);
    var t := NormalizeTypos(c);
    CampusFacts.UcdLetters(t);
    CampusFacts.LacksBerkeley(t);
    CampusFacts.UcdIsUcd(t);
  }

  lemma RemoveUcdLow(line: string)
    requires line == "remove ucd"
    ensures var low := NormalizeTypos(Strip(line));
      low == line && low != "done" && low != "reset" && !Contains(low, "clear categories")
  {
    assert Stripped(line);
    RemoveUcdPlain(line);
    AbsentChar(line, "clear categories", 'a');
  }

  lemma RemoveUcdNames(low: string, g: string)
    requires low == "remove ucd" && g == "ucd"
    ensures RemoveCandidates(low).Some?
    ensures "UCD" in RemoveCandidates(low).value && "UCB" !in RemoveCandidates(low).value
  {
    RemoveUcdGroup(low, g);
    UcdCandidates(g);
  }

  /** The line "remove ucd" is a remove command naming UC Davis only. */
  lemma RemoveUcdCommand(line: string, g: string)
    requires line == "remove ucd" && g == "ucd"
    ensures var low := NormalizeTypos(Strip(line));
      && low == line && low != "done" && low != "reset" && !Contains(low, "clear categories")
      && RemoveCandidates(low).Some?
      && "UCD" in RemoveCandidates(low).value && "UCB" !in RemoveCandidates(low).value
  {
    RemoveUcdLow(line);
    RemoveUcdNames(NormalizeTypos(Strip(line)), g);
  }

  /** "remove ucd" with Berkeley and Davis selected leaves only Berkeley. */
  lemma RemoveUcdExample(s: State, line: string, reply: Option<Json>, dataKeys: set<string>,
                         order: seq<string>)
    requires IsKeyOrder(order) && !s.terminated && s.campusKeys == ["UCB", "UCD"]
    requires line == "remove ucd"
    ensures Step(s, line, reply, dataKeys, order).campusKeys == ["UCB"]
  {
    RemoveUcdCommand(line, "ucd");
    assert "UCD" in s.campusKeys;
    RemoveDeletesNamed(s, line, reply, dataKeys, order);
    var r := Step(s, line, reply, dataKeys, order).campusKeys;
    SubseqOfPair(r, "UCB", "UCD");
  }

  /** Dropping one element of a two-element list leaves the other. */
  lemma SubseqOfPair(r: seq<string>, a: string, b: string)
    requires IsSubseq(r, [a, b]) && a in r && b !in r
    ensures r == [a]
  {
    SubseqLength(r, [a, b], b);
  }
}
