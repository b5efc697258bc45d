/** Campus recognition: the typo/alias rewriting applied to every query, the
    alias-substring campus detectors, and the `--campuses` option parser
    (backend/ai_agent.py). Campus keys stay strings, as in the source, so
    that membership in the fixed enumeration is something to prove. */
module Campus {
  import opened Strings
  import opened Optional
  import opened Scan

  /** The three campus keys, in `CAMPUS_ALIASES` order (which is also sorted). */
  const CampusKeys: seq<string> := ["UCB", "UCD", "UCSD"]

  /** The alias phrases of each campus key. */
  function AliasesOf(key: string): seq<string> {
    if key == "UCB" then ["uc berkeley", "berkeley", "ucb", "cal"]
    else if key == "UCD" then ["uc davis", "davis", "ucd"]
    else if key == "UCSD" then ["uc san diego", "san diego", "ucsd"]
    else []
  }

  /** `CAMPUS_ALIASES` in dictionary order. */
  const CampusAliases: seq<(string, seq<string>)> :=
    [("UCB", AliasesOf("UCB")), ("UCD", AliasesOf("UCD")), ("UCSD", AliasesOf("UCSD"))]

  /** `TYPO_FIXES` in dictionary order: each whole-word pattern and its replacement. */
  const TypoFixes: seq<(string, string)> := [
    ("usb", "uc berkeley"),
    ("ucb", "uc berkeley"),
    ("berkley", "berkeley"),
    ("ucsd", "uc san diego"),
    ("uc sd", "uc san diego")
  ]

  /** `any(a in t for a in needles)`. */
  predicate AnyIn(t: string, needles: seq<string>) {
    |needles| > 0 && (Contains(t, needles[0]) || AnyIn(t, needles[1..]))
  }

  lemma {:induction false} AnyInIff(t: string, needles: seq<string>)
    ensures AnyIn(t, needles) <==> exists a :: a in needles && Contains(t, a)
  {
    if |needles| > 0 {
      AnyInIff(t, needles[1..]);
      assert needles[0] in needles;
      assert forall a :: a in needles <==> a == needles[0] || a in needles[1..];
    }
  }

  // ----- the `\bword\b` rewrites of TYPO_FIXES -----

  /** The pattern `\bw\b` matches at position `i`. */
  predicate WholeWordAt(t: string, w: string, i: nat) {
    i <= |t| && PrefixOf(w, t[i..]) && Boundary(t, i) && Boundary(t, i + |w|)
  }

  /** `re.sub(r"\bw\b", r, t)` restricted to the text from position `i`:
      matches are tried left to right, and scanning resumes after a match. */
  function SubWordFrom(t: string, w: string, r: string, i: nat): (s: string)
    requires |w| > 0
    ensures NoUpper(t) && NoUpper(r) ==> NoUpper(s)
    decreases |t| - i
  {
    if i >= |t| then []
    else if WholeWordAt(t, w, i) then r + SubWordFrom(t, w, r, i + |w|)
    else [t[i]] + SubWordFrom(t, w, r, i + 1)
  }

  function SubWord(t: string, w: string, r: string): string
    requires |w| > 0
  {
    SubWordFrom(t, w, r, 0)
  }

  /** Where the pattern matches nowhere, the rewrite leaves the text alone. */
  lemma {:induction false} SubWordNoMatch(t: string, w: string, r: string, i: nat)
    requires |w| > 0 && i <= |t|
    requires forall k | i <= k <= |t| :: !WholeWordAt(t, w, k)
    ensures SubWordFrom(t, w, r, i) == t[i..]
    decreases |t| - i
  {
    if i < |t| {
      SubWordNoMatch(t, w, r, i + 1);
    }
  }

  /** A whole-word occurrence of the pattern always puts the replacement into
      the output: either the scan replaces that occurrence, or an earlier
      match that covers it was replaced. */
  lemma {:induction false} SubWordProduces(t: string, w: string, r: string, i: nat, k: nat)
    requires |w| > 0 && i <= k < |t| && WholeWordAt(t, w, k)
    ensures Contains(SubWordFrom(t, w, r, i), r)
    decreases |t| - i
  {
    var s := SubWordFrom(t, w, r, i);
    if WholeWordAt(t, w, i) {
      assert s == r + SubWordFrom(t, w, r, i + |w|);
      assert s[..|r|] == r;
      ContainsAt(s, r, 0);
    } else {
      assert k != i;
      SubWordProduces(t, w, r, i + 1, k);
      var s' := SubWordFrom(t, w, r, i + 1);
      assert s == [t[i]] + s';
      ContainsIff(s', r);
      var j :| OccursAt(s', r, j);
      assert s[j + 1..j + 1 + |r|] == s'[j..j + |r|];
      ContainsAt(s, r, j + 1);
    }
  }

  /** Applies each rewrite of the table in order. */
  function ApplyFixes(t: string, fixes: seq<(string, string)>): (s: string)
    requires forall i | 0 <= i < |fixes| :: |fixes[i].0| > 0
    ensures NoUpper(t) && (forall i | 0 <= i < |fixes| :: NoUpper(fixes[i].1)) ==> NoUpper(s)
    decreases |fixes|
  {
    if |fixes| == 0 then t else ApplyFixes(SubWord(t, fixes[0].0, fixes[0].1), fixes[1..])
  }

  /** `normalize_typos`: lowercase, then apply `TYPO_FIXES` in order. The
      result never holds an upper-case letter. */
  function NormalizeTypos(q: string): (t: string)
    ensures NoUpper(t)
  {
    TypoTable(TypoFixes);
    ApplyFixes(Lower(q), TypoFixes)
  }

  /** Every pattern of the table is non-empty and every replacement is
      lower-case. */
  lemma TypoTable(fixes: seq<(string, string)>)
    requires fixes == TypoFixes
    ensures forall i | 0 <= i < |fixes| :: |fixes[i].0| > 0 && NoUpper(fixes[i].1)
  {
    assert NoUpper(fixes[0].1) && NoUpper(fixes[2].1) && NoUpper(fixes[3].1);
  }

  /** When no rewrite pattern occurs as a whole word, normalisation is plain
      lowercasing. */
  lemma {:induction false} ApplyFixesNoMatch(t: string, fixes: seq<(string, string)>)
    requires forall i | 0 <= i < |fixes| :: |fixes[i].0| > 0
    requires forall i, k | 0 <= i < |fixes| && 0 <= k <= |t| :: !WholeWordAt(t, fixes[i].0, k)
    ensures ApplyFixes(t, fixes) == t
  {
    if |fixes| > 0 {
      SubWordNoMatch(t, fixes[0].0, fixes[0].1, 0);
      assert SubWord(t, fixes[0].0, fixes[0].1) == t;
      forall i, k | 0 <= i < |fixes[1..]| && 0 <= k <= |t|
        ensures !WholeWordAt(t, fixes[1..][i].0, k)
      {
        assert fixes[1..][i] == fixes[i + 1];
      }
      ApplyFixesNoMatch(t, fixes[1..]);
    }
  }

  // ----- campus detection -----

  /** Campus `key` is mentioned in normalised text `t`: one of its aliases is
      a substring. */
  predicate Mentions(t: string, key: string) {
    AnyIn(t, AliasesOf(key))
  }

  lemma CampusTable()
    ensures |CampusAliases| == 3
    ensures forall i | 0 <= i < |CampusAliases| :: CampusAliases[i].0 == CampusKeys[i]
    ensures forall i | 0 <= i < |CampusAliases| :: CampusAliases[i].1 == AliasesOf(CampusAliases[i].0)
    ensures StrictlySorted(CampusKeys)
  {
    assert Less("UCB", "UCD") && Less("UCD", "UCSD") && Less("UCB", "UCSD");
  }

  /** First key of the table, in table order, with an alias in `t`. */
  function FirstKeyHit(t: string, table: seq<(string, seq<string>)>): (r: Option<string>)
    ensures r.None? <==> forall i | 0 <= i < |table| :: !AnyIn(t, table[i].1)
    ensures r.Some? ==> exists i | 0 <= i < |table| ::
      table[i].0 == r.value && AnyIn(t, table[i].1) &&
      forall j | 0 <= j < i :: !AnyIn(t, table[j].1)
  {
    if |table| == 0 then None
    else if AnyIn(t, table[0].1) then Some(table[0].0)
    else
      var r := FirstKeyHit(t, table[1..]);
      if r.Some? then
        var i :| 0 <= i < |table[1..]| && table[1..][i].0 == r.value && AnyIn(t, table[1..][i].1) &&
          forall j | 0 <= j < i :: !AnyIn(t, table[1..][j].1);
        assert table[i + 1].0 == r.value && AnyIn(t, table[i + 1].1);
        assert forall j | 0 <= j < i + 1 :: !AnyIn(t, table[j].1);
        r
      else r
  }

  /** Every key of the table, in table order, with an alias in `t`. */
  function KeysHit(t: string, table: seq<(string, seq<string>)>): (r: seq<string>)
    ensures forall k :: k in r <==> exists i | 0 <= i < |table| :: table[i].0 == k && AnyIn(t, table[i].1)
  {
    if |table| == 0 then []
    else
      var rest := KeysHit(t, table[1..]);
      assert forall i | 0 <= i < |table[1..]| :: table[1..][i] == table[i + 1];
      (if AnyIn(t, table[0].1) then [table[0].0] else []) + rest
  }

  /** `detect_campus_from_query`: the first campus, in `CAMPUS_ALIASES`
      order, that the normalised query mentions. */
  function DetectCampus(q: string): (r: Option<string>)
    ensures r.Some? ==> r.value in CampusKeys && Mentions(NormalizeTypos(q), r.value)
    ensures r.Some? ==> forall j | 0 <= j < |CampusKeys| && Less(CampusKeys[j], r.value) ::
      !Mentions(NormalizeTypos(q), CampusKeys[j])
    ensures r.None? <==> forall k | k in CampusKeys :: !Mentions(NormalizeTypos(q), k)
  {
    var r := FirstKeyHit(NormalizeTypos(q), CampusAliases);
    FirstKeyHitOrder(NormalizeTypos(q), r);
    r
  }

  lemma FirstKeyHitOrder(t: string, r: Option<string>)
    requires r == FirstKeyHit(t, CampusAliases)
    ensures r.Some? ==> r.value in CampusKeys && Mentions(t, r.value)
    ensures r.Some? ==> forall j | 0 <= j < |CampusKeys| && Less(CampusKeys[j], r.value) ::
      !Mentions(t, CampusKeys[j])
    ensures r.None? <==> forall k | k in CampusKeys :: !Mentions(t, k)
  {
    CampusTable();
    if r.Some? {
      var i :| 0 <= i < |CampusAliases| && CampusAliases[i].0 == r.value &&
        AnyIn(t, CampusAliases[i].1) &&
        forall j | 0 <= j < i :: !AnyIn(t, CampusAliases[j].1);
      forall j | 0 <= j < |CampusKeys| && Less(CampusKeys[j], r.value)
        ensures !Mentions(t, CampusKeys[j])
      {
        if j > i {
          LessAsymmetric(CampusKeys[i], CampusKeys[j]);
        } else if j == i {
          LessIrreflexive(CampusKeys[j]);
        }
      }
    } else {
      forall k | k in CampusKeys ensures !Mentions(t, k) {
        var i :| 0 <= i < |CampusKeys| && CampusKeys[i] == k;
        assert !AnyIn(t, CampusAliases[i].1);
      }
    }
  }

  /** `detect_campuses_from_query`: every campus the normalised query
      mentions, sorted and free of duplicates. */
  function DetectCampuses(q: string): (r: seq<string>)
    ensures StrictlySorted(r)
    ensures forall k :: k in r <==> k in CampusKeys && Mentions(NormalizeTypos(q), k)
  {
    CampusTable();
    SortedDistinct(KeysHit(NormalizeTypos(q), CampusAliases))
  }

  /** The first detected campus is the head of the full detection list. */
  lemma DetectCampusIsFirst(q: string)
    ensures DetectCampus(q).None? <==> DetectCampuses(q) == []
    ensures DetectCampus(q).Some? ==> DetectCampus(q).value == DetectCampuses(q)[0]
  {
    var t := NormalizeTypos(q);
    var all := DetectCampuses(q);
    var one := DetectCampus(q);
    LeastMentioned(CampusKeys, all, one, k => Mentions(t, k));
  }

  /** A sorted list of exactly the keys passing `m` starts with the least
      such key, and is empty when no key passes. */
  lemma LeastMentioned(keys: seq<string>, all: seq<string>, one: Option<string>, m: string -> bool)
    requires StrictlySorted(all)
    requires forall k :: k in all <==> k in keys && m(k)
    requires one.Some? ==> one.value in keys && m(one.value)
    requires one.Some? ==> forall j | 0 <= j < |keys| && Less(keys[j], one.value) :: !m(keys[j])
    requires one.None? <==> forall k | k in keys :: !m(k)
    ensures one.None? <==> all == []
    ensures one.Some? ==> all != [] && all[0] == one.value
  {
    if all != [] {
      assert all[0] in all;
    }
    if one.Some? {
      var x := one.value;
      assert x in all;
      var i :| 0 <= i < |all| && all[i] == x;
      var h := all[0];
      assert h in all;
      var j :| 0 <= j < |keys| && keys[j] == h;
    }
  }

  /** What `parse_cli_campuses` makes of one comma-separated piece. */
  function CliCandidate(piece: string): string {
    match DetectCampus(piece)
    case Some(k) => k
    case None => Upper(piece)
  }

  /** The stripped, non-empty pieces of a comma-separated option. */
  function CliPieces(parts: seq<string>): (r: seq<string>)
    ensures forall p :: p in r <==> exists q :: q in parts && p == Strip(q) && p != ""
  {
    if |parts| == 0 then []
    else
      var rest := CliPieces(parts[1..]);
      assert forall q :: q in parts <==> q == parts[0] || q in parts[1..];
      (if Strip(parts[0]) != "" then [Strip(parts[0])] else []) + rest
  }

  /** The candidates of `pieces` under `cand` that are campus keys, in input
      order. */
  function KnownKeys(pieces: seq<string>, cand: string -> string): (r: seq<string>)
    ensures forall k :: k in r <==> k in CampusKeys && exists p :: p in pieces && cand(p) == k
  {
    if |pieces| == 0 then []
    else
      var rest := KnownKeys(pieces[1..], cand);
      assert forall p :: p in pieces <==> p == pieces[0] || p in pieces[1..];
      (if cand(pieces[0]) in CampusKeys then [cand(pieces[0])] else []) + rest
  }

  /** `parse_cli_campuses`: split the option on commas, resolve each piece
      to a campus key, keep the known keys, sorted and de-duplicated. */
  function ParseCliCampuses(opt: Option<string>): (r: seq<string>)
    ensures StrictlySorted(r)
    ensures forall k | k in r :: k in CampusKeys
    ensures opt.None? || opt.value == "" ==> r == []
    ensures opt.Some? ==> forall k :: k in r <==> (k in CampusKeys &&
      exists q :: q in SplitOn(opt.value, {','}) && Strip(q) != "" && CliCandidate(Strip(q)) == k)
  {
    if opt.None? || opt.value == "" then []
    else SortedDistinct(KnownKeys(CliPieces(SplitOn(opt.value, {',' })), CliCandidate))
  }
}
