/** The two pure helpers of the script that loads the articulation JSON
    into the database (scripts/sync_json_to_postgres.py): splitting a DVC
    course cell into individual course codes, and picking the UC side of
    one articulation entry. */
module Sync {
  import opened Strings
  import opened Optional
  import opened Json
  import opened Subsequences

  /** The character class of `re.split(r"[/,]", raw)`. */
  const Separators: set<char> := {'/', ','}

  /** `p.strip().replace("  ", " ")`. */
  function CleanPiece(p: string): (r: string)
    ensures FreeOf(p, Separators) ==> FreeOf(r, Separators)
    ensures Stripped(r)
    ensures Stripped(p) && !Contains(p, "  ") ==> r == p
  {
    ReplaceStrippedFacts(p, Strip(p));
    ReplaceAll(Strip(p), "  ", " ")
  }

  lemma ReplaceStrippedFacts(p: string, s: string)
    requires s == Strip(p)
    ensures FreeOf(p, Separators) ==> FreeOf(ReplaceAll(s, "  ", " "), Separators)
    ensures Stripped(ReplaceAll(s, "  ", " "))
    ensures Stripped(p) && !Contains(p, "  ") ==> ReplaceAll(s, "  ", " ") == p
  {
    if |s| > 0 {
      ReplaceAllFirst(s, "  ", " ");
      ReplaceAllLast(s, "  ", " ");
    }
    if FreeOf(p, Separators) {
      assert '/' !in s && ',' !in s;
      ReplaceAllChars(s, "  ", " ", '/');
      ReplaceAllChars(s, "  ", " ", ',');
    }
    if Stripped(p) && !Contains(p, "  ") {
      ReplaceAllAbsent(s, "  ", " ");
    }
  }

  predicate NonEmpty(s: string) { s != "" }

  /** `split_codes`: the cleaned, non-empty pieces between separators, in
      input order; nothing for an empty cell. */
  function SplitCodes(raw: string): (r: seq<string>)
    ensures raw == "" ==> r == []
    ensures forall c | c in r :: c != "" && Stripped(c) && FreeOf(c, Separators)
    ensures forall c :: c in r <==>
      c != "" && exists p :: p in SplitOn(raw, Separators) && CleanPiece(p) == c
    ensures IsSubseq(r, MapSeq(SplitOn(raw, Separators), CleanPiece))
  {
    if raw == "" then []
    else
      CleanedPieces(SplitOn(raw, Separators));
      FilterBy(MapSeq(SplitOn(raw, Separators), CleanPiece), NonEmpty)
  }

  /** The non-blank cleaned pieces are the cleaned images of the pieces,
      kept in order, and hold no separator when the pieces hold none. */
  lemma CleanedPieces(parts: seq<string>)
    requires forall p | p in parts :: FreeOf(p, Separators)
    ensures var r := FilterBy(MapSeq(parts, CleanPiece), NonEmpty);
      && (forall c | c in r :: c != "" && Stripped(c) && FreeOf(c, Separators))
      && (forall c :: c in r <==> c != "" && exists p :: p in parts && CleanPiece(p) == c)
      && IsSubseq(r, MapSeq(parts, CleanPiece))
  {
    FilterMapMembers(parts, CleanPiece, NonEmpty);
    FilterShape(MapSeq(parts, CleanPiece), NonEmpty);
  }

  /** A course code as the cell would hold it: non-empty, no separator, no
      surrounding whitespace and no double space. */
  predicate CleanCode(c: string) {
    c != "" && FreeOf(c, Separators) && Stripped(c) && !Contains(c, "  ")
  }

  /** Splitting undoes listing codes with either separator. */
  lemma SplitCodesJoin(codes: seq<string>, sep: char)
    requires |codes| >= 1 && sep in Separators
    requires forall c | c in codes :: CleanCode(c)
    ensures SplitCodes(Join(codes, sep)) == codes
  {
    var raw := Join(codes, sep);
    SplitJoin(codes, sep, Separators);
    assert codes[0] in codes;
    var pieces := MapSeq(codes, CleanPiece);
    forall i | 0 <= i < |codes| ensures pieces[i] == codes[i] {
      assert CleanCode(codes[i]) by { assert codes[i] in codes; }
    }
    assert pieces == codes;
    FilterAll(codes, NonEmpty);
  }

  /** Only one pass of the replacement applies: four spaces between two
      words of a piece become two, not one. */
  lemma FourSpacesBecomeTwo(w: string, d: string)
    requires w != "" && d != ""
    requires forall i | 0 <= i < |w| :: !IsSpace(w[i])
    requires forall i | 0 <= i < |d| :: !IsSpace(d[i])
    ensures CleanPiece(w + "    " + d) == w + "  " + d
  {
    var p := w + "    " + d;
    WordsStripped(w, d, p);
    HalvedRun(w, d, "  ", p);
  }

  lemma WordsStripped(w: string, d: string, p: string)
    requires w != "" && d != "" && p == w + "    " + d
    requires !IsSpace(w[0]) && !IsSpace(d[|d| - 1])
    ensures Strip(p) == p
  {
    assert p[0] == w[0] && p[|p| - 1] == d[|d| - 1];
  }

  lemma HalvedRun(w: string, d: string, pat: string, p: string)
    requires pat == "  " && p == w + pat + pat + d
    requires forall i | 0 <= i < |w| :: w[i] != ' '
    requires forall i | 0 <= i < |d| :: d[i] != ' '
    ensures ReplaceAll(p, pat, " ") == w + " " + " " + d
  {
    var t := pat + d;
    var u := pat + t;
    assert p == w + u;
    ReplaceAllSkip(w, u, pat, " ");
    ReplaceAllAtStart(pat, t, " ");
    ReplaceAllAtStart(pat, d, " ");
    ReplaceAllSkip(d, "", pat, " ");
    assert d + "" == d;
    assert ReplaceAll("", pat, " ") == "";
    assert w + " " + " " + d == w + (" " + (" " + d));
  }

  // ----- the UC side of an entry -----

  const UcKeys: set<string> := {"UC_Berkeley", "UC_Davis", "UC_SanDiego"}

  /** The returned triple. `units` is the raw `Units` value handed to
      `parse_units`, whose float parsing is not part of this model. */
  datatype UcBlock = UcBlock(code: string, title: string, units: Option<Json>)

  /** `("", "", None)`. */
  const NoBlock := UcBlock("", "", None)

  /** An entry of the course dictionary that names a UC side. */
  predicate IsUcEntry(kv: (string, Json)) {
    kv.0 in UcKeys && kv.1.JObj?
  }

  /** `v.get(key, "").strip()`; `None` when the value is present but not a
      string, where `.strip()` raises. */
  function TextField(fields: seq<(string, Json)>, key: string): (r: Option<string>)
    ensures Get(fields, key).None? ==> r == Some("")
    ensures (exists s :: Get(fields, key) == Some(JStr(s))) <==> r.Some? && Get(fields, key).Some?
    ensures r.Some? ==> Stripped(r.value)
  {
    match Get(fields, key)
    case None => Some("")
    case Some(JStr(s)) => Some(Strip(s))
    case Some(_) => None
  }

  /** The triple read from one UC-side dictionary; `None` when reading the
      code or the title raises. */
  function BlockOf(fields: seq<(string, Json)>): (r: Option<UcBlock>)
    ensures r.None? <==> TextField(fields, "Course_Code").None? || TextField(fields, "Title").None?
    ensures r.Some? ==> Some(r.value.code) == TextField(fields, "Course_Code")
    ensures r.Some? ==> Some(r.value.title) == TextField(fields, "Title")
    ensures r.Some? ==> r.value.units == Get(fields, "Units")
  {
    match (TextField(fields, "Course_Code"), TextField(fields, "Title"))
    case (Some(code), Some(title)) => Some(UcBlock(code, title, Get(fields, "Units")))
    case _ => None
  }

  /** `get_uc_block`: the block of the first entry, in key order, whose key
      names a UC campus and whose value is a dictionary; `("", "", None)`
      when there is none. `None` stands for the exception of reading a
      non-string code or title of that first entry. */
  function GetUcBlock(course: seq<(string, Json)>): (r: Option<UcBlock>)
    ensures (forall i | 0 <= i < |course| :: !IsUcEntry(course[i])) ==> r == Some(NoBlock)
    ensures forall i | 0 <= i < |course| && IsUcEntry(course[i]) ::
      (forall j | 0 <= j < i :: !IsUcEntry(course[j])) ==> r == BlockOf(course[i].1.fields)
    ensures r.Some? ==> Stripped(r.value.code) && Stripped(r.value.title)
  {
    if |course| == 0 then Some(NoBlock)
    else if IsUcEntry(course[0]) then BlockOf(course[0].1.fields)
    else
      var r := GetUcBlock(course[1..]);
      assert forall i | 1 <= i < |course| :: course[1..][i - 1] == course[i];
      r
  }

  /** Entries before the first UC side are skipped whatever they hold, and
      anything after it is never read. */
  lemma GetUcBlockFirstWins(before: seq<(string, Json)>, k: string, fields: seq<(string, Json)>,
                            after: seq<(string, Json)>)
    requires forall kv | kv in before :: !IsUcEntry(kv)
    requires k in UcKeys
    ensures GetUcBlock(before + [(k, JObj(fields))] + after) == BlockOf(fields)
  {
    var course := before + [(k, JObj(fields))] + after;
    assert course[|before|] == (k, JObj(fields));
    assert forall j | 0 <= j < |before| :: course[j] == before[j] && before[j] in before;
  }

  /** A UC key whose value is not a dictionary is passed over. */
  lemma GetUcBlockSkipsNonObjects(k: string, v: Json, rest: seq<(string, Json)>)
    requires !v.JObj?
    ensures GetUcBlock([(k, v)] + rest) == GetUcBlock(rest)
  {
    assert ([(k, v)] + rest)[1..] == rest;
  }
}
