/** Category intents pulled out of free text (`normalize_categories_freeform`
    in backend/ai_agent.py): three regex strategies capture phrases, a fuzzy
    alias match adds canonical keys, and every phrase is then replaced by a
    canonical key it contains, if any. */
module Categories {
  import opened Strings
  import opened Optional
  import opened Scan
  import opened Campus

  /** The canonical keys of `CATEGORY_ALIASES`, in dictionary order. */
  const CategoryKeys: seq<string> := [
    "major preparation", "lower division major", "general education", "breadth",
    "math", "science", "computer science"
  ]

  /** The variants listed for each canonical key. */
  function VariantsOf(key: string): seq<string> {
    if key == "major preparation" then ["major preparation", "lower division major", "ld major"]
    else if key == "lower division major" then ["lower division major", "ld major"]
    else if key == "general education" then ["general education", "ge", "breadth"]
    else if key == "breadth" then ["breadth", "ge area", "area"]
    else if key == "math" then ["math", "mathematics"]
    else if key == "science" then ["science", "natural science", "biology", "chemistry", "physics"]
    else if key == "computer science" then ["computer science", "cs", "programming", "software"]
    else []
  }

  /** The iteration order of the set of canonical keys. CPython randomises
      string hashing per process, so this order is an input: any listing of
      exactly the canonical keys. */
  predicate IsKeyOrder(order: seq<string>) {
    (forall k | k in order :: k in CategoryKeys) && (forall k | k in CategoryKeys :: k in order)
  }

  lemma KeysStripped()
    ensures forall k | k in CategoryKeys :: k != "" && Stripped(k)
  {
  }

  // ----- the three capturing patterns -----

  predicate IsOpenQuote(c: char) { c == '"' || c == '\U{201C}' }
  predicate IsCloseQuote(c: char) { c == '"' || c == '\U{201D}' }

  /** `(.+?)["”]` with the group starting at `g` and already `k` long: the
      shortest newline-free group followed by a closing quote. */
  function LazyQuoted(t: string, g: nat, k: nat): (h: Option<Hit>)
    requires 1 <= k && g <= |t|
    ensures h.Some? ==> g < h.value.end <= |t|
    ensures h.Some? ==> IsCloseQuote(t[h.value.end - 1]) && h.value.group == t[g..h.value.end - 1]
    decreases |t| - g - k
  {
    if g + k > |t| then None
    else if t[g + k - 1] == '\n' then None
    else if g + k < |t| && IsCloseQuote(t[g + k]) then Some(Hit(t[g..g + k], g + k + 1))
    else LazyQuoted(t, g, k + 1)
  }

  /** `category\s*:\s*["“](.+?)["”]` tried at position `i`. */
  function QuotedAt(t: string, i: nat): (h: Option<Hit>)
    requires i <= |t|
    ensures h.Some? ==> i < h.value.end <= |t|
  {
    if !OccursAt(t, "category", i) then None
    else
      var c := i + 8 + Run(t, i + 8, Space);
      if c < |t| && t[c] == ':' then
        var q := c + 1 + Run(t, c + 1, Space);
        if q < |t| && IsOpenQuote(t[q]) then LazyQuoted(t, q + 1, 1) else None
      else None
  }

  /** `\bonly\s+([a-z0-9 \-/&]+)` tried at position `i`. When nothing of the
      class follows the whitespace, `\s+` gives characters back until the
      group can start on a space. */
  function OnlyAt(t: string, i: nat): (h: Option<Hit>)
    requires i <= |t|
    ensures h.Some? ==> i < h.value.end <= |t|
  {
    if !(Boundary(t, i) && OccursAt(t, "only", i)) then None
    else
      var w := i + 4;
      var n := Run(t, w, Space);
      if n == 0 then None
      else
        var c := Run(t, w + n, PhraseChar);
        if c > 0 then Some(Hit(t[w + n..w + n + c], w + n + c))
        else OnlyBacktrack(t, w, n - 1)
  }

  /** The backtracking of `OnlyAt`, with `\s+` holding `m` characters. */
  function OnlyBacktrack(t: string, w: nat, m: nat): (h: Option<Hit>)
    requires w + m <= |t|
    ensures h.Some? ==> w < h.value.end <= |t|
    decreases m
  {
    if m == 0 then None
    else if w + m < |t| && InClass(t[w + m], PhraseChar) then
      var c := Run(t, w + m, PhraseChar);
      Some(Hit(t[w + m..w + m + c], w + m + c))
    else OnlyBacktrack(t, w, m - 1)
  }

  /** `\bshow\s+([a-z0-9 \-/&]+?)\s+only\b` tried at position `i`: `\s+`
      takes all the whitespace first and gives it back one character at a
      time; for each length the lazy group grows one character at a time. */
  function ShowAt(t: string, i: nat): (h: Option<Hit>)
    requires i <= |t|
    ensures h.Some? ==> i < h.value.end <= |t|
  {
    if !(Boundary(t, i) && OccursAt(t, "show", i)) then None
    else ShowBacktrack(t, i + 4, Run(t, i + 4, Space))
  }

  function ShowBacktrack(t: string, w: nat, m: nat): (h: Option<Hit>)
    requires w + m <= |t|
    ensures h.Some? ==> w < h.value.end <= |t|
    decreases m
  {
    if m == 0 then None
    else
      match ShowLazy(t, w + m, 1)
      case Some(h) => Some(h)
      case None => ShowBacktrack(t, w, m - 1)
  }

  /** The lazy group of `ShowAt`, starting at `g` and `k` long. */
  function ShowLazy(t: string, g: nat, k: nat): (h: Option<Hit>)
    requires 1 <= k && g <= |t|
    requires forall j | g <= j < g + k - 1 && j < |t| :: InClass(t[j], PhraseChar)
    ensures h.Some? ==> g < h.value.end <= |t|
    ensures h.Some? ==> forall j | 0 <= j < |h.value.group| :: InClass(h.value.group[j], PhraseChar)
    decreases |t| - g - k
  {
    if g + k > |t| then None
    else if !InClass(t[g + k - 1], PhraseChar) then None
    else
      var e := g + k;
      var n := Run(t, e, Space);
      if n > 0 && OccursAt(t, "only", e + n) && Boundary(t, e + n + 4) then
        Some(Hit(t[g..e], e + n + 4))
      else ShowLazy(t, g, k + 1)
  }

  const Punctuation: set<char> := {'.', ',', ';', ':', '!', '?', '(', ')', '[', ']', '{', '}'}

  datatype Pattern = QuotedCategory | OnlyPhrase | ShowOnly

  function MatchAt(p: Pattern, t: string, i: nat): (h: Option<Hit>)
    requires i <= |t|
    ensures h.Some? ==> i < h.value.end <= |t|
  {
    match p
    case QuotedCategory => QuotedAt(t, i)
    case OnlyPhrase => OnlyAt(t, i)
    case ShowOnly => ShowAt(t, i)
  }

  /** The phrase a match contributes: its group stripped and, for `only`,
      cut at the first punctuation mark. */
  function PhraseOf(p: Pattern, group: string): (x: string)
    ensures Stripped(x)
  {
    match p
    case OnlyPhrase => Strip(SplitOn(Strip(group), Punctuation)[0])
    case _ => Strip(group)
  }

  /** `re.finditer` from position `i`: after a match the search resumes at
      its end, otherwise one character further. Empty phrases are dropped. */
  function ScanFrom(p: Pattern, t: string, i: nat): (r: seq<string>)
    requires i <= |t|
    ensures forall x | x in r :: x != "" && Stripped(x)
    decreases |t| - i
  {
    if i == |t| then []
    else
      match MatchAt(p, t, i)
      case Some(h) =>
        var x := PhraseOf(p, h.group);
        (if x != "" then [x] else []) + ScanFrom(p, t, h.end)
      case None => ScanFrom(p, t, i + 1)
  }

  // ----- fuzzy match and canonicalisation -----

  /** Step 3 selects a canonical key when it, or one of its variants, is a
      substring of the normalised text. */
  predicate AliasHit(low: string, key: string) {
    Contains(low, key) || AnyIn(low, VariantsOf(key))
  }

  function AliasHitsIn(low: string, keys: seq<string>): (r: seq<string>)
    ensures forall k :: k in r <==> k in keys && AliasHit(low, k)
  {
    if |keys| == 0 then []
    else
      var rest := AliasHitsIn(low, keys[1..]);
      assert forall k :: k in keys <==> k == keys[0] || k in keys[1..];
      (if AliasHit(low, keys[0]) then [keys[0]] else []) + rest
  }

  /** Everything the three strategies pick from normalised text. */
  function Picked(low: string): seq<string> {
    ScanFrom(QuotedCategory, low, 0) + ScanFrom(OnlyPhrase, low, 0) +
    ScanFrom(ShowOnly, low, 0) + AliasHitsIn(low, CategoryKeys)
  }

  /** The first key, in iteration order, that is a substring of `p`. */
  function MatchedKey(p: string, order: seq<string>): (r: Option<string>)
    ensures r.Some? ==> r.value in order && Contains(p, r.value)
    ensures r.None? ==> forall k | k in order :: !Contains(p, k)
  {
    if |order| == 0 then None
    else if Contains(p, order[0]) then Some(order[0])
    else MatchedKey(p, order[1..])
  }

  /** `matched_key or p`. */
  function Canonical(p: string, order: seq<string>): string {
    MatchedKey(p, order).GetOr(p)
  }

  /** A phrase becomes a canonical key it contains, or stays as it is when
      it contains none. */
  lemma CanonicalShape(p: string, order: seq<string>)
    requires IsKeyOrder(order)
    ensures (Canonical(p, order) in CategoryKeys && Contains(p, Canonical(p, order))) ||
      (Canonical(p, order) == p && forall k | k in CategoryKeys :: !Contains(p, k))
  {
  }

  function CanonicalAll(ps: seq<string>, order: seq<string>): (r: seq<string>)
    ensures |r| == |ps|
    ensures forall i | 0 <= i < |ps| :: r[i] == Canonical(ps[i], order)
    ensures forall x :: x in r <==> exists p :: p in ps && x == Canonical(p, order)
  {
    var r := seq(|ps|, i requires 0 <= i < |ps| => Canonical(ps[i], order));
    assert forall p | p in ps :: Canonical(p, order) in r by {
      forall p | p in ps ensures Canonical(p, order) in r {
        var i :| 0 <= i < |ps| && ps[i] == p;
        assert r[i] == Canonical(p, order);
      }
    }
    r
  }

  lemma PickedShape(low: string)
    ensures forall p | p in Picked(low) :: p != "" && Stripped(p)
  {
    KeysStripped();
  }

  /** `normalize_categories_freeform`. The result is sorted and free of
      duplicates; each element is a canonical key, or a captured phrase that
      contains no canonical key; and every picked phrase is represented,
      by itself or by a canonical key it contains. */
  function NormalizeCategories(text: string, order: seq<string>): (r: seq<string>)
    requires IsKeyOrder(order)
    ensures StrictlySorted(r)
    ensures forall x | x in r :: x != "" && Stripped(x)
    ensures forall x | x in r :: x in CategoryKeys || forall k | k in CategoryKeys :: !Contains(x, k)
    ensures forall x :: x in r <==> exists p :: p in Picked(NormalizeTypos(text)) && x == Canonical(p, order)
    ensures forall p | p in Picked(NormalizeTypos(text)) ::
      p in r || exists k :: k in r && k in CategoryKeys && Contains(p, k)
  {
    var ps := Picked(NormalizeTypos(text));
    var cs := CanonicalAll(ps, order);
    PickedShape(NormalizeTypos(text));
    KeysStripped();
    forall x | x in cs
      ensures x != "" && Stripped(x)
      ensures x in CategoryKeys || forall k | k in CategoryKeys :: !Contains(x, k)
    {
      var p :| p in ps && x == Canonical(p, order);
      CanonicalShape(p, order);
    }
    forall p | p in ps
      ensures p in cs || exists k :: k in cs && k in CategoryKeys && Contains(p, k)
    {
      CanonicalShape(p, order);
    }
    SortedDistinct(cs)
  }
}
