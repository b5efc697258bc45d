/** What `normalize_typos` guarantees (backend/ai_agent.py): after the five
    whole-word rewrites no pattern of the table is left as a whole word, so
    a second normalisation changes nothing, and each whole-word typo of a
    campus ("ucb", "usb", "berkley", "ucsd", "uc sd") ends up as the name
    that campus detection looks for. The proofs rest on a first-match view of one
    `re.sub` pass: the text up to the first whole-word match is copied, the
    match becomes the replacement, and the scan resumes after it. */
module TypoFacts {
  import opened Strings
  import opened Scan
  import opened Campus

  /** Non-empty, and starting and ending with a word character. */
  predicate WordEdged(s: string) {
    |s| > 0 && IsWordChar(s[0]) && IsWordChar(s[|s| - 1])
  }

  /** The pattern occurs nowhere in the text as a whole word. */
  predicate NoWholeWord(t: string, p: string) {
    forall k | 0 <= k <= |t| :: !WholeWordAt(t, p, k)
  }

  // ----- whole words in a piece of text with a known left neighbour -----

  /** Whether the character before position `k` is a word character, where
      `left` says it for the position before the start of `s`. */
  predicate WordBefore(s: string, k: int, left: bool) {
    if k == 0 then left else WordAt(s, k - 1)
  }

  /** `\bp\b` matches at position `k` of `s`, reading `left` as the word
      status of the character just before `s`. */
  predicate WholeWordIn(s: string, p: string, k: int, left: bool) {
    && 0 <= k && k + |p| <= |s| && s[k..k + |p|] == p
    && WordBefore(s, k, left) != WordAt(s, k)
    && WordBefore(s, k + |p|, left) != WordAt(s, k + |p|)
  }

  /** No whole-word `p` anywhere in `s`, read after `left`. */
  predicate FreeOf(s: string, p: string, left: bool) {
    forall k | 0 <= k <= |s| :: !WholeWordIn(s, p, k, left)
  }

  /** With nothing before the text, the two readings of `\bp\b` agree. */
  lemma WholeWordInIff(t: string, p: string, k: nat)
    ensures WholeWordAt(t, p, k) <==> WholeWordIn(t, p, k, false)
  {
    if k <= |t| {
      PrefixOfIff(p, t[k..]);
      if k + |p| <= |t| {
        assert t[k..][..|p|] == t[k..k + |p|];
      }
    }
  }

  /** Two windows holding the same non-empty pattern, with neighbours of the
      same word status, either both match `\bp\b` or neither does. */
  lemma Window(s1: string, k1: nat, l1: bool, s2: string, k2: nat, l2: bool, p: string)
    requires |p| > 0 && k1 + |p| <= |s1| && k2 + |p| <= |s2|
    requires s1[k1..k1 + |p|] == p && s2[k2..k2 + |p|] == p
    requires WordBefore(s1, k1, l1) == WordBefore(s2, k2, l2)
    requires WordAt(s1, k1 + |p|) == WordAt(s2, k2 + |p|)
    ensures WholeWordIn(s1, p, k1, l1) <==> WholeWordIn(s2, p, k2, l2)
  {
    assert s1[k1] == s1[k1..k1 + |p|][0] == s2[k2..k2 + |p|][0] == s2[k2];
    var n := |p| - 1;
    assert s1[k1 + n] == s1[k1..k1 + |p|][n] == s2[k2..k2 + |p|][n] == s2[k2 + n];
  }

  // ----- one pass, seen from its first match -----

  /** The first position from `i` where `\bw\b` matches, or `|t|`. */
  function NextMatch(t: string, w: string, i: nat): (m: nat)
    requires i <= |t|
    ensures i <= m <= |t|
    ensures forall j | i <= j < m :: !WholeWordAt(t, w, j)
    ensures m < |t| ==> WholeWordAt(t, w, m)
    decreases |t| - i
  {
    if i == |t| || WholeWordAt(t, w, i) then i else NextMatch(t, w, i + 1)
  }

  /** What a pass writes from a match at `m` on, or nothing at the end. */
  function FromMatch(t: string, w: string, r: string, m: nat): string
    requires |w| > 0
  {
    if m < |t| then r + SubWordFrom(t, w, r, m + |w|) else []
  }

  lemma FromMatchSplit(t: string, w: string, r: string, m: nat, j: nat)
    requires |w| > 0 && m < |t| && j == m + |w|
    ensures FromMatch(t, w, r, m) == r + SubWordFrom(t, w, r, j)
  {
  }

  /** A pass copies the text up to the first match `m`, writes the
      replacement for it, and carries on after the matched word. */
  lemma {:induction false} Decompose(t: string, w: string, r: string, i: nat, m: nat)
    requires |w| > 0 && i <= m <= |t|
    requires forall j | i <= j < m :: !WholeWordAt(t, w, j)
    requires m < |t| ==> WholeWordAt(t, w, m)
    ensures SubWordFrom(t, w, r, i) == t[i..m] + FromMatch(t, w, r, m)
    decreases m - i
  {
    if i < m {
      Decompose(t, w, r, i + 1, m);
      CopyStep(t, w, r, i, m, FromMatch(t, w, r, m));
    } else {
      AtMatch(t, w, r, m);
    }
  }

  /** At the match itself nothing is copied. */
  lemma AtMatch(t: string, w: string, r: string, m: nat)
    requires |w| > 0 && m <= |t|
    requires m < |t| ==> WholeWordAt(t, w, m)
    ensures SubWordFrom(t, w, r, m) == t[m..m] + FromMatch(t, w, r, m)
  {
  }

  /** A character before the first match is copied. */
  lemma CopyStep(t: string, w: string, r: string, i: nat, m: nat, z: string)
    requires |w| > 0 && i < m <= |t| && !WholeWordAt(t, w, i)
    requires SubWordFrom(t, w, r, i + 1) == t[i + 1..m] + z
    ensures SubWordFrom(t, w, r, i) == t[i..m] + z
  {
    assert SubWordFrom(t, w, r, i) == [t[i]] + SubWordFrom(t, w, r, i + 1);
    assert t[i..m] == [t[i]] + t[i + 1..m];
  }

  /** What a whole-word match of a word-edged pattern says about its
      neighbours: a non-word character (or an edge) on each side. */
  lemma MatchEdges(t: string, w: string, m: nat)
    requires WordEdged(w) && WholeWordAt(t, w, m)
    ensures m + |w| <= |t| && t[m..m + |w|] == w
    ensures IsWordChar(t[m]) && WordAt(t, m + |w| - 1)
    ensures 0 < m ==> !IsWordChar(t[m - 1])
    ensures m + |w| < |t| ==> !IsWordChar(t[m + |w|])
  {
    WholeWordInIff(t, w, m);
    assert t[m] == t[m..m + |w|][0];
    assert t[m + |w| - 1] == t[m..m + |w|][|w| - 1];
  }

  /** The output that follows a match starts with the non-word character
      after it, if any: that character cannot start another match. */
  lemma AfterMatch(t: string, w: string, r: string, m: nat)
    requires WordEdged(w) && WholeWordAt(t, w, m)
    ensures var b := SubWordFrom(t, w, r, m + |w|);
      (|b| > 0 <==> m + |w| < |t|) && (|b| > 0 ==> b[0] == t[m + |w|] && !IsWordChar(b[0]))
  {
    MatchEdges(t, w, m);
    if m + |w| < |t| {
      assert !WholeWordAt(t, w, m + |w|);
    }
  }

  // ----- whole words across the pieces of a pass's output -----

  /** A whole word of a copied stretch `t[i..]`, read with the character
      before `i` as its left neighbour, is a whole word of `t`. */
  lemma CopyMaps(t: string, i: nat, p: string, k: nat)
    requires |p| > 0 && i <= |t| && WholeWordIn(t[i..], p, k, WordAt(t, i - 1))
    ensures WholeWordIn(t, p, i + k, false)
  {
    assert t[i..][k..k + |p|] == t[i + k..i + k + |p|];
    Window(t[i..], k, WordAt(t, i - 1), t, i + k, false, p);
  }

  /** The copied stretch `t[i..m]` is followed by a word character in the
      output exactly when it is followed by one in `t`, so a whole word
      inside it is a whole word of `t`, and conversely. */
  lemma CopyAgrees(t: string, i: nat, m: nat, rest: string, p: string, k: nat)
    requires |p| > 0 && i <= k && k + |p| <= m <= |t|
    requires m < |t| ==> |rest| > 0 && IsWordChar(rest[0]) && IsWordChar(t[m])
    requires m == |t| ==> rest == []
    ensures WholeWordIn(t[i..m] + rest, p, k - i, WordAt(t, i - 1)) <==> WholeWordIn(t, p, k, false)
  {
    var u := t[i..m] + rest;
    var here, there := u[k - i..k - i + |p|], t[k..k + |p|];
    forall j | 0 <= j < |p| ensures here[j] == there[j] {
      assert here[j] == u[k - i + j] == t[i..m][k - i + j] == t[k + j];
    }
    assert here == there;
    if k == i {
      assert WordBefore(u, k - i, WordAt(t, i - 1)) == WordBefore(t, k, false);
    } else {
      assert u[k - i - 1] == t[k - 1];
    }
    if k + |p| < m {
      assert u[k - i + |p|] == t[k + |p|];
    }
    if u[k - i..k - i + |p|] == p {
      Window(u, k - i, WordAt(t, i - 1), t, k, false, p);
    }
  }

  /** A whole word of the output after a replacement ending in a word
      character is a whole word of the full output, shifted. */
  lemma ShiftWord(a: string, b: string, p: string, k: nat, l: bool)
    requires |p| > 0 && |a| > 0 && IsWordChar(a[|a| - 1])
    ensures WholeWordIn(b, p, k, true) <==> WholeWordIn(a + b, p, |a| + k, l)
  {
    if k + |p| <= |b| {
      assert (a + b)[|a| + k..|a| + k + |p|] == b[k..k + |p|];
      if b[k..k + |p|] == p {
        Window(a + b, |a| + k, l, b, k, true, p);
      }
    }
  }

  /** A whole word lying in front of the replacement is one of `c + r`. */
  lemma InFront(c: string, r: string, b: string, p: string, k: nat, l: bool)
    requires |r| > 0 && |p| > 0 && k + |p| <= |c|
    requires WholeWordIn(c + r + b, p, k, l)
    ensures WholeWordIn(c + r, p, k, l)
  {
    var u := c + r + b;
    assert u[k..k + |p|] == (c + r)[k..k + |p|];
    if k > 0 { assert u[k - 1] == (c + r)[k - 1]; }
    assert u[k + |p|] == (c + r)[k + |p|];
    Window(u, k, l, c + r, k, l, p);
  }

  /** No occurrence of `p` runs from a non-word end of `c` into `r`. */
  lemma NotAcrossStart(c: string, r: string, b: string, p: string, k: nat)
    requires NoStraddle(p, r) && |c| > 0 && !IsWordChar(c[|c| - 1])
    requires k < |c| < k + |p|
    ensures !OccursAt(c + r + b, p, k)
  {
    var u := c + r + b;
    if OccursAt(u, p, k) {
      assert u[|c|] == r[0] && u[|c| - 1] == c[|c| - 1];
      forall j | 0 <= j < |p| ensures p[j] == u[k + j] {
        OccursAtIndex(u, p, k, j);
      }
    }
  }

  /** No occurrence of `p` runs from `r` into a non-word start of `b`. */
  lemma NotAcrossEnd(c: string, r: string, b: string, p: string, k: nat)
    requires NoStraddle(p, r) && |b| > 0 && !IsWordChar(b[0])
    requires k < |c| + |r| < k + |p|
    ensures !OccursAt(c + r + b, p, k)
  {
    var u := c + r + b;
    if OccursAt(u, p, k) {
      assert u[|c| + |r|] == b[0] && u[|c| + |r| - 1] == r[|r| - 1];
      forall j | 0 <= j < |p| ensures p[j] == u[k + j] {
        OccursAtIndex(u, p, k, j);
      }
    }
  }

  /** An occurrence of `p` wholly inside `r` is one of `r`. */
  lemma Inside(c: string, r: string, b: string, p: string, k: nat)
    requires |c| <= k && k + |p| <= |c| + |r| && OccursAt(c + r + b, p, k)
    ensures Contains(r, p)
  {
    var o := k - |c|;
    assert r[o..o + |p|] == (c + r + b)[k..k + |p|];
    ContainsAt(r, p, o);
  }

  /** An occurrence of `p` in `c + r + b`, where `c` ends and `b` starts
      with a non-word character and `r` can neither hold `p` nor straddle
      into its neighbours, lies wholly in `c` or wholly in `b`. */
  lemma Outside(c: string, r: string, b: string, p: string, k: nat)
    requires WordEdged(r) && |p| > 0
    requires |c| > 0 ==> !IsWordChar(c[|c| - 1])
    requires |b| > 0 ==> !IsWordChar(b[0])
    requires !Contains(r, p) && NoStraddle(p, r)
    requires OccursAt(c + r + b, p, k)
    ensures k + |p| <= |c| || k >= |c| + |r|
  {
    var e := |c| + |r|;
    if k + |p| <= |c| {
    } else if k < |c| {
      NotAcrossStart(c, r, b, p, k);
    } else if k + |p| <= e {
      Inside(c, r, b, p, k);
    } else if k < e {
      NotAcrossEnd(c, r, b, p, k);
    }
  }

  /** A whole-word `p` in `c + r + b`, under the conditions of `Outside`,
      is a whole word of `c + r` or of `b`. */
  lemma Split3(c: string, r: string, b: string, p: string, k: nat, l: bool)
    requires WordEdged(r) && |p| > 0
    requires |c| > 0 ==> !IsWordChar(c[|c| - 1])
    requires |b| > 0 ==> !IsWordChar(b[0])
    requires !Contains(r, p) && NoStraddle(p, r)
    requires WholeWordIn(c + r + b, p, k, l)
    ensures || (k + |p| <= |c| && WholeWordIn(c + r, p, k, l))
            || (k >= |c| + |r| && WholeWordIn(b, p, k - |c| - |r|, true))
  {
    var e := |c| + |r|;
    assert OccursAt(c + r + b, p, k);
    Outside(c, r, b, p, k);
    if k + |p| <= |c| {
      InFront(c, r, b, p, k, l);
    } else {
      assert c + r + b == (c + r) + b;
      ShiftWord(c + r, b, p, k - e, l);
    }
  }

  /** The replacement, set between non-word neighbours, is a whole word. */
  lemma PlacedWord(c: string, r: string, b: string, l: bool)
    requires WordEdged(r)
    requires |c| > 0 ==> !IsWordChar(c[|c| - 1])
    requires |c| == 0 ==> !l
    requires |b| > 0 ==> !IsWordChar(b[0])
    ensures WholeWordIn(c + r + b, r, |c|, l)
  {
    var u := c + r + b;
    assert u[|c|..|c| + |r|] == r;
    assert u[|c|] == r[0] && u[|c| + |r| - 1] == r[|r| - 1];
    if |c| > 0 { assert u[|c| - 1] == c[|c| - 1]; }
    if |b| > 0 { assert u[|c| + |r|] == b[0]; }
  }

  // ----- a pass creates no whole-word occurrence -----

  /** The replacement can never supply the part of a pattern that sits next
      to a non-word character, so a pattern occurrence cannot straddle either
      edge of a replacement. */
  predicate NoStraddle(p: string, r: string) {
    && |r| > 0
    && (forall j | 0 < j < |p| && !IsWordChar(p[j]) :: p[j - 1] != r[|r| - 1])
    && (forall j | 0 < j < |p| && !IsWordChar(p[j - 1]) :: p[j] != r[0])
  }

  /** From position `i` on, a pass leaves no whole-word `p`: either `p` is
      the pattern being replaced, or it was absent to begin with; and the
      replacement neither holds `p` nor can combine with its neighbours
      into one. */
  lemma {:induction false} KeepsOutFrom(t: string, w: string, r: string, p: string, i: nat)
    requires WordEdged(w) && WordEdged(r) && |p| > 0
    requires p == w || NoWholeWord(t, p)
    requires !Contains(r, p) && NoStraddle(p, r)
    requires i <= |t|
    ensures FreeOf(SubWordFrom(t, w, r, i), p, WordAt(t, i - 1))
    decreases |t| - i
  {
    var m := NextMatch(t, w, i);
    Decompose(t, w, r, i, m);
    if m == |t| {
      assert FromMatch(t, w, r, m) == [];
      CopyFree(t, w, p, i);
      assert SubWordFrom(t, w, r, i) == t[i..];
    } else {
      MatchEdges(t, w, m);
      AfterMatch(t, w, r, m);
      var j := m + |w|;
      assert WordAt(t, j - 1);
      var b := SubWordFrom(t, w, r, j);
      FromMatchSplit(t, w, r, m, j);
      KeepsOutFrom(t, w, r, p, j);
      KeepsOutStep(t, w, r, p, i, m, b);
      assert SubWordFrom(t, w, r, i) == t[i..m] + r + b;
    }
  }

  /** With no match of the pattern from `i` on, the copied rest holds no
      whole-word `p` either. */
  lemma CopyFree(t: string, w: string, p: string, i: nat)
    requires |p| > 0 && i <= |t|
    requires p == w ==> forall j | i <= j < |t| :: !WholeWordAt(t, w, j)
    requires p == w || NoWholeWord(t, p)
    ensures FreeOf(t[i..], p, WordAt(t, i - 1))
  {
    var l := WordAt(t, i - 1);
    forall k | 0 <= k <= |t[i..]| ensures !WholeWordIn(t[i..], p, k, l) {
      if WholeWordIn(t[i..], p, k, l) {
        CopyMaps(t, i, p, k);
        WholeWordInIff(t, p, i + k);
      }
    }
  }

  /** The step of `KeepsOutFrom` at a match `m`, over an abstract rest `b`
      of the output that holds no whole-word `p` after a word character. */
  lemma KeepsOutStep(t: string, w: string, r: string, p: string, i: nat, m: nat, b: string)
    requires WordEdged(r) && |p| > 0 && i <= m < |t|
    requires IsWordChar(t[m]) && (0 < m ==> !IsWordChar(t[m - 1]))
    requires |b| > 0 ==> !IsWordChar(b[0])
    requires p == w ==> forall j | i <= j < m :: !WholeWordAt(t, w, j)
    requires p == w || NoWholeWord(t, p)
    requires !Contains(r, p) && NoStraddle(p, r)
    requires FreeOf(b, p, true)
    ensures FreeOf(t[i..m] + r + b, p, WordAt(t, i - 1))
  {
    var u, l := t[i..m] + r + b, WordAt(t, i - 1);
    forall k | 0 <= k <= |u| ensures !WholeWordIn(u, p, k, l) {
      NotAt(t, w, r, p, i, m, b, k);
    }
  }

  /** The body of `KeepsOutStep` for one position `k`. */
  lemma NotAt(t: string, w: string, r: string, p: string, i: nat, m: nat, b: string, k: nat)
    requires WordEdged(r) && |p| > 0 && i <= m < |t|
    requires IsWordChar(t[m]) && (0 < m ==> !IsWordChar(t[m - 1]))
    requires |b| > 0 ==> !IsWordChar(b[0])
    requires p == w ==> forall j | i <= j < m :: !WholeWordAt(t, w, j)
    requires p == w || NoWholeWord(t, p)
    requires !Contains(r, p) && NoStraddle(p, r)
    requires FreeOf(b, p, true)
    ensures !WholeWordIn(t[i..m] + r + b, p, k, WordAt(t, i - 1))
  {
    var c := t[i..m];
    var l := WordAt(t, i - 1);
    if |c| > 0 { assert c[|c| - 1] == t[m - 1]; }
    if WholeWordIn(c + r + b, p, k, l) {
      Split3(c, r, b, p, k, l);
      if k + |p| <= |c| {
        CopyAgrees(t, i, m, r, p, i + k);
        WholeWordInIff(t, p, i + k);
      }
    }
  }

  /** One pass of `re.sub(r"\bw\b", r, ·)` leaves no whole-word `p` under
      the conditions of `KeepsOutFrom`. */
  lemma SubWordKeepsOut(t: string, w: string, r: string, p: string)
    requires WordEdged(w) && WordEdged(r) && |p| > 0
    requires p == w || NoWholeWord(t, p)
    requires !Contains(r, p) && NoStraddle(p, r)
    ensures NoWholeWord(SubWord(t, w, r), p)
  {
    KeepsOutFrom(t, w, r, p, 0);
    forall k | 0 <= k <= |SubWord(t, w, r)| ensures !WholeWordAt(SubWord(t, w, r), p, k) {
      WholeWordInIff(SubWord(t, w, r), p, k);
    }
  }

  // ----- a pass keeps an unrelated whole word and places its replacement -----

  /** Two strings agree wherever both have a character. */
  predicate Compatible(a: string, b: string) {
    forall j | 0 <= j < |a| && j < |b| :: a[j] == b[j]
  }

  /** No occurrence of `x` can overlap an occurrence of `w`: no suffix of
      one is compatible with the other. */
  predicate NoAlign(x: string, w: string) {
    && (forall d | 0 <= d < |x| :: !Compatible(x[d..], w))
    && (forall d | 0 < d < |w| :: !Compatible(w[d..], x))
  }

  /** Whole-word occurrences of `x` and of `w` cannot overlap: either no
      alignment of the two is compatible at all, or both are made of word
      characters, so an overlap would put a word character against one of
      the `\b` edges, and they differ where they would start together. */
  predicate Apart(x: string, w: string) {
    || NoAlign(x, w)
    || (WordChars(x) && WordChars(w) && !Compatible(x, w))
  }

  /** Two word-character patterns that differ at some common position are
      apart. */
  lemma WordsApart(x: string, w: string, j: nat)
    requires WordChars(x) && WordChars(w)
    requires j < |x| && j < |w| && x[j] != w[j]
    ensures Apart(x, w)
  {
  }

  /** Overlapping occurrences in one text agree on their overlap. */
  lemma OverlapCompatible(t: string, x: string, k: nat, w: string, m: nat)
    requires OccursAt(t, x, k) && OccursAt(t, w, m)
    requires k < m + |w| && m < k + |x|
    ensures k <= m ==> Compatible(x[m - k..], w)
    ensures m < k ==> Compatible(w[k - m..], x)
  {
    if k <= m {
      forall j | 0 <= j < |x[m - k..]| && j < |w| ensures x[m - k..][j] == w[j] {
        OccursAtIndex(t, x, k, m - k + j);
        OccursAtIndex(t, w, m, j);
      }
    } else {
      forall j | 0 <= j < |w[k - m..]| && j < |x| ensures w[k - m..][j] == x[j] {
        OccursAtIndex(t, w, m, k - m + j);
        OccursAtIndex(t, x, k, j);
      }
    }
  }

  /** From position `i` on, a whole-word `x` that no match of the pattern
      can overlap survives the pass as a whole word, at position `n` of the
      output. */
  lemma {:induction false} KeepsWordFrom(t: string, w: string, r: string, x: string, i: nat, k: nat)
    returns (n: nat)
    requires WordEdged(w) && WordEdged(r) && |x| > 0 && Apart(x, w)
    requires i <= k && WholeWordAt(t, x, k)
    ensures WholeWordIn(SubWordFrom(t, w, r, i), x, n, WordAt(t, i - 1))
    decreases |t| - i
  {
    WholeWordInIff(t, x, k);
    var m := NextMatch(t, w, i);
    Decompose(t, w, r, i, m);
    if k + |x| <= m {
      if m < |t| {
        MatchEdges(t, w, m);
        assert FromMatch(t, w, r, m)[0] == r[0];
      }
      CopyAgrees(t, i, m, FromMatch(t, w, r, m), x, k);
      n := k - i;
    } else {
      PastMatch(t, w, x, k, m);
      var j := m + |w|;
      var b := SubWordFrom(t, w, r, j);
      var n' := KeepsWordFrom(t, w, r, x, j, k);
      FromMatchSplit(t, w, r, m, j);
      n := KeepsWordStep(t[i..m], r, b, x, n', WordAt(t, i - 1));
    }
  }

  /** A match found before the end of a whole-word `x` that it cannot
      overlap lies wholly before `x` and ends in a word character. */
  lemma PastMatch(t: string, w: string, x: string, k: nat, m: nat)
    requires WordEdged(w) && |x| > 0 && Apart(x, w) && WholeWordAt(t, x, k)
    requires m < k + |x| && (m < |t| ==> WholeWordAt(t, w, m))
    ensures m < |t| && m + |w| <= k && WordAt(t, m + |w| - 1)
  {
    WholeWordInIff(t, x, k);
    MatchEdges(t, w, m);
    NoOverlap(t, x, k, w, m);
  }

  /** A whole-word `x` starting at or after a match but before its end
      would overlap it, which `Apart` rules out. */
  lemma NoOverlap(t: string, x: string, k: nat, w: string, m: nat)
    requires Apart(x, w) && |x| > 0 && WholeWordAt(t, x, k)
    requires WordEdged(w) && WholeWordAt(t, w, m)
    requires m < k + |x|
    ensures m + |w| <= k
  {
    MatchEdges(t, w, m);
    WholeWordInIff(t, x, k);
    if k < m + |w| {
      if NoAlign(x, w) {
        OverlapCompatible(t, x, k, w, m);
      } else {
        WordsCannotOverlap(t, x, k, w, m);
      }
    }
  }

  /** A whole-word occurrence of a word-character pattern covers word
      characters only and has a non-word character (or the start) before it. */
  lemma WordSpan(t: string, x: string, k: nat)
    requires WordChars(x) && |x| > 0 && WholeWordIn(t, x, k, false)
    ensures forall i | k <= i < k + |x| :: WordAt(t, i)
    ensures k > 0 ==> !WordAt(t, k - 1)
  {
    forall i | k <= i < k + |x| ensures WordAt(t, i) {
      assert t[i] == t[k..k + |x|][i - k];
    }
    assert t[k] == t[k..k + |x|][0];
  }

  /** Two occurrences starting at the same place agree on their overlap. */
  lemma SameStart(t: string, x: string, k: nat, w: string, m: nat)
    requires WholeWordIn(t, x, k, false) && WholeWordIn(t, w, m, false)
    ensures k == m ==> Compatible(x, w)
  {
    if k == m {
      forall j | 0 <= j < |x| && j < |w| ensures x[j] == w[j] {
        assert x[j] == t[k..k + |x|][j] == t[k + j] == t[m..m + |w|][j];
      }
    }
  }

  /** The word-character case of `NoOverlap`: whole-word occurrences of two
      word-character patterns that differ at their start do not overlap. */
  lemma WordsCannotOverlap(t: string, x: string, k: nat, w: string, m: nat)
    requires WordChars(x) && WordChars(w) && !Compatible(x, w) && |x| > 0 && |w| > 0
    requires WholeWordIn(t, x, k, false) && WholeWordIn(t, w, m, false)
    ensures m + |w| <= k || k + |x| <= m
  {
    WordSpan(t, x, k);
    WordSpan(t, w, m);
    SameStart(t, x, k, w, m);
  }

  /** The step of `KeepsWordFrom` past a match, over abstract pieces. */
  lemma KeepsWordStep(c: string, r: string, b: string, x: string, k: nat, l: bool) returns (n: nat)
    requires |x| > 0 && WordEdged(r) && WholeWordIn(b, x, k, true)
    ensures n == |c| + |r| + k
    ensures WholeWordIn(c + (r + b), x, n, l)
  {
    assert c + (r + b) == (c + r) + b;
    assert (c + r)[|c + r| - 1] == r[|r| - 1];
    ShiftWord(c + r, b, x, k, l);
    n := |c| + |r| + k;
  }

  lemma SubWordKeepsWord(t: string, w: string, r: string, x: string, k: nat)
    requires WordEdged(w) && WordEdged(r) && |x| > 0 && Apart(x, w)
    requires WholeWordAt(t, x, k)
    ensures exists k' :: WholeWordAt(SubWord(t, w, r), x, k')
  {
    var k' := KeepsWordFrom(t, w, r, x, 0, k);
    WholeWordInIff(SubWord(t, w, r), x, k');
  }

  /** A whole-word match puts the replacement into the output as a whole
      word: the first match is replaced, between non-word neighbours. */
  lemma SubWordPlaces(t: string, w: string, r: string, k: nat)
    requires WordEdged(w) && WordEdged(r) && WholeWordAt(t, w, k)
    ensures exists k' :: WholeWordAt(SubWord(t, w, r), r, k')
  {
    var m := NextMatch(t, w, 0);
    Decompose(t, w, r, 0, m);
    MatchEdges(t, w, m);
    AfterMatch(t, w, r, m);
    var b := SubWordFrom(t, w, r, m + |w|);
    assert FromMatch(t, w, r, m) == r + b;
    if m > 0 { assert t[..m][m - 1] == t[m - 1]; }
    PlacedWord(t[..m], r, b, false);
    assert SubWord(t, w, r) == t[..m] + r + b;
    WholeWordInIff(SubWord(t, w, r), r, m);
  }

  /** No whole-word `w` starts inside `a` in `a + w + b`, when `a` does not
      hold `w` and ends in a non-word character that `w` cannot contain. */
  lemma NoneBefore(a: string, w: string, b: string, j: nat)
    requires WordEdged(w) && WordChars(w)
    requires |a| > 0 ==> !IsWordChar(a[|a| - 1])
    requires !Contains(a, w) && j < |a|
    ensures !WholeWordAt(a + w + b, w, j)
  {
    var t, m := a + w + b, |a|;
    PrefixOfIff(w, t[j..]);
    if j + |w| <= m {
      ContainsIff(a, w);
      assert !OccursAt(a, w, j);
      assert t[j..][..|w|] == a[j..j + |w|];
    } else {
      var u := t[j..][..|w|];
      assert u[m - 1 - j] == a[m - 1];
      assert IsWordChar(w[m - 1 - j]);
      assert u != w;
    }
  }

  /** `w` set between non-word neighbours is a whole word. */
  lemma WordBetween(a: string, w: string, b: string)
    requires WordEdged(w)
    requires |a| > 0 ==> !IsWordChar(a[|a| - 1])
    requires |b| > 0 ==> !IsWordChar(b[0])
    ensures WholeWordAt(a + w + b, w, |a|)
  {
    var t, m := a + w + b, |a|;
    var e := m + |w|;
    PrefixOfIff(w, t[m..]);
    assert t[m..][..|w|] == w;
    assert t[m] == w[0] && t[e - 1] == w[|w| - 1];
    if m > 0 { assert t[m - 1] == a[m - 1]; }
    if e < |t| { assert t[e] == b[0]; }
  }

  /** No whole-word `w` starts inside `b` in `a + w + b` when `b` does not
      hold `w`. */
  lemma NoneAfter(a: string, w: string, b: string, j: nat)
    requires WordEdged(w) && !Contains(b, w)
    requires |a| + |w| <= j < |a| + |w| + |b|
    ensures !WholeWordAt(a + w + b, w, j)
  {
    var t, e := a + w + b, |a| + |w|;
    var k := j - e;
    assert t[e..] == b;
    assert t[j..] == b[k..];
    ContainsIff(b, w);
    assert !OccursAt(b, w, k);
    PrefixOfIff(w, b[k..]);
    if k + |w| <= |b| {
      assert b[k..][..|w|] == b[k..k + |w|];
    }
    assert !PrefixOf(w, t[j..]);
  }

  /** The pass copies `a` up to the word `w` that follows it. */
  lemma CopiesFront(a: string, w: string, b: string, r: string)
    requires WordEdged(w) && WordChars(w)
    requires |a| > 0 ==> !IsWordChar(a[|a| - 1])
    requires |b| > 0 ==> !IsWordChar(b[0])
    requires !Contains(a, w)
    ensures SubWord(a + w + b, w, r) == a + FromMatch(a + w + b, w, r, |a|)
  {
    var t := a + w + b;
    forall j | 0 <= j < |a| ensures !WholeWordAt(t, w, j) {
      NoneBefore(a, w, b, j);
    }
    WordBetween(a, w, b);
    Decompose(t, w, r, 0, |a|);
    assert t[0..|a|] == a;
  }

  /** The pass copies a rest `b` that does not hold `w`. */
  lemma CopiesBack(a: string, w: string, b: string, r: string)
    requires WordEdged(w) && !Contains(b, w)
    ensures SubWordFrom(a + w + b, w, r, |a| + |w|) == b
  {
    var t, e := a + w + b, |a| + |w|;
    forall j | e <= j < |t| ensures !WholeWordAt(t, w, j) {
      NoneAfter(a, w, b, j);
    }
    Decompose(t, w, r, e, |t|);
    assert t[e..|t|] == b;
  }

  /** A text holding the pattern once, as a word between non-word
      neighbours and nowhere else, is rewritten at that place only. */
  lemma SubWordOnce(a: string, w: string, b: string, r: string)
    requires WordEdged(w) && WordChars(w)
    requires |a| > 0 ==> !IsWordChar(a[|a| - 1])
    requires |b| > 0 ==> !IsWordChar(b[0])
    requires !Contains(a, w) && !Contains(b, w)
    ensures SubWord(a + w + b, w, r) == a + r + b
  {
    CopiesFront(a, w, b, r);
    CopiesBack(a, w, b, r);
    FromMatchSplit(a + w + b, w, r, |a|, |a| + |w|);
  }

  // ----- the five rewrites of TYPO_FIXES -----

  /** The replacements of the table. */
  const UcBerkeley: string := "uc berkeley"
  const UcSanDiego: string := "uc san diego"

  /** `NormalizeTypos` unrolled into its five passes. */
  lemma TypoPasses(t: string)
    ensures ApplyFixes(t, TypoFixes) ==
      SubWord(SubWord(SubWord(SubWord(SubWord(t, "usb", UcBerkeley), "ucb", UcBerkeley),
        "berkley", "berkeley"), "ucsd", UcSanDiego), "uc sd", UcSanDiego)
  {
    var f := TypoFixes;
    assert f[1..][1..][1..][1..][1..] == [];
    assert f[1..][0] == ("ucb", UcBerkeley) && f[1..][1..][0] == ("berkley", "berkeley");
    assert f[1..][1..][1..][0] == ("ucsd", UcSanDiego) && f[1..][1..][1..][1..][0] == ("uc sd", UcSanDiego);
  }

  /** Every pattern and replacement of the table is word-edged. */
  lemma TableEdged()
    ensures WordEdged("usb") && WordEdged("ucb") && WordEdged("berkley")
    ensures WordEdged("ucsd") && WordEdged("uc sd")
    ensures WordEdged(UcBerkeley) && WordEdged("berkeley") && WordEdged(UcSanDiego)
  {
  }

  /** Only word characters. */
  predicate WordChars(p: string) {
    forall j | 0 <= j < |p| :: IsWordChar(p[j])
  }

  /** A pattern of word characters only cannot straddle a replacement's
      edge, whatever the replacement. */
  lemma WordCharsNoStraddle(p: string, r: string)
    requires WordChars(p) && |r| > 0
    ensures NoStraddle(p, r)
  {
  }

  lemma ShortPatternsWordChars()
    ensures WordChars("usb") && WordChars("ucb") && WordChars("ucsd")
  {
  }

  lemma BerkleyWordChars()
    ensures WordChars("berkley")
  {
    var p := "berkley";
    forall j | 0 <= j < |p| ensures IsWordChar(p[j]) {
      assert IsAsciiLower(p[j]);
    }
  }

  /** "uc sd" can straddle neither edge of "uc san diego": the letter
      before its space is not the final "o", and the letter after it is not
      the initial "u". */
  lemma UcSdNoStraddle()
    ensures NoStraddle("uc sd", UcSanDiego)
  {
  }

  /** The replacements hold none of the patterns. */
  lemma UcBerkeleyAbsent()
    ensures !Contains(UcBerkeley, "usb") && !Contains(UcBerkeley, "ucb")
  {
    AbsentChar(UcBerkeley, "usb", 's');
    UcBerkeleyAbsentUcb();
  }

  lemma UcBerkeleyAbsentUcb()
    ensures !Contains(UcBerkeley, "ucb")
  {
    AbsentPair(UcBerkeley, "ucb", 2);
  }

  lemma BerkeleyAbsent()
    ensures !Contains("berkeley", "usb") && !Contains("berkeley", "ucb")
    ensures !Contains("berkeley", "berkley")
  {
    AbsentChar("berkeley", "usb", 'u');
    AbsentChar("berkeley", "ucb", 'u');
    AbsentPair("berkeley", "berkley", 4);
  }

  lemma UcSanDiegoAbsentB()
    ensures !Contains(UcSanDiego, "usb") && !Contains(UcSanDiego, "ucb")
    ensures !Contains(UcSanDiego, "berkley")
  {
    AbsentChar(UcSanDiego, "usb", 'b');
    AbsentChar(UcSanDiego, "ucb", 'b');
    AbsentChar(UcSanDiego, "berkley", 'b');
  }

  lemma UcSanDiegoAbsentUcsd()
    ensures !Contains(UcSanDiego, "ucsd")
  {
    AbsentPair(UcSanDiego, "ucsd", 2);
  }

  lemma UcSanDiegoAbsentUcSd()
    ensures !Contains(UcSanDiego, "uc sd")
  {
    AbsentPair(UcSanDiego, "uc sd", 4);
  }

  /** Pass 1 leaves no whole-word "usb". */
  lemma Pass1(t: string)
    ensures NoWholeWord(SubWord(t, "usb", UcBerkeley), "usb")
  {
    TableEdged();
    UcBerkeleyAbsent();
    ShortPatternsWordChars();
    WordCharsNoStraddle("usb", UcBerkeley);
    SubWordKeepsOut(t, "usb", UcBerkeley, "usb");
  }

  /** Pass 2 leaves no whole-word "ucb" and creates no "usb". */
  lemma Pass2(t: string)
    requires NoWholeWord(t, "usb")
    ensures NoWholeWord(SubWord(t, "ucb", UcBerkeley), "usb")
    ensures NoWholeWord(SubWord(t, "ucb", UcBerkeley), "ucb")
  {
    TableEdged();
    UcBerkeleyAbsent();
    ShortPatternsWordChars();
    WordCharsNoStraddle("usb", UcBerkeley);
    WordCharsNoStraddle("ucb", UcBerkeley);
    SubWordKeepsOut(t, "ucb", UcBerkeley, "usb");
    SubWordKeepsOut(t, "ucb", UcBerkeley, "ucb");
  }

  /** Pass 3 leaves no whole-word "berkley" and creates neither earlier pattern. */
  lemma Pass3(t: string)
    requires NoWholeWord(t, "usb") && NoWholeWord(t, "ucb")
    ensures var s := SubWord(t, "berkley", "berkeley");
      NoWholeWord(s, "usb") && NoWholeWord(s, "ucb") && NoWholeWord(s, "berkley")
  {
    TableEdged();
    BerkeleyAbsent();
    ShortPatternsWordChars();
    BerkleyWordChars();
    WordCharsNoStraddle("usb", "berkeley");
    WordCharsNoStraddle("ucb", "berkeley");
    WordCharsNoStraddle("berkley", "berkeley");
    SubWordKeepsOut(t, "berkley", "berkeley", "usb");
    SubWordKeepsOut(t, "berkley", "berkeley", "ucb");
    SubWordKeepsOut(t, "berkley", "berkeley", "berkley");
  }

  /** Pass 4 leaves no whole-word "ucsd" and creates no earlier pattern. */
  lemma Pass4(t: string)
    requires NoWholeWord(t, "usb") && NoWholeWord(t, "ucb") && NoWholeWord(t, "berkley")
    ensures var s := SubWord(t, "ucsd", UcSanDiego);
      NoWholeWord(s, "usb") && NoWholeWord(s, "ucb") && NoWholeWord(s, "berkley") &&
      NoWholeWord(s, "ucsd")
  {
    TableEdged();
    UcSanDiegoAbsentB();
    UcSanDiegoAbsentUcsd();
    ShortPatternsWordChars();
    BerkleyWordChars();
    WordCharsNoStraddle("usb", UcSanDiego);
    WordCharsNoStraddle("ucb", UcSanDiego);
    WordCharsNoStraddle("berkley", UcSanDiego);
    WordCharsNoStraddle("ucsd", UcSanDiego);
    SubWordKeepsOut(t, "ucsd", UcSanDiego, "usb");
    SubWordKeepsOut(t, "ucsd", UcSanDiego, "ucb");
    SubWordKeepsOut(t, "ucsd", UcSanDiego, "berkley");
    SubWordKeepsOut(t, "ucsd", UcSanDiego, "ucsd");
  }

  /** Pass 5 leaves no whole-word "uc sd" and creates no earlier pattern. */
  lemma Pass5(t: string)
    requires NoWholeWord(t, "usb") && NoWholeWord(t, "ucb") && NoWholeWord(t, "berkley")
    requires NoWholeWord(t, "ucsd")
    ensures var s := SubWord(t, "uc sd", UcSanDiego);
      NoWholeWord(s, "usb") && NoWholeWord(s, "ucb") && NoWholeWord(s, "berkley") &&
      NoWholeWord(s, "ucsd") && NoWholeWord(s, "uc sd")
  {
    TableEdged();
    UcSanDiegoAbsentB();
    UcSanDiegoAbsentUcsd();
    UcSanDiegoAbsentUcSd();
    ShortPatternsWordChars();
    BerkleyWordChars();
    WordCharsNoStraddle("usb", UcSanDiego);
    WordCharsNoStraddle("ucb", UcSanDiego);
    WordCharsNoStraddle("berkley", UcSanDiego);
    WordCharsNoStraddle("ucsd", UcSanDiego);
    UcSdNoStraddle();
    SubWordKeepsOut(t, "uc sd", UcSanDiego, "usb");
    SubWordKeepsOut(t, "uc sd", UcSanDiego, "ucb");
    SubWordKeepsOut(t, "uc sd", UcSanDiego, "berkley");
    SubWordKeepsOut(t, "uc sd", UcSanDiego, "ucsd");
    SubWordKeepsOut(t, "uc sd", UcSanDiego, "uc sd");
  }

  /** After `normalize_typos` no pattern of the table is left as a whole
      word: no replacement recreates a pattern, and each pass removes its
      own. */
  lemma TyposGone(q: string)
    ensures forall i | 0 <= i < |TypoFixes| :: NoWholeWord(NormalizeTypos(q), TypoFixes[i].0)
  {
    var t0 := Lower(q);
    var t1 := SubWord(t0, "usb", UcBerkeley);
    var t2 := SubWord(t1, "ucb", UcBerkeley);
    var t3 := SubWord(t2, "berkley", "berkeley");
    var t4 := SubWord(t3, "ucsd", UcSanDiego);
    TypoPasses(t0);
    Pass1(t0);
    Pass2(t1);
    Pass3(t2);
    Pass4(t3);
    Pass5(t4);
  }

  /** `normalize_typos` is idempotent: its output has no upper-case letter
      and no whole-word pattern, so a second run changes nothing. */
  lemma NormalizeTyposIdempotent(q: string)
    ensures NormalizeTypos(NormalizeTypos(q)) == NormalizeTypos(q)
  {
    var t := NormalizeTypos(q);
    TyposGone(q);
    LowerOfLowercase(t);
    TypoTable(TypoFixes);
    ApplyFixesNoMatch(t, TypoFixes);
  }

  // ----- "ucb" reaches the campus detector as "uc berkeley" -----

  lemma UcbUsbNoAlign()
    ensures NoAlign("ucb", "usb")
  {
    var x, w := "ucb", "usb";
    forall d | 0 <= d < |x| ensures !Compatible(x[d..], w) {
      if d == 0 { assert x[d..][1] != w[1]; } else { assert x[d..][0] != w[0]; }
    }
    forall d | 0 < d < |w| ensures !Compatible(w[d..], x) {
      assert w[d..][0] != x[0];
    }
  }

  lemma UcBerkeleyBerkleyNoAlign()
    ensures NoAlign(UcBerkeley, "berkley")
  {
    var x, w := UcBerkeley, "berkley";
    forall d | 0 <= d < |x| ensures !Compatible(x[d..], w) {
      if d == 3 { assert x[d..][4] != w[4]; } else { assert x[d..][0] != w[0]; }
    }
    forall d | 0 < d < |w| ensures !Compatible(w[d..], x) {
      assert w[d..][0] != x[0];
    }
  }

  lemma UcBerkeleyUcsdNoAlign()
    ensures NoAlign(UcBerkeley, "ucsd")
  {
    var x, w := UcBerkeley, "ucsd";
    forall d | 0 <= d < |x| ensures !Compatible(x[d..], w) {
      if d == 0 { assert x[d..][2] != w[2]; } else { assert x[d..][0] != w[0]; }
    }
    forall d | 0 < d < |w| ensures !Compatible(w[d..], x) {
      assert w[d..][0] != x[0];
    }
  }

  lemma UcBerkeleyUcSdNoAlign()
    ensures NoAlign(UcBerkeley, "uc sd")
  {
    var x, w := UcBerkeley, "uc sd";
    forall d | 0 <= d < |x| ensures !Compatible(x[d..], w) {
      if d == 0 { assert x[d..][3] != w[3]; } else { assert x[d..][0] != w[0]; }
    }
    forall d | 0 < d < |w| ensures !Compatible(w[d..], x) {
      assert w[d..][0] != x[0];
    }
  }

  lemma WholeWordContains(t: string, w: string, k: nat)
    requires WholeWordAt(t, w, k)
    ensures Contains(t, w)
  {
    PrefixOfIff(w, t[k..]);
    assert t[k..k + |w|] == t[k..][..|w|];
    ContainsAt(t, w, k);
  }

  /** A whole-word "ucb" in the lower-cased question is rewritten to
      "uc berkeley", which survives the later passes, so Berkeley is
      detected. */
  lemma UcbBecomesUcBerkeley(q: string, k: nat)
    requires WholeWordAt(Lower(q), "ucb", k)
    ensures Contains(NormalizeTypos(q), UcBerkeley)
    ensures "UCB" in DetectCampuses(q)
  {
    var t0 := Lower(q);
    var t1 := SubWord(t0, "usb", UcBerkeley);
    var t2 := SubWord(t1, "ucb", UcBerkeley);
    var t3 := SubWord(t2, "berkley", "berkeley");
    var t4 := SubWord(t3, "ucsd", UcSanDiego);
    var t5 := SubWord(t4, "uc sd", UcSanDiego);
    TypoPasses(t0);
    TableEdged();
    UcbUsbNoAlign();
    SubWordKeepsWord(t0, "usb", UcBerkeley, "ucb", k);
    var k1 :| WholeWordAt(t1, "ucb", k1);
    SubWordPlaces(t1, "ucb", UcBerkeley, k1);
    var k2 :| WholeWordAt(t2, UcBerkeley, k2);
    UcBerkeleyBerkleyNoAlign();
    SubWordKeepsWord(t2, "berkley", "berkeley", UcBerkeley, k2);
    var k3 :| WholeWordAt(t3, UcBerkeley, k3);
    UcBerkeleyUcsdNoAlign();
    SubWordKeepsWord(t3, "ucsd", UcSanDiego, UcBerkeley, k3);
    var k4 :| WholeWordAt(t4, UcBerkeley, k4);
    UcBerkeleyUcSdNoAlign();
    SubWordKeepsWord(t4, "uc sd", UcSanDiego, UcBerkeley, k4);
    var k5 :| WholeWordAt(t5, UcBerkeley, k5);
    WholeWordContains(t5, UcBerkeley, k5);
    assert AliasesOf("UCB")[0] == UcBerkeley;
    assert Mentions(t5, "UCB");
  }

  // ----- the other four rewrites reach the campus detector -----
  // Each chain follows one whole word through the five passes: the passes
  // before its own keep it, its own pass places the replacement, and the
  // later passes keep the replacement. The literal side facts sit in small
  // lemmas of their own, one fact each, so that unrolling the literals stays
  // within the resource limit.

  lemma BerkeleyWordChars()
    ensures WordChars("berkeley")
  {
    var p := "berkeley";
    forall j | 0 <= j < |p| ensures IsWordChar(p[j]) {
      assert IsAsciiLower(p[j]);
    }
  }

  lemma UcBerkeleyUcbNoAlign()
    ensures NoAlign(UcBerkeley, "ucb")
  {
    var x, w := UcBerkeley, "ucb";
    forall d | 0 <= d < |x| ensures !Compatible(x[d..], w) {
      if d == 0 { assert x[d..][2] != w[2]; } else { assert x[d..][0] != w[0]; }
    }
    forall d | 0 < d < |w| ensures !Compatible(w[d..], x) {
      assert w[d..][0] != x[0];
    }
  }

  lemma BerkeleyUcSdNoAlign()
    ensures NoAlign("berkeley", "uc sd")
  {
    var x, w := "berkeley", "uc sd";
    forall d | 0 <= d < |x| ensures !Compatible(x[d..], w) {
      assert x[d..][0] != w[0];
    }
    forall d | 0 < d < |w| ensures !Compatible(w[d..], x) {
      assert w[d..][0] != x[0];
    }
  }

  lemma UcSanDiegoUcSdNoAlign()
    ensures NoAlign(UcSanDiego, "uc sd")
  {
    var x, w := UcSanDiego, "uc sd";
    forall d | 0 <= d < |x| ensures !Compatible(x[d..], w) {
      if d == 0 { assert x[d..][4] != w[4]; } else { assert x[d..][0] != w[0]; }
    }
    forall d | 0 < d < |w| ensures !Compatible(w[d..], x) {
      assert w[d..][0] != x[0];
    }
  }

  /** "uc sd" overlaps none of the four patterns tried before it. */
  lemma UcSdNoAlignUsb()
    ensures NoAlign("uc sd", "usb")
  {
    var x, w := "uc sd", "usb";
    forall d | 0 <= d < |x| ensures !Compatible(x[d..], w) {
      if d == 0 { assert x[d..][1] != w[1]; } else { assert x[d..][0] != w[0]; }
    }
    forall d | 0 < d < |w| ensures !Compatible(w[d..], x) {
      assert w[d..][0] != x[0];
    }
  }

  lemma UcSdNoAlignUcb()
    ensures NoAlign("uc sd", "ucb")
  {
    var x, w := "uc sd", "ucb";
    forall d | 0 <= d < |x| ensures !Compatible(x[d..], w) {
      if d == 0 { assert x[d..][2] != w[2]; } else { assert x[d..][0] != w[0]; }
    }
    forall d | 0 < d < |w| ensures !Compatible(w[d..], x) {
      assert w[d..][0] != x[0];
    }
  }

  lemma UcSdNoAlignBerkley()
    ensures NoAlign("uc sd", "berkley")
  {
    var x, w := "uc sd", "berkley";
    forall d | 0 <= d < |x| ensures !Compatible(x[d..], w) {
      assert x[d..][0] != w[0];
    }
    forall d | 0 < d < |w| ensures !Compatible(w[d..], x) {
      assert w[d..][0] != x[0];
    }
  }

  lemma UcSdNoAlignUcsd()
    ensures NoAlign("uc sd", "ucsd")
  {
    var x, w := "uc sd", "ucsd";
    forall d | 0 <= d < |x| ensures !Compatible(x[d..], w) {
      if d == 0 { assert x[d..][2] != w[2]; } else { assert x[d..][0] != w[0]; }
    }
    forall d | 0 < d < |w| ensures !Compatible(w[d..], x) {
      assert w[d..][0] != x[0];
    }
  }

  /** The word-character pattern pairs differ at their start. */
  lemma BerkleyApart()
    ensures Apart("berkley", "usb") && Apart("berkley", "ucb")
  {
    BerkleyWordChars();
    ShortPatternsWordChars();
    WordsApart("berkley", "usb", 0);
    WordsApart("berkley", "ucb", 0);
  }

  lemma BerkeleyApartUcsd()
    ensures Apart("berkeley", "ucsd")
  {
    BerkeleyWordChars();
    ShortPatternsWordChars();
    WordsApart("berkeley", "ucsd", 0);
  }

  lemma UcsdApart()
    ensures Apart("ucsd", "usb") && Apart("ucsd", "ucb") && Apart("ucsd", "berkley")
  {
    BerkleyWordChars();
    ShortPatternsWordChars();
    WordsApart("ucsd", "usb", 1);
    WordsApart("ucsd", "ucb", 2);
    WordsApart("ucsd", "berkley", 0);
  }

  /** A whole-word "usb" in the lower-cased question is rewritten to
      "uc berkeley", which survives the later passes, so Berkeley is
      detected. */
  lemma UsbBecomesUcBerkeley(q: string, k: nat)
    requires WholeWordAt(Lower(q), "usb", k)
    ensures Contains(NormalizeTypos(q), UcBerkeley)
    ensures "UCB" in DetectCampuses(q)
  {
    var t0 := Lower(q);
    var t1 := SubWord(t0, "usb", UcBerkeley);
    var t2 := SubWord(t1, "ucb", UcBerkeley);
    var t3 := SubWord(t2, "berkley", "berkeley");
    var t4 := SubWord(t3, "ucsd", UcSanDiego);
    var t5 := SubWord(t4, "uc sd", UcSanDiego);
    TypoPasses(t0);
    TableEdged();
    SubWordPlaces(t0, "usb", UcBerkeley, k);
    var k1 :| WholeWordAt(t1, UcBerkeley, k1);
    UcBerkeleyUcbNoAlign();
    SubWordKeepsWord(t1, "ucb", UcBerkeley, UcBerkeley, k1);
    var k2 :| WholeWordAt(t2, UcBerkeley, k2);
    UcBerkeleyBerkleyNoAlign();
    SubWordKeepsWord(t2, "berkley", "berkeley", UcBerkeley, k2);
    var k3 :| WholeWordAt(t3, UcBerkeley, k3);
    UcBerkeleyUcsdNoAlign();
    SubWordKeepsWord(t3, "ucsd", UcSanDiego, UcBerkeley, k3);
    var k4 :| WholeWordAt(t4, UcBerkeley, k4);
    UcBerkeleyUcSdNoAlign();
    SubWordKeepsWord(t4, "uc sd", UcSanDiego, UcBerkeley, k4);
    var k5 :| WholeWordAt(t5, UcBerkeley, k5);
    WholeWordContains(t5, UcBerkeley, k5);
    assert AliasesOf("UCB")[0] == UcBerkeley;
    assert Mentions(t5, "UCB");
  }

  /** A whole-word "berkley" is corrected to "berkeley", which survives the
      later passes, so Berkeley is detected. */
  lemma BerkleyBecomesBerkeley(q: string, k: nat)
    requires WholeWordAt(Lower(q), "berkley", k)
    ensures Contains(NormalizeTypos(q), "berkeley")
    ensures "UCB" in DetectCampuses(q)
  {
    var t0 := Lower(q);
    var t1 := SubWord(t0, "usb", UcBerkeley);
    var t2 := SubWord(t1, "ucb", UcBerkeley);
    var t3 := SubWord(t2, "berkley", "berkeley");
    var t4 := SubWord(t3, "ucsd", UcSanDiego);
    var t5 := SubWord(t4, "uc sd", UcSanDiego);
    TypoPasses(t0);
    TableEdged();
    BerkleyApart();
    SubWordKeepsWord(t0, "usb", UcBerkeley, "berkley", k);
    var k1 :| WholeWordAt(t1, "berkley", k1);
    SubWordKeepsWord(t1, "ucb", UcBerkeley, "berkley", k1);
    var k2 :| WholeWordAt(t2, "berkley", k2);
    SubWordPlaces(t2, "berkley", "berkeley", k2);
    var k3 :| WholeWordAt(t3, "berkeley", k3);
    BerkeleyApartUcsd();
    SubWordKeepsWord(t3, "ucsd", UcSanDiego, "berkeley", k3);
    var k4 :| WholeWordAt(t4, "berkeley", k4);
    BerkeleyUcSdNoAlign();
    SubWordKeepsWord(t4, "uc sd", UcSanDiego, "berkeley", k4);
    var k5 :| WholeWordAt(t5, "berkeley", k5);
    WholeWordContains(t5, "berkeley", k5);
    assert AliasesOf("UCB")[1] == "berkeley";
    assert Mentions(t5, "UCB");
  }

  /** A whole-word "ucsd" is rewritten to "uc san diego", which survives the
      last pass, so San Diego is detected. */
  lemma UcsdBecomesUcSanDiego(q: string, k: nat)
    requires WholeWordAt(Lower(q), "ucsd", k)
    ensures Contains(NormalizeTypos(q), UcSanDiego)
    ensures "UCSD" in DetectCampuses(q)
  {
    var t0 := Lower(q);
    var t1 := SubWord(t0, "usb", UcBerkeley);
    var t2 := SubWord(t1, "ucb", UcBerkeley);
    var t3 := SubWord(t2, "berkley", "berkeley");
    var t4 := SubWord(t3, "ucsd", UcSanDiego);
    var t5 := SubWord(t4, "uc sd", UcSanDiego);
    TypoPasses(t0);
    TableEdged();
    UcsdApart();
    SubWordKeepsWord(t0, "usb", UcBerkeley, "ucsd", k);
    var k1 :| WholeWordAt(t1, "ucsd", k1);
    SubWordKeepsWord(t1, "ucb", UcBerkeley, "ucsd", k1);
    var k2 :| WholeWordAt(t2, "ucsd", k2);
    SubWordKeepsWord(t2, "berkley", "berkeley", "ucsd", k2);
    var k3 :| WholeWordAt(t3, "ucsd", k3);
    SubWordPlaces(t3, "ucsd", UcSanDiego, k3);
    var k4 :| WholeWordAt(t4, UcSanDiego, k4);
    UcSanDiegoUcSdNoAlign();
    SubWordKeepsWord(t4, "uc sd", UcSanDiego, UcSanDiego, k4);
    var k5 :| WholeWordAt(t5, UcSanDiego, k5);
    WholeWordContains(t5, UcSanDiego, k5);
    assert AliasesOf("UCSD")[0] == UcSanDiego;
    assert Mentions(t5, "UCSD");
    assert "UCSD" in CampusKeys;
  }

  /** A whole-word "uc sd" survives the first four passes and is rewritten
      to "uc san diego" by the last, so San Diego is detected. */
  lemma UcSdBecomesUcSanDiego(q: string, k: nat)
    requires WholeWordAt(Lower(q), "uc sd", k)
    ensures Contains(NormalizeTypos(q), UcSanDiego)
    ensures "UCSD" in DetectCampuses(q)
  {
    var t0 := Lower(q);
    var t1 := SubWord(t0, "usb", UcBerkeley);
    var t2 := SubWord(t1, "ucb", UcBerkeley);
    var t3 := SubWord(t2, "berkley", "berkeley");
    var t4 := SubWord(t3, "ucsd", UcSanDiego);
    var t5 := SubWord(t4, "uc sd", UcSanDiego);
    TypoPasses(t0);
    TableEdged();
    UcSdNoAlignUsb();
    SubWordKeepsWord(t0, "usb", UcBerkeley, "uc sd", k);
    var k1 :| WholeWordAt(t1, "uc sd", k1);
    UcSdNoAlignUcb();
    SubWordKeepsWord(t1, "ucb", UcBerkeley, "uc sd", k1);
    var k2 :| WholeWordAt(t2, "uc sd", k2);
    UcSdNoAlignBerkley();
    SubWordKeepsWord(t2, "berkley", "berkeley", "uc sd", k2);
    var k3 :| WholeWordAt(t3, "uc sd", k3);
    UcSdNoAlignUcsd();
    SubWordKeepsWord(t3, "ucsd", UcSanDiego, "uc sd", k3);
    var k4 :| WholeWordAt(t4, "uc sd", k4);
    SubWordPlaces(t4, "uc sd", UcSanDiego, k4);
    var k5 :| WholeWordAt(t5, UcSanDiego, k5);
    WholeWordContains(t5, UcSanDiego, k5);
    assert AliasesOf("UCSD")[0] == UcSanDiego;
    assert Mentions(t5, "UCSD");
    assert "UCSD" in CampusKeys;
  }
}
