/** Order-preserving selection from a list: the subsequence relation and
    the filter that keeps the elements satisfying a test. Both row filters
    of the assistant are instances. */
module Subsequences {

  /** `xs` can be obtained from `ys` by deleting elements. */
  predicate IsSubseq<T(==)>(xs: seq<T>, ys: seq<T>)
    decreases |ys|
  {
    if |xs| == 0 then true
    else if |ys| == 0 then false
    else if xs[|xs| - 1] == ys[|ys| - 1] then IsSubseq(xs[..|xs| - 1], ys[..|ys| - 1])
    else IsSubseq(xs, ys[..|ys| - 1])
  }

  lemma {:induction false} SubseqMembers<T>(xs: seq<T>, ys: seq<T>)
    requires IsSubseq(xs, ys)
    ensures forall x | x in xs :: x in ys
    decreases |ys|
  {
    if |xs| > 0 {
      var ys' := ys[..|ys| - 1];
      if xs[|xs| - 1] == ys[|ys| - 1] {
        SubseqMembers(xs[..|xs| - 1], ys');
        assert forall x | x in xs :: x in xs[..|xs| - 1] || x == xs[|xs| - 1];
      } else {
        SubseqMembers(xs, ys');
      }
      assert forall y | y in ys' :: y in ys;
    }
  }

  lemma {:induction false} SubseqDropLast<T>(xs: seq<T>, ys: seq<T>)
    requires |xs| > 0 && IsSubseq(xs, ys)
    ensures IsSubseq(xs[..|xs| - 1], ys)
    decreases |ys|, 0
  {
    var xs' := xs[..|xs| - 1];
    var ys' := ys[..|ys| - 1];
    if xs[|xs| - 1] == ys[|ys| - 1] {
      SubseqAppend(xs', ys', ys[|ys| - 1]);
      assert ys' + [ys[|ys| - 1]] == ys;
    } else {
      SubseqDropLast(xs, ys');
      SubseqAppend(xs', ys', ys[|ys| - 1]);
      assert ys' + [ys[|ys| - 1]] == ys;
    }
  }

  /** A longer source still contains the subsequence. */
  lemma {:induction false} SubseqAppend<T>(xs: seq<T>, ys: seq<T>, y: T)
    requires IsSubseq(xs, ys)
    ensures IsSubseq(xs, ys + [y])
    decreases |ys|, 1
  {
    var zs := ys + [y];
    assert zs[..|zs| - 1] == ys;
    if |xs| > 0 && xs[|xs| - 1] == y {
      SubseqDropLast(xs, ys);
    }
  }

  /** Extending both sides by the same element keeps the relation. */
  lemma SubseqBoth<T>(xs: seq<T>, ys: seq<T>, y: T)
    requires IsSubseq(xs, ys)
    ensures IsSubseq(xs + [y], ys + [y])
  {
    var a := xs + [y];
    var b := ys + [y];
    assert a[..|a| - 1] == xs && b[..|b| - 1] == ys;
  }

  /** Extending the source by an optional element, and the subsequence by
      the same element only when the source took it, keeps the relation. */
  lemma SubseqExtend<T>(xs: seq<T>, ys: seq<T>, x: T, takeX: bool, takeY: bool)
    requires IsSubseq(xs, ys)
    requires takeX ==> takeY
    ensures IsSubseq(xs + (if takeX then [x] else []), ys + (if takeY then [x] else []))
  {
    assert xs + [] == xs && ys + [] == ys;
    if takeX { SubseqBoth(xs, ys, x); }
    else if takeY { SubseqAppend(xs, ys, x); }
  }

  /** The elements of `xs` that pass `keep`, in their original order. */
  function FilterBy<T>(xs: seq<T>, keep: T -> bool): (r: seq<T>)
    ensures |r| <= |xs|
  {
    if |xs| == 0 then []
    else FilterBy(xs[..|xs| - 1], keep) + (if keep(xs[|xs| - 1]) then [xs[|xs| - 1]] else [])
  }

  /** The filter keeps exactly the elements that pass, each where it was. */
  lemma {:induction false} FilterShape<T>(xs: seq<T>, keep: T -> bool)
    ensures IsSubseq(FilterBy(xs, keep), xs)
    ensures forall x :: x in FilterBy(xs, keep) <==> x in xs && keep(x)
  {
    if |xs| > 0 {
      var init := xs[..|xs| - 1];
      var last := xs[|xs| - 1];
      FilterShape(init, keep);
      assert xs == init + [last];
      var f := FilterBy(init, keep);
      if keep(last) {
        assert FilterBy(xs, keep) == f + [last];
        SubseqBoth(f, init, last);
        assert forall x :: x in f + [last] <==> x in f || x == last;
      } else {
        assert FilterBy(xs, keep) == f;
        SubseqAppend(f, init, last);
      }
      assert forall x :: x in xs <==> x in init || x == last;
    }
  }

  /** A filter every element passes returns its input. */
  lemma {:induction false} FilterAll<T>(xs: seq<T>, keep: T -> bool)
    requires forall x | x in xs :: keep(x)
    ensures FilterBy(xs, keep) == xs
  {
    if |xs| > 0 {
      assert forall x | x in xs[..|xs| - 1] :: x in xs;
      FilterAll(xs[..|xs| - 1], keep);
      assert xs[|xs| - 1] in xs;
      assert xs[..|xs| - 1] + [xs[|xs| - 1]] == xs;
    }
  }

  /** A stricter test keeps a subsequence of what a weaker test keeps. */
  lemma {:induction false} FilterMonotone<T>(xs: seq<T>, strict: T -> bool, weak: T -> bool)
    requires forall x | x in xs :: strict(x) ==> weak(x)
    ensures IsSubseq(FilterBy(xs, strict), FilterBy(xs, weak))
  {
    if |xs| > 0 {
      var init := xs[..|xs| - 1];
      var last := xs[|xs| - 1];
      assert forall x | x in init :: x in xs;
      FilterMonotone(init, strict, weak);
      var a := FilterBy(init, strict);
      var b := FilterBy(init, weak);
      if strict(last) {
        assert FilterBy(xs, strict) == a + [last] && FilterBy(xs, weak) == b + [last];
        SubseqBoth(a, b, last);
      } else if weak(last) {
        assert FilterBy(xs, strict) == a && FilterBy(xs, weak) == b + [last];
        SubseqAppend(a, b, last);
      } else {
        assert FilterBy(xs, strict) == a && FilterBy(xs, weak) == b;
      }
    }
  }

  /** Filtering a prefix one element longer adds at most that element. */
  lemma FilterStep<T>(xs: seq<T>, i: nat, keep: T -> bool)
    requires i < |xs|
    ensures FilterBy(xs[..i + 1], keep) == FilterBy(xs[..i], keep) + (if keep(xs[i]) then [xs[i]] else [])
  {
    assert xs[..i + 1][..i] == xs[..i];
  }

  /** Tests that agree on every element select the same elements. */
  lemma {:induction false} FilterSame<T>(xs: seq<T>, a: T -> bool, b: T -> bool)
    requires forall x | x in xs :: a(x) == b(x)
    ensures FilterBy(xs, a) == FilterBy(xs, b)
  {
    if |xs| > 0 {
      assert forall x | x in xs[..|xs| - 1] :: x in xs;
      FilterSame(xs[..|xs| - 1], a, b);
    }
  }

  /** The loop `for x in xs: if keep(x): out.append(x)`. */
  method FilterLoop<T>(xs: seq<T>, keep: T -> bool) returns (out: seq<T>)
    ensures out == FilterBy(xs, keep)
  {
    out := [];
    var i := 0;
    while i < |xs|
      invariant i <= |xs|
      invariant out == FilterBy(xs[..i], keep)
    {
      FilterStep(xs, i, keep);
      if keep(xs[i]) {
        out := out + [xs[i]];
      }
      i := i + 1;
    }
    assert xs[..|xs|] == xs;
  }

  /** `f` applied to each element, in order. */
  function MapSeq<T, U>(xs: seq<T>, f: T -> U): (r: seq<U>)
    ensures |r| == |xs|
    ensures forall i | 0 <= i < |xs| :: r[i] == f(xs[i])
  {
    seq(|xs|, i requires 0 <= i < |xs| => f(xs[i]))
  }

  /** The mapped list holds exactly the images of the inputs. */
  lemma MapSeqMembers<T, U>(xs: seq<T>, f: T -> U)
    ensures forall y :: y in MapSeq(xs, f) <==> exists x :: x in xs && y == f(x)
  {
    var r := MapSeq(xs, f);
    forall y ensures y in r <==> exists x :: x in xs && y == f(x) {
      if y in r {
        var i :| 0 <= i < |r| && r[i] == y;
        assert xs[i] in xs;
      }
      if exists x :: x in xs && y == f(x) {
        var x :| x in xs && y == f(x);
        var i :| 0 <= i < |xs| && xs[i] == x;
        assert r[i] == y;
      }
    }
  }

  /** Filtering the images keeps exactly the images that pass. */
  lemma FilterMapMembers<T, U>(xs: seq<T>, f: T -> U, keep: U -> bool)
    ensures forall y :: y in FilterBy(MapSeq(xs, f), keep) <==> keep(y) && exists x :: x in xs && y == f(x)
  {
    MapSeqMembers(xs, f);
    FilterShape(MapSeq(xs, f), keep);
  }

  // ----- keeping the first element of each key -----

  /** Element `i` is the first with its non-empty key. */
  predicate IsFirst<T>(xs: seq<T>, i: nat, key: T -> string)
    requires i < |xs|
  {
    key(xs[i]) != "" && forall j | 0 <= j < i :: key(xs[j]) != key(xs[i])
  }

  /** Reference definition of de-duplication by key: the first element of
      every non-empty key, in input order. */
  function FirstOccurrences<T>(xs: seq<T>, key: T -> string): seq<T> {
    if |xs| == 0 then []
    else
      FirstOccurrences(xs[..|xs| - 1], key) +
      (if IsFirst(xs, |xs| - 1, key) then [xs[|xs| - 1]] else [])
  }

  /** The keys present in a list. */
  function KeysOf<T(==)>(xs: seq<T>, key: T -> string): set<string> {
    set x | x in xs :: key(x)
  }

  lemma KeysOfAppend<T>(xs: seq<T>, x: T, key: T -> string)
    ensures KeysOf(xs + [x], key) == KeysOf(xs, key) + {key(x)}
  {
    assert forall y :: y in xs + [x] <==> y in xs || y == x;
  }

  /** An index of `xs` witnesses each key present. */
  lemma KeyWitness<T>(xs: seq<T>, c: string, key: T -> string) returns (j: nat)
    requires c in KeysOf(xs, key)
    ensures j < |xs| && key(xs[j]) == c
  {
    var x :| x in xs && key(x) == c;
    j :| 0 <= j < |xs| && xs[j] == x;
  }

  /** The keys kept are exactly the non-empty keys of the input. */
  lemma {:induction false} FirstOccurrencesKeys<T>(xs: seq<T>, key: T -> string)
    ensures KeysOf(FirstOccurrences(xs, key), key) == KeysOf(xs, key) - {""}
  {
    if |xs| > 0 {
      var init := xs[..|xs| - 1];
      var last := xs[|xs| - 1];
      FirstOccurrencesKeys(init, key);
      assert xs == init + [last];
      KeysOfAppend(init, last, key);
      var f := FirstOccurrences(init, key);
      if IsFirst(xs, |xs| - 1, key) {
        KeysOfAppend(f, last, key);
      } else if key(last) != "" {
        var j :| 0 <= j < |xs| - 1 && key(xs[j]) == key(last);
        assert init[j] in init;
        assert f + [] == f;
      } else {
        assert f + [] == f;
      }
    }
  }

  /** De-duplication keeps an order-preserving selection in which every key
      is non-empty and no key repeats. */
  lemma FirstOccurrencesShape<T>(xs: seq<T>, key: T -> string)
    ensures IsSubseq(FirstOccurrences(xs, key), xs)
    ensures forall x | x in FirstOccurrences(xs, key) :: key(x) != ""
    ensures var f := FirstOccurrences(xs, key);
      forall i, j | 0 <= i < j < |f| :: key(f[i]) != key(f[j])
  {
    FirstOccurrencesSubseq(xs, key);
    FirstOccurrencesNonBlank(xs, key);
    FirstOccurrencesDistinct(xs, key);
  }

  lemma {:induction false} FirstOccurrencesSubseq<T>(xs: seq<T>, key: T -> string)
    ensures IsSubseq(FirstOccurrences(xs, key), xs)
  {
    if |xs| > 0 {
      var init := xs[..|xs| - 1];
      var last := xs[|xs| - 1];
      FirstOccurrencesSubseq(init, key);
      SubseqExtend(FirstOccurrences(init, key), init, last, IsFirst(xs, |xs| - 1, key), true);
      assert init + [last] == xs;
    }
  }

  lemma {:induction false} FirstOccurrencesNonBlank<T>(xs: seq<T>, key: T -> string)
    ensures forall x | x in FirstOccurrences(xs, key) :: key(x) != ""
  {
    if |xs| > 0 {
      var init := xs[..|xs| - 1];
      FirstOccurrencesNonBlank(init, key);
      var f := FirstOccurrences(init, key);
      assert forall x | x in f + [xs[|xs| - 1]] :: x in f || x == xs[|xs| - 1];
      assert f + [] == f;
    }
  }

  lemma {:induction false} FirstOccurrencesDistinct<T>(xs: seq<T>, key: T -> string)
    ensures var f := FirstOccurrences(xs, key);
      forall i, j | 0 <= i < j < |f| :: key(f[i]) != key(f[j])
  {
    if |xs| > 0 {
      var init := xs[..|xs| - 1];
      var last := xs[|xs| - 1];
      FirstOccurrencesDistinct(init, key);
      var f := FirstOccurrences(init, key);
      if IsFirst(xs, |xs| - 1, key) {
        var g := f + [last];
        FirstOccurrencesKeys(init, key);
        forall i | 0 <= i < |f| ensures key(f[i]) != key(last) {
          assert key(f[i]) in KeysOf(f, key);
          var j := KeyWitness(init, key(f[i]), key);
          assert xs[j] == init[j];
        }
        assert forall i | 0 <= i < |f| :: g[i] == f[i];
      } else {
        assert f + [] == f;
      }
    }
  }

  /** The least index up to `i` holding the key of element `i`. */
  lemma {:induction false} EarliestKey<T>(xs: seq<T>, i: nat, key: T -> string) returns (j: nat)
    requires i < |xs| && key(xs[i]) != ""
    ensures j <= i && IsFirst(xs, j, key) && key(xs[j]) == key(xs[i])
    decreases i
  {
    if exists m | 0 <= m < i :: key(xs[m]) == key(xs[i]) {
      var m :| 0 <= m < i && key(xs[m]) == key(xs[i]);
      j := EarliestKey(xs, m, key);
    } else {
      j := i;
    }
  }

  lemma {:induction false} FirstIsKept<T>(xs: seq<T>, j: nat, key: T -> string)
    requires j < |xs| && IsFirst(xs, j, key)
    ensures xs[j] in FirstOccurrences(xs, key)
  {
    var init := xs[..|xs| - 1];
    if j < |xs| - 1 {
      assert init[j] == xs[j];
      assert forall m | 0 <= m < j :: init[m] == xs[m];
      assert IsFirst(init, j, key);
      FirstIsKept(init, j, key);
    }
  }

  /** Every element with a non-empty key is represented by the first
      element with the same key. */
  lemma FirstOccurrenceWins<T>(xs: seq<T>, i: nat, key: T -> string)
    requires i < |xs| && key(xs[i]) != ""
    ensures exists j | 0 <= j <= i ::
      (IsFirst(xs, j, key) && key(xs[j]) == key(xs[i]) && xs[j] in FirstOccurrences(xs, key))
  {
    var j := EarliestKey(xs, i, key);
    FirstIsKept(xs, j, key);
  }

  /** The loop `for x in xs: k = key(x); if k and k not in seen: ...`. */
  method DedupeBy<T(==)>(xs: seq<T>, key: T -> string) returns (out: seq<T>)
    ensures out == FirstOccurrences(xs, key)
  {
    var seen: set<string> := {};
    out := [];
    var i := 0;
    while i < |xs|
      invariant i <= |xs|
      invariant out == FirstOccurrences(xs[..i], key)
      invariant seen == KeysOf(xs[..i], key) - {""}
    {
      var k := key(xs[i]);
      var pre := xs[..i + 1];
      assert pre[..i] == xs[..i] && pre[i] == xs[i];
      assert pre == xs[..i] + [xs[i]];
      KeysOfAppend(xs[..i], xs[i], key);
      if k in seen {
        var j := KeyWitness(xs[..i], k, key);
        assert pre[j] == xs[..i][j];
        assert !IsFirst(pre, i, key);
      } else if k != "" {
        forall j | 0 <= j < i ensures key(pre[j]) != k {
          assert pre[j] == xs[..i][j];
          assert pre[j] in xs[..i];
        }
        assert IsFirst(pre, i, key);
      }
      if k != "" && k !in seen {
        out := out + [xs[i]];
        seen := seen + {k};
      }
      i := i + 1;
    }
    assert xs[..|xs|] == xs;
  }
}
