/** Sequence operations the source writes with `Set`, `filter` and `some`. */
module Seqs {

  predicate Distinct<T(==,!new)>(xs: seq<T>) {
    forall i, j :: 0 <= i < j < |xs| ==> xs[i] != xs[j]
  }

  /**
   * `Array.from(new Set(xs))`: every element once, where it first occurs.
   */
  function Dedup<T(==,!new)>(xs: seq<T>): (r: seq<T>)
    ensures Distinct(r)
    ensures forall x :: x in r <==> x in xs
    ensures Distinct(xs) ==> r == xs
    ensures |r| <= |xs|
  {
    if xs == [] then []
    else
      var init, last := xs[..|xs| - 1], xs[|xs| - 1];
      assert xs == init + [last];
      var d := Dedup(init);
      if last in d then d else d + [last]
  }

  /** The elements of `a` come first, in their own first-occurrence order. */
  lemma {:induction false} DedupPrefix<T(!new)>(a: seq<T>, b: seq<T>)
    ensures Dedup(a) <= Dedup(a + b)
  {
    if b == [] {
      assert a + b == a;
    } else {
      var b0 := b[..|b| - 1];
      DedupPrefix(a, b0);
      assert (a + b)[..|a + b| - 1] == a + b0;
    }
  }

  /** Deduplicating a non-empty list: the last element is kept when it was not seen before. */
  lemma DedupLast<T(!new)>(xs: seq<T>)
    requires xs != []
    ensures var d := Dedup(xs[..|xs| - 1]);
      Dedup(xs) == if xs[|xs| - 1] in d then d else d + [xs[|xs| - 1]]
  {
  }

  /** Deduplicating twice in a row is deduplicating once. */
  lemma {:induction false} DedupAbsorbs<T(!new)>(a: seq<T>, b: seq<T>)
    ensures Dedup(Dedup(a) + b) == Dedup(a + b)
  {
    if b == [] {
      assert Dedup(a) + b == Dedup(a);
      assert a + b == a;
    } else {
      var b0, y := b[..|b| - 1], b[|b| - 1];
      DedupAbsorbs(a, b0);
      var left, right := Dedup(a) + b, a + b;
      assert left[..|left| - 1] == Dedup(a) + b0 && left[|left| - 1] == y;
      assert right[..|right| - 1] == a + b0 && right[|right| - 1] == y;
      DedupLast(left);
      DedupLast(right);
    }
  }

  /**
   * When `a` has no repetition, deduplicating `a + b` adds something to `a`
   * exactly when `b` holds an element that `a` lacks.
   */
  lemma DedupGrows<T(!new)>(a: seq<T>, b: seq<T>)
    requires Distinct(a)
    ensures |Dedup(a + b)| != |a| <==> exists x :: x in b && x !in a
  {
    DedupPrefix(a, b);
    var d := Dedup(a + b);
    assert d[..|a|] == a;
    if |d| != |a| {
      assert d[|a|] in a + b;
      assert d[|a|] !in a;
      assert d[|a|] in b;
    } else {
      assert d == a;
    }
  }

  /** `xs.filter((y) => y !== x)`. */
  function Without<T(==,!new)>(xs: seq<T>, x: T): (r: seq<T>)
    ensures x !in r
    ensures forall y :: y != x ==> (y in r <==> y in xs)
    ensures multiset(r) == multiset(xs)[x := 0]
    ensures Distinct(xs) ==> Distinct(r)
    ensures x !in xs ==> r == xs
  {
    if xs == [] then []
    else
      var rest := Without(xs[1..], x);
      var r := if xs[0] == x then rest else [xs[0]] + rest;
      WithoutStep(xs, x, rest, r);
      r
  }

  /** One step of the filter: the head is dropped or kept in front of the filtered tail. */
  lemma WithoutStep<T(!new)>(xs: seq<T>, x: T, rest: seq<T>, r: seq<T>)
    requires xs != []
    requires x !in rest
    requires forall y :: y != x ==> (y in rest <==> y in xs[1..])
    requires multiset(rest) == multiset(xs[1..])[x := 0]
    requires Distinct(xs[1..]) ==> Distinct(rest)
    requires x !in xs[1..] ==> rest == xs[1..]
    requires r == if xs[0] == x then rest else [xs[0]] + rest
    ensures x !in r
    ensures forall y :: y != x ==> (y in r <==> y in xs)
    ensures multiset(r) == multiset(xs)[x := 0]
    ensures Distinct(xs) ==> Distinct(r)
    ensures x !in xs ==> r == xs
  {
    assert xs == [xs[0]] + xs[1..];
    assert multiset(xs) == multiset{xs[0]} + multiset(xs[1..]);
    DistinctTail(xs);
    if xs[0] != x {
      WithoutConsDistinct(xs, x, rest);
    }
  }

  lemma DistinctTail<T(!new)>(xs: seq<T>)
    requires xs != []
    ensures Distinct(xs) ==> Distinct(xs[1..]) && xs[0] !in xs[1..]
  {
    if Distinct(xs) {
      forall i, j | 0 <= i < j < |xs[1..]|
        ensures xs[1..][i] != xs[1..][j]
      {
        assert xs[1..][i] == xs[i + 1] && xs[1..][j] == xs[j + 1];
      }
    }
  }

  /** Keeping the head of a duplicate-free sequence in front of the filtered tail keeps it duplicate-free. */
  lemma WithoutConsDistinct<T(!new)>(xs: seq<T>, x: T, rest: seq<T>)
    requires xs != []
    requires forall y :: y in rest ==> y in xs[1..]
    requires Distinct(xs[1..]) ==> Distinct(rest)
    ensures Distinct(xs) ==> Distinct([xs[0]] + rest)
  {
    DistinctTail(xs);
    if Distinct(xs) {
      var r := [xs[0]] + rest;
      forall i, j | 0 <= i < j < |r|
        ensures r[i] != r[j]
      {
        if i == 0 {
          assert r[j] == rest[j - 1];
        } else {
          assert r[i] == rest[i - 1] && r[j] == rest[j - 1];
        }
      }
    }
  }

  /** Where the run of `p`-elements of `s` that starts at `i` ends. */
  function FrontSpan<T>(s: seq<T>, p: T -> bool, i: nat): (k: nat)
    requires i <= |s|
    ensures i <= k <= |s|
    ensures forall j :: i <= j < k ==> p(s[j])
    ensures k == |s| || !p(s[k])
    decreases |s| - i
  {
    if i < |s| && p(s[i]) then FrontSpan(s, p, i + 1) else i
  }

  /** Where the run of `p`-elements of `s[lo..e]` that ends at `e` starts. */
  function BackSpan<T>(s: seq<T>, p: T -> bool, lo: nat, e: nat): (k: nat)
    requires lo <= e <= |s|
    ensures lo <= k <= e
    ensures forall j :: k <= j < e ==> p(s[j])
    ensures k == lo || !p(s[k - 1])
  {
    if lo < e && p(s[e - 1]) then BackSpan(s, p, lo, e - 1) else e
  }

  /** `r` is the run of `s` at `i`, with only elements satisfying `p` before and after it. */
  ghost predicate Framed<T>(s: seq<T>, i: int, r: seq<T>, p: T -> bool) {
    && 0 <= i <= |s| - |r|
    && r == s[i..i + |r|]
    && (forall j :: 0 <= j < i ==> p(s[j]))
    && (forall j :: i + |r| <= j < |s| ==> p(s[j]))
  }

  /**
   * `s` stripped of `p`-elements at both ends: a run of `s` framed by them,
   * neither starting nor ending with one, and empty exactly when every
   * element satisfies `p`.
   */
  function Strip<T>(s: seq<T>, p: T -> bool): (r: seq<T>)
    ensures r == [] || (!p(r[0]) && !p(r[|r| - 1]))
    ensures r == [] <==> forall j :: 0 <= j < |s| ==> p(s[j])
    ensures exists i :: Framed(s, i, r, p)
  {
    var a := FrontSpan(s, p, 0);
    var e := BackSpan(s, p, a, |s|);
    assert Framed(s, a, s[a..e], p);
    s[a..e]
  }

  /** Stripping twice strips nothing more. */
  lemma StripIdempotent<T>(s: seq<T>, p: T -> bool)
    ensures Strip(Strip(s, p), p) == Strip(s, p)
  {
    var r := Strip(s, p);
    assert FrontSpan(r, p, 0) == 0;
    assert BackSpan(r, p, 0, |r|) == |r|;
    assert r[0..|r|] == r;
  }

  lemma DistinctSnoc<T(!new)>(xs: seq<T>, x: T)
    requires Distinct(xs) && x !in xs
    ensures Distinct(xs + [x])
  {
  }

  /** Appending an element not seen before puts it last. */
  lemma DedupSnoc<T(!new)>(xs: seq<T>, x: T)
    requires x !in xs
    ensures Dedup(xs + [x]) == Dedup(xs) + [x]
  {
    assert (xs + [x])[..|xs + [x]| - 1] == xs;
  }

  lemma ConcatAssoc<T>(a: seq<T>, b: seq<T>, c: seq<T>)
    ensures a + (b + c) == (a + b) + c
  {
  }

  lemma WithoutCons<T(!new)>(xs: seq<T>, x: T)
    requires xs != []
    ensures Without(xs, x) == (if xs[0] == x then [] else [xs[0]]) + Without(xs[1..], x)
  {
  }

  /** Filtering distributes over concatenation. */
  lemma {:induction false} WithoutAppend<T(!new)>(a: seq<T>, b: seq<T>, x: T)
    ensures Without(a + b, x) == Without(a, x) + Without(b, x)
  {
    if a == [] {
      assert a + b == b;
    } else {
      var head := if a[0] == x then [] else [a[0]];
      assert (a + b)[0] == a[0];
      assert (a + b)[1..] == a[1..] + b;
      WithoutCons(a + b, x);
      assert Without(a + b, x) == head + Without(a[1..] + b, x);
      WithoutCons(a, x);
      WithoutAppend(a[1..], b, x);
      ConcatAssoc(head, Without(a[1..], x), Without(b, x));
    }
  }

  lemma {:induction false} DistinctCardinality<T(!new)>(xs: seq<T>)
    requires Distinct(xs)
    ensures |set x | x in xs| == |xs|
  {
    if xs != [] {
      var init := xs[..|xs| - 1];
      DistinctCardinality(init);
      assert xs == init + [xs[|xs| - 1]];
      assert (set x | x in xs) == (set x | x in init) + {xs[|xs| - 1]};
    }
  }
}
