/** The two standard-library algorithms the samples lean on, stated the way the
    C++ standard (ISO/IEC 14882) specifies them:
    - [sort]: the result is a sorted permutation of the input;
    - [alg.unique]: of every group of consecutive equal elements only the first
      survives, the survivors keep their relative order.
    Both are modelled eagerly on `seq<int>`; the in-place `std::unique` loop is
    modelled by `StdUnique` and proved to compute `Unique`. */
module Algorithms {

  /** Non-decreasing order (what `std::sort` with `operator<` establishes). */
  predicate Sorted(s: seq<int>) {
    forall i, j :: 0 <= i < j < |s| ==> s[i] <= s[j]
  }

  /** Strictly increasing order: sorted and free of repetitions. */
  predicate StrictlyIncreasing(s: seq<int>) {
    forall i, j :: 0 <= i < j < |s| ==> s[i] < s[j]
  }

  /** No element equals its predecessor (the postcondition of `unique`). */
  predicate NoAdjacentDuplicates(s: seq<int>) {
    forall i :: 0 < i < |s| ==> s[i - 1] != s[i]
  }

  /** Position `i` starts a group of consecutive equal elements. */
  predicate StartsRun(s: seq<int>, i: int)
    requires 0 <= i < |s|
  {
    i == 0 || s[i - 1] != s[i]
  }

  // ---------------------------------------------------------------- [sort]

  /** Inserts `x` into a sorted sequence, before the first element not below it. */
  function Insert(x: int, s: seq<int>): (r: seq<int>)
    requires Sorted(s)
    ensures Sorted(r)
    ensures |r| == |s| + 1
    ensures multiset(r) == multiset(s) + multiset{x}
    ensures forall y :: y in r <==> y == x || y in s
  {
    if |s| == 0 || x <= s[0] then
      PrependSorted(x, s);
      [x] + s
    else
      var t := Insert(x, s[1..]);
      assert s == [s[0]] + s[1..];
      assert multiset(s) == multiset{s[0]} + multiset(s[1..]);
      PrependSorted(s[0], t);
      [s[0]] + t
  }

  /** A sorted sequence stays sorted when an element no larger than all of its
      members is put in front. */
  lemma PrependSorted(h: int, t: seq<int>)
    requires Sorted(t) && forall y :: y in t ==> h <= y
    ensures Sorted([h] + t)
  {
    forall j | 0 <= j < |t|
      ensures h <= t[j]
    {
      assert t[j] in t;
    }
  }

  /** `std::sort` on integers: a sorted permutation of the input. */
  function Sort(s: seq<int>): (r: seq<int>)
    ensures Sorted(r)
    ensures |r| == |s|
    ensures multiset(r) == multiset(s)
    ensures forall y :: y in r <==> y in s
  {
    if |s| == 0 then []
    else
      assert s == [s[0]] + s[1..];
      Insert(s[0], Sort(s[1..]))
  }

  // ---------------------------------------------------------- [alg.unique]

  /** Adjacent-duplicate removal: element `s[i]` is kept exactly when it starts a
      run of equal elements, and the kept elements stay in their original order. */
  function Unique(s: seq<int>): (r: seq<int>)
    ensures |r| <= |s|
    ensures |s| > 0 ==> |r| > 0 && r[0] == s[0] && r[|r| - 1] == s[|s| - 1]
    ensures forall x :: x in r <==> x in s
    ensures NoAdjacentDuplicates(r)
    ensures Sorted(s) ==> StrictlyIncreasing(r)
    decreases |s|
  {
    if |s| == 0 then []
    else
      var n := |s|;
      assert s == s[..n - 1] + [s[n - 1]];
      var t := Unique(s[..n - 1]);
      if StartsRun(s, n - 1) then t + [s[n - 1]] else t
  }

  /** `std::unique` on a copy of `a`: the in-place compaction loop of
      [alg.unique]. `result` indexes the last kept element, `first` scans ahead;
      the returned `end` is the new logical end, and `b[..end]` is what
      `erase(unique(...), end())` leaves behind. */
  method StdUnique(a: seq<int>) returns (b: seq<int>, end: nat)
    ensures |b| == |a| && end <= |a|
    ensures b[..end] == Unique(a)
  {
    b := a;
    if |b| == 0 {
      return b, 0;
    }
    var result := 0;
    var first := 0;
    assert a[..1] == [a[0]];
    while first + 1 < |b|
      invariant UniqueScan(a, b, result, first)
    {
      first := first + 1;
      UniqueScanStep(a, b, result, first);
      if b[result] != b[first] {
        result := result + 1;
        b := b[result := b[first]];
      }
    }
    assert a[..first + 1] == a;
    end := result + 1;
  }

  /** The state of the compaction loop after the scan has reached `first`:
      `b[..result + 1]` holds the survivors of `a[..first + 1]`, the last of
      them equals `a[first]`, and `b` is still untouched beyond `first`. */
  ghost predicate UniqueScan(a: seq<int>, b: seq<int>, result: int, first: int) {
    && 0 <= result <= first < |b| == |a|
    && (forall k :: first < k < |b| ==> b[k] == a[k])
    && b[..result + 1] == Unique(a[..first + 1])
    && b[result] == a[first]
  }

  /** One iteration of the compaction loop keeps `UniqueScan`: an element that
      differs from the last survivor is copied to the next free slot, an equal
      one is skipped. */
  lemma UniqueScanStep(a: seq<int>, b: seq<int>, result: int, first: int)
    requires 0 < first < |b| && UniqueScan(a, b, result, first - 1)
    ensures b[result] != b[first] ==>
              result + 1 < |b| && UniqueScan(a, b[result + 1 := b[first]], result + 1, first)
    ensures b[result] == b[first] ==> UniqueScan(a, b, result, first)
  {
    assert b[first] == a[first];
    UniqueStep(a, first);
    if b[result] != b[first] {
      UniqueScanKeep(a, b, result, first);
    }
  }

  /** The keeping half of `UniqueScanStep`. */
  lemma UniqueScanKeep(a: seq<int>, b: seq<int>, result: int, first: int)
    requires 0 < first < |b| && UniqueScan(a, b, result, first - 1)
    requires a[first - 1] != a[first] && b[first] == a[first]
    requires Unique(a[..first + 1]) == Unique(a[..first]) + [a[first]]
    ensures result + 1 < |b| && UniqueScan(a, b[result + 1 := b[first]], result + 1, first)
  {
    var c := b[result + 1 := a[first]];
    assert c[..result + 2] == b[..result + 1] + [a[first]];
  }

  // ----------------------------------------------------------------- lemmas

  /** Appending one element to the input of `Unique` appends it to the output
      exactly when it differs from the element before it. */
  lemma UniqueSnoc(s: seq<int>, x: int)
    ensures Unique(s + [x]) == if |s| > 0 && s[|s| - 1] == x then Unique(s) else Unique(s) + [x]
  {
    assert (s + [x])[..|s|] == s;
  }

  /** One step of the scan over `a`: the element at `i` extends the kept prefix
      exactly when it differs from its predecessor. */
  lemma UniqueStep(a: seq<int>, i: int)
    requires 0 < i < |a|
    ensures Unique(a[..i + 1]) ==
              if a[i - 1] == a[i] then Unique(a[..i]) else Unique(a[..i]) + [a[i]]
  {
    UniqueSnoc(a[..i], a[i]);
    assert a[..i] + [a[i]] == a[..i + 1];
  }

  /** A sequence that already has no adjacent duplicates is left unchanged. */
  lemma {:induction false} UniqueOfNoAdjacentDuplicates(s: seq<int>)
    requires NoAdjacentDuplicates(s)
    ensures Unique(s) == s
    decreases |s|
  {
    if |s| > 0 {
      var n := |s|;
      UniqueOfNoAdjacentDuplicates(s[..n - 1]);
      assert s == s[..n - 1] + [s[n - 1]];
    }
  }

  /** `unique` is idempotent. */
  lemma UniqueIdempotent(s: seq<int>)
    ensures Unique(Unique(s)) == Unique(s)
  {
    UniqueOfNoAdjacentDuplicates(Unique(s));
  }

  /** A run of `n >= 1` copies of one value collapses to that single value. */
  lemma UniqueOfConstant(c: int, n: nat)
    requires n >= 1
    ensures Unique(seq(n, _ => c)) == [c]
  {
    var s := seq(n, _ => c);
    var r := Unique(s);
    assert forall x :: x in r ==> x == c;
  }

  /** Every indexed element is a member (gives the solver the term `s[i]`). */
  lemma ElementIsMember(s: seq<int>, i: int)
    requires 0 <= i < |s|
    ensures s[i] in s
  {
  }

  /** Two strictly increasing sequences with the same elements are equal:
      a strictly increasing sequence is determined by its element set. */
  lemma {:induction false} IncreasingDeterminedByElements(p: seq<int>, q: seq<int>)
    requires StrictlyIncreasing(p) && StrictlyIncreasing(q)
    requires forall x :: x in p <==> x in q
    ensures p == q
    decreases |p|
  {
    if |p| == 0 {
      if |q| > 0 {
        ElementIsMember(q, 0);
        assert false;
      }
    } else {
      IncreasingHeadsAgree(p, q);
      IncreasingTailsAgree(p, q);
      IncreasingDeterminedByElements(p[1..], q[1..]);
      assert p == [p[0]] + p[1..];
      assert q == [q[0]] + q[1..];
    }
  }

  /** Strictly increasing sequences with the same nonempty element set start
      with the same element, their common minimum. */
  lemma IncreasingHeadsAgree(p: seq<int>, q: seq<int>)
    requires StrictlyIncreasing(p) && StrictlyIncreasing(q) && |p| > 0
    requires forall x :: x in p <==> x in q
    ensures |q| > 0 && p[0] == q[0]
  {
    assert p[0] in p;
    assert p[0] in q;
    assert q[0] in p;
  }

  /** Removing the common first element leaves tails with the same elements. */
  lemma IncreasingTailsAgree(p: seq<int>, q: seq<int>)
    requires StrictlyIncreasing(p) && StrictlyIncreasing(q) && |p| > 0 && |q| > 0
    requires forall x :: x in p <==> x in q
    requires p[0] == q[0]
    ensures StrictlyIncreasing(p[1..]) && StrictlyIncreasing(q[1..])
    ensures forall x :: x in p[1..] <==> x in q[1..]
  {
    forall x
      ensures x in p[1..] <==> x in q[1..]
    {
      if x in p[1..] {
        var i :| 1 <= i < |p| && p[i] == x;
        assert x in q;
        assert x != q[0];
      }
      if x in q[1..] {
        var i :| 1 <= i < |q| && q[i] == x;
        assert x in p;
        assert x != p[0];
      }
    }
  }
}
