/** The doubling pipeline: every element of `a` is multiplied by two, then
    runs of equal neighbours are collapsed. It is written twice, once with
    `std::transform` into a pre-sized vector followed by
    `erase(unique(...), end())`, once as a range pipeline
    `transform | unique`; both are modelled here and shown to agree. */
module Transform {
  import opened Algorithms

  /** The element-wise image of `a` under `i * 2`. */
  function Doubled(a: seq<int>): (r: seq<int>)
    ensures |r| == |a|
    ensures forall i :: 0 <= i < |a| ==> r[i] == 2 * a[i]
  {
    if |a| == 0 then [] else [2 * a[0]] + Doubled(a[1..])
  }

  /** Halving every element: the inverse of `Doubled` on even sequences. */
  function Halved(b: seq<int>): (r: seq<int>)
    ensures |r| == |b|
    ensures forall i :: 0 <= i < |b| ==> 2 * r[i] <= b[i] < 2 * r[i] + 2
  {
    if |b| == 0 then [] else [b[0] / 2] + Halved(b[1..])
  }

  /** Every element of a doubled sequence is even. */
  predicate AllEven(b: seq<int>) {
    forall i :: 0 <= i < |b| ==> b[i] % 2 == 0
  }

  /** Halving undoes doubling. */
  lemma HalvedDoubled(a: seq<int>)
    ensures AllEven(Doubled(a))
    ensures Halved(Doubled(a)) == a
  {
  }

  /** Doubling undoes halving on sequences of even numbers, so the image of
      `Doubled` is exactly the even sequences. */
  lemma DoubledHalved(b: seq<int>)
    requires AllEven(b)
    ensures Doubled(Halved(b)) == b
  {
  }

  /** Doubling is injective: distinct inputs give distinct outputs. */
  lemma DoubledInjective(a1: seq<int>, a2: seq<int>)
    requires Doubled(a1) == Doubled(a2)
    ensures a1 == a2
  {
    HalvedDoubled(a1);
    HalvedDoubled(a2);
  }

  /** Doubling one more element appends its double. */
  lemma DoubledSnoc(s: seq<int>, x: int)
    ensures Doubled(s + [x]) == Doubled(s) + [2 * x]
  {
  }

  /** Because doubling is injective, collapsing runs before or after it gives
      the same sequence. */
  lemma {:induction false} UniqueCommutesWithDoubling(a: seq<int>)
    ensures Unique(Doubled(a)) == Doubled(Unique(a))
    decreases |a|
  {
    if |a| > 0 {
      var n := |a|;
      var s, x := a[..n - 1], a[n - 1];
      assert a == s + [x];
      UniqueCommutesWithDoubling(s);
      UniqueDoubledSnoc(s, x);
    }
  }

  /** The inductive step: appending `x` before doubling keeps or drops `2 * x`
      exactly as appending before collapsing keeps or drops `x`. */
  lemma UniqueDoubledSnoc(s: seq<int>, x: int)
    requires Unique(Doubled(s)) == Doubled(Unique(s))
    ensures Unique(Doubled(s + [x])) == Doubled(Unique(s + [x]))
  {
    DoubledSnoc(s, x);
    UniqueSnoc(s, x);
    UniqueSnoc(Doubled(s), 2 * x);
    if |s| == 0 || s[|s| - 1] != x {
      if |s| > 0 {
        assert Doubled(s)[|s| - 1] != 2 * x;
      }
      DoubledSnoc(Unique(s), x);
    }
  }

  /** `std::transform(a.begin(), a.end(), b.begin(), i * 2)`: writes the doubled
      elements of `a` over the front of `b` and leaves the rest of `b` alone. */
  method TransformInto(a: seq<int>, b: seq<int>) returns (c: seq<int>)
    requires |a| <= |b|
    ensures |c| == |b|
    ensures c[..|a|] == Doubled(a)
    ensures c[|a|..] == b[|a|..]
  {
    c := b;
    var i := 0;
    while i < |a|
      invariant 0 <= i <= |a| && |c| == |b|
      invariant forall k :: 0 <= k < i ==> c[k] == 2 * a[k]
      invariant forall k :: i <= k < |c| ==> c[k] == b[k]
    {
      c := c[i := 2 * a[i]];
      i := i + 1;
    }
  }

  /** The first form: `b` is a vector of `|a|` zeros, the transform fills it,
      and `erase(unique(b), end)` truncates it at the new logical end. */
  method StlPath(a: seq<int>) returns (b: seq<int>)
    ensures b == Unique(Doubled(a))
    ensures b == RangePath(a)
  {
    var zeros := seq(|a|, _ => 0);
    var filled := TransformInto(a, zeros);
    assert filled == filled[..|a|];
    var compacted, end := StdUnique(filled);
    b := compacted[..end];
  }

  /** The second form: `a | transform(i * 2) | unique`, evaluated eagerly. */
  function RangePath(a: seq<int>): (r: seq<int>)
    ensures |r| <= |a|
    ensures NoAdjacentDuplicates(r)
    ensures forall x :: x in r <==> exists i :: 0 <= i < |a| && x == 2 * a[i]
  {
    var d := Doubled(a);
    assert forall x :: x in d <==> exists i :: 0 <= i < |a| && x == 2 * a[i] by {
      forall x | x in d
        ensures exists i :: 0 <= i < |a| && x == 2 * a[i]
      {
        var i :| 0 <= i < |d| && d[i] == x;
      }
    }
    Unique(d)
  }

  /** Both forms compute the doubled input with the survivors of `Unique(a)`
      in place of `a`, and collapsing the result again changes nothing. */
  lemma RangePathIsDoubledUnique(a: seq<int>)
    ensures RangePath(a) == Doubled(Unique(a))
    ensures Unique(RangePath(a)) == RangePath(a)
  {
    UniqueCommutesWithDoubling(a);
    UniqueIdempotent(Doubled(a));
  }

  /** The sample input: ten ones. */
  function TenOnes(): seq<int> {
    seq(10, _ => 1)
  }

  /** Ten ones become the single element 2 along either path. */
  lemma SampleTransform()
    ensures RangePath(TenOnes()) == [2]
  {
    assert Doubled(TenOnes()) == seq(10, _ => 2);
    UniqueOfConstant(2, 10);
  }
}
