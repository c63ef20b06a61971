/** Degree-of-freedom allocation and the three "which chain holds this segment"
    searches of `examples/Part3/ranges.cpp`.

    A polymer is a sequence of chains of given lengths laid end to end. With
    segments numbered from 0, segment `seg` lies in the chain whose running
    total of lengths first exceeds it. `basic_search` and `stl_search` find that
    chain with a loop and with `std::find_if`; `ranges_search` counts the
    leading partial sums strictly below `seg`. It never answers a later chain,
    and it answers an earlier one exactly when the partial sum at its own
    answer equals `seg`; that is one chain earlier when the next chain's length
    is positive. With segments numbered from 1 the roles swap:
    `ranges_search` finds the chain and the two loops answer for `seg + 1`.
    Integers are unbounded: the source's `int` overflow is not modelled. */
module Ranges {

  // ------------------------------------------------------------ DofAllocator

  /** `view::ints(0, nd) | view::transform(d => node * nd + d)`: the `nd`
      consecutive degrees of freedom of one node. Local dof `d` is placed so
      that Euclidean division by `nd` gives back the node and `d`. */
  function NodeDofs(node: int, nd: nat): (dofs: seq<int>)
    ensures |dofs| == nd
    ensures forall d :: 0 <= d < |dofs| ==> dofs[d] / nd == node && dofs[d] % nd == d
  {
    var dofs := seq(nd, d => node * nd + d);
    BlockDecodes(node, nd, dofs);
    dofs
  }

  /** Every entry of one node's block decodes to that node and its offset. */
  lemma BlockDecodes(node: int, nd: nat, dofs: seq<int>)
    requires |dofs| == nd
    requires forall d :: 0 <= d < nd ==> dofs[d] == node * nd + d
    ensures forall d :: 0 <= d < |dofs| ==> dofs[d] / nd == node && dofs[d] % nd == d
  {
    forall d | 0 <= d < |dofs|
      ensures dofs[d] / nd == node && dofs[d] % nd == d
    {
      DivModOfBlockIndex(node, d, nd);
    }
  }

  /** `DofAllocator`: every node of the connectivity expanded, in order, into its
      block of `nodal_dofs` consecutive degree-of-freedom indices. */
  function DofAllocator(conn: seq<int>, nodalDofs: int): (dofs: seq<int>)
    requires nodalDofs >= 0
    ensures |dofs| == |conn| * nodalDofs
    ensures dofs == [] <==> |conn| == 0 || nodalDofs == 0
  {
    if |conn| == 0 then []
    else NodeDofs(conn[0], nodalDofs) + DofAllocator(conn[1..], nodalDofs)
  }

  /** A positive multiple of `n > 0` is at least `n`. */
  lemma MulAtLeast(m: int, n: int)
    requires m >= 1 && n > 0
    ensures m * n >= n
  {
    assert m * n == (m - 1) * n + n;
  }

  /** Euclidean division by `n` splits `k * n + d` back into `k` and `d`. */
  lemma DivModOfBlockIndex(k: int, d: int, n: int)
    requires n > 0 && 0 <= d < n
    ensures (k * n + d) / n == k && (k * n + d) % n == d
  {
    var j := k * n + d;
    var q, r := j / n, j % n;
    assert j == q * n + r;
    assert (q - k) * n == d - r by {
      assert (q - k) * n == q * n - k * n;
    }
    if q > k {
      MulAtLeast(q - k, n);
    } else if q < k {
      MulAtLeast(k - q, n);
    }
  }

  /** An index below `len * n` lies in block `j / n < len`, at offset `j % n`. */
  lemma BlockOfIndex(j: int, n: int, len: int)
    requires n > 0 && 0 <= j < len * n
    ensures 0 <= j / n < len && 0 <= j % n < n
    ensures j == j / n * n + j % n
  {
    var k := j / n;
    if k >= len {
      MulAtLeast(k - len + 1, n);
    }
  }

  /** Position `k * nd + d` of the allocation holds local dof `d` of node `conn[k]`. */
  lemma {:induction false} DofAllocatorAt(conn: seq<int>, nodalDofs: int, k: int, d: int)
    requires 0 <= k < |conn| && 0 <= d < nodalDofs
    ensures k * nodalDofs + d < |DofAllocator(conn, nodalDofs)|
    ensures DofAllocator(conn, nodalDofs)[k * nodalDofs + d] == conn[k] * nodalDofs + d
    decreases k
  {
    var head := NodeDofs(conn[0], nodalDofs);
    var tail := DofAllocator(conn[1..], nodalDofs);
    assert DofAllocator(conn, nodalDofs) == head + tail;
    if k > 0 {
      DofAllocatorAt(conn[1..], nodalDofs, k - 1, d);
      assert k * nodalDofs + d == nodalDofs + ((k - 1) * nodalDofs + d);
    }
  }

  /** Every allocated index decodes, by Euclidean division by `nd`, into the node
      it belongs to and its local dof; block `j / nd` belongs to `conn[j / nd]`. */
  lemma DofAllocatorDecode(conn: seq<int>, nodalDofs: int, j: int)
    requires nodalDofs > 0 && 0 <= j < |DofAllocator(conn, nodalDofs)|
    ensures j / nodalDofs < |conn|
    ensures DofAllocator(conn, nodalDofs)[j] == conn[j / nodalDofs] * nodalDofs + j % nodalDofs
    ensures DofAllocator(conn, nodalDofs)[j] / nodalDofs == conn[j / nodalDofs]
    ensures DofAllocator(conn, nodalDofs)[j] % nodalDofs == j % nodalDofs
  {
    BlockOfIndex(j, nodalDofs, |conn|);
    var k, d := j / nodalDofs, j % nodalDofs;
    DofAllocatorAt(conn, nodalDofs, k, d);
    DivModOfBlockIndex(conn[k], d, nodalDofs);
  }

  /** Distinct nodes get disjoint blocks: with pairwise distinct node ids and at
      least one dof per node, all allocated indices are pairwise distinct. */
  lemma DofAllocatorInjective(conn: seq<int>, nodalDofs: int, i: int, j: int)
    requires nodalDofs >= 1
    requires forall p, q :: 0 <= p < q < |conn| ==> conn[p] != conn[q]
    requires 0 <= i < j < |DofAllocator(conn, nodalDofs)|
    ensures DofAllocator(conn, nodalDofs)[i] != DofAllocator(conn, nodalDofs)[j]
  {
    DofAllocatorDecode(conn, nodalDofs, i);
    DofAllocatorDecode(conn, nodalDofs, j);
    BlockOfIndex(i, nodalDofs, |conn|);
    BlockOfIndex(j, nodalDofs, |conn|);
  }

  // ------------------------------------------------------------ the searches

  /** Sum of a sequence, added from the front. */
  function Sum(s: seq<int>): int {
    if |s| == 0 then 0 else s[0] + Sum(s[1..])
  }

  /** Adding one more element at the back adds it to the sum. */
  lemma {:induction false} SumSnoc(s: seq<int>, x: int)
    ensures Sum(s + [x]) == Sum(s) + x
    decreases |s|
  {
    if |s| > 0 {
      assert (s + [x])[1..] == s[1..] + [x];
      SumSnoc(s[1..], x);
    }
  }

  /** Total length of chains `0 .. j` inclusive. */
  function PrefixSum(chains: seq<int>, j: int): int
    requires 0 <= j < |chains|
  {
    Sum(chains[..j + 1])
  }

  /** Running totals starting from `acc`, as `view::partial_sum` produces them. */
  function PartialSumsFrom(s: seq<int>, acc: int): (r: seq<int>)
    ensures |r| == |s|
    ensures forall j :: 0 <= j < |s| ==> r[j] == acc + Sum(s[..j + 1])
  {
    if |s| == 0 then []
    else
      var rest := PartialSumsFrom(s[1..], acc + s[0]);
      assert forall j :: 0 < j < |s| ==> s[..j + 1] == [s[0]] + s[1..][..j];
      [acc + s[0]] + rest
  }

  /** `chains | view::partial_sum()`: element `j` is the total length of chains
      `0 .. j` inclusive. */
  function PartialSums(chains: seq<int>): (r: seq<int>)
    ensures |r| == |chains|
    ensures forall j :: 0 <= j < |chains| ==> r[j] == PrefixSum(chains, j)
  {
    PartialSumsFrom(chains, 0)
  }

  /** `distance(s | view::take_while(p))`: the length of the longest prefix of
      `s` whose elements all satisfy `p`. */
  function TakeWhileLength(s: seq<int>, p: int -> bool): (n: nat)
    ensures n <= |s|
    ensures forall j :: 0 <= j < n ==> p(s[j])
    ensures n < |s| ==> !p(s[n])
  {
    if |s| == 0 || !p(s[0]) then 0 else 1 + TakeWhileLength(s[1..], p)
  }

  /** Index of the chain holding segment `seg`: the number of leading partial
      sums that do not exceed it (`|chains|` when none does). This is the
      reference both `basic_search` and `stl_search` are proved against. */
  function ScissionIndex(seg: int, chains: seq<int>): (r: nat)
    ensures r <= |chains|
    ensures forall j :: 0 <= j < r ==> PrefixSum(chains, j) <= seg
    ensures r < |chains| ==> seg < PrefixSum(chains, r)
  {
    TakeWhileLength(PartialSums(chains), x => !(seg < x))
  }

  /** `ranges_search` as written: the number of leading partial sums strictly
      below `seg`. */
  function RangesSearch(seg: int, chains: seq<int>): (r: nat)
    ensures r <= |chains|
    ensures forall j :: 0 <= j < r ==> PrefixSum(chains, j) < seg
    ensures r < |chains| ==> seg <= PrefixSum(chains, r)
  {
    TakeWhileLength(PartialSums(chains), x => x < seg)
  }

  /** `ranges_search` with the take-while test matching the other two searches:
      leading partial sums that do not exceed `seg`. */
  function RangesSearchFixed(seg: int, chains: seq<int>): (r: nat)
    ensures r == ScissionIndex(seg, chains)
  {
    var r := TakeWhileLength(PartialSums(chains), x => x <= seg);
    ScissionIndexUnique(seg, chains, r);
    r
  }

  /** The characterisation pins the index down: any `r` meeting it is
      `ScissionIndex`. */
  lemma ScissionIndexUnique(seg: int, chains: seq<int>, r: nat)
    requires r <= |chains|
    requires forall j :: 0 <= j < r ==> PrefixSum(chains, j) <= seg
    requires r < |chains| ==> seg < PrefixSum(chains, r)
    ensures r == ScissionIndex(seg, chains)
  {
  }

  /** `basic_search`: a counting loop that stops at the first chain whose
      running total exceeds `seg`. */
  method BasicSearch(seg: int, chains: seq<int>) returns (i: nat)
    ensures i <= |chains|
    ensures forall j :: 0 <= j < i ==> PrefixSum(chains, j) <= seg
    ensures i < |chains| ==> seg < PrefixSum(chains, i)
    ensures i == ScissionIndex(seg, chains)
  {
    var accumulatedLength := 0;
    i := 0;
    while i < |chains|
      invariant i <= |chains|
      invariant accumulatedLength == Sum(chains[..i])
      invariant forall j :: 0 <= j < i ==> PrefixSum(chains, j) <= seg
    {
      SumSnoc(chains[..i], chains[i]);
      assert chains[..i] + [chains[i]] == chains[..i + 1];
      accumulatedLength := accumulatedLength + chains[i];
      if seg < accumulatedLength {
        break;
      }
      i := i + 1;
    }
    ScissionIndexUnique(seg, chains, i);
  }

  /** `stl_search`: `std::find_if` with a predicate that adds each visited
      length to a captured running total before comparing; the distance of the
      returned iterator, `|chains|` for `end()`. */
  method StlSearch(seg: int, chains: seq<int>) returns (d: nat)
    ensures d <= |chains|
    ensures forall j :: 0 <= j < d ==> PrefixSum(chains, j) <= seg
    ensures d < |chains| ==> seg < PrefixSum(chains, d)
    ensures d == ScissionIndex(seg, chains)
  {
    var accumulatedLength := 0;
    var first := 0;
    while first < |chains|
      invariant first <= |chains|
      invariant accumulatedLength == Sum(chains[..first])
      invariant forall j :: 0 <= j < first ==> PrefixSum(chains, j) <= seg
    {
      SumSnoc(chains[..first], chains[first]);
      assert chains[..first] + [chains[first]] == chains[..first + 1];
      accumulatedLength := accumulatedLength + chains[first];
      if seg < accumulatedLength {
        ScissionIndexUnique(seg, chains, first);
        return first;
      }
      first := first + 1;
    }
    ScissionIndexUnique(seg, chains, |chains|);
    return |chains|;
  }

  // ------------------------------------------------------ comparing searches

  /** `ranges_search` never reports a later chain than `basic_search`, and the
      two agree exactly when the partial sum at `ranges_search`'s answer is not
      `seg` itself. */
  lemma {:induction false} RangesVersusBasic(seg: int, chains: seq<int>)
    ensures RangesSearch(seg, chains) <= ScissionIndex(seg, chains)
    ensures RangesSearch(seg, chains) == ScissionIndex(seg, chains) <==>
              !(RangesSearch(seg, chains) < |chains| &&
                PrefixSum(chains, RangesSearch(seg, chains)) == seg)
  {
    var r := RangesSearch(seg, chains);
    if r < |chains| && PrefixSum(chains, r) == seg {
      assert forall j :: 0 <= j <= r ==> PrefixSum(chains, j) <= seg;
    }
  }

  /** When no partial sum equals `seg`, all three searches agree. */
  lemma RangesAgreesWithoutTies(seg: int, chains: seq<int>)
    requires forall j :: 0 <= j < |chains| ==> PrefixSum(chains, j) != seg
    ensures RangesSearch(seg, chains) == ScissionIndex(seg, chains)
  {
    RangesVersusBasic(seg, chains);
  }

  /** When the running total at `ranges_search`'s answer equals `seg` and the
      next chain, if there is one, has positive length, the other searches
      answer exactly one chain later (past the last chain: at `end()`). */
  lemma RangesOneChainEarlier(seg: int, chains: seq<int>)
    requires RangesSearch(seg, chains) < |chains|
    requires PrefixSum(chains, RangesSearch(seg, chains)) == seg
    requires RangesSearch(seg, chains) + 1 < |chains| ==> chains[RangesSearch(seg, chains) + 1] > 0
    ensures ScissionIndex(seg, chains) == RangesSearch(seg, chains) + 1
  {
    var r := RangesSearch(seg, chains);
    if r + 1 < |chains| {
      assert chains[..r + 2] == chains[..r + 1] + [chains[r + 1]];
      SumSnoc(chains[..r + 1], chains[r + 1]);
    }
    ScissionIndexUnique(seg, chains, r + 1);
  }

  /** Read with segments numbered from 1, `ranges_search` is the right one:
      it finds the chain of segment `seg - 1` under numbering from 0. */
  lemma RangesSearchIsOneBased(seg: int, chains: seq<int>)
    ensures RangesSearch(seg, chains) == ScissionIndex(seg - 1, chains)
  {
    ScissionIndexUnique(seg - 1, chains, RangesSearch(seg, chains));
  }

  /** The chain lengths of the sample program. */
  function SampleChains(): seq<int> {
    [10, 3, 7, 11]
  }

  /** The sample's partial sums are 10, 13, 20, 31. */
  lemma SamplePartialSums()
    ensures PartialSums(SampleChains()) == [10, 13, 20, 31]
  {
    var c := SampleChains();
    assert c[..1] == [10] && c[..2] == [10, 3];
    assert c[..3] == [10, 3, 7] && c[..4] == [10, 3, 7, 11];
  }

  /** Chain lengths with a zero-length chain right after a tie at segment 13. */
  function ZeroLengthChains(): seq<int> {
    [10, 3, 0, 7]
  }

  /** A zero-length chain after a tie widens the gap: with segment 13,
      `ranges_search` answers chain 1 and the loops answer chain 3. */
  lemma SampleZeroLengthGap()
    ensures RangesSearch(13, ZeroLengthChains()) == 1
    ensures ScissionIndex(13, ZeroLengthChains()) == 3
  {
    var c := ZeroLengthChains();
    assert PrefixSum(c, 0) == 10 by { assert c[..1] == [10]; }
    assert PrefixSum(c, 1) == 13 by { assert c[..2] == [10, 3]; }
    assert PrefixSum(c, 2) == 13 by { assert c[..3] == [10, 3, 0]; }
    assert PrefixSum(c, 3) == 20 by { assert c[..4] == c; }
    ScissionIndexUnique(13, c, 3);
  }

  /** For segment 17, the one the sample program asks about, all three
      searches return chain 2. */
  lemma SampleSearchAgrees()
    ensures ScissionIndex(17, SampleChains()) == 2
    ensures RangesSearch(17, SampleChains()) == 2
  {
    SamplePartialSums();
  }

  /** For segment 13, which is exactly the end of chain 1, `ranges_search`
      answers 1 while `basic_search` and `stl_search` answer 2. */
  lemma SampleSearchDisagrees()
    ensures RangesSearch(13, SampleChains()) == 1
    ensures ScissionIndex(13, SampleChains()) == 2
    ensures RangesSearchFixed(13, SampleChains()) == 2
  {
    SamplePartialSums();
  }
}
