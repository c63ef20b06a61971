/** Essential nodes of a mesh: the nodal connectivity (one list of node ids per
    element) is joined into one list, sorted and stripped of duplicates,
    following the range pipeline `join | sort | unique`. */
module Nodal {
  import opened Algorithms

  /** The total number of node references in the connectivity. */
  function TotalSize(conn: seq<seq<int>>): nat {
    if |conn| == 0 then 0 else |conn[0]| + TotalSize(conn[1..])
  }

  /** `action::join`: the element lists concatenated in order. */
  function Join(conn: seq<seq<int>>): (r: seq<int>)
    ensures |r| == TotalSize(conn)
    ensures forall x :: x in r <==> exists i :: 0 <= i < |conn| && x in conn[i]
  {
    if |conn| == 0 then []
    else
      var t := Join(conn[1..]);
      assert forall x :: (exists i :: 1 <= i < |conn| && x in conn[i]) ==> x in t by {
        forall x, i | 1 <= i < |conn| && x in conn[i]
          ensures x in t
        {
          assert conn[1..][i - 1] == conn[i];
        }
      }
      conn[0] + t
  }

  /** Joining distributes over concatenation of connectivities, so the node
      lists appear in element order. */
  lemma {:induction false} JoinAppend(c1: seq<seq<int>>, c2: seq<seq<int>>)
    ensures Join(c1 + c2) == Join(c1) + Join(c2)
    decreases |c1|
  {
    if |c1| == 0 {
      assert c1 + c2 == c2;
    } else {
      assert (c1 + c2)[0] == c1[0];
      assert (c1 + c2)[1..] == c1[1..] + c2;
      JoinAppend(c1[1..], c2);
    }
  }

  /** A single element's node list is joined to itself. */
  lemma JoinSingleton(l: seq<int>)
    ensures Join([l]) == l
  {
    assert [l][1..] == [];
  }

  /** The pipeline `join | sort | unique`. */
  function EssentialNodes(conn: seq<seq<int>>): (r: seq<int>)
    ensures StrictlyIncreasing(r)
    ensures forall x :: x in r <==> exists i :: 0 <= i < |conn| && x in conn[i]
    ensures |r| <= TotalSize(conn)
  {
    Unique(Sort(Join(conn)))
  }

  /** The essential nodes are the only strictly increasing list that holds
      exactly the nodes referenced by some element. */
  lemma EssentialNodesCharacterised(conn: seq<seq<int>>, l: seq<int>)
    requires StrictlyIncreasing(l)
    ensures (forall x :: x in l <==> x in Join(conn)) <==> EssentialNodes(conn) == l
  {
    if forall x :: x in l <==> x in Join(conn) {
      EssentialNodesFromElements(conn, l);
    }
  }

  /** A strictly increasing list holding exactly the referenced nodes is the
      list of essential nodes. */
  lemma EssentialNodesFromElements(conn: seq<seq<int>>, l: seq<int>)
    requires StrictlyIncreasing(l)
    requires forall x :: x in l <==> x in Join(conn)
    ensures EssentialNodes(conn) == l
  {
    IncreasingDeterminedByElements(EssentialNodes(conn), l);
  }

  /** A single strictly increasing node list passes through unchanged. */
  lemma EssentialNodesOfIncreasing(l: seq<int>)
    requires StrictlyIncreasing(l)
    ensures EssentialNodes([l]) == l
  {
    JoinSingleton(l);
    EssentialNodesCharacterised([l], l);
  }

  /** Running the pipeline on its own output changes nothing. */
  lemma EssentialNodesIdempotent(conn: seq<seq<int>>)
    ensures EssentialNodes([EssentialNodes(conn)]) == EssentialNodes(conn)
  {
    EssentialNodesOfIncreasing(EssentialNodes(conn));
  }

  /** Adding elements can only add essential nodes. */
  lemma EssentialNodesGrow(c1: seq<seq<int>>, c2: seq<seq<int>>)
    ensures forall x :: x in EssentialNodes(c1 + c2) <==> x in EssentialNodes(c1) || x in EssentialNodes(c2)
  {
    JoinAppend(c1, c2);
  }

  /** The sample mesh: three elements sharing nodes. */
  function SampleConnectivity(): seq<seq<int>> {
    [[0, 3, 1, 2], [3, 4, 1, 2], [1, 0, 7]]
  }

  /** Joining the sample mesh lists its eleven node references in order. */
  lemma SampleJoin()
    ensures Join(SampleConnectivity()) == [0, 3, 1, 2, 3, 4, 1, 2, 1, 0, 7]
  {
    var conn := SampleConnectivity();
    JoinAppend([conn[0]], [conn[1], conn[2]]);
    JoinAppend([conn[1]], [conn[2]]);
    JoinSingleton(conn[0]);
    JoinSingleton(conn[1]);
    JoinSingleton(conn[2]);
    assert conn == [conn[0]] + [conn[1], conn[2]];
    assert [conn[1], conn[2]] == [conn[1]] + [conn[2]];
  }

  /** The sample mesh has essential nodes 0, 1, 2, 3, 4 and 7. */
  lemma SampleEssentialNodes()
    ensures EssentialNodes(SampleConnectivity()) == [0, 1, 2, 3, 4, 7]
  {
    SampleMembers();
    EssentialNodesFromElements(SampleConnectivity(), [0, 1, 2, 3, 4, 7]);
  }

  /** The sample mesh references exactly the nodes 0, 1, 2, 3, 4 and 7. */
  lemma SampleMembers()
    ensures forall x :: x in [0, 1, 2, 3, 4, 7] <==> x in Join(SampleConnectivity())
  {
    SampleJoin();
  }
}
