/**
 * The levelling of two concrete graphs shaped like those of the tests in
 * src/graph.rs: a four-node addition and a five-node diamond. In the
 * diamond the node Add feeds the sink both directly and through Mul; its
 * depth is 2, the length of its longer walk, which is what puts Mul and Add
 * on separate levels.
 */
module GraphExamples {
  import opened Wrappers
  import opened GraphModel
  import opened GraphSort
  import opened GraphCycles

  // ---------------------------------------------------------------------
  // Depths fixed by a potential
  // ---------------------------------------------------------------------

  /** h drops strictly along every connection: the producer lies above what it feeds. */
  ghost predicate Descends(g: Graph, h: seq<nat>) {
    |h| == |g.nodes| &&
    forall v, w :: 0 <= v < |g.nodes| && 0 <= w < |g.nodes| && Feeds(g, v, w) ==> h[v] > h[w]
  }

  /** Under a potential that drops along every connection, no walk to a sink from u is longer than h[u]. */
  lemma {:induction false} ReachBounded(g: Graph, h: seq<nat>, u: nat, d: nat)
    requires Descends(g, h) && u < |g.nodes| && Reach(g, u, d)
    ensures d <= h[u]
    decreases d
  {
    if d > 0 {
      var w :| 0 <= w < |g.nodes| && Feeds(g, u, w) && Reach(g, w, d - 1);
      ReachBounded(g, h, w, d - 1);
    }
  }

  /** The longest walk has one length only. */
  lemma LongestUnique(g: Graph, u: nat, x: nat, y: nat)
    requires IsLongest(g, u, x) && IsLongest(g, u, y)
    ensures x == y
  {
  }

  /** Two lists ordered by key and then by index that hold the same indices start alike. */
  lemma SortedHeads(key: seq<nat>, a: seq<nat>, b: seq<nat>)
    requires InBounds(key, a) && InBounds(key, b)
    requires SortedBy(key, a) && SortedBy(key, b)
    requires a != [] && multiset(a) == multiset(b)
    ensures b != [] && a[0] == b[0]
  {
    assert a[0] in multiset(b);
    var j :| 0 <= j < |b| && b[j] == a[0];
    assert b[0] in multiset(a);
    var i :| 0 <= i < |a| && a[i] == b[0];
  }

  /** Removing equal heads leaves tails that hold the same elements. */
  lemma TailsAlike(a: seq<nat>, b: seq<nat>)
    requires a != [] && b != [] && a[0] == b[0] && multiset(a) == multiset(b)
    ensures multiset(a[1..]) == multiset(b[1..])
  {
    assert a == [a[0]] + a[1..] && b == [b[0]] + b[1..];
    assert multiset(a) == multiset{a[0]} + multiset(a[1..]);
    assert multiset(b) == multiset{a[0]} + multiset(b[1..]);
    forall x ensures multiset(a[1..])[x] == multiset(b[1..])[x] {
      assert multiset(a)[x] == multiset{a[0]}[x] + multiset(a[1..])[x];
      assert multiset(b)[x] == multiset{a[0]}[x] + multiset(b[1..])[x];
    }
  }

  /** Two lists ordered by key and then by index that hold the same indices are equal. */
  lemma {:induction false} SortedUnique(key: seq<nat>, a: seq<nat>, b: seq<nat>)
    requires InBounds(key, a) && InBounds(key, b)
    requires SortedBy(key, a) && SortedBy(key, b)
    requires multiset(a) == multiset(b)
    ensures a == b
    decreases |a|
  {
    if a == [] {
      assert |multiset(b)| == 0;
    } else {
      SortedHeads(key, a, b);
      TailsAlike(a, b);
      var a', b' := a[1..], b[1..];
      assert InBounds(key, a') && InBounds(key, b') by {
        assert forall k :: 0 <= k < |a'| ==> a'[k] == a[k + 1];
        assert forall k :: 0 <= k < |b'| ==> b'[k] == b[k + 1];
      }
      assert SortedBy(key, a') && SortedBy(key, b') by {
        assert forall k :: 0 <= k < |a'| ==> a'[k] == a[k + 1];
        assert forall k :: 0 <= k < |b'| ==> b'[k] == b[k + 1];
      }
      SortedUnique(key, a', b');
      assert a == [a[0]] + a' && b == [b[0]] + b';
    }
  }

  /**
   * When every node u has a walk of h[u] connections to a sink and h drops
   * along every connection, levelling succeeds, every depth is the one h
   * gives, and the order is the node indices sorted by h and then by index.
   */
  lemma LevelledBy(g: Graph, h: seq<nat>, r: Result<SortOrder, GraphError>)
    requires Descends(g, h) && |g.nodes| > 0
    requires forall u :: 0 <= u < |g.nodes| ==> h[u] < |g.nodes| && Reach(g, u, h[u])
    requires SortOutcome(g, r)
    ensures r.Ok?
    ensures InBounds(h, r.value.orderIndices) && SortedBy(h, r.value.orderIndices)
    ensures multiset(r.value.orderIndices) == multiset(Range(|g.nodes|))
    ensures |r.value.depths| == |g.nodes|
    ensures forall i :: 0 <= i < |g.nodes| ==> r.value.depths[i] == h[r.value.orderIndices[i]]
  {
    var n := |g.nodes|;
    forall u | 0 <= u < n ensures IsLongest(g, u, h[u]) {
      forall d: nat | Reach(g, u, d) ensures d <= h[u] {
        ReachBounded(g, h, u, d);
      }
    }
    var sink := ReachSuffix(g, 0, h[0], 0);
    assert IsSink(g, sink);
    forall u | 0 <= u < n ensures !Reach(g, u, n) {
      if Reach(g, u, n) {
        ReachBounded(g, h, u, n);
      }
    }
    forall u | 0 <= u < n ensures ReachesSink(g, u) {
      assert Reach(g, u, h[u]);
    }
    var so := r.value;
    forall i | 0 <= i < n ensures so.depths[i] == h[so.orderIndices[i]] {
      LongestUnique(g, so.orderIndices[i], so.depths[i], h[so.orderIndices[i]]);
    }
    assert SortedBy(h, so.orderIndices) by {
      forall i, j | 0 <= i < j < n ensures Before(h, so.orderIndices[i], so.orderIndices[j]) {
        assert so.depths[i] == h[so.orderIndices[i]] && so.depths[j] == h[so.orderIndices[j]];
      }
    }
  }

  /**
   * h is a potential whose values are walk lengths to a sink, order lists
   * every node once sorted by h and then by index, and depths are h along it.
   */
  ghost predicate Candidate(g: Graph, h: seq<nat>, order: seq<nat>, depths: seq<nat>) {
    && Descends(g, h) && |g.nodes| > 0
    && (forall u :: 0 <= u < |g.nodes| ==> h[u] < |g.nodes| && Reach(g, u, h[u]))
    && InBounds(h, order) && SortedBy(h, order)
    && multiset(order) == multiset(Range(|g.nodes|))
    && |depths| == |order| && (forall i :: 0 <= i < |order| ==> depths[i] == h[order[i]])
  }

  /**
   * The same, for a candidate order and depths given outright: if the order
   * is sorted by h and then by index and lists every node once, and the
   * depths are h along it, levelling yields exactly that order and those depths.
   */
  lemma LevelledAs(g: Graph, h: seq<nat>, order: seq<nat>, depths: seq<nat>, r: Result<SortOrder, GraphError>)
    requires Candidate(g, h, order, depths) && SortOutcome(g, r)
    ensures r.Ok? && r.value.orderIndices == order && r.value.depths == depths
  {
    LevelledBy(g, h, r);
    SortedUnique(h, r.value.orderIndices, order);
  }

  /** The producer of the k-th input of w has a walk one longer than w. */
  lemma ReachStep(g: Graph, u: nat, w: nat, k: nat, d: nat)
    requires w < |g.nodes| && w < |g.toConnections| && k < |g.toConnections[w]|
    requires g.toConnections[w][k].fromIndex == u && Reach(g, w, d)
    ensures Reach(g, u, d + 1)
  {
    assert Feeds(g, u, w);
  }

  // ---------------------------------------------------------------------
  // The addition graph
  // ---------------------------------------------------------------------

  /** Input 0 and Bias feed Add, which feeds Output; nodes in that insertion order. */
  function AddGraph(): Graph {
    Graph(
      [Node("in0", "Input 0", None), Node("bias", "Bias", None), Node("add", "Add", Some("+")), Node("out", "Output", None)],
      [[Connection(0, 2)], [Connection(1, 2)], [Connection(2, 3)], []],
      [[], [], [Connection(0, 2), Connection(1, 2)], [Connection(2, 3)]])
  }

  /** The addition graph is well formed: each connection sits in both tables under its own endpoints. */
  lemma AddValid(g: Graph)
    requires g == AddGraph()
    ensures Valid(g)
  {
    AddFromLists(g);
    AddToLists(g);
  }

  /** Each from-list of the addition graph holds its producer's connections, each filed in its consumer's to-list. */
  lemma AddFromLists(g: Graph)
    requires g == AddGraph()
    ensures |g.nodes| == 4 && |g.fromConnections| == 4
    ensures forall i, k :: 0 <= i < 4 && 0 <= k < |g.fromConnections[i]| ==>
              && g.fromConnections[i][k].fromIndex == i && g.fromConnections[i][k].toIndex < 4
              && g.fromConnections[i][k] in g.toConnections[g.fromConnections[i][k].toIndex]
  {
  }

  /** Each to-list of the addition graph holds its consumer's connections, each filed in its producer's from-list. */
  lemma AddToLists(g: Graph)
    requires g == AddGraph()
    ensures |g.toConnections| == 4
    ensures forall j, k :: 0 <= j < 4 && 0 <= k < |g.toConnections[j]| ==>
              && g.toConnections[j][k].toIndex == j && g.toConnections[j][k].fromIndex < 4
              && g.toConnections[j][k] in g.fromConnections[g.toConnections[j][k].fromIndex]
  {
  }

  /** Depths [2, 2, 1, 0] drop along every connection of the addition graph. */
  lemma AddDescends(g: Graph)
    requires g == AddGraph()
    ensures Descends(g, [2, 2, 1, 0]) && |g.nodes| == 4
  {
    forall v, w | 0 <= v < 4 && 0 <= w < 4 && Feeds(g, v, w) ensures [2, 2, 1, 0][v] > [2, 2, 1, 0][w] {
      var k :| 0 <= k < |g.toConnections[w]| && g.toConnections[w][k].fromIndex == v;
    }
  }

  /** Output is a sink; Add feeds it, and Input 0 and Bias feed Add. */
  lemma AddReaches(g: Graph)
    requires g == AddGraph()
    ensures Reach(g, 3, 0) && Reach(g, 2, 1) && Reach(g, 0, 2) && Reach(g, 1, 2)
  {
    assert IsSink(g, 3);
    ReachStep(g, 2, 3, 0, 0);
    ReachStep(g, 0, 2, 0, 1);
    ReachStep(g, 1, 2, 1, 1);
  }

  /** Every node of the addition graph has a walk of its depth to Output. */
  lemma AddWalks(g: Graph)
    requires g == AddGraph()
    ensures forall u :: 0 <= u < |g.nodes| ==> [2, 2, 1, 0][u] < |g.nodes| && Reach(g, u, [2, 2, 1, 0][u])
  {
    AddReaches(g);
  }

  /** Output, Add, Input 0, Bias: the indices sorted by [2, 2, 1, 0] and then by index, at depths [0, 1, 2, 2]. */
  lemma AddOrder()
    ensures InBounds([2, 2, 1, 0], [3, 2, 0, 1]) && SortedBy([2, 2, 1, 0], [3, 2, 0, 1])
    ensures forall i :: 0 <= i < |[3, 2, 0, 1]| ==> [0, 1, 2, 2][i] == [2, 2, 1, 0][[3, 2, 0, 1][i]]
  {
  }

  /** That order lists every node of the addition graph once. */
  lemma AddOrderPermutes()
    ensures multiset([3, 2, 0, 1]) == multiset(Range(4))
  {
    assert Range(4) == [0, 1, 2, 3];
    assert multiset([3, 2, 0, 1]) == multiset([0, 1, 2, 3]);
  }

  /** Depths [2, 2, 1, 0], order Output, Add, Input 0, Bias and its depths [0, 1, 2, 2] form a candidate. */
  lemma AddCandidate(g: Graph)
    requires g == AddGraph()
    ensures Candidate(g, [2, 2, 1, 0], [3, 2, 0, 1], [0, 1, 2, 2])
  {
    AddDescends(g);
    AddWalks(g);
    AddOrder();
    AddOrderPermutes();
  }

  /**
   * Levelling the addition graph orders Output, Add, Input 0, Bias at
   * depths 0, 1, 2, 2 (the test at src/graph.rs:215-235).
   */
  lemma AddLevels(g: Graph, r: Result<SortOrder, GraphError>)
    requires g == AddGraph() && SortOutcome(g, r)
    ensures r.Ok? && r.value.orderIndices == [3, 2, 0, 1] && r.value.depths == [0, 1, 2, 2]
  {
    AddCandidate(g);
    LevelledAs(g, [2, 2, 1, 0], [3, 2, 0, 1], [0, 1, 2, 2], r);
  }

  // ---------------------------------------------------------------------
  // The diamond
  // ---------------------------------------------------------------------

  /** Input 0 and Bias feed Add, Add feeds Mul and Output, Mul feeds Output. */
  function DiamondGraph(): Graph {
    Graph(
      [Node("in0", "Input 0", None), Node("bias", "Bias", None), Node("add", "Add", Some("+")),
       Node("mul", "Mul", Some("*")), Node("out", "Output", None)],
      [[Connection(0, 2)], [Connection(1, 2)], [Connection(2, 3), Connection(2, 4)], [Connection(3, 4)], []],
      [[], [], [Connection(0, 2), Connection(1, 2)], [Connection(2, 3)], [Connection(2, 4), Connection(3, 4)]])
  }

  /** The diamond is well formed: each connection sits in both tables under its own endpoints. */
  lemma DiamondValid(g: Graph)
    requires g == DiamondGraph()
    ensures Valid(g)
  {
    DiamondFromLists(g);
    DiamondToLists(g);
  }

  /** Each from-list of the diamond holds its producer's connections, each filed in its consumer's to-list. */
  lemma DiamondFromLists(g: Graph)
    requires g == DiamondGraph()
    ensures |g.nodes| == 5 && |g.fromConnections| == 5
    ensures forall i, k :: 0 <= i < 5 && 0 <= k < |g.fromConnections[i]| ==>
              && g.fromConnections[i][k].fromIndex == i && g.fromConnections[i][k].toIndex < 5
              && g.fromConnections[i][k] in g.toConnections[g.fromConnections[i][k].toIndex]
  {
  }

  /** Each to-list of the diamond holds its consumer's connections, each filed in its producer's from-list. */
  lemma DiamondToLists(g: Graph)
    requires g == DiamondGraph()
    ensures |g.toConnections| == 5
    ensures forall j, k :: 0 <= j < 5 && 0 <= k < |g.toConnections[j]| ==>
              && g.toConnections[j][k].toIndex == j && g.toConnections[j][k].fromIndex < 5
              && g.toConnections[j][k] in g.fromConnections[g.toConnections[j][k].fromIndex]
  {
  }

  /** Depths [3, 3, 2, 1, 0] drop along every connection of the diamond. */
  lemma DiamondDescends(g: Graph)
    requires g == DiamondGraph()
    ensures Descends(g, [3, 3, 2, 1, 0]) && |g.nodes| == 5
  {
    forall v, w | 0 <= v < 5 && 0 <= w < 5 && Feeds(g, v, w) ensures [3, 3, 2, 1, 0][v] > [3, 3, 2, 1, 0][w] {
      var k :| 0 <= k < |g.toConnections[w]| && g.toConnections[w][k].fromIndex == v;
    }
  }

  /** Output is a sink; Mul feeds it, Add feeds Mul, and Input 0 and Bias feed Add. */
  lemma DiamondReaches(g: Graph)
    requires g == DiamondGraph()
    ensures Reach(g, 4, 0) && Reach(g, 3, 1) && Reach(g, 2, 2) && Reach(g, 0, 3) && Reach(g, 1, 3)
  {
    assert IsSink(g, 4);
    ReachStep(g, 3, 4, 1, 0);
    ReachStep(g, 2, 3, 0, 1);
    ReachStep(g, 0, 2, 0, 2);
    ReachStep(g, 1, 2, 1, 2);
  }

  /** Every node of the diamond has a walk of its depth to Output; Add's runs through Mul. */
  lemma DiamondWalks(g: Graph)
    requires g == DiamondGraph()
    ensures forall u :: 0 <= u < |g.nodes| ==> [3, 3, 2, 1, 0][u] < |g.nodes| && Reach(g, u, [3, 3, 2, 1, 0][u])
  {
    DiamondReaches(g);
    FiveWalks(g);
  }

  /** The five walks, gathered node by node. */
  lemma FiveWalks(g: Graph)
    requires |g.nodes| == 5
    requires Reach(g, 4, 0) && Reach(g, 3, 1) && Reach(g, 2, 2) && Reach(g, 0, 3) && Reach(g, 1, 3)
    ensures forall u :: 0 <= u < |g.nodes| ==> [3, 3, 2, 1, 0][u] < |g.nodes| && Reach(g, u, [3, 3, 2, 1, 0][u])
  {
  }

  /** Output, Mul, Add, Input 0, Bias: the indices sorted by [3, 3, 2, 1, 0] and then by index, at depths [0, 1, 2, 3, 3]. */
  lemma DiamondOrder()
    ensures InBounds([3, 3, 2, 1, 0], [4, 3, 2, 0, 1]) && SortedBy([3, 3, 2, 1, 0], [4, 3, 2, 0, 1])
    ensures forall i :: 0 <= i < |[4, 3, 2, 0, 1]| ==> [0, 1, 2, 3, 3][i] == [3, 3, 2, 1, 0][[4, 3, 2, 0, 1][i]]
  {
  }

  /** That order lists every node of the diamond once. */
  lemma DiamondOrderPermutes()
    ensures multiset([4, 3, 2, 0, 1]) == multiset(Range(5))
  {
    assert Range(5) == [0, 1, 2, 3, 4];
    assert multiset([4, 3, 2, 0, 1]) == multiset([0, 1, 2, 3, 4]);
  }

  /** Depths [3, 3, 2, 1, 0], order Output, Mul, Add, Input 0, Bias and its depths [0, 1, 2, 3, 3] form a candidate. */
  lemma DiamondCandidate(g: Graph)
    requires g == DiamondGraph()
    ensures Candidate(g, [3, 3, 2, 1, 0], [4, 3, 2, 0, 1], [0, 1, 2, 3, 3])
  {
    DiamondDescends(g);
    DiamondWalks(g);
    DiamondOrder();
    DiamondOrderPermutes();
  }

  /**
   * Levelling the diamond orders Output, Mul, Add, Input 0, Bias at depths
   * 0, 1, 2, 3, 3 (the test at src/graph.rs:238-254): Add feeds Output
   * directly, yet sits at the length of its longer walk through Mul.
   */
  lemma DiamondLevels(g: Graph, r: Result<SortOrder, GraphError>)
    requires g == DiamondGraph() && SortOutcome(g, r)
    ensures r.Ok? && r.value.orderIndices == [4, 3, 2, 0, 1] && r.value.depths == [0, 1, 2, 3, 3]
  {
    DiamondCandidate(g);
    LevelledAs(g, [3, 3, 2, 1, 0], [4, 3, 2, 0, 1], [0, 1, 2, 3, 3], r);
  }

}
