/**
 * What the levelling of src/graph.rs says about the graph: the depth
 * recurrence it computes, and that its cycle and unreachable-node errors
 * appear exactly because of cycles.
 */
module GraphCycles {
  import opened Wrappers
  import opened GraphModel
  import opened GraphSort

  // ---------------------------------------------------------------------
  // The depth recurrence
  // ---------------------------------------------------------------------

  /** Every connection out of u makes u feed the connection's destination. */
  lemma ConnectionFeeds(g: Graph, u: nat, k: nat)
    requires Valid(g) && u < |g.nodes| && k < |g.fromConnections[u]|
    ensures g.fromConnections[u][k].toIndex < |g.nodes|
    ensures Feeds(g, u, g.fromConnections[u][k].toIndex)
  {
    var c := g.fromConnections[u][k];
    assert c in g.toConnections[c.toIndex];
    var m :| 0 <= m < |g.toConnections[c.toIndex]| && g.toConnections[c.toIndex][m] == c;
  }

  /** A sink has no walk of positive length, so its depth is 0. */
  lemma SinkDepth(g: Graph, u: nat, x: nat)
    requires Valid(g) && IsSink(g, u) && IsLongest(g, u, x)
    ensures x == 0
  {
  }

  /** A walk from the destination of a connection extends to one from its source. */
  lemma ReachThrough(g: Graph, u: nat, w: nat, d: nat)
    requires Valid(g) && w < |g.nodes| && Feeds(g, u, w) && Reach(g, w, d)
    ensures Reach(g, u, d + 1)
  {
  }

  /** Depth strictly decreases along every connection. */
  lemma DepthDecreases(g: Graph, u: nat, k: nat, xu: nat, xw: nat)
    requires Valid(g) && u < |g.nodes| && k < |g.fromConnections[u]|
    requires IsLongest(g, u, xu) && IsLongest(g, g.fromConnections[u][k].toIndex, xw)
    ensures xu > xw
  {
    ConnectionFeeds(g, u, k);
    ReachThrough(g, u, g.fromConnections[u][k].toIndex, xw);
  }

  /**
   * The depth of a node that is not a sink is one more than the largest
   * depth among the nodes it feeds.
   */
  lemma DepthRecurrence(g: Graph, u: nat, x: nat)
    requires Valid(g) && u < |g.nodes| && !IsSink(g, u) && IsLongest(g, u, x)
    ensures x > 0
    ensures exists w :: 0 <= w < |g.nodes| && Feeds(g, u, w) && IsLongest(g, w, x - 1)
  {
    assert x != 0;
    var w :| 0 <= w < |g.nodes| && Feeds(g, u, w) && Reach(g, w, x - 1);
    forall d: nat | Reach(g, w, d) ensures d <= x - 1 {
      ReachThrough(g, u, w, d);
    }
  }

  // ---------------------------------------------------------------------
  // Walks and cycles
  // ---------------------------------------------------------------------

  /** A sequence of nodes, each feeding the next. */
  ghost predicate IsWalk(g: Graph, p: seq<nat>) {
    && (forall i :: 0 <= i < |p| ==> p[i] < |g.nodes|)
    && (forall i :: 0 <= i < |p| - 1 ==> Feeds(g, p[i], p[i + 1]))
  }

  /** Some walk of at least one connection returns to where it started. */
  ghost predicate HasCycle(g: Graph) {
    exists p :: |p| > 1 && IsWalk(g, p) && p[0] == p[|p| - 1]
  }

  /** A walk of d connections to a sink as a sequence of d + 1 nodes. */
  lemma {:induction false} ReachWalk(g: Graph, u: nat, d: nat) returns (p: seq<nat>)
    requires u < |g.nodes| && Reach(g, u, d)
    ensures |p| == d + 1 && p[0] == u && IsWalk(g, p)
    decreases d
  {
    if d == 0 {
      p := [u];
    } else {
      var w :| 0 <= w < |g.nodes| && Feeds(g, u, w) && Reach(g, w, d - 1);
      var q := ReachWalk(g, w, d - 1);
      p := [u] + q;
      assert forall i :: 0 < i < |p| ==> p[i] == q[i - 1];
    }
  }

  /** From a node that reaches no sink there is a walk of any length that never reaches one. */
  lemma {:induction false} EndlessWalk(g: Graph, u: nat, k: nat) returns (p: seq<nat>)
    requires Valid(g) && u < |g.nodes| && !ReachesSink(g, u)
    ensures |p| == k + 1 && p[0] == u && IsWalk(g, p)
    decreases k
  {
    if k == 0 {
      p := [u];
    } else {
      assert !Reach(g, u, 0);
      ConnectionFeeds(g, u, 0);
      var w := g.fromConnections[u][0].toIndex;
      if ReachesSink(g, w) {
        var d :| Reach(g, w, d);
        ReachThrough(g, u, w, d);
        assert false;
      }
      var q := EndlessWalk(g, w, k - 1);
      p := [u] + q;
      assert forall i :: 0 < i < |p| ==> p[i] == q[i - 1];
    }
  }

  /** The values a sequence holds. */
  ghost function Elements(p: seq<nat>): set<nat> {
    set x | x in p
  }

  /** A sequence without repetitions has as many distinct elements as positions. */
  lemma {:induction false} DistinctCard(p: seq<nat>)
    requires forall i, j :: 0 <= i < j < |p| ==> p[i] != p[j]
    ensures |Elements(p)| == |p|
  {
    if p != [] {
      var m := |p| - 1;
      var q := p[..m];
      assert p == q + [p[m]];
      assert p[m] !in q by {
        forall i | 0 <= i < m ensures q[i] != p[m] {
          assert q[i] == p[i];
        }
      }
      assert Elements(p) == Elements(q) + {p[m]};
      DistinctCard(q);
    } else {
      assert Elements(p) == {};
    }
  }

  /** A subset has no more elements than its superset. */
  lemma SubsetCard(a: set<nat>, b: set<nat>)
    requires a <= b
    ensures |a| <= |b|
  {
    assert b == a + (b - a);
    assert a * (b - a) == {};
  }

  /** More than n positions holding values below n: two of them hold the same value. */
  lemma Pigeonhole(p: seq<nat>, n: nat) returns (i: nat, j: nat)
    requires |p| > n && forall k :: 0 <= k < |p| ==> p[k] < n
    ensures i < j < |p| && p[i] == p[j]
  {
    if forall a, b :: 0 <= a < b < |p| ==> p[a] != p[b] {
      var r := Range(n);
      var inP := Elements(p);
      var inR := Elements(r);
      DistinctCard(p);
      DistinctCard(r);
      forall x | x in inP ensures x in inR {
        assert r[x] == x;
      }
      SubsetCard(inP, inR);
      assert false;
    }
    var a, b :| 0 <= a < b < |p| && p[a] == p[b];
    i, j := a, b;
  }

  /** A walk through more than n nodes passes some node twice: it contains a cycle. */
  lemma LongWalkCycle(g: Graph, p: seq<nat>)
    requires IsWalk(g, p) && |p| > |g.nodes|
    ensures HasCycle(g)
  {
    var i, j := Pigeonhole(p, |g.nodes|);
    var c := p[i..j + 1];
    forall k | 0 <= k < |c| - 1 ensures Feeds(g, c[k], c[k + 1]) {
      assert c[k] == p[i + k] && c[k + 1] == p[i + k + 1];
    }
    assert IsWalk(g, c);
  }

  /** The cycle error is raised only for a graph that has a cycle. */
  lemma CycleErrorHasCycle(g: Graph, u: nat)
    requires u < |g.nodes| && Reach(g, u, |g.nodes|)
    ensures HasCycle(g)
  {
    var p := ReachWalk(g, u, |g.nodes|);
    LongWalkCycle(g, p);
  }

  /** A node reaching no sink exists only in a graph that has a cycle. */
  lemma UnreachableHasCycle(g: Graph, u: nat)
    requires Valid(g) && u < |g.nodes| && !ReachesSink(g, u)
    ensures HasCycle(g)
  {
    var p := EndlessWalk(g, u, |g.nodes|);
    LongWalkCycle(g, p);
  }

  /** In a graph without a sink no node has a walk to a sink, of any length. */
  lemma {:induction false} NoSinkNoReach(g: Graph, u: nat, d: nat)
    requires NoSink(g) && u < |g.nodes|
    ensures !Reach(g, u, d)
    decreases d
  {
    if d > 0 && Reach(g, u, d) {
      var w :| 0 <= w < |g.nodes| && Feeds(g, u, w) && Reach(g, w, d - 1);
      NoSinkNoReach(g, w, d - 1);
    }
  }

  /** The EmptyGraph error on a graph with nodes is raised only for a graph that has a cycle. */
  lemma NoSinkHasCycle(g: Graph)
    requires Valid(g) && NoSink(g) && |g.nodes| > 0
    ensures HasCycle(g)
  {
    forall d: nat ensures !Reach(g, 0, d) {
      NoSinkNoReach(g, 0, d);
    }
    UnreachableHasCycle(g, 0);
  }

  /** An acyclic graph with a sink is always levelled. */
  lemma AcyclicIsLevelled(g: Graph, r: Result<SortOrder, GraphError>)
    requires Valid(g) && !HasCycle(g) && !NoSink(g) && SortOutcome(g, r)
    ensures r.Ok? && IsLevelling(g, r.value)
  {
    forall u | 0 <= u < |g.nodes| ensures !Reach(g, u, |g.nodes|) && ReachesSink(g, u) {
      if Reach(g, u, |g.nodes|) {
        CycleErrorHasCycle(g, u);
      }
      if !ReachesSink(g, u) {
        UnreachableHasCycle(g, u);
      }
    }
  }

  /** Walking a walk forward adds its length to a walk from its end. */
  lemma {:induction false} WalkReach(g: Graph, p: seq<nat>, d: nat)
    requires Valid(g) && |p| > 0 && IsWalk(g, p) && Reach(g, p[|p| - 1], d)
    ensures Reach(g, p[0], d + |p| - 1)
    decreases |p|
  {
    if |p| > 1 {
      var q := p[1..];
      assert IsWalk(g, q) by {
        assert forall i :: 0 <= i < |q| ==> q[i] == p[i + 1];
      }
      WalkReach(g, q, d);
      ReachThrough(g, p[0], p[1], d + |q| - 1);
    }
  }

  /** Going round a cycle m times from a node that reaches a sink gives a walk at least m longer. */
  lemma {:induction false} RoundCycle(g: Graph, p: seq<nat>, d: nat, m: nat) returns (e: nat)
    requires Valid(g) && |p| > 1 && IsWalk(g, p) && p[0] == p[|p| - 1] && Reach(g, p[0], d)
    ensures e >= d + m && Reach(g, p[0], e)
    decreases m
  {
    if m == 0 {
      e := d;
    } else {
      var e' := RoundCycle(g, p, d, m - 1);
      WalkReach(g, p, e');
      e := e' + |p| - 1;
    }
  }

  /** A walk of length at least k to a sink passes a node with a walk of exactly k. */
  lemma {:induction false} ReachSuffix(g: Graph, u: nat, d: nat, k: nat) returns (w: nat)
    requires u < |g.nodes| && Reach(g, u, d) && k <= d
    ensures w < |g.nodes| && Reach(g, w, k)
    decreases d
  {
    if d == k {
      w := u;
    } else {
      var v :| 0 <= v < |g.nodes| && Feeds(g, u, v) && Reach(g, v, d - 1);
      w := ReachSuffix(g, v, d - 1, k);
    }
  }

  /** A cycle through a node that reaches a sink gives a walk of n connections. */
  lemma CycleToSinkIsLong(g: Graph, p: seq<nat>) returns (w: nat)
    requires Valid(g) && |p| > 1 && IsWalk(g, p) && p[0] == p[|p| - 1] && ReachesSink(g, p[0])
    ensures !NoSink(g) && w < |g.nodes| && Reach(g, w, |g.nodes|)
  {
    var d: nat :| Reach(g, p[0], d);
    var n := |g.nodes|;
    var e := RoundCycle(g, p, d, n);
    w := ReachSuffix(g, p[0], e, n);
    var sink := ReachSuffix(g, p[0], d, 0);
    assert IsSink(g, sink);
  }

  /**
   * A cycle through a node that reaches a sink yields the cycle error:
   * the pass keeps finding longer walks until one has n connections.
   */
  lemma CycleToSinkIsError(g: Graph, p: seq<nat>, r: Result<SortOrder, GraphError>)
    requires Valid(g) && |p| > 1 && IsWalk(g, p) && p[0] == p[|p| - 1] && ReachesSink(g, p[0])
    requires SortOutcome(g, r)
    ensures exists u :: 0 <= u < |g.nodes| && Reach(g, u, |g.nodes|) && r == Err(InternalError(CycleMessage(g, u)))
  {
    var w := CycleToSinkIsLong(g, p);
    CycleBranch(g, w, r);
  }

  /** With a sink present and a walk of n connections, the outcome is the cycle error. */
  lemma CycleBranch(g: Graph, w: nat, r: Result<SortOrder, GraphError>)
    requires !NoSink(g) && w < |g.nodes| && Reach(g, w, |g.nodes|)
    requires SortOutcome(g, r)
    ensures exists u :: 0 <= u < |g.nodes| && Reach(g, u, |g.nodes|) && r == Err(InternalError(CycleMessage(g, u)))
  {
  }
}
