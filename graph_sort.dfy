/**
 * Reverse topological levelling of src/graph.rs (reverse_topological_sort):
 * a FIFO pass over reversed connections that labels every node with a
 * distance from the sinks, followed by a stable sort of the node indices by
 * that distance and a counter pass that numbers the nodes within each level.
 *
 * Because a node is skipped only when it is popped again at the distance
 * already stored for it, a later and larger distance overwrites the stored
 * one: the final distance of a node is the number of connections on its
 * LONGEST walk to a sink.
 */
module GraphSort {
  import opened Wrappers
  import opened GraphModel

  /** usize::MAX, the "not yet visited" value of the distance buffer. */
  const UsizeMax: nat := 0xFFFF_FFFF_FFFF_FFFF

  /**
   * The result of levelling: the node indices in render order, the depth at
   * each position, the index of each position within its depth level, and
   * the number of nodes on each depth level.
   */
  datatype SortOrder = SortOrder(
    orderIndices: seq<nat>,
    depths: seq<nat>,
    indexAtDepth: seq<nat>,
    nodesInLevel: seq<nat>)

  // ---------------------------------------------------------------------
  // Walks to a sink
  // ---------------------------------------------------------------------

  /** A sink: a node with no outgoing connection. */
  ghost predicate IsSink(g: Graph, u: nat) {
    u < |g.fromConnections| && g.fromConnections[u] == []
  }

  ghost predicate NoSink(g: Graph) {
    forall u :: 0 <= u < |g.nodes| ==> !IsSink(g, u)
  }

  /** Node u feeds node w: some connection in w's to-list comes from u. */
  ghost predicate Feeds(g: Graph, u: nat, w: nat) {
    w < |g.toConnections| &&
    exists k :: 0 <= k < |g.toConnections[w]| && g.toConnections[w][k].fromIndex == u
  }

  /** There is a walk of exactly d connections from u to a sink. */
  ghost predicate Reach(g: Graph, u: nat, d: nat)
    decreases d
  {
    if d == 0 then IsSink(g, u)
    else exists w :: 0 <= w < |g.nodes| && Feeds(g, u, w) && Reach(g, w, d - 1)
  }

  ghost predicate ReachesSink(g: Graph, u: nat) {
    exists d :: Reach(g, u, d)
  }

  /** x is the length of the longest walk from u to a sink. */
  ghost predicate IsLongest(g: Graph, u: nat, x: nat) {
    Reach(g, u, x) && forall d: nat :: Reach(g, u, d) ==> d <= x
  }

  // ---------------------------------------------------------------------
  // The stable sort by depth
  // ---------------------------------------------------------------------

  /** The order a stable sort by key gives to ascending indices: by key, then by index. */
  predicate Before(key: seq<nat>, a: nat, b: nat)
    requires a < |key| && b < |key|
  {
    key[a] < key[b] || (key[a] == key[b] && a < b)
  }

  predicate InBounds(key: seq<nat>, s: seq<nat>) {
    forall i :: 0 <= i < |s| ==> s[i] < |key|
  }

  predicate SortedBy(key: seq<nat>, s: seq<nat>)
    requires InBounds(key, s)
  {
    forall i, j :: 0 <= i < j < |s| ==> Before(key, s[i], s[j])
  }

  /** [0, 1, ..., n - 1]: the indices the source starts the sort from. */
  function Range(n: nat): (r: seq<nat>)
    ensures |r| == n && forall i :: 0 <= i < n ==> r[i] == i
  {
    seq(n, i requires 0 <= i => i)
  }

  /** Inserts x in front of the first element whose key is not smaller. */
  function InsertByKey(key: seq<nat>, x: nat, s: seq<nat>): (r: seq<nat>)
    requires x < |key| && InBounds(key, s)
    ensures multiset(r) == multiset(s) + multiset{x} && InBounds(key, r)
    decreases |s|
  {
    if s == [] then [x]
    else if key[x] <= key[s[0]] then [x] + s
    else
      assert s == [s[0]] + s[1..];
      [s[0]] + InsertByKey(key, x, s[1..])
  }

  /** The library's stable sort of the indices xs by key, as an insertion sort. */
  function SortByKey(key: seq<nat>, xs: seq<nat>): (r: seq<nat>)
    requires InBounds(key, xs)
    ensures multiset(r) == multiset(xs) && InBounds(key, r)
    decreases |xs|
  {
    if xs == [] then []
    else
      assert xs == [xs[0]] + xs[1..];
      InsertByKey(key, xs[0], SortByKey(key, xs[1..]))
  }

  /** Every element of an insertion is the inserted one or one of the list. */
  lemma {:induction false} InsertByKeyMembers(key: seq<nat>, x: nat, s: seq<nat>)
    requires x < |key| && InBounds(key, s)
    ensures forall k :: 0 <= k < |InsertByKey(key, x, s)| ==>
              InsertByKey(key, x, s)[k] == x || InsertByKey(key, x, s)[k] in s
    decreases |s|
  {
    if s != [] && key[s[0]] < key[x] {
      var t := InsertByKey(key, x, s[1..]);
      InsertByKeyMembers(key, x, s[1..]);
      var r := InsertByKey(key, x, s);
      assert r == [s[0]] + t;
      forall k | 0 <= k < |r| ensures r[k] == x || r[k] in s {
        if 0 < k {
          assert r[k] == t[k - 1];
        }
      }
    }
  }

  /** Putting x in front of a sorted list that it precedes keeps it sorted. */
  lemma InsertFrontSorted(key: seq<nat>, x: nat, s: seq<nat>)
    requires x < |key| && InBounds(key, s) && SortedBy(key, s)
    requires s != [] && Before(key, x, s[0])
    ensures InBounds(key, [x] + s) && SortedBy(key, [x] + s)
  {
    var r := [x] + s;
    forall i, j | 0 <= i < j < |r| ensures Before(key, r[i], r[j]) {
      if i == 0 {
        if j > 1 {
          assert Before(key, s[0], s[j - 1]);
        }
      } else {
        assert Before(key, s[i - 1], s[j - 1]);
      }
    }
  }

  /** Putting y in front of a sorted list whose elements it all precedes keeps it sorted. */
  lemma ConsSorted(key: seq<nat>, y: nat, t: seq<nat>)
    requires y < |key| && InBounds(key, t) && SortedBy(key, t)
    requires forall k :: 0 <= k < |t| ==> Before(key, y, t[k])
    ensures InBounds(key, [y] + t) && SortedBy(key, [y] + t)
  {
    var r := [y] + t;
    forall i, j | 0 <= i < j < |r| ensures Before(key, r[i], r[j]) {
      if i == 0 {
        assert r[j] == t[j - 1];
      } else {
        assert r[i] == t[i - 1] && r[j] == t[j - 1];
      }
    }
  }

  lemma {:induction false} InsertByKeySorted(key: seq<nat>, x: nat, s: seq<nat>)
    requires x < |key| && InBounds(key, s) && SortedBy(key, s)
    requires forall i :: 0 <= i < |s| ==> x < s[i]
    ensures SortedBy(key, InsertByKey(key, x, s))
    decreases |s|
  {
    if s == [] {
    } else if key[x] <= key[s[0]] {
      InsertFrontSorted(key, x, s);
    } else {
      var t := InsertByKey(key, x, s[1..]);
      InsertByKeySorted(key, x, s[1..]);
      InsertByKeyMembers(key, x, s[1..]);
      forall k | 0 <= k < |t| ensures Before(key, s[0], t[k]) {
        if t[k] != x {
          var m :| 0 <= m < |s[1..]| && s[1..][m] == t[k];
          assert Before(key, s[0], s[m + 1]);
        }
      }
      ConsSorted(key, s[0], t);
    }
  }

  /**
   * Sorting ascending indices yields a permutation of them that is ordered
   * by key, equal keys keeping their ascending index order.
   */
  lemma {:induction false} SortByKeySorted(key: seq<nat>, xs: seq<nat>)
    requires InBounds(key, xs)
    requires forall i, j :: 0 <= i < j < |xs| ==> xs[i] < xs[j]
    ensures SortedBy(key, SortByKey(key, xs))
    decreases |xs|
  {
    if xs != [] {
      var t := SortByKey(key, xs[1..]);
      SortByKeySorted(key, xs[1..]);
      forall i | 0 <= i < |t| ensures xs[0] < t[i] {
        assert t[i] in multiset(xs[1..]);
        var m :| 0 <= m < |xs[1..]| && xs[1..][m] == t[i];
      }
      InsertByKeySorted(key, xs[0], t);
    }
  }

  // ---------------------------------------------------------------------
  // Counting nodes per level
  // ---------------------------------------------------------------------

  function Sum(s: seq<nat>): nat
    decreases |s|
  {
    if s == [] then 0 else Sum(s[..|s| - 1]) + s[|s| - 1]
  }

  lemma {:induction false} SumUpdate(s: seq<nat>, k: nat, v: nat)
    requires k < |s|
    ensures Sum(s[k := v]) + s[k] == Sum(s) + v
    decreases |s|
  {
    var last := |s| - 1;
    assert s[k := v][..last] == if k < last then s[..last][k := v] else s[..last];
    if k < last {
      SumUpdate(s[..last], k, v);
    }
  }

  predicate SortedDepths(depths: seq<nat>) {
    forall i, j :: 0 <= i < j < |depths| ==> depths[i] <= depths[j]
  }

  /** For each position of s, the number of earlier positions holding the same value. */
  function Ranks(s: seq<nat>): (r: seq<nat>)
  {
    seq(|s|, j requires 0 <= j < |s| => multiset(s[..j])[s[j]])
  }

  /** For each value below bound, the number of positions of s holding it. */
  function Occurrences(s: seq<nat>, bound: nat): (r: seq<nat>)
  {
    seq(bound, d requires 0 <= d => multiset(s)[d])
  }

  lemma RanksStep(s: seq<nat>, x: nat)
    ensures Ranks(s + [x]) == Ranks(s) + [multiset(s)[x]]
  {
    var t := s + [x];
    assert t[..|s|] == s;
    forall j | 0 <= j < |s| ensures Ranks(t)[j] == Ranks(s)[j] {
      assert t[..j] == s[..j];
    }
  }

  lemma OccurrencesStep(s: seq<nat>, x: nat, bound: nat)
    requires x < bound
    ensures Occurrences(s + [x], bound) == Occurrences(s, bound)[x := multiset(s)[x] + 1]
  {
    assert multiset(s + [x]) == multiset(s) + multiset{x};
  }

  /** The state of the counter pass after its first i positions. */
  ghost predicate CountInv(depths: seq<nat>, i: nat, last: nat, index: nat, within: seq<nat>, levels: seq<nat>) {
    && i <= |depths|
    && (i == 0 ==> last == 0)
    && (i > 0 ==> last == depths[i - 1])
    && last < |levels|
    && index == multiset(depths[..i])[last]
    && within == Ranks(depths[..i])
    && levels == Occurrences(depths[..i], |levels|)
    && Sum(levels) == i
  }

  lemma PrefixStep(s: seq<nat>, i: nat)
    requires i < |s|
    ensures s[..i + 1] == s[..i] + [s[i]]
  {
  }

  /** The first position of a new depth value has no earlier position of that depth. */
  lemma FreshDepth(depths: seq<nat>, i: nat)
    requires SortedDepths(depths)
    requires 0 < i < |depths| && depths[i] != depths[i - 1]
    ensures multiset(depths[..i])[depths[i]] == 0
  {
    assert depths[i] !in depths[..i] by {
      forall j | 0 <= j < i ensures depths[j] != depths[i] {
        assert depths[j] <= depths[i - 1];
      }
    }
  }

  /** One step of the counter pass keeps its state consistent. */
  lemma CountStep(depths: seq<nat>, i: nat, last: nat, index: nat, within: seq<nat>, levels: seq<nat>)
    requires SortedDepths(depths)
    requires CountInv(depths, i, last, index, within, levels)
    requires i < |depths| && depths[i] < |levels|
    ensures var index' := if depths[i] != last then 0 else index;
            CountInv(depths, i + 1, depths[i], index' + 1, within + [index'], levels[depths[i] := index' + 1])
  {
    var depth := depths[i];
    var seen := depths[..i];
    var index' := if depth != last then 0 else index;
    if depth != last && i > 0 {
      FreshDepth(depths, i);
    }
    assert index' == multiset(seen)[depth];
    PrefixStep(depths, i);
    RanksStep(seen, depth);
    OccurrencesStep(seen, depth, |levels|);
    SumUpdate(levels, depth, index' + 1);
    assert multiset(seen + [depth])[depth] == index' + 1;
  }

  /**
   * The counter pass over sorted depths: the index of each position within
   * its depth level, and the number of nodes on each level.
   */
  method CountLevels(depths: seq<nat>) returns (indexAtDepth: seq<nat>, nodesInLevel: seq<nat>)
    requires |depths| > 0
    requires SortedDepths(depths)
    ensures CountsLevels(depths, indexAtDepth, nodesInLevel)
  {
    var numDepthLevels := depths[|depths| - 1] + 1;
    var levels := new nat[numDepthLevels](_ => 0);
    var within := new nat[|depths|](_ => 0);
    var lastDepthIndex := 0;
    var indexWithinDepth := 0;
    assert levels[..] == seq(numDepthLevels, _ => 0);
    SumZero(numDepthLevels);
    for depthIndex := 0 to |depths|
      invariant CountInv(depths, depthIndex, lastDepthIndex, indexWithinDepth, within[..depthIndex], levels[..])
    {
      assert depths[depthIndex] <= depths[|depths| - 1];
      ghost var seen := within[..depthIndex];
      ghost var counts := levels[..];
      CountStep(depths, depthIndex, lastDepthIndex, indexWithinDepth, seen, counts);
      if depths[depthIndex] != lastDepthIndex {
        lastDepthIndex := depths[depthIndex];
        indexWithinDepth := 0;
      }
      assert lastDepthIndex == depths[depthIndex];
      within[depthIndex] := indexWithinDepth;
      levels[lastDepthIndex] := indexWithinDepth + 1;
      assert within[..depthIndex + 1] == seen + [indexWithinDepth];
      assert levels[..] == counts[lastDepthIndex := indexWithinDepth + 1];
      indexWithinDepth := indexWithinDepth + 1;
    }
    indexAtDepth := within[..];
    nodesInLevel := levels[..];
    CountDone(depths, lastDepthIndex, indexWithinDepth, indexAtDepth, nodesInLevel);
  }

  /** After the last position the counter state is the result the pass promises. */
  lemma CountDone(depths: seq<nat>, last: nat, index: nat, within: seq<nat>, levels: seq<nat>)
    requires |depths| > 0 && |levels| == depths[|depths| - 1] + 1
    requires |within| == |depths|
    requires CountInv(depths, |depths|, last, index, within[..|depths|], levels)
    ensures CountsLevels(depths, within, levels)
  {
    assert depths[..|depths|] == depths;
    assert within[..|depths|] == within;
  }

  lemma {:induction false} SumZero(n: nat)
    ensures Sum(seq(n, _ => 0)) == 0
  {
    if n > 0 {
      assert seq(n, _ => 0)[..n - 1] == seq(n - 1, _ => 0);
      SumZero(n - 1);
    }
  }

  // ---------------------------------------------------------------------
  // The distance-labelling pass
  // ---------------------------------------------------------------------

  /** The initial queue: every node with an empty from-list, at distance 0, in index order. */
  function SinkSeeds(fromConnections: seq<seq<Connection>>): (q: seq<(nat, nat)>)
    ensures forall i :: 0 <= i < |q| ==>
              q[i].1 == 0 && q[i].0 < |fromConnections| && fromConnections[q[i].0] == []
    ensures forall u :: 0 <= u < |fromConnections| && fromConnections[u] == [] ==> (u, 0) in q
    decreases |fromConnections|
  {
    if fromConnections == [] then []
    else
      var last := |fromConnections| - 1;
      var prefix := fromConnections[..last];
      assert forall u :: 0 <= u < last ==> prefix[u] == fromConnections[u];
      SinkSeeds(prefix) + (if fromConnections[last] == [] then [(last, 0)] else [])
  }

  /** What the pass pushes after fixing node u: each producer feeding u, at distance next. */
  function Producers(g: Graph, u: nat, next: nat): (q: seq<(nat, nat)>)
    requires u < |g.toConnections|
  {
    seq(|g.toConnections[u]|, k requires 0 <= k < |g.toConnections[u]| => (g.toConnections[u][k].fromIndex, next))
  }

  /** A pair (node, distance) has been processed or is still waiting in the queue. */
  ghost predicate Covered(queue: seq<(nat, nat)>, done: set<(nat, nat)>, x: (nat, nat)) {
    x in done || x in queue
  }

  /** Every queued pair names a node, lies within one of `lo` and has a walk of that length. */
  ghost predicate QueueShape(g: Graph, queue: seq<(nat, nat)>, lo: nat) {
    forall i :: 0 <= i < |queue| ==>
      queue[i].0 < |g.nodes| && lo <= queue[i].1 <= lo + 1 && Reach(g, queue[i].0, queue[i].1)
  }

  /** The queue is ordered by distance, so it is popped in that order. */
  ghost predicate QueueSorted(queue: seq<(nat, nat)>) {
    forall i, j :: 0 <= i < j < |queue| ==> queue[i].1 <= queue[j].1
  }

  /** Every processed pair is a real walk no longer than `lo` and at most the stored distance. */
  ghost predicate DoneSound(g: Graph, dist: seq<nat>, lo: nat, done: set<(nat, nat)>)
    requires |dist| == |g.nodes|
  {
    forall p :: p in done ==>
      p.0 < |g.nodes| && p.1 <= lo && Reach(g, p.0, p.1) && dist[p.0] != UsizeMax && p.1 <= dist[p.0]
  }

  /** A stored distance was itself processed. */
  ghost predicate DistDone(g: Graph, dist: seq<nat>, done: set<(nat, nat)>)
    requires |dist| == |g.nodes|
  {
    forall u :: 0 <= u < |g.nodes| && dist[u] != UsizeMax ==> (u, dist[u]) in done
  }

  /** The producers of every processed pair, one further, are processed or queued. */
  ghost predicate Closed(g: Graph, queue: seq<(nat, nat)>, done: set<(nat, nat)>)
    requires Valid(g)
    requires forall p :: p in done ==> p.0 < |g.nodes|
  {
    forall p, k :: p in done && 0 <= k < |g.toConnections[p.0]| ==>
      Covered(queue, done, (g.toConnections[p.0][k].fromIndex, p.1 + 1))
  }

  /** Every sink at distance 0 is processed or queued. */
  ghost predicate Seeded(g: Graph, queue: seq<(nat, nat)>, done: set<(nat, nat)>) {
    forall u :: 0 <= u < |g.nodes| && IsSink(g, u) ==> Covered(queue, done, (u, 0))
  }

  /**
   * The invariant of the distance-labelling loop. `done` holds the pairs
   * (node, distance) whose distance was stored and whose producers were
   * pushed; `lo` is the last distance popped.
   */
  ghost predicate QueueInv(g: Graph, queue: seq<(nat, nat)>, dist: seq<nat>, lo: nat, done: set<(nat, nat)>) {
    && Valid(g)
    && |g.nodes| < UsizeMax
    && |dist| == |g.nodes| && lo < |g.nodes|
    && QueueShape(g, queue, lo)
    && QueueSorted(queue)
    && DoneSound(g, dist, lo, done)
    && DistDone(g, dist, done)
    && Closed(g, queue, done)
    && Seeded(g, queue, done)
  }

  /** The invariant holds once the sinks are queued and nothing is stored. */
  lemma QueueInvInit(g: Graph, queue: seq<(nat, nat)>, dist: seq<nat>)
    requires Valid(g) && 0 < |g.nodes| < UsizeMax
    requires queue == SinkSeeds(g.fromConnections)
    requires dist == seq(|g.nodes|, _ => UsizeMax)
    ensures QueueInv(g, queue, dist, 0, {})
  {
    forall i | 0 <= i < |queue| ensures Reach(g, queue[i].0, queue[i].1) {
      assert IsSink(g, queue[i].0);
    }
  }

  /** Everything in the queue is the popped head or in the rest. */
  lemma PopMembers(queue: seq<(nat, nat)>, y: (nat, nat))
    requires queue != [] && y in queue
    ensures y == queue[0] || y in queue[1..]
  {
    var i :| 0 <= i < |queue| && queue[i] == y;
    if i > 0 {
      assert queue[1..][i - 1] == y;
    }
  }

  /** Popping a pair at the distance already stored for its node changes nothing else. */
  lemma SkipStep(g: Graph, queue: seq<(nat, nat)>, dist: seq<nat>, lo: nat, done: set<(nat, nat)>)
    requires QueueInv(g, queue, dist, lo, done)
    requires queue != [] && queue[0].1 < |g.nodes| && dist[queue[0].0] == queue[0].1
    ensures QueueInv(g, queue[1..], dist, queue[0].1, done)
  {
    var x := queue[0];
    assert dist[x.0] != UsizeMax;
    assert x in done;
    forall y | y in queue ensures y in done || y in queue[1..] {
      PopMembers(queue, y);
    }
    forall i | 0 <= i < |queue| - 1 ensures x.1 <= queue[1..][i].1 {
      assert queue[1..][i] == queue[i + 1];
    }
  }

  /** The queue after a visit keeps its shape and order. */
  lemma VisitQueue(g: Graph, queue: seq<(nat, nat)>, lo: nat)
    requires Valid(g)
    requires QueueShape(g, queue, lo) && QueueSorted(queue)
    requires queue != [] && queue[0].0 < |g.nodes|
    ensures QueueShape(g, queue[1..] + Producers(g, queue[0].0, queue[0].1 + 1), queue[0].1)
    ensures QueueSorted(queue[1..] + Producers(g, queue[0].0, queue[0].1 + 1))
  {
    var (u, d) := queue[0];
    var rest := queue[1..];
    var pushed := Producers(g, u, d + 1);
    var queue' := rest + pushed;
    forall i | 0 <= i < |queue'|
      ensures queue'[i].0 < |g.nodes| && d <= queue'[i].1 <= d + 1 && Reach(g, queue'[i].0, queue'[i].1)
    {
      if i < |rest| {
        assert queue'[i] == queue[i + 1];
      } else {
        var k := i - |rest|;
        assert queue'[i] == pushed[k];
        assert g.toConnections[u][k].fromIndex == pushed[k].0;
        assert Feeds(g, pushed[k].0, u);
      }
    }
    forall i, j | 0 <= i < j < |queue'| ensures queue'[i].1 <= queue'[j].1 {
      if j < |rest| {
        assert queue'[i] == queue[i + 1] && queue'[j] == queue[j + 1];
      } else {
        assert queue'[j] == pushed[j - |rest|];
        if i < |rest| {
          assert queue'[i] == queue[i + 1];
        }
      }
    }
  }

  /** After a visit, what was processed or queued still is, and the new producers are queued. */
  lemma VisitCover(g: Graph, queue: seq<(nat, nat)>, done: set<(nat, nat)>,
                   u: nat, d: nat, queue': seq<(nat, nat)>, done': set<(nat, nat)>)
    requires Valid(g)
    requires queue != [] && queue[0] == (u, d) && u < |g.nodes|
    requires queue' == queue[1..] + Producers(g, u, d + 1) && done' == done + {(u, d)}
    requires forall p :: p in done ==> p.0 < |g.nodes|
    requires Closed(g, queue, done) && Seeded(g, queue, done)
    ensures Closed(g, queue', done')
    ensures Seeded(g, queue', done')
  {
    var rest := queue[1..];
    var pushed := Producers(g, u, d + 1);
    forall y | Covered(queue, done, y) ensures Covered(queue', done', y) {
      if y !in done {
        PopMembers(queue, y);
      }
    }
    forall k | 0 <= k < |g.toConnections[u]| ensures (g.toConnections[u][k].fromIndex, d + 1) in queue' {
      assert queue'[|rest| + k] == pushed[k];
    }
    forall p, k | p in done' && 0 <= k < |g.toConnections[p.0]|
      ensures Covered(queue', done', (g.toConnections[p.0][k].fromIndex, p.1 + 1))
    {
      if p != (u, d) {
        assert Covered(queue, done, (g.toConnections[p.0][k].fromIndex, p.1 + 1));
      }
    }
  }

  /**
   * Popping a pair at a distance other than the stored one stores it, marks
   * it processed and queues its producers one further.
   */
  lemma VisitStep(g: Graph, queue: seq<(nat, nat)>, dist: seq<nat>, lo: nat, done: set<(nat, nat)>,
                  u: nat, d: nat, queue': seq<(nat, nat)>, dist': seq<nat>, done': set<(nat, nat)>)
    requires QueueInv(g, queue, dist, lo, done)
    requires queue != [] && queue[0] == (u, d) && d < |g.nodes| && dist[u] != d
    requires queue' == queue[1..] + Producers(g, u, d + 1)
    requires dist' == dist[u := d] && done' == done + {(u, d)}
    ensures (u, d) !in done
    ensures QueueInv(g, queue', dist', d, done')
  {
    FreshPair(g, queue, dist, lo, done);
    assert QueueShape(g, queue', d) && QueueSorted(queue') by {
      VisitQueue(g, queue, lo);
    }
    assert DoneSound(g, dist', d, done') && DistDone(g, dist', done') by {
      assert lo <= d < UsizeMax && Reach(g, u, d);
      VisitDone(g, dist, lo, done, u, d);
    }
    assert Closed(g, queue', done') && Seeded(g, queue', done') by {
      VisitCover(g, queue, done, u, d, queue', done');
    }
  }

  /** A popped pair whose distance is not the stored one has not been processed. */
  lemma FreshPair(g: Graph, queue: seq<(nat, nat)>, dist: seq<nat>, lo: nat, done: set<(nat, nat)>)
    requires QueueInv(g, queue, dist, lo, done)
    requires queue != [] && dist[queue[0].0] != queue[0].1
    ensures queue[0] !in done
  {
    var (u, d) := queue[0];
    assert queue[0].0 < |g.nodes| && lo <= d;
    if (u, d) in done {
      assert false;
    }
  }

  /** Storing d for u and marking (u, d) processed keeps the processed set sound. */
  lemma VisitDone(g: Graph, dist: seq<nat>, lo: nat, done: set<(nat, nat)>, u: nat, d: nat)
    requires |dist| == |g.nodes| && u < |g.nodes| && lo <= d < UsizeMax && Reach(g, u, d)
    requires DoneSound(g, dist, lo, done) && DistDone(g, dist, done)
    ensures DoneSound(g, dist[u := d], d, done + {(u, d)})
    ensures DistDone(g, dist[u := d], done + {(u, d)})
  {
    var dist' := dist[u := d];
    var done' := done + {(u, d)};
    forall p | p in done'
      ensures p.0 < |g.nodes| && p.1 <= d && Reach(g, p.0, p.1) && dist'[p.0] != UsizeMax && p.1 <= dist'[p.0]
    {
      if p != (u, d) {
        assert p in done;
      }
    }
    forall w | 0 <= w < |g.nodes| && dist'[w] != UsizeMax ensures (w, dist'[w]) in done' {
      if w != u {
        assert dist'[w] == dist[w];
      }
    }
  }

  /**
   * When the queue is empty, every pair (node, distance) with a walk of that
   * length to a sink has been processed.
   */
  lemma {:induction false} Complete(g: Graph, dist: seq<nat>, lo: nat, done: set<(nat, nat)>, u: nat, d: nat)
    requires QueueInv(g, [], dist, lo, done)
    requires u < |g.nodes| && Reach(g, u, d)
    ensures (u, d) in done
    decreases d
  {
    if d == 0 {
      assert Covered([], done, (u, 0));
    } else {
      var w :| 0 <= w < |g.nodes| && Feeds(g, u, w) && Reach(g, w, d - 1);
      Complete(g, dist, lo, done, w, d - 1);
      var k :| 0 <= k < |g.toConnections[w]| && g.toConnections[w][k].fromIndex == u;
      assert Covered([], done, (g.toConnections[w][k].fromIndex, (d - 1) + 1));
    }
  }

  /** From an empty queue, every pair processed so far holds for the whole graph. */
  lemma FinalDistances(g: Graph, dist: seq<nat>, lo: nat, done: set<(nat, nat)>)
    requires QueueInv(g, [], dist, lo, done)
    ensures Labelled(g, dist)
  {
    forall u | 0 <= u < |g.nodes| ensures !Reach(g, u, |g.nodes|) {
      if Reach(g, u, |g.nodes|) {
        Complete(g, dist, lo, done, u, |g.nodes|);
      }
    }
    forall u | 0 <= u < |g.nodes| ensures ReachesSink(g, u) <==> dist[u] != UsizeMax {
      if ReachesSink(g, u) {
        var d :| Reach(g, u, d);
        Complete(g, dist, lo, done, u, d);
      }
      if dist[u] != UsizeMax {
        assert (u, dist[u]) in done;
      }
    }
    forall u, d: nat | 0 <= u < |g.nodes| && dist[u] != UsizeMax && Reach(g, u, d) ensures d <= dist[u] {
      Complete(g, dist, lo, done, u, d);
    }
  }

  /** The sink queue is empty exactly when the graph has no sink. */
  lemma SeedsEmpty(g: Graph)
    requires Valid(g)
    ensures SinkSeeds(g.fromConnections) == [] <==> NoSink(g)
  {
    var q := SinkSeeds(g.fromConnections);
    if q != [] {
      assert IsSink(g, q[0].0);
    }
  }

  // ---------------------------------------------------------------------
  // What the levelling promises
  // ---------------------------------------------------------------------

  function CycleMessage(g: Graph, u: nat): string
    requires u < |g.nodes|
  {
    "Cycle detected at node " + g.nodes[u].name
  }

  function UnreachableMessage(g: Graph, u: nat): string
    requires u < |g.nodes|
  {
    "Unreachable node " + g.nodes[u].name
  }

  /**
   * A successful levelling: every node once, ordered by depth and then by
   * index, each depth the length of the node's longest walk to a sink, and
   * the per-level counters consistent with the depths.
   */
  ghost predicate IsLevelling(g: Graph, so: SortOrder) {
    && |g.nodes| > 0
    && OrdersNodes(g, so.orderIndices, so.depths)
    && CountsLevels(so.depths, so.indexAtDepth, so.nodesInLevel)
  }

  /** Every node once, each with its longest-walk depth, ordered by depth and then by index. */
  ghost predicate OrdersNodes(g: Graph, order: seq<nat>, depths: seq<nat>) {
    var n := |g.nodes|;
    && |order| == n && |depths| == n
    && (forall i :: 0 <= i < n ==> order[i] < n)
    && multiset(order) == multiset(Range(n))
    && (forall i :: 0 <= i < n ==> IsLongest(g, order[i], depths[i]))
    && (forall i, j :: 0 <= i < j < n ==>
          depths[i] < depths[j] || (depths[i] == depths[j] && order[i] < order[j]))
  }

  /** The counters agree with the depths: rank within the level, and the size of each level. */
  predicate CountsLevels(depths: seq<nat>, indexAtDepth: seq<nat>, nodesInLevel: seq<nat>) {
    && |depths| > 0
    && |indexAtDepth| == |depths|
    && |nodesInLevel| == depths[|depths| - 1] + 1
    && (forall i :: 0 <= i < |depths| ==> indexAtDepth[i] == multiset(depths[..i])[depths[i]])
    && (forall d :: 0 <= d < |nodesInLevel| ==> nodesInLevel[d] == multiset(depths)[d])
    && Sum(nodesInLevel) == |depths|
  }

  /**
   * The possible outcomes, in the order the pass detects them: no sink at
   * all; a walk of n connections, which only a cycle allows; a node that
   * reaches no sink (the first such node is named); otherwise a levelling.
   */
  ghost predicate SortOutcome(g: Graph, r: Result<SortOrder, GraphError>) {
    var n := |g.nodes|;
    if NoSink(g) then r == Err(InternalError("EmptyGraph"))
    else if exists u :: 0 <= u < n && Reach(g, u, n) then
      exists u :: 0 <= u < n && Reach(g, u, n) && r == Err(InternalError(CycleMessage(g, u)))
    else if exists u :: 0 <= u < n && !ReachesSink(g, u) then
      exists u :: 0 <= u < n && !ReachesSink(g, u) && (forall v :: 0 <= v < u ==> ReachesSink(g, v)) &&
        r == Err(InternalError(UnreachableMessage(g, u)))
    else r.Ok? && IsLevelling(g, r.value)
  }

  /** Sorting the indices by distance gives depths ordered by depth and then by index. */
  lemma OrderByDistance(distances: seq<nat>, order: seq<nat>, depths: seq<nat>)
    requires order == SortByKey(distances, Range(|distances|))
    requires |depths| == |order| && forall i :: 0 <= i < |order| ==> depths[i] == distances[order[i]]
    ensures forall i, j :: 0 <= i < j < |order| ==>
              depths[i] < depths[j] || (depths[i] == depths[j] && order[i] < order[j])
    ensures SortedDepths(depths)
  {
    SortByKeySorted(distances, Range(|distances|));
  }

  /** The permutation has the length of the range it permutes. */
  lemma PermutationLength(order: seq<nat>, n: nat)
    requires multiset(order) == multiset(Range(n))
    ensures |order| == n
  {
    assert |multiset(order)| == |order|;
    assert |multiset(Range(n))| == |Range(n)|;
  }

  /** Appending one element to a prefix extends it by one. */
  lemma PushStep(s: seq<(nat, nat)>, rest: seq<(nat, nat)>, k: nat)
    requires k < |s|
    ensures rest + s[..k] + [s[k]] == rest + s[..k + 1]
  {
    assert s[..k + 1] == s[..k] + [s[k]];
  }

  lemma CycleOutcome(g: Graph, u: nat)
    requires !NoSink(g) && u < |g.nodes| && Reach(g, u, |g.nodes|)
    ensures SortOutcome(g, Err(InternalError(CycleMessage(g, u))))
  {
  }

  lemma UnreachableOutcome(g: Graph, dist: seq<nat>, v: nat)
    requires !NoSink(g) && Labelled(g, dist) && v < |g.nodes|
    requires dist[v] == UsizeMax && forall w :: 0 <= w < v ==> dist[w] != UsizeMax
    ensures SortOutcome(g, Err(InternalError(UnreachableMessage(g, v))))
  {
  }

  /** The sorted indices, their depths and the counters form a levelling. */
  lemma LevellingHolds(g: Graph, distances: seq<nat>, order: seq<nat>, depths: seq<nat>,
                       indexAtDepth: seq<nat>, nodesInLevel: seq<nat>)
    requires |distances| == |g.nodes| > 0
    requires forall u :: 0 <= u < |g.nodes| ==> IsLongest(g, u, distances[u])
    requires order == SortByKey(distances, Range(|distances|))
    requires |depths| == |order|
    requires forall i :: 0 <= i < |order| ==> depths[i] == distances[order[i]]
    requires CountsLevels(depths, indexAtDepth, nodesInLevel)
    ensures IsLevelling(g, SortOrder(order, depths, indexAtDepth, nodesInLevel))
  {
    PermutationLength(order, |g.nodes|);
    OrderByDistance(distances, order, depths);
    assert OrdersNodes(g, order, depths);
  }

  lemma LevellingOutcome(g: Graph, distances: seq<nat>, so: SortOrder)
    requires !NoSink(g) && |distances| == |g.nodes|
    requires forall u :: 0 <= u < |g.nodes| ==> !Reach(g, u, |g.nodes|)
    requires forall u :: 0 <= u < |g.nodes| ==> IsLongest(g, u, distances[u])
    requires IsLevelling(g, so)
    ensures SortOutcome(g, Ok(so))
  {
    forall u | 0 <= u < |g.nodes| ensures ReachesSink(g, u) {
      assert Reach(g, u, distances[u]);
    }
  }

  /**
   * What the FIFO pass leaves when it ends without a cycle error: no walk of
   * n connections, a stored distance exactly for the nodes that reach a
   * sink, and that distance the length of the node's longest walk.
   */
  ghost predicate Labelled(g: Graph, dist: seq<nat>) {
    && |dist| == |g.nodes|
    && (forall u :: 0 <= u < |g.nodes| ==> !Reach(g, u, |g.nodes|))
    && (forall u :: 0 <= u < |g.nodes| ==> (ReachesSink(g, u) <==> dist[u] != UsizeMax))
    && (forall u :: 0 <= u < |g.nodes| && dist[u] != UsizeMax ==> IsLongest(g, u, dist[u]))
  }

  /** The push loop after a visit: every producer feeding u, in to-list order, at distance next. */
  method PushProducers(g: Graph, u: nat, next: nat, rest: seq<(nat, nat)>) returns (queue: seq<(nat, nat)>)
    requires u < |g.toConnections|
    ensures queue == rest + Producers(g, u, next)
  {
    var connections := g.toConnections[u];
    queue := rest;
    for k := 0 to |connections|
      invariant queue == rest + Producers(g, u, next)[..k]
    {
      PushStep(Producers(g, u, next), rest, k);
      queue := queue + [(connections[k].fromIndex, next)];
    }
    assert Producers(g, u, next)[..|connections|] == Producers(g, u, next);
  }

  /**
   * The FIFO pass of reverse_topological_sort, from the queue of sinks:
   * either the cycle error for a node popped at distance n, or the distance
   * buffer.
   */
  method LabelDistances(g: Graph, seeds: seq<(nat, nat)>) returns (r: Result<seq<nat>, GraphError>)
    requires Valid(g) && 0 < |g.nodes| < UsizeMax
    requires seeds == SinkSeeds(g.fromConnections)
    ensures r.Err? ==> exists u :: 0 <= u < |g.nodes| && Reach(g, u, |g.nodes|) &&
                                   r == Err(InternalError(CycleMessage(g, u)))
    ensures r.Ok? ==> Labelled(g, r.value)
  {
    var n := g.NodeSize();
    var queue: seq<(nat, nat)> := seeds;
    var dist := new nat[n](_ => UsizeMax);
    ghost var lo: nat := 0;
    ghost var done: set<(nat, nat)> := {};
    ghost var universe := set u, d | 0 <= u < n && 0 <= d < n :: (u, d);
    QueueInvInit(g, queue, dist[..]);
    while queue != []
      invariant QueueInv(g, queue, dist[..], lo, done)
      invariant done <= universe
      decreases universe - done, |queue|
    {
      var u: nat, d: nat := queue[0].0, queue[0].1;
      var rest := queue[1..];
      if d >= n {
        assert d == n && Reach(g, u, n);
        return Err(InternalError(CycleMessage(g, u)));
      }
      if dist[u] == d {
        SkipStep(g, queue, dist[..], lo, done);
        queue := rest;
        lo := d;
        continue;
      }
      ghost var queue0, dist0, done0, lo0 := queue, dist[..], done, lo;
      dist[u] := d;
      assert dist[..] == dist0[u := d];
      done := done + {(u, d)};
      lo := d;
      queue := PushProducers(g, u, d + 1, rest);
      VisitStep(g, queue0, dist0, lo0, done0, u, d, queue, dist[..], done);
      assert (u, d) in universe;
    }
    FinalDistances(g, dist[..], lo, done);
    r := Ok(dist[..]);
  }

  /**
   * reverse_topological_sort: the FIFO pass from the sinks over reversed
   * connections, then the stable sort by distance and the counter pass.
   */
  method ReverseTopologicalSort(g: Graph) returns (r: Result<SortOrder, GraphError>)
    requires Valid(g) && |g.nodes| < UsizeMax
    ensures SortOutcome(g, r)
  {
    var n := g.NodeSize();
    var seeds := SinkSeeds(g.fromConnections);
    SeedsEmpty(g);
    if seeds == [] {
      return Err(InternalError("EmptyGraph"));
    }
    var labelled := LabelDistances(g, seeds);
    if labelled.Err? {
      return Err(labelled.error);
    }
    var distances := labelled.value;
    for v := 0 to n
      invariant forall w :: 0 <= w < v ==> distances[w] != UsizeMax && IsLongest(g, w, distances[w])
    {
      if distances[v] == UsizeMax {
        UnreachableOutcome(g, distances, v);
        return Err(InternalError(UnreachableMessage(g, v)));
      }
    }
    var order := SortByKey(distances, Range(n));
    PermutationLength(order, n);
    var depths := seq(n, i requires 0 <= i < n => distances[order[i]]);
    OrderByDistance(distances, order, depths);
    var indexAtDepth, nodesInLevel := CountLevels(depths);
    r := Ok(SortOrder(order, depths, indexAtDepth, nodesInLevel));
    LevellingHolds(g, distances, order, depths, indexAtDepth, nodesInLevel);
    LevellingOutcome(g, distances, r.value);
  }
}
