/**
 * The graph model of src/graph.rs: nodes in insertion order, connections
 * resolved from node keys to node indices, and the two adjacency tables
 * (outgoing connections per node, incoming connections per node).
 *
 * The JSON text is not parsed here: construction starts from the parser's
 * output, an ordered list of node entries and a list of key pairs.
 */
module GraphModel {
  import opened Wrappers

  /** A node of the diagram: its key in the description, display name and optional operation label. */
  datatype Node = Node(id: string, name: string, op: Option<string>)

  /** A directed connection: the node at fromIndex produces a value that the node at toIndex consumes. */
  datatype Connection = Connection(fromIndex: nat, toIndex: nat)

  datatype GraphError = ParseError(message: string) | InternalError(message: string)

  /** One parsed node entry: key, name and optional operation label. */
  datatype NodeEntry = NodeEntry(key: string, name: string, op: Option<string>)

  /** One parsed connection, still given by node keys. */
  datatype ConnectionEntry = ConnectionEntry(from: string, to: string)

  datatype Graph = Graph(
    nodes: seq<Node>,
    fromConnections: seq<seq<Connection>>,
    toConnections: seq<seq<Connection>>)
  {
    function NodeSize(): nat { |nodes| }

    function NodeAt(nodeIndex: nat): Node
      requires nodeIndex < |nodes|
    {
      nodes[nodeIndex]
    }

    function ToConnections(): seq<seq<Connection>> { toConnections }
  }

  /** Keys are unique, as they are in the description's ordered mapping. */
  ghost predicate DistinctKeys(entries: seq<NodeEntry>) {
    forall i, j :: 0 <= i < j < |entries| ==> entries[i].key != entries[j].key
  }

  /**
   * A well-formed graph: one from-list and one to-list per node, every
   * connection filed under its own endpoint, every index below the node
   * count, and each connection present in both tables.
   */
  ghost predicate Valid(g: Graph) {
    var n := |g.nodes|;
    && |g.fromConnections| == n
    && |g.toConnections| == n
    && (forall i, k :: 0 <= i < n && 0 <= k < |g.fromConnections[i]| ==>
          g.fromConnections[i][k].fromIndex == i && g.fromConnections[i][k].toIndex < n)
    && (forall j, k :: 0 <= j < n && 0 <= k < |g.toConnections[j]| ==>
          g.toConnections[j][k].toIndex == j && g.toConnections[j][k].fromIndex < n)
    && (forall i, k :: 0 <= i < n && 0 <= k < |g.fromConnections[i]| ==>
          g.fromConnections[i][k] in g.toConnections[g.fromConnections[i][k].toIndex])
    && (forall j, k :: 0 <= j < n && 0 <= k < |g.toConnections[j]| ==>
          g.toConnections[j][k] in g.fromConnections[g.toConnections[j][k].fromIndex])
  }

  /**
   * The key-to-index lookup built by inserting every entry's key with its
   * position, in order; a later insertion of the same key overwrites.
   */
  function IndexMap(entries: seq<NodeEntry>): (m: map<string, nat>)
    ensures forall k :: k in m ==> m[k] < |entries| && entries[m[k]].key == k
    ensures forall j :: 0 <= j < |entries| ==> entries[j].key in m
    decreases |entries|
  {
    if entries == [] then map[]
    else
      var last := |entries| - 1;
      var m0 := IndexMap(entries[..last]);
      assert forall j :: 0 <= j < last ==> entries[..last][j] == entries[j];
      m0[entries[last].key := last]
  }

  /** With unique keys the lookup finds exactly the position of each key. */
  lemma IndexMapFindsPosition(entries: seq<NodeEntry>, j: nat)
    requires DistinctKeys(entries)
    requires j < |entries|
    ensures entries[j].key in IndexMap(entries) && IndexMap(entries)[entries[j].key] == j
  {
    var m := IndexMap(entries);
    var k := entries[j].key;
    assert entries[m[k]].key == k;
  }

  /** Resolves one connection's keys; the from key is checked first. */
  function ResolveOne(m: map<string, nat>, c: ConnectionEntry): Result<Connection, GraphError> {
    if c.from !in m then Err(InternalError("Invalid from reference " + c.from))
    else if c.to !in m then Err(InternalError("Invalid to reference " + c.to))
    else Ok(Connection(m[c.from], m[c.to]))
  }

  /** Resolves the connections in input order; the first failure aborts. */
  function Resolve(m: map<string, nat>, cs: seq<ConnectionEntry>): Result<seq<Connection>, GraphError>
    decreases |cs|
  {
    if cs == [] then Ok([])
    else
      match Resolve(m, cs[..|cs| - 1])
      case Err(e) => Err(e)
      case Ok(xs) =>
        match ResolveOne(m, cs[|cs| - 1])
        case Err(e) => Err(e)
        case Ok(c) => Ok(xs + [c])
  }

  /** The connections of cs whose producer is node i, in input order. */
  function Outgoing(cs: seq<Connection>, i: int): seq<Connection>
    decreases |cs|
  {
    if cs == [] then []
    else Outgoing(cs[..|cs| - 1], i) + (if cs[|cs| - 1].fromIndex == i then [cs[|cs| - 1]] else [])
  }

  /** The connections of cs whose consumer is node j, in input order. */
  function Incoming(cs: seq<Connection>, j: int): seq<Connection>
    decreases |cs|
  {
    if cs == [] then []
    else Incoming(cs[..|cs| - 1], j) + (if cs[|cs| - 1].toIndex == j then [cs[|cs| - 1]] else [])
  }

  /** One from-list per node: the outgoing connections of each node, in input order. */
  function FromTable(cs: seq<Connection>, n: nat): (t: seq<seq<Connection>>)
    ensures |t| == n && forall i :: 0 <= i < n ==> t[i] == Outgoing(cs, i)
  {
    seq(n, i => Outgoing(cs, i))
  }

  /** One to-list per node: the incoming connections of each node, in input order. */
  function ToTable(cs: seq<Connection>, n: nat): (t: seq<seq<Connection>>)
    ensures |t| == n && forall j :: 0 <= j < n ==> t[j] == Incoming(cs, j)
  {
    seq(n, j => Incoming(cs, j))
  }

  function NodesOf(entries: seq<NodeEntry>): seq<Node> {
    seq(|entries|, i requires 0 <= i < |entries| => Node(entries[i].key, entries[i].name, entries[i].op))
  }

  /** The graph that construction yields, or its first reference error. */
  function Build(entries: seq<NodeEntry>, conns: seq<ConnectionEntry>): Result<Graph, GraphError> {
    var n := |entries|;
    match Resolve(IndexMap(entries), conns)
    case Err(e) => Err(e)
    case Ok(cs) =>
      Ok(Graph(NodesOf(entries), FromTable(cs, n), ToTable(cs, n)))
  }

  /** Once a prefix of the connections fails to resolve, so does the whole list, with the same error. */
  lemma {:induction false} ResolveErrorPersists(m: map<string, nat>, cs: seq<ConnectionEntry>, k: nat)
    requires k <= |cs|
    requires Resolve(m, cs[..k]).Err?
    ensures Resolve(m, cs) == Resolve(m, cs[..k])
    decreases |cs| - k
  {
    if k < |cs| {
      assert cs[..k + 1][..k] == cs[..k];
      assert Resolve(m, cs[..k + 1]) == Resolve(m, cs[..k]);
      ResolveErrorPersists(m, cs, k + 1);
    } else {
      assert cs[..k] == cs;
    }
  }

  /** Appending a resolved connection extends both tables at its endpoints. */
  lemma TablesStep(cs: seq<Connection>, c: Connection, n: nat)
    requires c.fromIndex < n && c.toIndex < n
    ensures FromTable(cs, n)[c.fromIndex := Outgoing(cs, c.fromIndex) + [c]] == FromTable(cs + [c], n)
    ensures ToTable(cs, n)[c.toIndex := Incoming(cs, c.toIndex) + [c]] == ToTable(cs + [c], n)
  {
    assert (cs + [c])[..|cs|] == cs;
    var a := FromTable(cs, n)[c.fromIndex := Outgoing(cs, c.fromIndex) + [c]];
    var b := FromTable(cs + [c], n);
    forall i | 0 <= i < n ensures a[i] == b[i] {
      assert Outgoing(cs + [c], i) == Outgoing(cs, i) + (if c.fromIndex == i then [c] else []);
    }
    var a' := ToTable(cs, n)[c.toIndex := Incoming(cs, c.toIndex) + [c]];
    var b' := ToTable(cs + [c], n);
    forall j | 0 <= j < n ensures a'[j] == b'[j] {
      assert Incoming(cs + [c], j) == Incoming(cs, j) + (if c.toIndex == j then [c] else []);
    }
  }

  /** Resolving one more connection successfully extends the resolved prefix. */
  lemma ResolveStep(m: map<string, nat>, conns: seq<ConnectionEntry>, k: nat, xs: seq<Connection>)
    requires k < |conns|
    requires Resolve(m, conns[..k]) == Ok(xs)
    ensures ResolveOne(m, conns[k]).Err? ==> Resolve(m, conns) == Err(ResolveOne(m, conns[k]).error)
    ensures ResolveOne(m, conns[k]).Ok? ==> Resolve(m, conns[..k + 1]) == Ok(xs + [ResolveOne(m, conns[k]).value])
  {
    assert conns[..k + 1][..k] == conns[..k];
    if ResolveOne(m, conns[k]).Err? {
      ResolveErrorPersists(m, conns, k + 1);
    }
  }

  /**
   * Construction as the source performs it: one empty from-list and to-list
   * per node, the nodes pushed with their keys inserted into the lookup, and
   * every connection appended to the lists of both its endpoints.
   */
  method FromEntries(entries: seq<NodeEntry>, conns: seq<ConnectionEntry>) returns (r: Result<Graph, GraphError>)
    ensures r == Build(entries, conns)
  {
    var n := |entries|;
    var fromConnections: seq<seq<Connection>> := [];
    var toConnections: seq<seq<Connection>> := [];
    for i := 0 to n
      invariant |fromConnections| == i && |toConnections| == i
      invariant forall k :: 0 <= k < i ==> fromConnections[k] == [] && toConnections[k] == []
    {
      fromConnections := fromConnections + [[]];
      toConnections := toConnections + [[]];
    }

    var nodes: seq<Node> := [];
    var indexMap: map<string, nat> := map[];
    for index := 0 to n
      invariant nodes == NodesOf(entries[..index])
      invariant indexMap == IndexMap(entries[..index])
    {
      var entry := entries[index];
      assert entries[..index + 1][..index] == entries[..index];
      nodes := nodes + [Node(entry.key, entry.name, entry.op)];
      indexMap := indexMap[entry.key := index];
    }
    assert entries[..n] == entries;

    ghost var resolved: seq<Connection> := [];
    assert fromConnections == FromTable(resolved, n);
    assert toConnections == ToTable(resolved, n);
    for k := 0 to |conns|
      invariant Resolve(indexMap, conns[..k]) == Ok(resolved)
      invariant fromConnections == FromTable(resolved, n)
      invariant toConnections == ToTable(resolved, n)
    {
      var connection := conns[k];
      ResolveStep(indexMap, conns, k, resolved);
      if connection.from !in indexMap {
        return Err(InternalError("Invalid from reference " + connection.from));
      }
      var fromIndex := indexMap[connection.from];
      if connection.to !in indexMap {
        return Err(InternalError("Invalid to reference " + connection.to));
      }
      var toIndex := indexMap[connection.to];
      var c := Connection(fromIndex, toIndex);
      TablesStep(resolved, c, n);
      fromConnections := fromConnections[fromIndex := fromConnections[fromIndex] + [c]];
      toConnections := toConnections[toIndex := toConnections[toIndex] + [c]];
      resolved := resolved + [c];
    }
    assert conns[..|conns|] == conns;
    r := Ok(Graph(nodes, fromConnections, toConnections));
  }

  /**
   * Resolution succeeds exactly when every connection resolves, and then
   * yields the resolved connections in input order; otherwise its error is
   * that of the first connection that does not resolve.
   */
  lemma {:induction false} ResolveSpec(m: map<string, nat>, cs: seq<ConnectionEntry>)
    ensures Resolve(m, cs).Ok? <==> forall k :: 0 <= k < |cs| ==> ResolveOne(m, cs[k]).Ok?
    ensures Resolve(m, cs).Ok? ==>
              |Resolve(m, cs).value| == |cs| &&
              forall k :: 0 <= k < |cs| ==> ResolveOne(m, cs[k]) == Ok(Resolve(m, cs).value[k])
    ensures Resolve(m, cs).Err? ==>
              exists k :: 0 <= k < |cs| && (forall j :: 0 <= j < k ==> ResolveOne(m, cs[j]).Ok?) &&
                          ResolveOne(m, cs[k]) == Err(Resolve(m, cs).error)
    decreases |cs|
  {
    if cs != [] {
      var last := |cs| - 1;
      var prefix := cs[..last];
      ResolveSpec(m, prefix);
      assert forall k :: 0 <= k < last ==> prefix[k] == cs[k];
      match Resolve(m, prefix)
      case Err(e) =>
        var k :| 0 <= k < last && (forall j :: 0 <= j < k ==> ResolveOne(m, prefix[j]).Ok?) &&
                 ResolveOne(m, prefix[k]) == Err(e);
        assert ResolveOne(m, cs[k]).Err?;
      case Ok(xs) =>
        if ResolveOne(m, cs[last]).Err? {
          assert forall j :: 0 <= j < last ==> ResolveOne(m, cs[j]).Ok?;
        }
    }
  }

  /** The connections with producer i are exactly those of cs with fromIndex i. */
  lemma {:induction false} OutgoingMembers(cs: seq<Connection>, i: int, x: Connection)
    ensures x in Outgoing(cs, i) <==> x in cs && x.fromIndex == i
    decreases |cs|
  {
    if cs != [] {
      var prefix := cs[..|cs| - 1];
      OutgoingMembers(prefix, i, x);
      assert cs == prefix + [cs[|cs| - 1]];
    }
  }

  /** The connections with consumer j are exactly those of cs with toIndex j. */
  lemma {:induction false} IncomingMembers(cs: seq<Connection>, j: int, x: Connection)
    ensures x in Incoming(cs, j) <==> x in cs && x.toIndex == j
    decreases |cs|
  {
    if cs != [] {
      var prefix := cs[..|cs| - 1];
      IncomingMembers(prefix, j, x);
      assert cs == prefix + [cs[|cs| - 1]];
    }
  }

  /** Construction keeps the entries in insertion order: node i carries the i-th key, name and op. */
  lemma BuildNodes(entries: seq<NodeEntry>, conns: seq<ConnectionEntry>)
    requires Build(entries, conns).Ok?
    ensures |Build(entries, conns).value.nodes| == |entries|
    ensures forall i :: 0 <= i < |entries| ==>
              Build(entries, conns).value.nodes[i] == Node(entries[i].key, entries[i].name, entries[i].op)
  {
  }

  /**
   * The accessors of a built graph: node_size counts the entries, node(j)
   * is the j-th entry's node, and to_connections()[j] holds exactly the
   * described connections that resolve to a consumer at j.
   */
  lemma BuildAccessors(entries: seq<NodeEntry>, conns: seq<ConnectionEntry>, j: nat, c: Connection)
    requires Build(entries, conns).Ok? && j < |entries|
    ensures var g := Build(entries, conns).value;
            && g.NodeSize() == |entries| && |g.ToConnections()| == |entries|
            && g.NodeAt(j) == Node(entries[j].key, entries[j].name, entries[j].op)
            && (c in g.ToConnections()[j] <==>
                  c.toIndex == j && exists k :: 0 <= k < |conns| && ResolveOne(IndexMap(entries), conns[k]) == Ok(c))
  {
    var m := IndexMap(entries);
    var cs := Resolve(m, conns).value;
    ResolveSpec(m, conns);
    IncomingMembers(cs, j, c);
    if c in cs {
      var k :| 0 <= k < |cs| && cs[k] == c;
      assert ResolveOne(m, conns[k]) == Ok(c);
    }
    if exists k :: 0 <= k < |conns| && ResolveOne(m, conns[k]) == Ok(c) {
      var k :| 0 <= k < |conns| && ResolveOne(m, conns[k]) == Ok(c);
      assert cs[k] == c;
    }
  }

  /** Every graph that construction yields is well formed. */
  lemma BuildValid(entries: seq<NodeEntry>, conns: seq<ConnectionEntry>)
    requires Build(entries, conns).Ok?
    ensures Valid(Build(entries, conns).value)
  {
    var m := IndexMap(entries);
    var n := |entries|;
    var cs := Resolve(m, conns).value;
    var g := Build(entries, conns).value;
    ResolveSpec(m, conns);
    assert forall x :: x in cs ==> x.fromIndex < n && x.toIndex < n by {
      forall x | x in cs ensures x.fromIndex < n && x.toIndex < n {
        var k :| 0 <= k < |cs| && cs[k] == x;
        assert ResolveOne(m, conns[k]) == Ok(x);
      }
    }
    forall i, k | 0 <= i < n && 0 <= k < |g.fromConnections[i]|
      ensures g.fromConnections[i][k].fromIndex == i && g.fromConnections[i][k].toIndex < n
      ensures g.fromConnections[i][k] in g.toConnections[g.fromConnections[i][k].toIndex]
    {
      var x := g.fromConnections[i][k];
      OutgoingMembers(cs, i, x);
      IncomingMembers(cs, x.toIndex, x);
    }
    forall j, k | 0 <= j < n && 0 <= k < |g.toConnections[j]|
      ensures g.toConnections[j][k].toIndex == j && g.toConnections[j][k].fromIndex < n
      ensures g.toConnections[j][k] in g.fromConnections[g.toConnections[j][k].fromIndex]
    {
      var x := g.toConnections[j][k];
      IncomingMembers(cs, j, x);
      OutgoingMembers(cs, x.fromIndex, x);
    }
  }

  /**
   * Every input connection appears, with the indices of
   * the nodes carrying its two keys, in the from-list of its producer and
   * in the to-list of its consumer.
   */
  lemma BuildConnections(entries: seq<NodeEntry>, conns: seq<ConnectionEntry>, k: nat)
    requires Build(entries, conns).Ok?
    requires k < |conns|
    ensures var g := Build(entries, conns).value;
            exists c: Connection :: c.fromIndex < |g.nodes| && c.toIndex < |g.nodes| &&
                        c in g.fromConnections[c.fromIndex] && c in g.toConnections[c.toIndex] &&
                        g.nodes[c.fromIndex].id == conns[k].from && g.nodes[c.toIndex].id == conns[k].to
  {
    var m := IndexMap(entries);
    var n := |entries|;
    var cs := Resolve(m, conns).value;
    var g := Build(entries, conns).value;
    ResolveSpec(m, conns);
    var c := cs[k];
    assert ResolveOne(m, conns[k]) == Ok(c);
    OutgoingMembers(cs, c.fromIndex, c);
    IncomingMembers(cs, c.toIndex, c);
    assert c in g.fromConnections[c.fromIndex] && c in g.toConnections[c.toIndex];
  }

  /** The message an unresolvable connection produces: the from key is blamed first. */
  function ReferenceMessage(keys: map<string, nat>, c: ConnectionEntry): string {
    if c.from !in keys then "Invalid from reference " + c.from else "Invalid to reference " + c.to
  }

  /**
   * Construction fails exactly when some connection names a key that no
   * entry carries; the error then names the offending key of the first
   * such connection, with the from key checked before the to key.
   */
  lemma BuildErrors(entries: seq<NodeEntry>, conns: seq<ConnectionEntry>)
    ensures var keys := IndexMap(entries);
            Build(entries, conns).Err? <==>
              exists k :: 0 <= k < |conns| && (conns[k].from !in keys || conns[k].to !in keys)
    ensures var keys := IndexMap(entries);
            Build(entries, conns).Err? ==>
              exists k :: 0 <= k < |conns| &&
                (forall j :: 0 <= j < k ==> conns[j].from in keys && conns[j].to in keys) &&
                (conns[k].from !in keys || conns[k].to !in keys) &&
                Build(entries, conns).error == InternalError(ReferenceMessage(keys, conns[k]))
  {
    var keys := IndexMap(entries);
    ResolveSpec(keys, conns);
    if Build(entries, conns).Err? {
      var k :| 0 <= k < |conns| && (forall j :: 0 <= j < k ==> ResolveOne(keys, conns[j]).Ok?) &&
               ResolveOne(keys, conns[k]) == Err(Resolve(keys, conns).error);
      assert forall j :: 0 <= j < k ==> conns[j].from in keys && conns[j].to in keys by {
        forall j | 0 <= j < k ensures conns[j].from in keys && conns[j].to in keys {
          assert ResolveOne(keys, conns[j]).Ok?;
        }
      }
    } else {
      forall k | 0 <= k < |conns| ensures conns[k].from in keys && conns[k].to in keys {
        assert ResolveOne(keys, conns[k]).Ok?;
      }
    }
  }
}
