# merman core in Dafny

merman turns a node graph into a levelled SVG diagram. A node graph here is a
set of named nodes joined by directed connections. merman can also replace
every fenced `merman` block of a markdown text with the diagram drawn from
that block. This project models the three pieces of that pipeline and proves
what each promises.

- **Graph construction** (`src/graph.rs`, `Graph::from_str` after parsing).
  Nodes get indices in insertion order. Keys are looked up in an index map.
  Every connection is filed under its producer and under its consumer. An
  unknown key fails with `Invalid from reference …` / `Invalid to reference …`.
  Modules `GraphModel`, `Wrappers`.
- **Level assignment** (`reverse_topological_sort`). Work starts from the
  sinks, which are nodes without outgoing connections. A FIFO queue walks
  backwards along the connections. A node is skipped only when popped with
  exactly its stored distance, and a distance of at least n is reported as a
  cycle. A stable sort by distance follows, then a counting pass.
  - Modules: `GraphSort`, `GraphCycles`, `GraphExamples`.
  - `ReverseTopologicalSort` is proved to produce `SortOutcome`, in the order
    the source detects problems:
    - `EmptyGraph` when there is no sink;
    - a cycle error naming a node with a walk of n connections;
    - the unreachable-node error `Unreachable node <name>` for the first node
      that reaches no sink;
    - otherwise every node with its longest-walk depth, ordered by depth and
      then by index, with exact per-level ranks and counts.
  - `GraphCycles` ties the cycle error, the unreachable-node error and
    `EmptyGraph` on a graph with nodes to a real cycle. The graph with no
    nodes gets `EmptyGraph` without having one. It also shows that an
    acyclic graph with a sink always gets a levelling.
  - `GraphExamples` derives the exact orders and depths of the two graphs
    tested at `src/graph.rs:214-254`.
- **Layout** (`src/layouting.rs`, `to_svg` and `draw_box`). The SVG is
  modelled as a sequence of drawing elements: header, background frame, box,
  label, curve and close. These carry the integer geometry the source prints,
  with its i32 division truncating toward zero (`Quot`).
  - `ToSvg` builds them with the source's loops and is proved equal to the
    specification `Drawing`.
  - Lemmas state the geometry: column order, boxes inside the declared canvas,
    input arrival points inside the box, curves running left to right, and
    one box per node.
  - Module `Layout`.
- **Markdown splicing** (`src/main.rs`, `find_from` and
  `transform_markdown`).
  - `CollectReplacements` is the scanning loop and `ApplyReplacements` the
    reverse splicing loop. They are proved equal to the functions `Scan` and
    `Assemble`.
  - Every recorded range is a complete block. Scanning stops exactly when no
    complete block remains. A text without blocks comes back unchanged.
  - A generator that re-emits its fenced input gives back the original text.
  - Module `Markdown`.

The depth the code computes is the length of the *longest* walk from a node
to a sink. The skip at `src/graph.rs:146` fires only for an equal distance,
so a node popped again at a larger distance is relabelled and re-expands.
The diamond test at `src/graph.rs:237-254` expects `[0, 1, 2, 3, 3]`. On the
diamond as this model writes it out, that is only correct under longest
walks: Add feeds both Mul and Output. The connections come from the test's
description, because the sample file it loads is not part of this model.

## Model

| member | source | states |
|---|---|---|
| GraphModel.FromEntries | src/graph.rs:71-104 | The construction loops return exactly `Build`: the nodes in order, the two connection tables, or the first reference error. |
| GraphModel.IndexMapFindsPosition | src/graph.rs:82-91 | With distinct keys, the index map sends every key to the position of its entry. |
| GraphModel.ResolveSpec | src/graph.rs:93-99 | Resolving the connections succeeds iff every connection resolves. The resolved list matches the input one for one. On failure the error is that of the first connection that fails. |
| GraphModel.BuildErrors | src/graph.rs:93-99 | Construction fails iff some connection names an unknown key. The error names the first such connection's from key, or else its to key. |
| GraphModel.BuildNodes | src/graph.rs:84-89 | The built graph has one node per entry, in insertion order, with the entry's key, name and op. |
| GraphModel.BuildAccessors | src/graph.rs:107-117 | On a built graph, node_size is the entry count, node(j) is the j-th entry's node, and to_connections()[j] holds exactly the described connections that resolve to consumer j. |
| GraphModel.BuildValid | src/graph.rs:73-80 | The built graph is well formed: one list per node in each table, every connection filed under its own endpoints with valid indices, and each one present in both tables. |
| GraphModel.BuildConnections | src/graph.rs:100-101 | Every described connection appears in the from-list of its producer and the to-list of its consumer, between the nodes it names. |
| GraphModel.OutgoingMembers | src/graph.rs:100 | A from-list holds exactly the connections whose producer is that node. |
| GraphModel.IncomingMembers | src/graph.rs:101 | A to-list holds exactly the connections whose consumer is that node. |
| GraphSort.SinkSeeds | src/graph.rs:121-127 | The initial queue holds (u, 0) for every node without outgoing connections and nothing else. |
| GraphSort.SeedsEmpty | src/graph.rs:129-133 | The initial queue is empty iff the graph has no sink. |
| GraphSort.PushProducers | src/graph.rs:153-158 | The producers of the popped node are appended at the back of the queue, in connection order, at distance d + 1. |
| GraphSort.QueueInvInit | src/graph.rs:121-135 | The seeded queue and the all-sentinel distance vector satisfy the queue invariant. |
| GraphSort.SkipStep | src/graph.rs:145-148 | Popping a pair whose distance is already stored keeps the invariant. |
| GraphSort.VisitStep | src/graph.rs:150-158 | Storing the distance and enqueuing the producers keeps the invariant, and the pair was not processed before, so the loop terminates. |
| GraphSort.LabelDistances | src/graph.rs:135-159 | The queue loop either reports a cycle at a node with a walk of n connections, or ends with every reachable node labelled with its longest walk to a sink and every other node left at the sentinel. |
| GraphSort.Complete | src/graph.rs:137-159 | When the queue is empty, every (node, length) pair of a walk to a sink has been processed. |
| GraphSort.FinalDistances | src/graph.rs:137-159 | When the loop ends there is no walk of n connections, a node is labelled iff it reaches a sink, and its label is its longest walk. |
| GraphSort.SortByKey | src/graph.rs:162-165 | The stable sort keeps the indices as a multiset. |
| GraphSort.SortByKeySorted | src/graph.rs:162-165 | Sorting ascending indices by key orders them by key and then by index, which is what a stable sort gives. |
| GraphSort.OrderByDistance | src/graph.rs:162-168 | Depths read along the sorted order are non-decreasing, with ties in index order. |
| GraphSort.CountLevels | src/graph.rs:170-188 | The counting pass gives each position its rank within its level and each level its number of nodes. The counts add up to the node count. |
| GraphSort.CountStep | src/graph.rs:179-188 | One iteration of the counting loop keeps its invariant, both when the depth changes and when it stays. |
| GraphSort.CycleOutcome | src/graph.rs:139-143 | A walk of n connections gives the cycle error naming that node. |
| GraphSort.UnreachableOutcome | src/graph.rs:161-170 | The first node left at the sentinel gives the unreachable-node error. |
| GraphSort.LevellingHolds | src/graph.rs:161-195 | Longest-walk distances, the stable sort and the counters together form a levelling. |
| GraphSort.ReverseTopologicalSort | src/graph.rs:119-196 | The result is the outcome `SortOutcome` prescribes: EmptyGraph, a cycle error at a node with a walk of n connections, the unreachable-node error, or a levelling with longest-walk depths. |
| GraphCycles.DepthDecreases | src/graph.rs:150-158 | A node's longest-walk depth exceeds that of every node it feeds. |
| GraphCycles.SinkDepth | src/graph.rs:121-127 | A sink has depth 0. |
| GraphCycles.DepthRecurrence | src/graph.rs:150-158 | A node that is not a sink lies one deeper than some node it feeds. |
| GraphCycles.CycleErrorHasCycle | src/graph.rs:138-143 | The cycle error is raised only when the graph really has a cycle. |
| GraphCycles.UnreachableHasCycle | src/graph.rs:161-170 | If some node reaches no sink, the graph has a cycle. |
| GraphCycles.NoSinkHasCycle | src/graph.rs:129-133 | The EmptyGraph error on a graph with at least one node is raised only when the graph has a cycle. |
| GraphCycles.AcyclicIsLevelled | src/graph.rs:119-196 | An acyclic graph with a sink always gets a levelling. |
| GraphCycles.CycleToSinkIsError | src/graph.rs:137-143 | A cycle that reaches a sink always ends in the cycle error. |
| GraphExamples.LevelledBy | src/graph.rs:161-168 | If a potential drops along every connection and each node has a walk of its potential to a sink, the depths are the potential. The order is then the indices sorted by it and then by index. |
| GraphExamples.SortedUnique | src/graph.rs:162-165 | Two index lists with the same elements, both ordered by key and then by index, are equal. |
| GraphExamples.AddValid | src/graph.rs:214-235 | The addition graph of that test is well formed: every connection is filed under both endpoints. |
| GraphExamples.DiamondValid | src/graph.rs:237-254 | The diamond of that test is well formed: every connection is filed under both endpoints. |
| GraphExamples.AddLevels | src/graph.rs:214-235 | The four-node addition graph levels as Output, Add, Input 0, Bias at depths 0, 1, 2, 2. |
| GraphExamples.DiamondLevels | src/graph.rs:237-254 | The diamond levels as Output, Mul, Add, Input 0, Bias at depths 0, 1, 2, 3, 3. |
| Layout.QuotTruncates | src/layouting.rs:44 | The source's i32 division truncates toward zero: negating the dividend negates the quotient, the remainder has the dividend's sign and is below the divisor, and on non-negative values it is Dafny's `/`. |
| Layout.QuotNegativeHalf | src/layouting.rs:49 | On a negative box width the source's half differs from Dafny's: -161 / 2 is -80, not -81. |
| Layout.DrawBoxAround | src/layouting.rs:43-77 | A box is one rectangle of the style's size containing its centre. An op label follows exactly when the node has an op, and the name label comes last. Both labels sit on the centre x within the rectangle's height, the op label no lower than the name. |
| Layout.MaxOf | src/layouting.rs:81 | The maximum level size is one of the sizes and bounds them all. |
| Layout.Position | src/layouting.rs:141 | The producer lookup returns the first position holding the index, or nothing when it is absent. |
| Layout.PositionInLevel | src/layouting.rs:126-133 | Every depth has a level counter, and each in-level index lies below its level's size, which is at most the maximum. |
| Layout.ProducerDeeper | src/layouting.rs:138-143 | In a levelling, each input's producer is found in the order and lies deeper than the consumer. |
| Layout.RenderableIsDrawable | src/layouting.rs:125-143 | A well-formed graph and its levelling meet everything the drawing loop relies on, so no lookup or index fails. |
| Layout.DrawInputs | src/layouting.rs:137-175 | The inner loop emits one curve per input connection, in order, as `InputCurves` prescribes. |
| Layout.ToSvg | src/layouting.rs:79-181 | The whole drawing loop emits exactly `Drawing`: header, frame, every node's elements in sort order, close. |
| Layout.CanvasGrowth | src/layouting.rs:83-84 | Each extra level widens the canvas by one level pitch, and each extra row heightens it by one row pitch. |
| Layout.DefaultCanvas | src/layouting.rs:21-41 | width_per_level and height_per_level of the default style are 210 and 80, so the canvas is 210·levels + 20 by 80·rows + 20. |
| Layout.ColumnStep | src/layouting.rs:129 | The box centre x of a level lies exactly one level pitch per depth step left of a shallower level's. |
| Layout.ColumnsRightToLeft | src/layouting.rs:129 | Deeper levels lie strictly further left, and depth 0 is the rightmost column. |
| Layout.BoxFitsWidth | src/layouting.rs:129 | A box at any level lies within the canvas width. |
| Layout.BoxFitsHeight | src/layouting.rs:130-133 | A box at any in-level index lies within the canvas height. |
| Layout.LevelsCentred | src/layouting.rs:130-133 | A level with fewer nodes than the fullest is centred vertically: equal room above and below for an even row pitch, and for an odd pitch one unit more below per missing row, plus one. |
| Layout.BoxInCanvas | src/layouting.rs:125-135 | Every node's rectangle lies inside the canvas. |
| Layout.ArrivalsInBox | src/layouting.rs:156 | The arrival points of a node's inputs are ordered by input index and lie within the box's height. |
| Layout.ControlOffsetStep | src/layouting.rs:160 | The control-point offset is a quarter gap between adjacent levels and grows by one gap per extra level the curve spans. |
| Layout.CurveLeftToRight | src/layouting.rs:146-160 | A curve leaves the right edge of the producer's box and ends 10 units left of the consumer's box. With a gap above 10 it ends right of where it starts, the first control point is not left of the start, and the second is not right of the end. |
| Layout.ControlPointsBetween | src/layouting.rs:146-160 | With a gap of at least 13, both control points of every curve lie horizontally between its ends. |
| Layout.ControlPointsCross | src/layouting.rs:160 | With a gap of 12 and adjacent levels, the control offset 3 exceeds the distance 2 between the ends. |
| Layout.DrawingShape | src/layouting.rs:79-181 | The drawing opens with the header of the computed size and the frame, closes with the closing element, and has one rectangle per node. |
| Layout.DrawingInsideCanvas | src/layouting.rs:79-181 | Every rectangle of the drawing lies inside the canvas its header declares. |
| Layout.TallMarginOverflows | src/layouting.rs:129 | With margin_height much larger than margin_width, a box sticks out of the canvas on the right. |
| Markdown.FindFrom | src/main.rs:23-27 | A found position is at or after the start and the pattern occurs there. |
| Markdown.FindFromFirst | src/main.rs:23-27 | The found position is the first occurrence at or after the start. |
| Markdown.FindFromNone | src/main.rs:23-27 | Nothing found means the pattern does not occur at or after the start. |
| Markdown.NextBlockSome | src/main.rs:45-51 | A recorded replacement spans a complete block: the opening marker, the first closing marker after it, and the generator applied to the body in between. No opening marker lies before it. |
| Markdown.NextBlockNone | src/main.rs:45-55 | When the loop stops, no complete block remains. |
| Markdown.ScanOrdered | src/main.rs:45-56 | Recorded ranges are in order and do not overlap. |
| Markdown.ScanBlocks | src/main.rs:45-51 | Every recorded range is a complete block. |
| Markdown.ScanGaps | src/main.rs:45-51 | No opening marker is skipped between two recorded blocks. |
| Markdown.ScanStops | src/main.rs:52-55 | After the last recorded block there is no complete block. |
| Markdown.CollectReplacements | src/main.rs:41-56 | The scanning loop records exactly `Scan`. |
| Markdown.ApplyReplacements | src/main.rs:58-62 | Splicing in reverse order gives exactly `Assemble`: the text with each range replaced by its generated text. |
| Markdown.TransformMarkdown | src/main.rs:37-63 | transform_markdown returns `Transform`: every complete block replaced by its generated text. |
| Markdown.NoBlockUnchanged | src/main.rs:37-63 | A text without a complete block comes back unchanged. |
| Markdown.RoundTrip | src/main.rs:37-63 | With a generator that re-fences its input, the transform returns the original text. |
| Markdown.TransformKeepsTail | src/main.rs:52-55 | The text after the last complete block, including an unmatched opening marker, is kept verbatim at the end. |
| Markdown.AssembleLength | src/main.rs:58-62 | The length changes by the generated lengths minus the replaced lengths. |

## Left out

- JSON parsing (`serde_json`) is not modelled. Construction starts from the
  parsed node entries (key, name, op, in description order) and connection
  entries. A parse failure (`ParseError`) is the datatype constructor only.
- The `layout_direction` field and the `Direction` enum are not modelled;
  the source reads neither.
- `GraphModel.IndexMapFindsPosition` assumes distinct keys (`DistinctKeys`),
  because the source's description is an ordered map whose keys are unique.
  `GraphModel.FromEntries` and the other construction lemmas do not need it.
  The source cannot receive a repeated key, since its parsed description
  has unique keys. The model accepts one: it keeps both entries as two
  nodes and resolves lookups of that key to the later one.
- `GraphSort.ReverseTopologicalSort` requires a well-formed graph (`Valid`),
  which `Graph::from_str` always produces (proved by
  `GraphModel.BuildValid`). It also requires fewer than `usize::MAX` nodes,
  because `usize::MAX` is the unvisited sentinel.
- `GraphSort.ReverseTopologicalSort`: a node that reaches no sink keeps the
  sentinel. The source then overflows at `src/graph.rs:170` or indexes out
  of range at `src/graph.rs:185`. The model returns an explicit error
  `Unreachable node <name>` for the first such node instead.
- Rust's `usize` and `i32` are modelled as unbounded integers. Overflow of
  queue distances cannot happen below the cycle bound. i32 overflow of the
  layout coordinates is not modelled. The layout functions take any style
  and divide with `Quot`, as the source does. The geometry lemmas are stated
  for styles without negative lengths (`ValidStyle`).
- The exact SVG text is not modelled. This covers attribute spelling, the
  constant `<defs>` arrowhead block, and the `stroke`/`fill` attributes.
  The drawing is modelled as elements carrying the printed numbers and
  labels.
- `Layout.BoxFitsWidth`, `Layout.BoxInCanvas`, `Layout.DrawingInsideCanvas`
  require `margin_height <= 2 * margin_width`. The source offsets x by
  `margin_height` (`src/layouting.rs:129`, `147`), so the promise does not
  hold for arbitrary styles. `Layout.TallMarginOverflows` gives a style
  where a box leaves the canvas. The default style meets the bound.
- `Layout.ToSvg`, `Layout.DrawInputs` and `Layout.Drawing` require a
  drawable levelling (`Drawable`). That is what `ReverseTopologicalSort`
  always delivers, as `Layout.RenderableIsDrawable` shows. It asks for more
  than the source checks. The source checks explicitly only for an empty
  level list (the `expect` at line 81) and for a producer missing from the
  order (the `unwrap` at line 141). Elsewhere it relies on one order entry,
  depth and rank per node, and on a level counter for each depth. Out-of-range
  indexing panics when these fail. It also relies on each producer lying
  deeper, since the subtraction at line 160 underflows otherwise. On inputs
  that break those facts, the source's own behaviour is not modelled.
- `Layout.CurveLeftToRight` requires `width_between_boxes > 10`, and
  `Layout.ControlPointsBetween` requires at least 13. Below 13, the quarter
  gap the source uses as control offset can exceed the distance between the
  ends of a curve across adjacent levels (`Layout.ControlPointsCross`). The
  default style has 50.
- The SVG generator inside `transform_markdown` is a function parameter
  `gen`. The graph and layout passes it would run are modelled separately.
  A block whose generation panics (`expect` in `generate_svg`) is not
  modelled.
- Strings are sequences of characters. The source indexes UTF-8 bytes; the
  markers are ASCII, so positions agree on ASCII text only.
- The command-line entry point (`main`, argument parsing, file reading and
  writing, stdout) is not modelled: it is I/O.
- `GraphExamples.AddLevels`, `GraphExamples.DiamondLevels`,
  `GraphExamples.AddValid` and `GraphExamples.DiamondValid` start from the
  graphs those tests describe. The nodes are in the order Input 0, Bias,
  Add, (Mul,) Output. The connection lists are written out from the
  diagrams the test names describe. The diamond's lists are Input 0 and Bias
  into Add, Add into Mul and Output, and Mul into Output. The sample JSON
  files the tests load are not part of this model. So the graphs are
  assumed, not derived with `Build`.
