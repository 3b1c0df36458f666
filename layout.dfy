/**
 * The layout of src/layouting.rs: the style, the coordinates of every node
 * box and connection curve, and the sequence of drawing elements to_svg
 * emits. Nodes are placed in columns by depth, depth 0 in the rightmost
 * column; within a column by their index within the level, each column
 * centred vertically.
 */
module Layout {
  import opened Wrappers
  import opened GraphModel
  import opened GraphSort
  import opened GraphCycles

  /** The geometric and typographic configuration of a drawing. */
  datatype Style = Style(
    topLevelMargin: int,
    boxWidth: int,
    widthBetweenBoxes: int,
    boxHeight: int,
    heightBetweenBoxes: int,
    marginWidth: int,
    marginHeight: int,
    textFontSizeNormal: int,
    textFontSizeLarger: int)
  {
    /** The horizontal pitch of the depth columns. */
    function WidthPerLevel(): int {
      boxWidth + widthBetweenBoxes
    }

    /** The vertical pitch of the rows within a column. */
    function HeightPerLevel(): int {
      boxHeight + heightBetweenBoxes
    }
  }

  const DefaultStyle: Style := Style(5, 160, 50, 40, 40, 10, 10, 10, 12)

  /** The styles the layout properties are stated for: no negative length. */
  predicate ValidStyle(style: Style) {
    && style.topLevelMargin >= 0
    && style.boxWidth >= 0 && style.widthBetweenBoxes >= 0
    && style.boxHeight >= 0 && style.heightBetweenBoxes >= 0
    && style.marginWidth >= 0 && style.marginHeight >= 0
    && style.textFontSizeNormal >= 0 && style.textFontSizeLarger >= 0
  }

  /**
   * Division as the source performs it on i32 values: the quotient is
   * truncated toward zero, unlike Dafny's `/` on a negative dividend. Every
   * divisor in the layout is positive.
   */
  function Quot(a: int, b: int): int
    requires b > 0
  {
    if a >= 0 then a / b else -((-a) / b)
  }

  /**
   * Truncation toward zero: negating the dividend negates the quotient, the
   * remainder takes the dividend's sign and stays below the divisor, and on
   * a non-negative dividend the quotient is Dafny's.
   */
  lemma QuotTruncates(a: int, b: int)
    requires b > 0
    ensures Quot(-a, b) == -Quot(a, b)
    ensures a >= 0 ==> Quot(a, b) == a / b && 0 <= a - Quot(a, b) * b < b
    ensures a < 0 ==> -b < a - Quot(a, b) * b <= 0
  {
    if a < 0 {
      assert 0 <= -a - ((-a) / b) * b < b;
    }
  }

  /** Half of a negative width: the source's -161 / 2 is -80, where Dafny's is -81. */
  lemma QuotNegativeHalf()
    ensures Quot(-161, 2) == -80 && -161 / 2 == -81
  {
  }

  /** One drawing element of the output, with its integer attributes. */
  datatype Element =
    | Header(height: int, width: int)
    | Frame(x: int, y: int, height: int, width: int)
    | Box(x: int, y: int, height: int, width: int)
    | Label(fontSize: int, x: int, y: int, text: string)
    | Curve(x0: int, y0: int, x1: int, y1: int, x2: int, y2: int, x3: int, y3: int)
    | Close

  // ---------------------------------------------------------------------
  // Boxes
  // ---------------------------------------------------------------------

  /**
   * draw_box: the rectangle centred on (x, y), the op label a quarter box
   * above the centre when the node has one, and the name a quarter below.
   */
  function DrawBox(node: Node, style: Style, x: int, y: int): seq<Element> {
    var offset := Quot(style.boxHeight, 4);
    var frame := [Box(x - Quot(style.boxWidth, 2), y - Quot(style.boxHeight, 2), style.boxHeight, style.boxWidth)];
    var op := if node.op.Some? then [Label(style.textFontSizeLarger, x, y - offset, node.op.value)] else [];
    frame + op + [Label(style.textFontSizeNormal, x, y + offset, node.name)]
  }

  /**
   * A box is one rectangle of the style's size around its centre, then an
   * op label exactly when the node has an op, then the name label last.
   * Both labels are centred on x within the rectangle's height, the op
   * label no lower than the name label.
   */
  lemma DrawBoxAround(node: Node, style: Style, x: int, y: int)
    requires ValidStyle(style)
    ensures var es := DrawBox(node, style, x, y);
            && 2 <= |es| <= 3 && (|es| == 3 <==> node.op.Some?)
            && es[0].Box? && es[0].width == style.boxWidth && es[0].height == style.boxHeight
            && es[0].x <= x <= es[0].x + es[0].width
            && es[0].y <= y <= es[0].y + es[0].height
            && (forall i :: 1 <= i < |es| ==>
                  es[i].Label? && es[i].x == x && es[0].y <= es[i].y <= es[0].y + es[0].height)
            && es[|es| - 1].text == node.name
            && (node.op.Some? ==> es[1].text == node.op.value && es[1].y <= es[2].y)
  {
  }

  // ---------------------------------------------------------------------
  // Canvas and coordinates
  // ---------------------------------------------------------------------

  /** The largest entry of a non-empty sequence (iter().max()). */
  function MaxOf(s: seq<nat>): (m: nat)
    requires |s| > 0
    ensures m in s && forall i :: 0 <= i < |s| ==> s[i] <= m
    decreases |s|
  {
    if |s| == 1 then s[0]
    else
      var rest := MaxOf(s[1..]);
      assert forall i :: 1 <= i < |s| ==> s[i] == s[1..][i - 1];
      if s[0] >= rest then s[0] else rest
  }

  function CanvasWidth(style: Style, levelCount: int): int {
    style.WidthPerLevel() * levelCount + 2 * style.marginWidth
  }

  function CanvasHeight(style: Style, maxCount: int): int {
    style.HeightPerLevel() * maxCount + 2 * style.marginHeight
  }

  /** Centre x of a box at the given depth; the shift uses margin_height, as the source does. */
  function NodeX(style: Style, levelCount: int, depth: int): int {
    (levelCount - depth - 1) * style.WidthPerLevel() + style.marginHeight + Quot(style.WidthPerLevel(), 2)
  }

  /**
   * Centre y of a box at the given index within a level of `count` nodes,
   * in a drawing whose fullest level has `maxCount`.
   */
  function NodeY(style: Style, maxCount: int, index: int, count: int): int {
    index * style.HeightPerLevel() + style.marginHeight + Quot(style.HeightPerLevel(), 2)
      + Quot(style.HeightPerLevel(), 2) * (maxCount - count)
  }

  /** Arrival height of the j-th of k inputs on a box centred at height y. */
  function ArrivalY(style: Style, y: int, k: nat, j: int): int {
    y + Quot(style.boxHeight, 2) - Quot(style.boxHeight, k + 1) * (k - j)
  }

  /** Horizontal extent of a curve's control points; the depth difference is unsigned in the source. */
  function ControlOffset(style: Style, fromDepth: nat, depth: nat): int
    requires fromDepth > depth
  {
    Quot(style.widthBetweenBoxes, 4) + (fromDepth - depth - 1) * style.widthBetweenBoxes
  }

  /** The first position of v in s (iter().position()). */
  function Position(s: seq<nat>, v: nat): (r: Option<nat>)
    ensures r.Some? ==> r.value < |s| && s[r.value] == v && forall k :: 0 <= k < r.value ==> s[k] != v
    ensures r.None? ==> v !in s
    decreases |s|
  {
    if s == [] then None
    else if s[0] == v then Some(0)
    else match Position(s[1..], v)
      case None => None
      case Some(p) => Some(p + 1)
  }

  // ---------------------------------------------------------------------
  // What the levelling guarantees the renderer
  // ---------------------------------------------------------------------

  /** A graph and a levelling of it, as the renderer receives them. */
  ghost predicate Renderable(g: Graph, so: SortOrder) {
    Valid(g) && IsLevelling(g, so)
  }

  /** Every depth has a level counter, and every index lies below its level's count. */
  lemma PositionInLevel(g: Graph, so: SortOrder, i: nat)
    requires Renderable(g, so) && i < |g.nodes|
    ensures so.depths[i] < |so.nodesInLevel|
    ensures so.indexAtDepth[i] < so.nodesInLevel[so.depths[i]] <= MaxOf(so.nodesInLevel)
  {
    var n := |g.nodes|;
    var ds := so.depths;
    assert |ds| == n && (i < n - 1 ==> ds[i] <= ds[n - 1]) by {
      assert OrdersNodes(g, so.orderIndices, ds);
    }
    RankBelowCount(ds, so.indexAtDepth, so.nodesInLevel, i);
  }

  /**
   * A position of the sorted depths has a level counter, and its rank within
   * its level is below that level's count.
   */
  lemma RankBelowCount(depths: seq<nat>, indexAtDepth: seq<nat>, nodesInLevel: seq<nat>, i: nat)
    requires CountsLevels(depths, indexAtDepth, nodesInLevel) && i < |depths|
    requires i < |depths| - 1 ==> depths[i] <= depths[|depths| - 1]
    ensures depths[i] < |nodesInLevel| && indexAtDepth[i] < nodesInLevel[depths[i]]
  {
    assert depths == depths[..i] + depths[i..];
    assert depths[i] in depths[i..];
    assert multiset(depths) == multiset(depths[..i]) + multiset(depths[i..]);
  }

  /** Every node occurs in the order. */
  lemma NodeInOrder(g: Graph, so: SortOrder, v: nat)
    requires Renderable(g, so) && v < |g.nodes|
    ensures v in so.orderIndices
  {
    assert Range(|g.nodes|)[v] == v;
    assert v in multiset(Range(|g.nodes|));
  }

  /**
   * The producer of every input of the node at position i is found in the
   * order, and lies strictly deeper.
   */
  lemma ProducerDeeper(g: Graph, so: SortOrder, i: nat, j: nat)
    requires Renderable(g, so) && i < |g.nodes| && j < |g.toConnections[so.orderIndices[i]]|
    ensures Position(so.orderIndices, g.toConnections[so.orderIndices[i]][j].fromIndex).Some?
    ensures var p := Position(so.orderIndices, g.toConnections[so.orderIndices[i]][j].fromIndex).value;
            so.depths[p] > so.depths[i]
  {
    var w := so.orderIndices[i];
    var c := g.toConnections[w][j];
    var u := c.fromIndex;
    NodeInOrder(g, so, u);
    var p := Position(so.orderIndices, u).value;
    assert c in g.fromConnections[u];
    var k :| 0 <= k < |g.fromConnections[u]| && g.fromConnections[u][k] == c;
    DepthDecreases(g, u, k, so.depths[p], so.depths[i]);
  }

  /** The position in the order of the producer of the j-th input of the node at position i. */
  function ProducerAt(g: Graph, so: SortOrder, i: nat, j: nat): Option<nat>
    requires i < |so.orderIndices| && so.orderIndices[i] < |g.toConnections|
    requires j < |g.toConnections[so.orderIndices[i]]|
  {
    Position(so.orderIndices, g.toConnections[so.orderIndices[i]][j].fromIndex)
  }

  /**
   * The facts about a graph and an order the renderer relies on: the
   * sequences have one entry per node, every depth has a level counter, and
   * every producer is found in the order at a greater depth.
   */
  ghost predicate Drawable(g: Graph, so: SortOrder) {
    var n := |g.nodes|;
    && |g.toConnections| == n
    && |so.orderIndices| == n && |so.depths| == n && |so.indexAtDepth| == n
    && |so.nodesInLevel| > 0
    && (forall i :: 0 <= i < n ==> so.orderIndices[i] < n && so.depths[i] < |so.nodesInLevel|)
    && (forall i, j :: 0 <= i < n && 0 <= j < |g.toConnections[so.orderIndices[i]]| ==>
          ProducerAt(g, so, i, j).Some? && so.depths[ProducerAt(g, so, i, j).value] > so.depths[i])
  }

  /** The producer facts of a drawable order at one input. */
  lemma ProducerFound(g: Graph, so: SortOrder, i: nat, j: nat)
    requires Drawable(g, so) && i < |g.nodes| && j < |g.toConnections[so.orderIndices[i]]|
    ensures ProducerAt(g, so, i, j).Some?
    ensures so.depths[ProducerAt(g, so, i, j).value] > so.depths[i]
  {
  }

  /** A levelling of a well-formed graph can be drawn. */
  lemma RenderableIsDrawable(g: Graph, so: SortOrder)
    requires Renderable(g, so)
    ensures Drawable(g, so)
  {
    forall i | 0 <= i < |g.nodes| ensures so.depths[i] < |so.nodesInLevel| {
      PositionInLevel(g, so, i);
    }
    forall i, j | 0 <= i < |g.nodes| && 0 <= j < |g.toConnections[so.orderIndices[i]]|
      ensures ProducerAt(g, so, i, j).Some? && so.depths[ProducerAt(g, so, i, j).value] > so.depths[i]
    {
      ProducerDeeper(g, so, i, j);
    }
  }

  // ---------------------------------------------------------------------
  // The elements of the drawing
  // ---------------------------------------------------------------------

  function LevelCount(so: SortOrder): nat {
    |so.nodesInLevel|
  }

  function MaxCount(so: SortOrder): nat
    requires |so.nodesInLevel| > 0
  {
    MaxOf(so.nodesInLevel)
  }

  /** Centre x of the node at position i of the order. */
  function CentreX(g: Graph, so: SortOrder, style: Style, i: nat): int
    requires Drawable(g, so) && i < |g.nodes|
  {
    NodeX(style, LevelCount(so), so.depths[i])
  }

  /** Centre y of the node at position i of the order. */
  function CentreY(g: Graph, so: SortOrder, style: Style, i: nat): int
    requires Drawable(g, so) && i < |g.nodes|
  {
    NodeY(style, MaxCount(so), so.indexAtDepth[i], so.nodesInLevel[so.depths[i]])
  }

  /** The curve into the node at position i from its j-th input's producer. */
  function InputCurve(g: Graph, so: SortOrder, style: Style, i: nat, j: nat): Element
    requires Drawable(g, so) && i < |g.nodes| && j < |g.toConnections[so.orderIndices[i]]|
  {
    var inputs := g.toConnections[so.orderIndices[i]];
    var p := ProducerAt(g, so, i, j).value;
    var xFrom := CentreX(g, so, style, p) + Quot(style.boxWidth, 2);
    var yFrom := CentreY(g, so, style, p);
    var yTo := ArrivalY(style, CentreY(g, so, style, i), |inputs|, j);
    var xTo := CentreX(g, so, style, i) - Quot(style.boxWidth, 2) - 10;
    var ext := ControlOffset(style, so.depths[p], so.depths[i]);
    Curve(xFrom, yFrom, xFrom + ext, yFrom, xTo - ext, yTo, xTo, yTo)
  }

  /** The curves for the first j inputs of the node at position i. */
  function InputCurves(g: Graph, so: SortOrder, style: Style, i: nat, j: nat): (es: seq<Element>)
    requires Drawable(g, so) && i < |g.nodes| && j <= |g.toConnections[so.orderIndices[i]]|
    ensures |es| == j && forall k :: 0 <= k < j ==> es[k].Curve?
    decreases j
  {
    if j == 0 then [] else InputCurves(g, so, style, i, j - 1) + [InputCurve(g, so, style, i, j - 1)]
  }

  /** The box of the node at position i followed by one curve per input. */
  function NodeElements(g: Graph, so: SortOrder, style: Style, i: nat): seq<Element>
    requires Drawable(g, so) && i < |g.nodes|
  {
    var node := so.orderIndices[i];
    DrawBox(g.nodes[node], style, CentreX(g, so, style, i), CentreY(g, so, style, i))
      + InputCurves(g, so, style, i, |g.toConnections[node]|)
  }

  /** The elements of the nodes at the first i positions of the order. */
  function NodesUpTo(g: Graph, so: SortOrder, style: Style, i: nat): seq<Element>
    requires Drawable(g, so) && i <= |g.nodes|
    decreases i
  {
    if i == 0 then [] else NodesUpTo(g, so, style, i - 1) + NodeElements(g, so, style, i - 1)
  }

  /** The header and the background frame. */
  function Preamble(so: SortOrder, style: Style): seq<Element>
    requires |so.nodesInLevel| > 0
  {
    var width := CanvasWidth(style, LevelCount(so));
    var height := CanvasHeight(style, MaxCount(so));
    [Header(height, width),
     Frame(style.topLevelMargin, style.topLevelMargin, height - style.topLevelMargin, width - style.topLevelMargin)]
  }

  /** The whole drawing: preamble, every node in sort order, closing element. */
  function Drawing(g: Graph, so: SortOrder, style: Style): seq<Element>
    requires Drawable(g, so)
  {
    Preamble(so, style) + NodesUpTo(g, so, style, |g.nodes|) + [Close]
  }

  /** One more position of the order appends that node's box and curves. */
  lemma AppendNodes(out: seq<Element>, g: Graph, so: SortOrder, style: Style, i: nat,
                    preamble: seq<Element>, box: seq<Element>, curves: seq<Element>)
    requires Drawable(g, so) && i < |g.nodes|
    requires out == preamble + NodesUpTo(g, so, style, i)
    requires box == DrawBox(g.nodes[so.orderIndices[i]], style, CentreX(g, so, style, i), CentreY(g, so, style, i))
    requires curves == InputCurves(g, so, style, i, |g.toConnections[so.orderIndices[i]]|)
    ensures out + box + curves == preamble + NodesUpTo(g, so, style, i + 1)
  {
  }

  /**
   * The inner loop of to_svg: one curve per input of the node at position
   * i, from the right edge of the producer's box to the left edge of this
   * one, spread over this box's height in input order.
   */
  method DrawInputs(g: Graph, so: SortOrder, style: Style, i: nat, x: int, y: int) returns (curves: seq<Element>)
    requires Drawable(g, so) && i < |g.nodes|
    requires x == CentreX(g, so, style, i) && y == CentreY(g, so, style, i)
    ensures curves == InputCurves(g, so, style, i, |g.toConnections[so.orderIndices[i]]|)
  {
    var levelCount := |so.nodesInLevel|;
    var maxCountInSingleLevel := MaxOf(so.nodesInLevel);
    var levelIndex := so.depths[i];
    var inputs := g.toConnections[so.orderIndices[i]];
    curves := [];
    for connectionIndex := 0 to |inputs|
      invariant curves == InputCurves(g, so, style, i, connectionIndex)
    {
      var fromIndex := inputs[connectionIndex].fromIndex;
      ProducerFound(g, so, i, connectionIndex);
      var fromIndexInSortOrder := Position(so.orderIndices, fromIndex).value;
      var fromLevelIndex := so.depths[fromIndexInSortOrder];
      var numInputs := |inputs|;
      var xFrom := NodeX(style, levelCount, fromLevelIndex) + Quot(style.boxWidth, 2);
      var yFrom := NodeY(style, maxCountInSingleLevel, so.indexAtDepth[fromIndexInSortOrder], so.nodesInLevel[fromLevelIndex]);
      var yTo := ArrivalY(style, y, numInputs, connectionIndex);
      var xTo := x - Quot(style.boxWidth, 2) - 10;
      var controlPointExt := ControlOffset(style, fromLevelIndex, levelIndex);
      curves := curves + [Curve(xFrom, yFrom, xFrom + controlPointExt, yFrom, xTo - controlPointExt, yTo, xTo, yTo)];
    }
  }

  /**
   * to_svg: the preamble, then for each position of the order the node's
   * box and the curves from its inputs' producers, then the closing element.
   */
  method ToSvg(g: Graph, so: SortOrder, style: Style) returns (out: seq<Element>)
    requires Drawable(g, so)
    ensures out == Drawing(g, so, style)
  {
    var levelCount := |so.nodesInLevel|;
    var maxCountInSingleLevel := MaxOf(so.nodesInLevel);
    var width := CanvasWidth(style, levelCount);
    var height := CanvasHeight(style, maxCountInSingleLevel);
    out := [Header(height, width),
            Frame(style.topLevelMargin, style.topLevelMargin, height - style.topLevelMargin, width - style.topLevelMargin)];
    ghost var preamble := out;
    for i := 0 to |so.orderIndices|
      invariant out == preamble + NodesUpTo(g, so, style, i)
    {
      var nodeIndex := so.orderIndices[i];
      var levelIndex := so.depths[i];
      var indexWithinLevel := so.indexAtDepth[i];
      var x := NodeX(style, levelCount, levelIndex);
      var y := NodeY(style, maxCountInSingleLevel, indexWithinLevel, so.nodesInLevel[levelIndex]);
      var box := DrawBox(g.nodes[nodeIndex], style, x, y);
      var curves := DrawInputs(g, so, style, i, x, y);
      AppendNodes(out, g, so, style, i, preamble, box, curves);
      out := out + box + curves;
    }
    out := out + [Close];
  }

  // ---------------------------------------------------------------------
  // Properties of the layout
  // ---------------------------------------------------------------------

  /** Each further level widens the canvas by one column pitch, each further row heightens it by one row pitch. */
  lemma CanvasGrowth(style: Style, levels: int, rows: int)
    ensures CanvasWidth(style, levels + 1) == CanvasWidth(style, levels) + style.WidthPerLevel()
    ensures CanvasHeight(style, rows + 1) == CanvasHeight(style, rows) + style.HeightPerLevel()
  {
  }

  /** The default style: columns 210 apart, rows 80 apart, 20 of margins on each axis. */
  lemma DefaultCanvas(levels: int, rows: int)
    ensures DefaultStyle.WidthPerLevel() == 210 && DefaultStyle.HeightPerLevel() == 80
    ensures CanvasWidth(DefaultStyle, levels) == 210 * levels + 20
    ensures CanvasHeight(DefaultStyle, rows) == 80 * rows + 20
  {
  }

  lemma MulMono(a: int, b: int, c: int)
    requires 0 <= a <= b && c >= 0
    ensures 0 <= a * c <= b * c
  {
    assert b * c - a * c == (b - a) * c;
  }

  /** One depth further is one column pitch further left. */
  lemma {:induction false} ColumnStep(style: Style, levelCount: int, d1: int, d2: int)
    requires d1 <= d2
    ensures NodeX(style, levelCount, d1) == NodeX(style, levelCount, d2) + (d2 - d1) * style.WidthPerLevel()
    decreases d2 - d1
  {
    if d1 < d2 {
      ColumnStep(style, levelCount, d1 + 1, d2);
      var w := style.WidthPerLevel();
      assert (levelCount - d1 - 1) * w == (levelCount - d1 - 2) * w + w;
      assert (d2 - d1) * w == (d2 - d1 - 1) * w + w;
    }
  }

  /** Deeper nodes lie strictly further left; depth 0 is the rightmost column. */
  lemma ColumnsRightToLeft(style: Style, levelCount: int, d1: nat, d2: nat)
    requires style.WidthPerLevel() > 0 && d1 < d2
    ensures NodeX(style, levelCount, d1) > NodeX(style, levelCount, d2)
    ensures NodeX(style, levelCount, 0) >= NodeX(style, levelCount, d2)
  {
    ColumnStep(style, levelCount, d1, d2);
    MulMono(1, d2 - d1, style.WidthPerLevel());
    if d2 > 0 {
      ColumnStep(style, levelCount, 0, d2);
      MulMono(0, d2, style.WidthPerLevel());
    }
  }

  /**
   * A level of count nodes is centred in a canvas sized for maxCount rows:
   * the room above its first row equals the room below its last one when the
   * row pitch is even; an odd pitch leaves one unit more below for each
   * missing row, and one more besides.
   */
  lemma LevelsCentred(style: Style, maxCount: nat, count: nat)
    requires ValidStyle(style) && 0 < count <= maxCount
    ensures var h := style.HeightPerLevel();
            var above := NodeY(style, maxCount, 0, count) - Quot(h, 2);
            var below := CanvasHeight(style, maxCount) - (NodeY(style, maxCount, count - 1, count) + Quot(h, 2));
            below - above == (h % 2) * (maxCount - count + 1)
  {
    var h := style.HeightPerLevel();
    var q := Quot(h, 2);
    var r := h % 2;
    var m := maxCount - count;
    assert h == 2 * q + r;
    assert h * maxCount == h * m + (count - 1) * h + h;
    assert h * m == 2 * (q * m) + r * m;
    assert q * m == Quot(h, 2) * (maxCount - count);
  }

  /** A curve that skips one more level reaches one more gap further out; adjacent levels use a quarter gap. */
  lemma ControlOffsetStep(style: Style, fromDepth: nat, depth: nat)
    requires fromDepth > depth
    ensures ControlOffset(style, fromDepth + 1, depth) == ControlOffset(style, fromDepth, depth) + style.widthBetweenBoxes
    ensures ControlOffset(style, depth + 1, depth) == Quot(style.widthBetweenBoxes, 4)
  {
  }

  /** Horizontal bounds of a box in column d of L, when margin_height is at most twice margin_width. */
  lemma BoxFitsWidth(style: Style, levelCount: nat, d: nat)
    requires ValidStyle(style) && d < levelCount
    requires style.marginHeight <= 2 * style.marginWidth
    ensures var left := NodeX(style, levelCount, d) - Quot(style.boxWidth, 2);
            0 <= left && left + style.boxWidth <= CanvasWidth(style, levelCount)
  {
    var w := style.WidthPerLevel();
    MulMono(levelCount - d - 1, levelCount - 1, w);
    assert (levelCount - 1) * w + w == levelCount * w;
    assert Quot(w, 2) - Quot(style.boxWidth, 2) + style.boxWidth <= w;
  }

  /** Vertical bounds of a box at index idx of a level of occ nodes, the fullest level holding maxCount. */
  lemma BoxFitsHeight(style: Style, maxCount: nat, idx: nat, occ: nat)
    requires ValidStyle(style) && idx < occ <= maxCount
    ensures var top := NodeY(style, maxCount, idx, occ) - Quot(style.boxHeight, 2);
            0 <= top && top + style.boxHeight <= CanvasHeight(style, maxCount)
  {
    var h := style.HeightPerLevel();
    MulMono(idx, occ - 1, h);
    MulMono(Quot(h, 2), h, maxCount - occ);
    assert h * (maxCount - occ) == (maxCount - occ) * h;
    assert (occ - 1) * h + (maxCount - occ) * h + h == maxCount * h;
    assert Quot(h, 2) - Quot(style.boxHeight, 2) + style.boxHeight <= h;
  }

  /** The rectangle drawn for every node lies inside the canvas. */
  lemma BoxInCanvas(g: Graph, so: SortOrder, style: Style, i: nat)
    requires Renderable(g, so) && i < |g.nodes|
    requires ValidStyle(style) && style.marginHeight <= 2 * style.marginWidth
    ensures Drawable(g, so)
    ensures var b := NodeElements(g, so, style, i)[0];
            && b == DrawBox(g.nodes[so.orderIndices[i]], style, CentreX(g, so, style, i), CentreY(g, so, style, i))[0]
            && 0 <= b.x && b.x + b.width <= CanvasWidth(style, LevelCount(so))
            && 0 <= b.y && b.y + b.height <= CanvasHeight(style, MaxCount(so))
  {
    RenderableIsDrawable(g, so);
    PositionInLevel(g, so, i);
    BoxFitsWidth(style, LevelCount(so), so.depths[i]);
    BoxFitsHeight(style, MaxCount(so), so.indexAtDepth[i], so.nodesInLevel[so.depths[i]]);
  }

  /** The inputs of a box arrive in order from top to bottom, all within the box's height. */
  lemma ArrivalsInBox(style: Style, y: int, k: nat, j1: nat, j2: nat)
    requires ValidStyle(style) && j1 <= j2 < k
    ensures ArrivalY(style, y, k, j1) <= ArrivalY(style, y, k, j2)
    ensures y - Quot(style.boxHeight, 2) <= ArrivalY(style, y, k, j1)
    ensures ArrivalY(style, y, k, j2) <= y + Quot(style.boxHeight, 2)
  {
    var q := Quot(style.boxHeight, k + 1);
    MulMono(k - j2, k - j1, q);
    MulMono(k - j1, k, q);
    assert q * (k + 1) <= style.boxHeight;
    assert k * q <= style.boxHeight - q;
    assert style.boxHeight - q <= 2 * Quot(style.boxHeight, 2) + 1 - q;
    MulMono(1, k - j2, q);
  }

  /**
   * Every curve starts at the right edge of its producer's box and, when
   * the gap between columns exceeds the arrowhead allowance of 10, ends
   * further right, with non-negative control offsets. (The control points
   * need a wider gap to stay between the ends: see ControlPointsBetween.)
   */
  lemma CurveLeftToRight(g: Graph, so: SortOrder, style: Style, i: nat, j: nat)
    requires Drawable(g, so) && i < |g.nodes| && j < |g.toConnections[so.orderIndices[i]]|
    requires ValidStyle(style) && style.widthBetweenBoxes > 10
    ensures var c := InputCurve(g, so, style, i, j);
            && c.x0 == CentreX(g, so, style, ProducerAt(g, so, i, j).value) + Quot(style.boxWidth, 2)
            && c.x3 == CentreX(g, so, style, i) - Quot(style.boxWidth, 2) - 10
            && c.x0 < c.x3 && c.x0 <= c.x1 && c.x2 <= c.x3
  {
    ProducerFound(g, so, i, j);
    var p := ProducerAt(g, so, i, j).value;
    ColumnStep(style, LevelCount(so), so.depths[i], so.depths[p]);
    MulMono(1, so.depths[p] - so.depths[i], style.WidthPerLevel());
    MulMono(0, so.depths[p] - so.depths[i] - 1, style.widthBetweenBoxes);
  }

  /**
   * With a gap between columns of at least 13, both control points of every
   * curve lie horizontally between its ends. (A gap of 12 and an even box
   * width leave the adjacent-level ends 2 apart, less than the offset 3.)
   */
  lemma ControlPointsBetween(g: Graph, so: SortOrder, style: Style, i: nat, j: nat)
    requires Drawable(g, so) && i < |g.nodes| && j < |g.toConnections[so.orderIndices[i]]|
    requires ValidStyle(style) && style.widthBetweenBoxes >= 13
    ensures var c := InputCurve(g, so, style, i, j);
            c.x0 <= c.x1 <= c.x3 && c.x0 <= c.x2 <= c.x3
  {
    ProducerFound(g, so, i, j);
    var p := ProducerAt(g, so, i, j).value;
    var steps := so.depths[p] - so.depths[i];
    ColumnStep(style, LevelCount(so), so.depths[i], so.depths[p]);
    assert steps * style.WidthPerLevel() == steps * style.boxWidth + steps * style.widthBetweenBoxes;
    MulMono(1, steps, style.boxWidth);
    MulMono(0, steps - 1, style.widthBetweenBoxes);
    assert (steps - 1) * style.widthBetweenBoxes + style.widthBetweenBoxes == steps * style.widthBetweenBoxes;
  }

  /**
   * A gap of 12 is not enough: between adjacent levels of a drawing with
   * zero-width boxes the curve's ends are 2 apart and its control offset is
   * 3, so the first control point passes the end.
   */
  lemma ControlPointsCross()
    ensures var style := Style(0, 0, 12, 0, 0, 0, 0, 0, 0);
            var x0 := NodeX(style, 2, 1) + Quot(style.boxWidth, 2);
            var x3 := NodeX(style, 2, 0) - Quot(style.boxWidth, 2) - 10;
            x3 - x0 == 2 && x0 + ControlOffset(style, 1, 0) > x3
  {
  }

  /** The number of rectangles among the elements. */
  function CountBoxes(es: seq<Element>): nat
    decreases |es|
  {
    if es == [] then 0 else CountBoxes(es[..|es| - 1]) + (if es[|es| - 1].Box? then 1 else 0)
  }

  lemma {:induction false} CountBoxesAppend(a: seq<Element>, b: seq<Element>)
    ensures CountBoxes(a + b) == CountBoxes(a) + CountBoxes(b)
    decreases |b|
  {
    if b != [] {
      var m := |b| - 1;
      assert (a + b)[..|a + b| - 1] == a + b[..m];
      CountBoxesAppend(a, b[..m]);
    } else {
      assert a + b == a;
    }
  }

  /** Elements none of which is a rectangle. */
  lemma {:induction false} CountNoBoxes(es: seq<Element>)
    requires forall k :: 0 <= k < |es| ==> !es[k].Box?
    ensures CountBoxes(es) == 0
    decreases |es|
  {
    if es != [] {
      CountNoBoxes(es[..|es| - 1]);
    }
  }

  /** Each node contributes exactly one rectangle. */
  lemma NodeHasOneBox(g: Graph, so: SortOrder, style: Style, i: nat)
    requires Drawable(g, so) && i < |g.nodes|
    ensures CountBoxes(NodeElements(g, so, style, i)) == 1
  {
    var node := so.orderIndices[i];
    var box := DrawBox(g.nodes[node], style, CentreX(g, so, style, i), CentreY(g, so, style, i));
    var curves := InputCurves(g, so, style, i, |g.toConnections[node]|);
    assert box == [box[0]] + box[1..];
    CountBoxesAppend([box[0]], box[1..]);
    assert CountBoxes([box[0]]) == 1 by {
      assert [box[0]][..0] == [];
    }
    CountNoBoxes(box[1..]);
    CountNoBoxes(curves);
    CountBoxesAppend(box, curves);
  }

  /** The node at position i adds one rectangle to the i before it. */
  lemma NodesUpToBoxesStep(g: Graph, so: SortOrder, style: Style, i: nat)
    requires Drawable(g, so) && i < |g.nodes|
    requires CountBoxes(NodesUpTo(g, so, style, i)) == i
    ensures CountBoxes(NodesUpTo(g, so, style, i + 1)) == i + 1
  {
    NodeHasOneBox(g, so, style, i);
    CountBoxesAppend(NodesUpTo(g, so, style, i), NodeElements(g, so, style, i));
  }

  /** Once the first i nodes hold i rectangles, all the nodes hold one each. */
  lemma {:induction false} NodesUpToBoxes(g: Graph, so: SortOrder, style: Style, i: nat)
    requires Drawable(g, so) && i <= |g.nodes|
    requires CountBoxes(NodesUpTo(g, so, style, i)) == i
    ensures CountBoxes(NodesUpTo(g, so, style, |g.nodes|)) == |g.nodes|
    decreases |g.nodes| - i, 1
  {
    if i < |g.nodes| {
      NodesUpToBoxesAfter(g, so, style, i);
    } else {
      assert i == |g.nodes|;
    }
  }

  /** The induction step of NodesUpToBoxes, for a position before the last. */
  lemma {:induction false} NodesUpToBoxesAfter(g: Graph, so: SortOrder, style: Style, i: nat)
    requires Drawable(g, so) && i < |g.nodes|
    requires CountBoxes(NodesUpTo(g, so, style, i)) == i
    ensures CountBoxes(NodesUpTo(g, so, style, |g.nodes|)) == |g.nodes|
    decreases |g.nodes| - i, 0
  {
    NodesUpToBoxesStep(g, so, style, i);
    NodesUpToBoxes(g, so, style, i + 1);
  }

  /**
   * The drawing opens with the canvas header and the background frame,
   * closes with the closing element, and holds one rectangle per node.
   */
  lemma DrawingShape(g: Graph, so: SortOrder, style: Style)
    requires Drawable(g, so)
    ensures var d := Drawing(g, so, style);
            && |d| >= 3
            && d[0] == Header(CanvasHeight(style, MaxCount(so)), CanvasWidth(style, LevelCount(so)))
            && d[1].Frame? && d[1].x == style.topLevelMargin && d[1].y == style.topLevelMargin
            && d[|d| - 1] == Close
            && CountBoxes(d) == |g.nodes|
  {
    var pre := Preamble(so, style);
    var body := NodesUpTo(g, so, style, |g.nodes|);
    NodesUpToBoxes(g, so, style, 0);
    CountNoBoxes(pre);
    CountNoBoxes([Close]);
    CountBoxesAppend(pre, body);
    CountBoxesAppend(pre + body, [Close]);
  }

  /** A rectangle lies inside a width-by-height canvas; other elements are not constrained. */
  predicate Inside(e: Element, width: int, height: int) {
    e.Box? ==> 0 <= e.x && e.x + e.width <= width && 0 <= e.y && e.y + e.height <= height
  }

  /** Every rectangle among the elements lies inside a width-by-height canvas. */
  predicate BoxesInside(es: seq<Element>, width: int, height: int) {
    forall e :: e in es ==> Inside(e, width, height)
  }

  /** The only rectangle among a node's elements is its box. */
  lemma NodeBoxOnly(g: Graph, so: SortOrder, style: Style, i: nat, width: int, height: int)
    requires Drawable(g, so) && i < |g.nodes|
    requires Inside(NodeElements(g, so, style, i)[0], width, height)
    ensures BoxesInside(NodeElements(g, so, style, i), width, height)
  {
    var node := so.orderIndices[i];
    var box := DrawBox(g.nodes[node], style, CentreX(g, so, style, i), CentreY(g, so, style, i));
    var curves := InputCurves(g, so, style, i, |g.toConnections[node]|);
    forall e: Element | e in box + curves && e.Box? ensures e == box[0] {
      if e !in curves {
        var k :| 0 <= k < |box| && box[k] == e;
      }
    }
  }

  /** All of a node's rectangles, which is its box alone, lie inside the canvas. */
  lemma NodeInsideCanvas(g: Graph, so: SortOrder, style: Style, i: nat)
    requires Renderable(g, so) && i < |g.nodes|
    requires ValidStyle(style) && style.marginHeight <= 2 * style.marginWidth
    ensures Drawable(g, so)
    ensures BoxesInside(NodeElements(g, so, style, i), CanvasWidth(style, LevelCount(so)), CanvasHeight(style, MaxCount(so)))
  {
    BoxInCanvas(g, so, style, i);
    NodeBoxOnly(g, so, style, i, CanvasWidth(style, LevelCount(so)), CanvasHeight(style, MaxCount(so)));
  }

  /** The node at position i, its rectangles inside, keeps the rectangles so far inside. */
  lemma NodesUpToInsideStep(g: Graph, so: SortOrder, style: Style, i: nat, width: int, height: int)
    requires Drawable(g, so) && i < |g.nodes|
    requires BoxesInside(NodeElements(g, so, style, i), width, height)
    requires BoxesInside(NodesUpTo(g, so, style, i), width, height)
    ensures BoxesInside(NodesUpTo(g, so, style, i + 1), width, height)
  {
    InsideAppend(NodesUpTo(g, so, style, i), NodeElements(g, so, style, i), width, height);
  }

  /**
   * Once the rectangles of the first i nodes lie inside the canvas, and so
   * do those of every later node, all of them do.
   */
  lemma {:induction false} NodesUpToInside(g: Graph, so: SortOrder, style: Style, i: nat, width: int, height: int)
    requires Drawable(g, so) && i <= |g.nodes|
    requires forall k :: i <= k < |g.nodes| ==> BoxesInside(NodeElements(g, so, style, k), width, height)
    requires BoxesInside(NodesUpTo(g, so, style, i), width, height)
    ensures BoxesInside(NodesUpTo(g, so, style, |g.nodes|), width, height)
    decreases |g.nodes| - i, 1
  {
    if i < |g.nodes| {
      NodesUpToInsideAfter(g, so, style, i, width, height);
    } else {
      assert i == |g.nodes|;
    }
  }

  /** The induction step of NodesUpToInside, for a position before the last. */
  lemma {:induction false} NodesUpToInsideAfter(g: Graph, so: SortOrder, style: Style, i: nat, width: int, height: int)
    requires Drawable(g, so) && i < |g.nodes|
    requires forall k :: i <= k < |g.nodes| ==> BoxesInside(NodeElements(g, so, style, k), width, height)
    requires BoxesInside(NodesUpTo(g, so, style, i), width, height)
    ensures BoxesInside(NodesUpTo(g, so, style, |g.nodes|), width, height)
    decreases |g.nodes| - i, 0
  {
    NodesUpToInsideStep(g, so, style, i, width, height);
    NodesUpToInside(g, so, style, i + 1, width, height);
  }

  lemma InsideAppend(a: seq<Element>, b: seq<Element>, width: int, height: int)
    requires BoxesInside(a, width, height) && BoxesInside(b, width, height)
    ensures BoxesInside(a + b, width, height)
  {
  }

  /**
   * With margin_height at most twice margin_width (as in the default
   * style), every rectangle of the drawing lies inside the canvas its
   * header declares.
   */
  lemma DrawingInsideCanvas(g: Graph, so: SortOrder, style: Style)
    requires Renderable(g, so)
    requires ValidStyle(style) && style.marginHeight <= 2 * style.marginWidth
    ensures Drawable(g, so)
    ensures var d := Drawing(g, so, style);
            d[0].Header? && BoxesInside(d, d[0].width, d[0].height)
  {
    RenderableIsDrawable(g, so);
    var width, height := CanvasWidth(style, LevelCount(so)), CanvasHeight(style, MaxCount(so));
    forall k | 0 <= k < |g.nodes| ensures BoxesInside(NodeElements(g, so, style, k), width, height) {
      NodeInsideCanvas(g, so, style, k);
    }
    NodesUpToInside(g, so, style, 0, width, height);
  }

  /**
   * margin_height shifts the columns horizontally: with a margin_height of
   * 100 and no margin_width, the single box of a one-node drawing sticks
   * out of the canvas on the right.
   */
  lemma TallMarginOverflows()
    ensures var style := Style(0, 10, 0, 10, 0, 0, 100, 0, 0);
            NodeX(style, 1, 0) - Quot(style.boxWidth, 2) + style.boxWidth > CanvasWidth(style, 1)
  {
  }
}
