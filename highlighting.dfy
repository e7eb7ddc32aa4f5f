/**
 * The three restyling operations of the highlighting utility: highlighting one
 * selected node and its neighbourhood, resetting all highlighting, and
 * highlighting several selected nodes at once. Each returns a restyled copy of
 * the nodes and edges, element by element, in the same order.
 */
module Highlighting {
  import opened Wrappers
  import opened JsText
  import opened FlowGraph
  import opened Neighbours

  /** `HighlightConfig`: every field may be left `undefined`. */
  datatype HighlightConfig = HighlightConfig(
    selectedNodeId: Option<string>,
    highlightColor: Option<string>,
    dimmedOpacity: Option<real>,
    highlightOpacity: Option<real>)

  const DefaultHighlightColor: string := "#3b82f6"
  const DefaultDimmedOpacity: real := 0.3
  const DefaultHighlightOpacity: real := 1.0

  /** The class words the node and edge passes add, and that a reset removes. */
  const NodeMarkers: seq<string> := ["selected-node", "highlighted-node", "dimmed-node"]
  const EdgeMarkers: seq<string> := ["highlighted-edge", "dimmed-edge"]

  /** The values the operations use, with the destructuring defaults applied to `undefined` fields. */
  function Color(config: HighlightConfig): string { config.highlightColor.GetOr(DefaultHighlightColor) }
  function Dimmed(config: HighlightConfig): real { config.dimmedOpacity.GetOr(DefaultDimmedOpacity) }
  function Bright(config: HighlightConfig): real { config.highlightOpacity.GetOr(DefaultHighlightOpacity) }

  /** `!selectedNodeId`: no node is selected when the id is `undefined` or empty. */
  predicate NoSelection(config: HighlightConfig) {
    config.selectedNodeId.None? || config.selectedNodeId.value == ""
  }

  /** The box shadow drawn around the selected node: a 2px ring in the highlight colour at alpha `40`. */
  function Ring(color: string): string {
    "0 0 0 2px " + color + "40"
  }

  /** The node class template: old class, optional `selected-node`, then `highlighted-node` or `dimmed-node`, trimmed. */
  function NodeClass(className: Option<string>, isSelected: bool, isHighlighted: bool): (r: string)
    ensures Trimmed(r)
    ensures EndsWith(r, if isHighlighted then "highlighted-node" else "dimmed-node")
  {
    var m := if isHighlighted then "highlighted-node" else "dimmed-node";
    var a := if isSelected then "selected-node" else "";
    NodeTemplateTail(ClassOrEmpty(className) + " " + a + " ", m);
    Trim(ClassOrEmpty(className) + " " + a + " " + m)
  }

  /** The node template keeps its marker at the end through the trim. */
  lemma NodeTemplateTail(p: string, m: string)
    requires m == "highlighted-node" || m == "dimmed-node"
    ensures EndsWith(Trim(p + m), m)
  {
    TrimKeepsTail(p, m);
  }

  /** The edge class template: old class, then `highlighted-edge` or `dimmed-edge`, trimmed. */
  function EdgeClass(className: Option<string>, isConnected: bool): (r: string)
    ensures Trimmed(r)
    ensures var m := if isConnected then "highlighted-edge" else "dimmed-edge";
      |m| <= |r| && r[|r| - |m|..] == m
  {
    var m := if isConnected then "highlighted-edge" else "dimmed-edge";
    TrimKeepsTail(ClassOrEmpty(className) + " ", m);
    Trim(ClassOrEmpty(className) + " " + m)
  }

  /**
   * The style a highlighting pass gives a node. `withRing` distinguishes the
   * single-selection pass, which also writes `boxShadow`, from the
   * multi-selection pass, which leaves it alone.
   */
  function MarkedNodeStyle(style: Style, isSelected: bool, isHighlighted: bool, config: HighlightConfig, withRing: bool): Style {
    var s := style["opacity" := Num(if isHighlighted then Bright(config) else Dimmed(config))]
                  ["borderColor" := if isSelected then Str(Color(config)) else Get(style, "borderColor")]
                  ["borderWidth" := if isSelected then Num(2.0) else OrOne(Get(style, "borderWidth"))];
    if withRing then s["boxShadow" := if isSelected then Str(Ring(Color(config))) else Get(style, "boxShadow")]
    else s
  }

  /**
   * The style a highlighting pass gives an edge. `withWidth` distinguishes the
   * single-selection pass, which also writes `strokeWidth`, from the
   * multi-selection pass, which leaves it alone.
   */
  function MarkedEdgeStyle(style: Style, isConnected: bool, config: HighlightConfig, withWidth: bool): Style {
    var s := style["opacity" := Num(if isConnected then Bright(config) else Dimmed(config))]
                  ["stroke" := if isConnected then Str(Color(config)) else Get(style, "stroke")];
    if withWidth then s["strokeWidth" := if isConnected then Num(2.0) else OrOne(Get(style, "strokeWidth"))]
    else s
  }

  function MarkNode<D>(node: Node<D>, isSelected: bool, isHighlighted: bool, config: HighlightConfig, withRing: bool): Node<D> {
    node.(style := MarkedNodeStyle(node.style, isSelected, isHighlighted, config, withRing),
          className := Some(NodeClass(node.className, isSelected, isHighlighted)))
  }

  function MarkEdge<D>(edge: Edge<D>, isConnected: bool, config: HighlightConfig, withWidth: bool): Edge<D> {
    edge.(style := MarkedEdgeStyle(edge.style, isConnected, config, withWidth),
          className := Some(EdgeClass(edge.className, isConnected)))
  }

  /** `applyNodeHighlighting(nodes, edges, config)`. */
  function ApplyNodeHighlighting<D(!new)>(nodes: seq<Node<D>>, edges: seq<Edge<D>>, config: HighlightConfig): (r: Elements<D>)
    ensures |r.nodes| == |nodes| && |r.edges| == |edges|
    ensures forall k :: 0 <= k < |nodes| ==> r.nodes[k].id == nodes[k].id && r.nodes[k].payload == nodes[k].payload
    ensures forall k :: 0 <= k < |edges| ==>
      r.edges[k].(style := edges[k].style, className := edges[k].className) == edges[k]
  {
    var bright := Bright(config);
    if NoSelection(config) then
      Elements(
        seq(|nodes|, k requires 0 <= k < |nodes| => nodes[k].(style := nodes[k].style["opacity" := Num(bright)])),
        seq(|edges|, k requires 0 <= k < |edges| => edges[k].(style := edges[k].style["opacity" := Num(bright)])))
    else
      var selected := config.selectedNodeId.value;
      var highlighted := Around(selected, edges);
      Elements(
        seq(|nodes|, k requires 0 <= k < |nodes| =>
          MarkNode(nodes[k], nodes[k].id == selected, nodes[k].id in highlighted, config, true)),
        seq(|edges|, k requires 0 <= k < |edges| =>
          MarkEdge(edges[k], edges[k].source == selected || edges[k].target == selected, config, true)))
  }

  /** `resetHighlighting(nodes, edges)`. */
  function ResetHighlighting<D>(nodes: seq<Node<D>>, edges: seq<Edge<D>>): (r: Elements<D>)
    ensures |r.nodes| == |nodes| && |r.edges| == |edges|
    ensures forall k :: 0 <= k < |nodes| ==> r.nodes[k].id == nodes[k].id && r.nodes[k].payload == nodes[k].payload
    ensures forall k :: 0 <= k < |edges| ==>
      r.edges[k].(style := edges[k].style, className := edges[k].className) == edges[k]
  {
    Elements(
      seq(|nodes|, k requires 0 <= k < |nodes| => ResetNode(nodes[k])),
      seq(|edges|, k requires 0 <= k < |edges| => ResetEdge(edges[k])))
  }

  function ResetNode<D>(node: Node<D>): Node<D> {
    node.(style := node.style["opacity" := Num(1.0)]["boxShadow" := Undef],
          className := if node.className.Some? then Some(StripWords(node.className.value, NodeMarkers)) else None)
  }

  function ResetEdge<D>(edge: Edge<D>): Edge<D> {
    edge.(style := edge.style["opacity" := Num(1.0)],
          className := if edge.className.Some? then Some(StripWords(edge.className.value, EdgeMarkers)) else None)
  }

  /** Every character of `x` is a word character. */
  predicate AllWordChars(x: string) {
    forall i :: 0 <= i < |x| ==> IsWordChar(x[i])
  }

  /** Two runs of word characters joined by a hyphen form a well-formed word. */
  lemma HyphenatedWellFormed(x: string, y: string)
    requires |x| > 0 && |y| > 0 && AllWordChars(x) && AllWordChars(y)
    ensures WellFormedWord(x + "-" + y)
  {
    var w := x + "-" + y;
    forall q | 1 <= q < |w| ensures IsWordChar(w[q - 1]) || IsWordChar(w[q]) {
      if q - 1 < |x| {
        assert w[q - 1] == x[q - 1];
      } else {
        assert w[q] == y[q - |x| - 1];
      }
    }
    assert w[|w| - 1] == y[|y| - 1];
  }

  /** The node marker words begin and end with word characters and never hold two non-word characters in a row. */
  lemma NodeMarkersWellFormed()
    ensures WellFormedWords(NodeMarkers)
  {
    assert AllWordChars("node");
    assert WellFormedWord("selected-node") by {
      assert AllWordChars("selected");
      HyphenatedWellFormed("selected", "node");
      assert "selected" + "-" + "node" == "selected-node";
    }
    assert WellFormedWord("highlighted-node") by {
      assert AllWordChars("highlighted");
      HyphenatedWellFormed("highlighted", "node");
      assert "highlighted" + "-" + "node" == "highlighted-node";
    }
    assert WellFormedWord("dimmed-node") by {
      assert AllWordChars("dimmed");
      HyphenatedWellFormed("dimmed", "node");
      assert "dimmed" + "-" + "node" == "dimmed-node";
    }
  }

  /** The edge marker words begin and end with word characters and never hold two non-word characters in a row. */
  lemma EdgeMarkersWellFormed()
    ensures WellFormedWords(EdgeMarkers)
  {
    assert AllWordChars("edge");
    assert WellFormedWord("highlighted-edge") by {
      assert AllWordChars("highlighted");
      HyphenatedWellFormed("highlighted", "edge");
      assert "highlighted" + "-" + "edge" == "highlighted-edge";
    }
    assert WellFormedWord("dimmed-edge") by {
      assert AllWordChars("dimmed");
      HyphenatedWellFormed("dimmed", "edge");
      assert "dimmed" + "-" + "edge" == "dimmed-edge";
    }
  }

  /** The node markers also start with different letters and hold no space. */
  lemma NodeMarkersSeparable()
    ensures Separable(NodeMarkers)
  {
    NodeMarkersWellFormed();
    assert NodeMarkers[0][0] == 's' && NodeMarkers[1][0] == 'h' && NodeMarkers[2][0] == 'd';
    assert ' ' !in "selected-node" && ' ' !in "highlighted-node" && ' ' !in "dimmed-node";
  }

  lemma EdgeMarkersSeparable()
    ensures Separable(EdgeMarkers)
  {
    EdgeMarkersWellFormed();
    assert EdgeMarkers[0][0] == 'h' && EdgeMarkers[1][0] == 'd';
    assert ' ' !in "highlighted-edge" && ' ' !in "dimmed-edge";
  }

  /** A class a highlighting pass may start from and a reset gives back: absent, or trimmed and free of markers. */
  predicate PlainClass(className: Option<string>, markers: seq<string>) {
    className.None? || (Clean(className.value, markers) && Trimmed(className.value))
  }

  /** A well-formed marker neither starts nor ends with white space. */
  lemma MarkerTrimmed(b: string, markers: seq<string>)
    requires Separable(markers) && b in markers
    ensures |b| > 0 && Trimmed(b) && !IsSpace(b[0])
  {
    SpaceIsNotWordChar(b[0]);
    SpaceIsNotWordChar(b[|b| - 1]);
  }

  lemma EmptyIsClean(markers: seq<string>)
    requires NonEmptyWords(markers)
    ensures Clean("", markers)
  {
    forall p, w | 0 <= p <= 0 && w in markers ensures !MatchesAt("", p, w) {
      assert |w| > 0;
    }
  }

  /** The marker part of the node template, `a + " " + b` with `a` empty or a marker, loses its markers and keeps one space. */
  lemma MarkerPartRemoved(a: string, b: string, markers: seq<string>)
    requires Separable(markers) && b in markers && (a == "" || a in markers)
    ensures RemoveWords(a + " " + b, markers) == " "
  {
    WordAlone(b, markers);
    if a == "" {
      EmptyIsClean(markers);
      PlainThenSpace("", b, markers);
    } else {
      WordThenSpace(a, b, markers);
    }
  }

  /**
   * The node template `c + " " + (a + " " + b)`, trimmed, then reset: a
   * trimmed class `c` free of markers comes back.
   */
  lemma NodeTemplateRoundTrip(c: string, a: string, b: string, markers: seq<string>)
    requires Separable(markers) && Clean(c, markers) && Trimmed(c)
    requires b in markers && (a == "" || a in markers)
    ensures StripWords(Trim(c + " " + (a + " " + b)), markers) == c
  {
    if |c| > 0 {
      NodeTemplateWithClass(c, a, b, markers);
    } else if a == "" {
      NodeTemplateMarkerOnly(b, markers);
    } else {
      NodeTemplateMarkersOnly(a, b, markers);
    }
  }

  /** With a class in front, trimming keeps the template and the reset leaves `c` and two spaces, which the trim drops. */
  lemma NodeTemplateWithClass(c: string, a: string, b: string, markers: seq<string>)
    requires Separable(markers) && Clean(c, markers) && Trimmed(c) && |c| > 0
    requires b in markers && (a == "" || a in markers)
    ensures StripWords(Trim(c + " " + (a + " " + b)), markers) == c
  {
    MarkerTrimmed(b, markers);
    MarkerPartRemoved(a, b, markers);
    var tail := a + " " + b;
    var u := c + " " + tail;
    assert u[|u| - 1] == b[|b| - 1];
    assert u[0] == c[0];
    TrimOfTrimmed(u);
    PlainThenSpace(c, tail, markers);
    ConcatAssoc(c, " ", " ");
    TrimTrailing(c, " " + " ");
  }

  /** With no class and no selection marker, the trim leaves the one marker, which the reset removes. */
  lemma NodeTemplateMarkerOnly(b: string, markers: seq<string>)
    requires Separable(markers) && b in markers
    ensures StripWords(Trim("" + " " + ("" + " " + b)), markers) == ""
  {
    MarkerTrimmed(b, markers);
    assert "" + " " + ("" + " " + b) == (" " + " ") + b;
    TrimLeading(" " + " ", b);
    WordAlone(b, markers);
    TrimOfTrimmed("");
  }

  /** With no class but both markers, the trim leaves `a + " " + b`, which the reset turns into one space, trimmed away. */
  lemma NodeTemplateMarkersOnly(a: string, b: string, markers: seq<string>)
    requires Separable(markers) && b in markers && a in markers
    ensures StripWords(Trim("" + " " + (a + " " + b)), markers) == ""
  {
    MarkerTrimmed(b, markers);
    MarkerTrimmed(a, markers);
    MarkerPartRemoved(a, b, markers);
    var tail := a + " " + b;
    assert tail[|tail| - 1] == b[|b| - 1] && tail[0] == a[0];
    assert "" + " " + tail == " " + tail;
    TrimLeading(" ", tail);
    TrimLeading(" ", "");
    assert " " + "" == " ";
  }

  /** The edge template `c + " " + b`, trimmed, then reset: a trimmed class `c` free of markers comes back. */
  lemma EdgeTemplateRoundTrip(c: string, b: string, markers: seq<string>)
    requires Separable(markers) && Clean(c, markers) && Trimmed(c) && b in markers
    ensures StripWords(Trim(c + " " + b), markers) == c
  {
    MarkerTrimmed(b, markers);
    WordAlone(b, markers);
    var u := c + " " + b;
    assert u[|u| - 1] == b[|b| - 1];
    if |c| > 0 {
      assert u[0] == c[0];
      TrimOfTrimmed(u);
      PlainThenSpace(c, b, markers);
      TrimTrailing(c, " ");
      assert c + " " + "" == c + " ";
    } else {
      assert u == " " + b;
      TrimLeading(" ", b);
      TrimOfTrimmed("");
    }
  }

  /** The class string of the node template, grouped as the old class, a space and the marker part. */
  lemma NodeClassShape(c: string, a: string, b: string)
    ensures c + " " + a + " " + b == c + " " + (a + " " + b)
  {
    ConcatAssoc(c + " ", a, " ");
    ConcatAssoc(c + " ", a + " ", b);
  }

  /**
   * Resetting a class the node pass built from a trimmed class free of
   * markers gives that class back.
   */
  lemma NodeClassRoundTrip(c: string, isSelected: bool, isHighlighted: bool)
    requires Clean(c, NodeMarkers) && Trimmed(c)
    ensures StripWords(NodeClass(Some(c), isSelected, isHighlighted), NodeMarkers) == c
  {
    var a := if isSelected then "selected-node" else "";
    var b := if isHighlighted then "highlighted-node" else "dimmed-node";
    NodeClassShape(c, a, b);
    NodeMarkersSeparable();
    assert b in NodeMarkers && (a == "" || a in NodeMarkers);
    NodeTemplateRoundTrip(c, a, b, NodeMarkers);
  }

  /** Resetting a class the edge pass built from a trimmed class free of markers gives that class back. */
  lemma EdgeClassRoundTrip(c: string, isConnected: bool)
    requires Clean(c, EdgeMarkers) && Trimmed(c)
    ensures StripWords(EdgeClass(Some(c), isConnected), EdgeMarkers) == c
  {
    var b := if isConnected then "highlighted-edge" else "dimmed-edge";
    EdgeMarkersSeparable();
    assert b in EdgeMarkers;
    EdgeTemplateRoundTrip(c, b, EdgeMarkers);
  }

  /** The style keys other than `keys` are as before. */
  ghost predicate SameExcept(after: Style, before: Style, keys: set<string>) {
    forall key :: key !in keys ==> Get(after, key) == Get(before, key)
  }

  /**
   * A reset sets every opacity to 1 and clears every node's box shadow, keeps
   * all other style keys, keeps an absent class absent, and leaves a class
   * with no marker word between word boundaries and no surrounding white space;
   * a class without marker words is only trimmed.
   */
  lemma ResetNodes<D>(nodes: seq<Node<D>>, edges: seq<Edge<D>>, k: int)
    requires 0 <= k < |nodes|
    ensures var before := nodes[k]; var after := ResetHighlighting(nodes, edges).nodes[k];
      Get(after.style, "opacity") == Num(1.0) && Get(after.style, "boxShadow") == Undef &&
      SameExcept(after.style, before.style, {"opacity", "boxShadow"}) &&
      (before.className.None? <==> after.className.None?) &&
      (before.className.Some? ==>
        var c := after.className.value;
        Clean(c, NodeMarkers) && Trimmed(c) &&
        (Clean(before.className.value, NodeMarkers) ==> c == Trim(before.className.value)))
  {
    NodeMarkersWellFormed();
    if nodes[k].className.Some? {
      var c := nodes[k].className.value;
      StripWordsIsClean(c, NodeMarkers);
      if Clean(c, NodeMarkers) {
        StripWordsOfClean(c, NodeMarkers);
      }
    }
  }

  /** A reset sets every edge opacity to 1 and keeps all other style keys; edge classes lose their markers as node classes do. */
  lemma ResetEdges<D>(nodes: seq<Node<D>>, edges: seq<Edge<D>>, k: int)
    requires 0 <= k < |edges|
    ensures var before := edges[k]; var after := ResetHighlighting(nodes, edges).edges[k];
      Get(after.style, "opacity") == Num(1.0) &&
      SameExcept(after.style, before.style, {"opacity"}) &&
      (before.className.None? <==> after.className.None?) &&
      (before.className.Some? ==>
        var c := after.className.value;
        Clean(c, EdgeMarkers) && Trimmed(c) &&
        (Clean(before.className.value, EdgeMarkers) ==> c == Trim(before.className.value)))
  {
    EdgeMarkersWellFormed();
    if edges[k].className.Some? {
      var c := edges[k].className.value;
      StripWordsIsClean(c, EdgeMarkers);
      if Clean(c, EdgeMarkers) {
        StripWordsOfClean(c, EdgeMarkers);
      }
    }
  }

  /** Resetting twice is resetting once. */
  lemma ResetIdempotent<D>(nodes: seq<Node<D>>, edges: seq<Edge<D>>)
    ensures var r := ResetHighlighting(nodes, edges);
      ResetHighlighting(r.nodes, r.edges) == r
  {
    var r := ResetHighlighting(nodes, edges);
    var r2 := ResetHighlighting(r.nodes, r.edges);
    NodeMarkersWellFormed();
    EdgeMarkersWellFormed();
    forall k | 0 <= k < |nodes| ensures r2.nodes[k] == r.nodes[k] {
      if nodes[k].className.Some? {
        StripWordsIdempotent(nodes[k].className.value, NodeMarkers);
      }
      assert r.nodes[k].style["opacity" := Num(1.0)]["boxShadow" := Undef] == r.nodes[k].style;
    }
    forall k | 0 <= k < |edges| ensures r2.edges[k] == r.edges[k] {
      if edges[k].className.Some? {
        StripWordsIdempotent(edges[k].className.value, EdgeMarkers);
      }
      assert r.edges[k].style["opacity" := Num(1.0)] == r.edges[k].style;
    }
  }

  /** A class without marker words, such as `node-box`, survives a reset. */
  lemma ResetKeepsPlainClass()
    ensures StripWords("node-box", NodeMarkers) == "node-box"
  {
    PlainClassIsClean();
    StripWordsOfClean("node-box", NodeMarkers);
    PlainClassIsTrimmed();
  }

  lemma PlainClassIsTrimmed()
    ensures Trim("node-box") == "node-box"
  {
    TrimOfTrimmed("node-box");
  }

  lemma PlainClassIsClean()
    ensures Clean("node-box", NodeMarkers)
  {
    forall p, w | 0 <= p <= 8 && w in NodeMarkers ensures !MatchesAt("node-box", p, w) {
      assert |w| > 8;
    }
  }

  /** `\b` holds between the hyphen and the `d` that follows it, so `my-dimmed-node` loses its tail and becomes `my-`. */
  lemma ResetCutsHyphenatedClass()
    ensures StripWords("my-dimmed-node", NodeMarkers) == "my-"
  {
    HyphenatedClassRemoval();
    TrimOfTrimmed("my-");
  }

  lemma HyphenatedClassRemoval()
    ensures RemoveWords("my-dimmed-node", NodeMarkers) == "my-"
  {
    var s := "my-dimmed-node";
    assert [s[0]] + ([s[1]] + ([s[2]] + "")) == "my-";
    HyphenatedClassTail();
    HyphenatedClassHead();
    KeptStep(s, NodeMarkers, 2, 3);
    KeptStep(s, NodeMarkers, 1, 2);
    KeptStep(s, NodeMarkers, 0, 1);
  }

  /** The scan keeps the characters at positions 0 to 2. */
  lemma HyphenatedClassHead()
    ensures var s := "my-dimmed-node";
      FirstMatch(s, 0, NodeMarkers).None? && FirstMatch(s, 1, NodeMarkers).None? && FirstMatch(s, 2, NodeMarkers).None?
  {
    var s := "my-dimmed-node";
    forall w | w in NodeMarkers ensures !MatchesAt(s, 0, w) && !MatchesAt(s, 2, w) {
      assert w[0] != s[0] && w[0] != s[2];
    }
    assert !IsBoundary(s, 1);
  }

  /** At position 3 the scan removes `dimmed-node`, which reaches the end. */
  lemma HyphenatedClassTail()
    ensures RemoveFrom("my-dimmed-node", NodeMarkers, 3) == ""
  {
    var s := "my-dimmed-node";
    assert !FitsAfter(s, 3, "selected-node") && !FitsAfter(s, 3, "highlighted-node");
    assert s[3..14] == "dimmed-node";
    assert MatchesAt(s, 3, "dimmed-node");
    assert FirstMatch(s, 3, NodeMarkers) == Some("dimmed-node");
  }

  /** With no node selected every element keeps everything but its opacity, which becomes `highlightOpacity`. */
  lemma NoSelectionNodes<D(!new)>(nodes: seq<Node<D>>, edges: seq<Edge<D>>, config: HighlightConfig, k: int)
    requires NoSelection(config) && 0 <= k < |nodes|
    ensures var before := nodes[k]; var after := ApplyNodeHighlighting(nodes, edges, config).nodes[k];
      Get(after.style, "opacity") == Num(Bright(config)) &&
      SameExcept(after.style, before.style, {"opacity"}) &&
      after.className == before.className
  {
  }

  lemma NoSelectionEdges<D(!new)>(nodes: seq<Node<D>>, edges: seq<Edge<D>>, config: HighlightConfig, k: int)
    requires NoSelection(config) && 0 <= k < |edges|
    ensures var before := edges[k]; var after := ApplyNodeHighlighting(nodes, edges, config).edges[k];
      Get(after.style, "opacity") == Num(Bright(config)) &&
      SameExcept(after.style, before.style, {"opacity"}) &&
      after.className == before.className
  {
  }

  /** The selected node and the nodes joined to it by an edge, in either direction. */
  predicate InNeighbourhood<D(!new)>(selected: string, edges: seq<Edge<D>>, id: string) {
    id == selected || Adjacent(selected, edges, id)
  }

  /** With a node selected, node `k` is marked as selected when it is that node and as highlighted when it is in its neighbourhood. */
  lemma SelectionNodeAt<D(!new)>(nodes: seq<Node<D>>, edges: seq<Edge<D>>, config: HighlightConfig, k: int)
    requires !NoSelection(config) && 0 <= k < |nodes|
    ensures var selected := config.selectedNodeId.value;
      ApplyNodeHighlighting(nodes, edges, config).nodes[k] ==
        MarkNode(nodes[k], nodes[k].id == selected, InNeighbourhood(selected, edges, nodes[k].id), config, true)
  {
    var selected := config.selectedNodeId.value;
    var id := nodes[k].id;
    assert (id in Around(selected, edges)) == InNeighbourhood(selected, edges, id);
  }

  /** What marking a node writes: opacity, border and, with `withRing`, box shadow; everything else is kept. */
  lemma MarkNodeStyle<D>(node: Node<D>, isSelected: bool, isHighlighted: bool, config: HighlightConfig, withRing: bool)
    ensures var after := MarkNode(node, isSelected, isHighlighted, config, withRing);
      Get(after.style, "opacity") == Num(if isHighlighted then Bright(config) else Dimmed(config)) &&
      Get(after.style, "borderColor") == (if isSelected then Str(Color(config)) else Get(node.style, "borderColor")) &&
      Get(after.style, "borderWidth") == (if isSelected then Num(2.0) else OrOne(Get(node.style, "borderWidth"))) &&
      Get(after.style, "boxShadow") ==
        (if withRing && isSelected then Str(Ring(Color(config))) else Get(node.style, "boxShadow")) &&
      SameExcept(after.style, node.style, {"opacity", "borderColor", "borderWidth"} + (if withRing then {"boxShadow"} else {})) &&
      after.id == node.id && after.payload == node.payload &&
      after.className == Some(NodeClass(node.className, isSelected, isHighlighted))
  {
    NodeStyleWrites(node.style, isSelected, isHighlighted, config, withRing);
  }

  /** The style half of `MarkNodeStyle`. */
  lemma NodeStyleWrites(style: Style, isSelected: bool, isHighlighted: bool, config: HighlightConfig, withRing: bool)
    ensures var after := MarkedNodeStyle(style, isSelected, isHighlighted, config, withRing);
      Get(after, "opacity") == Num(if isHighlighted then Bright(config) else Dimmed(config)) &&
      Get(after, "borderColor") == (if isSelected then Str(Color(config)) else Get(style, "borderColor")) &&
      Get(after, "borderWidth") == (if isSelected then Num(2.0) else OrOne(Get(style, "borderWidth"))) &&
      Get(after, "boxShadow") == (if withRing && isSelected then Str(Ring(Color(config))) else Get(style, "boxShadow")) &&
      SameExcept(after, style, {"opacity", "borderColor", "borderWidth"} + (if withRing then {"boxShadow"} else {}))
  {
  }

  /**
   * With a node selected, a node is bright exactly when it is the selected
   * node or joined to it by an edge, and dimmed otherwise; only the selected
   * node gets the highlight border and ring; every other style key is kept.
   */
  lemma SelectionNodes<D(!new)>(nodes: seq<Node<D>>, edges: seq<Edge<D>>, config: HighlightConfig, k: int)
    requires !NoSelection(config) && 0 <= k < |nodes|
    ensures var selected := config.selectedNodeId.value;
      var before := nodes[k]; var after := ApplyNodeHighlighting(nodes, edges, config).nodes[k];
      var isSelected := before.id == selected;
      var isHighlighted := InNeighbourhood(selected, edges, before.id);
      Get(after.style, "opacity") == Num(if isHighlighted then Bright(config) else Dimmed(config)) &&
      Get(after.style, "borderColor") == (if isSelected then Str(Color(config)) else Get(before.style, "borderColor")) &&
      Get(after.style, "borderWidth") == (if isSelected then Num(2.0) else OrOne(Get(before.style, "borderWidth"))) &&
      Get(after.style, "boxShadow") == (if isSelected then Str(Ring(Color(config))) else Get(before.style, "boxShadow")) &&
      SameExcept(after.style, before.style, {"opacity", "borderColor", "borderWidth", "boxShadow"}) &&
      after.className == Some(NodeClass(before.className, isSelected, isHighlighted))
  {
    var selected := config.selectedNodeId.value;
    SelectionNodeAt(nodes, edges, config, k);
    MarkNodeStyle(nodes[k], nodes[k].id == selected, InNeighbourhood(selected, edges, nodes[k].id), config, true);
  }

  /** What marking an edge writes: opacity, stroke and, with `withWidth`, stroke width; everything else is kept. */
  lemma MarkEdgeStyle<D>(edge: Edge<D>, isConnected: bool, config: HighlightConfig, withWidth: bool)
    ensures var after := MarkEdge(edge, isConnected, config, withWidth);
      Get(after.style, "opacity") == Num(if isConnected then Bright(config) else Dimmed(config)) &&
      Get(after.style, "stroke") == (if isConnected then Str(Color(config)) else Get(edge.style, "stroke")) &&
      Get(after.style, "strokeWidth") ==
        (if !withWidth then Get(edge.style, "strokeWidth")
         else if isConnected then Num(2.0) else OrOne(Get(edge.style, "strokeWidth"))) &&
      SameExcept(after.style, edge.style, {"opacity", "stroke", "strokeWidth"}) &&
      after.(style := edge.style, className := edge.className) == edge &&
      after.className == Some(EdgeClass(edge.className, isConnected))
  {
    EdgeStyleWrites(edge.style, isConnected, config, withWidth);
  }

  /** The style half of `MarkEdgeStyle`. */
  lemma EdgeStyleWrites(style: Style, isConnected: bool, config: HighlightConfig, withWidth: bool)
    ensures var after := MarkedEdgeStyle(style, isConnected, config, withWidth);
      Get(after, "opacity") == Num(if isConnected then Bright(config) else Dimmed(config)) &&
      Get(after, "stroke") == (if isConnected then Str(Color(config)) else Get(style, "stroke")) &&
      Get(after, "strokeWidth") ==
        (if !withWidth then Get(style, "strokeWidth")
         else if isConnected then Num(2.0) else OrOne(Get(style, "strokeWidth"))) &&
      SameExcept(after, style, {"opacity", "stroke", "strokeWidth"})
  {
  }

  /**
   * With a node selected, an edge is bright exactly when the selected node is
   * its source or its target (an edge between two neighbours stays dimmed),
   * and only such edges get the highlight stroke and width 2.
   */
  lemma SelectionEdges<D(!new)>(nodes: seq<Node<D>>, edges: seq<Edge<D>>, config: HighlightConfig, k: int)
    requires !NoSelection(config) && 0 <= k < |edges|
    ensures var selected := config.selectedNodeId.value;
      var before := edges[k]; var after := ApplyNodeHighlighting(nodes, edges, config).edges[k];
      var isConnected := before.source == selected || before.target == selected;
      Get(after.style, "opacity") == Num(if isConnected then Bright(config) else Dimmed(config)) &&
      Get(after.style, "stroke") == (if isConnected then Str(Color(config)) else Get(before.style, "stroke")) &&
      Get(after.style, "strokeWidth") == (if isConnected then Num(2.0) else OrOne(Get(before.style, "strokeWidth"))) &&
      SameExcept(after.style, before.style, {"opacity", "stroke", "strokeWidth"}) &&
      after.className == Some(EdgeClass(before.className, isConnected))
  {
    var selected := config.selectedNodeId.value;
    MarkEdgeStyle(edges[k], edges[k].source == selected || edges[k].target == selected, config, true);
  }

  /** A bright edge never ends at a dimmed node: both ends of an edge at the selected node are in its neighbourhood. */
  lemma BrightEdgeEndsAreBright<D(!new)>(nodes: seq<Node<D>>, edges: seq<Edge<D>>, config: HighlightConfig, k: int, i: int)
    requires !NoSelection(config) && 0 <= k < |edges| && 0 <= i < |nodes|
    requires nodes[i].id == edges[k].source || nodes[i].id == edges[k].target
    ensures var r := ApplyNodeHighlighting(nodes, edges, config);
      Get(r.edges[k].style, "opacity") == Num(Bright(config)) ==>
        Get(r.nodes[i].style, "opacity") == Num(Bright(config))
  {
    var selected := config.selectedNodeId.value;
    var id := nodes[i].id;
    var e := edges[k];
    SelectionEdges(nodes, edges, config, k);
    SelectionNodes(nodes, edges, config, i);
    if e.source == selected || e.target == selected {
      assert Linked(e, selected, id) || id == selected;
      assert InNeighbourhood(selected, edges, id);
    }
  }

  /** The values in a sequence, as a set. */
  function Members(xs: seq<string>): set<string> {
    set x | x in xs
  }

  lemma MembersSnoc(xs: seq<string>, j: int)
    requires 0 <= j < |xs|
    ensures Members(xs[..j + 1]) == Members(xs[..j]) + {xs[j]}
  {
    assert xs[..j + 1] == xs[..j] + [xs[j]];
  }

  /** `allConnectedIds` after the loop over the first selected ids: each of them and its neighbours. */
  function AllConnected<D(!new)>(selectedNodeIds: seq<string>, edges: seq<Edge<D>>): (r: set<string>)
    ensures forall i :: 0 <= i < |selectedNodeIds| ==> selectedNodeIds[i] in r
  {
    if |selectedNodeIds| == 0 then {}
    else
      var n := |selectedNodeIds| - 1;
      assert forall i :: 0 <= i < n ==> selectedNodeIds[i] == selectedNodeIds[..n][i];
      AllConnected(selectedNodeIds[..n], edges) + Around(selectedNodeIds[n], edges)
  }

  /** What one selected id adds to `allConnectedIds`: itself and its neighbours. */
  function Around<D(!new)>(nodeId: string, edges: seq<Edge<D>>): (r: set<string>)
    ensures nodeId in r
  {
    {nodeId} + Members(ConnectedIds(nodeId, edges))
  }

  lemma AllConnectedStep<D(!new)>(selectedNodeIds: seq<string>, edges: seq<Edge<D>>, i: int)
    requires 0 <= i < |selectedNodeIds|
    ensures AllConnected(selectedNodeIds[..i + 1], edges) ==
      AllConnected(selectedNodeIds[..i], edges) + {selectedNodeIds[i]} + Members(ConnectedIds(selectedNodeIds[i], edges))
  {
    assert selectedNodeIds[..i + 1][..i] == selectedNodeIds[..i];
  }

  /** `selectedNodeIds.some(id => edge.source === id || edge.target === id)`. */
  predicate TouchesSome<D>(edge: Edge<D>, selectedNodeIds: seq<string>) {
    exists i :: 0 <= i < |selectedNodeIds| && (edge.source == selectedNodeIds[i] || edge.target == selectedNodeIds[i])
  }

  /** The node pass of `applyMultiNodeHighlighting`: no ring. */
  function MultiNodes<D>(nodes: seq<Node<D>>, selectedNodeIds: seq<string>, allConnectedIds: set<string>, config: HighlightConfig): (r: seq<Node<D>>)
    ensures |r| == |nodes|
    ensures forall k :: 0 <= k < |nodes| ==> r[k].id == nodes[k].id && r[k].payload == nodes[k].payload
  {
    seq(|nodes|, k requires 0 <= k < |nodes| =>
      MarkNode(nodes[k], nodes[k].id in selectedNodeIds, nodes[k].id in allConnectedIds, config, false))
  }

  /** The edge pass of `applyMultiNodeHighlighting`: no stroke width. */
  function MultiEdges<D>(edges: seq<Edge<D>>, selectedNodeIds: seq<string>, config: HighlightConfig): (r: seq<Edge<D>>)
    ensures |r| == |edges|
    ensures forall k :: 0 <= k < |edges| ==>
      r[k].id == edges[k].id && r[k].source == edges[k].source &&
      r[k].target == edges[k].target && r[k].payload == edges[k].payload
  {
    seq(|edges|, k requires 0 <= k < |edges| => MarkEdge(edges[k], TouchesSome(edges[k], selectedNodeIds), config, false))
  }

  /** What `applyMultiNodeHighlighting(nodes, edges, selectedNodeIds, config)` returns. */
  function MultiHighlighting<D(!new)>(nodes: seq<Node<D>>, edges: seq<Edge<D>>, selectedNodeIds: seq<string>, config: HighlightConfig): (r: Elements<D>)
    ensures |r.nodes| == |nodes| && |r.edges| == |edges|
    ensures forall k :: 0 <= k < |nodes| ==> r.nodes[k].id == nodes[k].id && r.nodes[k].payload == nodes[k].payload
    ensures forall k :: 0 <= k < |edges| ==>
      r.edges[k].id == edges[k].id && r.edges[k].source == edges[k].source &&
      r.edges[k].target == edges[k].target && r.edges[k].payload == edges[k].payload
    ensures |selectedNodeIds| == 0 ==> r == ResetHighlighting(nodes, edges)
  {
    if |selectedNodeIds| == 0 then ResetHighlighting(nodes, edges)
    else
      Elements(MultiNodes(nodes, selectedNodeIds, AllConnected(selectedNodeIds, edges), config),
               MultiEdges(edges, selectedNodeIds, config))
  }

  /** `applyMultiNodeHighlighting`: the union of neighbourhoods is built by nested loops, as in the source. */
  method ApplyMultiNodeHighlighting<D(!new)>(nodes: seq<Node<D>>, edges: seq<Edge<D>>, selectedNodeIds: seq<string>, config: HighlightConfig)
    returns (r: Elements<D>)
    ensures r == MultiHighlighting(nodes, edges, selectedNodeIds, config)
  {
    if |selectedNodeIds| == 0 {
      return ResetHighlighting(nodes, edges);
    }
    var allConnectedIds: set<string> := {};
    for i := 0 to |selectedNodeIds|
      invariant allConnectedIds == AllConnected(selectedNodeIds[..i], edges)
    {
      var nodeId := selectedNodeIds[i];
      AllConnectedStep(selectedNodeIds, edges, i);
      allConnectedIds := allConnectedIds + {nodeId};
      var ids := GetConnectedNodeIds(nodeId, edges);
      ghost var before := allConnectedIds;
      for j := 0 to |ids|
        invariant allConnectedIds == before + Members(ids[..j])
      {
        MembersSnoc(ids, j);
        allConnectedIds := allConnectedIds + {ids[j]};
      }
      assert ids[..|ids|] == ids;
    }
    assert selectedNodeIds[..|selectedNodeIds|] == selectedNodeIds;
    r := Elements(MultiNodes(nodes, selectedNodeIds, allConnectedIds, config), MultiEdges(edges, selectedNodeIds, config));
  }

  /** Some selected id has `id` in its neighbourhood. */
  predicate NearSome<D(!new)>(selectedNodeIds: seq<string>, edges: seq<Edge<D>>, id: string) {
    exists i :: 0 <= i < |selectedNodeIds| && InNeighbourhood(selectedNodeIds[i], edges, id)
  }

  /** The ids one selected node contributes to the union are its neighbourhood. */
  lemma NeighbourhoodMembers<D(!new)>(nodeId: string, edges: seq<Edge<D>>, x: string)
    ensures x in {nodeId} + Members(ConnectedIds(nodeId, edges)) <==> InNeighbourhood(nodeId, edges, x)
  {
  }

  /** Being near some selected id, split at the last one. */
  lemma NearSomeSnoc<D(!new)>(selectedNodeIds: seq<string>, edges: seq<Edge<D>>, x: string)
    requires |selectedNodeIds| > 0
    ensures var n := |selectedNodeIds| - 1;
      NearSome(selectedNodeIds, edges, x) <==>
        NearSome(selectedNodeIds[..n], edges, x) || InNeighbourhood(selectedNodeIds[n], edges, x)
  {
    var n := |selectedNodeIds| - 1;
    var pre := selectedNodeIds[..n];
    if NearSome(pre, edges, x) {
      var i :| 0 <= i < n && InNeighbourhood(pre[i], edges, x);
      assert selectedNodeIds[i] == pre[i];
    }
    if NearSome(selectedNodeIds, edges, x) {
      var i :| 0 <= i < |selectedNodeIds| && InNeighbourhood(selectedNodeIds[i], edges, x);
      if i < n {
        assert selectedNodeIds[i] == pre[i];
      }
    }
  }

  /** A node is in the union of neighbourhoods exactly when it is in the neighbourhood of some selected id. */
  lemma {:induction false} AllConnectedMembers<D(!new)>(selectedNodeIds: seq<string>, edges: seq<Edge<D>>, x: string)
    ensures x in AllConnected(selectedNodeIds, edges) <==> NearSome(selectedNodeIds, edges, x)
  {
    if |selectedNodeIds| > 0 {
      var n := |selectedNodeIds| - 1;
      var last := selectedNodeIds[n];
      AllConnectedMembers(selectedNodeIds[..n], edges, x);
      NeighbourhoodMembers(last, edges, x);
      NearSomeSnoc(selectedNodeIds, edges, x);
    }
  }

  /**
   * With at least one id selected, a node is bright exactly when it is near
   * some selected id; the selected ones (members of the list) get the
   * highlight border; no box shadow is written, so an existing one is kept.
   */
  lemma MultiNodesMarked<D(!new)>(nodes: seq<Node<D>>, edges: seq<Edge<D>>, selectedNodeIds: seq<string>, config: HighlightConfig, k: int)
    requires |selectedNodeIds| > 0 && 0 <= k < |nodes|
    ensures var before := nodes[k]; var after := MultiHighlighting(nodes, edges, selectedNodeIds, config).nodes[k];
      var isSelected := before.id in selectedNodeIds;
      var isHighlighted := NearSome(selectedNodeIds, edges, before.id);
      Get(after.style, "opacity") == Num(if isHighlighted then Bright(config) else Dimmed(config)) &&
      Get(after.style, "borderColor") == (if isSelected then Str(Color(config)) else Get(before.style, "borderColor")) &&
      Get(after.style, "borderWidth") == (if isSelected then Num(2.0) else OrOne(Get(before.style, "borderWidth"))) &&
      SameExcept(after.style, before.style, {"opacity", "borderColor", "borderWidth"}) &&
      after.className == Some(NodeClass(before.className, isSelected, isHighlighted))
  {
    var node := nodes[k];
    AllConnectedMembers(selectedNodeIds, edges, node.id);
    var isHighlighted := node.id in AllConnected(selectedNodeIds, edges);
    assert isHighlighted == NearSome(selectedNodeIds, edges, node.id);
    MarkNodeStyle(node, node.id in selectedNodeIds, isHighlighted, config, false);
  }

  /**
   * With at least one id selected, an edge is bright exactly when some
   * selected id is its source or target; the stroke width is left as it was.
   */
  lemma MultiEdgesMarked<D(!new)>(nodes: seq<Node<D>>, edges: seq<Edge<D>>, selectedNodeIds: seq<string>, config: HighlightConfig, k: int)
    requires |selectedNodeIds| > 0 && 0 <= k < |edges|
    ensures var before := edges[k]; var after := MultiHighlighting(nodes, edges, selectedNodeIds, config).edges[k];
      var isConnected := before.source in selectedNodeIds || before.target in selectedNodeIds;
      Get(after.style, "opacity") == Num(if isConnected then Bright(config) else Dimmed(config)) &&
      Get(after.style, "stroke") == (if isConnected then Str(Color(config)) else Get(before.style, "stroke")) &&
      SameExcept(after.style, before.style, {"opacity", "stroke"}) &&
      after.className == Some(EdgeClass(before.className, isConnected))
  {
    var edge := edges[k];
    var isConnected := TouchesSome(edge, selectedNodeIds);
    assert isConnected == (edge.source in selectedNodeIds || edge.target in selectedNodeIds) by {
      if edge.source in selectedNodeIds {
        var i :| 0 <= i < |selectedNodeIds| && selectedNodeIds[i] == edge.source;
      }
      if edge.target in selectedNodeIds {
        var i :| 0 <= i < |selectedNodeIds| && selectedNodeIds[i] == edge.target;
      }
    }
    MarkEdgeStyle(edge, isConnected, config, false);
  }

  /** Node `k` under the single-id multi-selection `[s]` and under the selection of `s` alone. */
  lemma MultiSingletonNode<D(!new)>(nodes: seq<Node<D>>, edges: seq<Edge<D>>, s: string, config: HighlightConfig, k: int)
    requires s != "" && 0 <= k < |nodes|
    ensures var multi := MultiHighlighting(nodes, edges, [s], config).nodes[k];
      var single := ApplyNodeHighlighting(nodes, edges, config.(selectedNodeId := Some(s))).nodes[k];
      multi.className == single.className &&
      Get(multi.style, "opacity") == Get(single.style, "opacity") &&
      Get(multi.style, "borderColor") == Get(single.style, "borderColor") &&
      Get(multi.style, "borderWidth") == Get(single.style, "borderWidth")
  {
    var c := config.(selectedNodeId := Some(s));
    var id := nodes[k].id;
    var isHighlighted := InNeighbourhood(s, edges, id);
    assert (id in [s]) == (id == s);
    assert NearSome([s], edges, id) == isHighlighted by {
      if isHighlighted {
        assert InNeighbourhood([s][0], edges, id);
      }
    }
    MultiNodesMarked(nodes, edges, [s], config, k);
    SelectionNodes(nodes, edges, c, k);
    var multi := MultiHighlighting(nodes, edges, [s], config).nodes[k];
    var single := ApplyNodeHighlighting(nodes, edges, c).nodes[k];
    assert multi.className == Some(NodeClass(nodes[k].className, id == s, isHighlighted)) == single.className;
  }

  /** Edge `k` under the single-id multi-selection `[s]` and under the selection of `s` alone. */
  lemma MultiSingletonEdge<D(!new)>(nodes: seq<Node<D>>, edges: seq<Edge<D>>, s: string, config: HighlightConfig, k: int)
    requires s != "" && 0 <= k < |edges|
    ensures var multi := MultiHighlighting(nodes, edges, [s], config).edges[k];
      var single := ApplyNodeHighlighting(nodes, edges, config.(selectedNodeId := Some(s))).edges[k];
      multi.className == single.className &&
      Get(multi.style, "opacity") == Get(single.style, "opacity") &&
      Get(multi.style, "stroke") == Get(single.style, "stroke")
  {
    var e := edges[k];
    var isConnected := e.source == s || e.target == s;
    assert (e.source in [s] || e.target in [s]) == isConnected;
    MultiEdgesMarked(nodes, edges, [s], config, k);
    SelectionEdges(nodes, edges, config.(selectedNodeId := Some(s)), k);
    var multi := MultiHighlighting(nodes, edges, [s], config).edges[k];
    var single := ApplyNodeHighlighting(nodes, edges, config.(selectedNodeId := Some(s))).edges[k];
    assert multi.className == Some(EdgeClass(e.className, isConnected)) == single.className;
  }

  /**
   * Selecting the single id `s` (non-empty) through the multi-selection entry
   * point gives the same opacities, borders, strokes and classes as selecting
   * it alone; only the ring and the stroke width differ.
   */
  lemma MultiSingletonAgrees<D(!new)>(nodes: seq<Node<D>>, edges: seq<Edge<D>>, s: string, config: HighlightConfig)
    requires s != ""
    ensures var multi := MultiHighlighting(nodes, edges, [s], config);
      var single := ApplyNodeHighlighting(nodes, edges, config.(selectedNodeId := Some(s)));
      (forall k :: 0 <= k < |nodes| ==>
        multi.nodes[k].className == single.nodes[k].className &&
        Get(multi.nodes[k].style, "opacity") == Get(single.nodes[k].style, "opacity") &&
        Get(multi.nodes[k].style, "borderColor") == Get(single.nodes[k].style, "borderColor") &&
        Get(multi.nodes[k].style, "borderWidth") == Get(single.nodes[k].style, "borderWidth")) &&
      (forall k :: 0 <= k < |edges| ==>
        multi.edges[k].className == single.edges[k].className &&
        Get(multi.edges[k].style, "opacity") == Get(single.edges[k].style, "opacity") &&
        Get(multi.edges[k].style, "stroke") == Get(single.edges[k].style, "stroke"))
  {
    forall k | 0 <= k < |nodes| {
      MultiSingletonNode(nodes, edges, s, config, k);
    }
    forall k | 0 <= k < |edges| {
      MultiSingletonEdge(nodes, edges, s, config, k);
    }
  }

  /** The class the node pass writes, reset, is the class it started from (an absent class reads as empty). */
  lemma NodeMarkingUndone(className: Option<string>, isSelected: bool, isHighlighted: bool)
    requires PlainClass(className, NodeMarkers)
    ensures StripWords(NodeClass(className, isSelected, isHighlighted), NodeMarkers) == ClassOrEmpty(className)
  {
    if className.None? {
      NodeMarkersSeparable();
      EmptyIsClean(NodeMarkers);
    }
    NodeClassRoundTrip(ClassOrEmpty(className), isSelected, isHighlighted);
  }

  /** The class the edge pass writes, reset, is the class it started from (an absent class reads as empty). */
  lemma EdgeMarkingUndone(className: Option<string>, isConnected: bool)
    requires PlainClass(className, EdgeMarkers)
    ensures StripWords(EdgeClass(className, isConnected), EdgeMarkers) == ClassOrEmpty(className)
  {
    if className.None? {
      EdgeMarkersSeparable();
      EmptyIsClean(EdgeMarkers);
    }
    EdgeClassRoundTrip(ClassOrEmpty(className), isConnected);
  }

  /**
   * Resetting after a single selection gives a node with a plain class its
   * class back, full opacity and no box shadow; only the border keys may
   * still differ from the original style.
   */
  lemma ResetUndoesNodeHighlighting<D(!new)>(nodes: seq<Node<D>>, edges: seq<Edge<D>>, config: HighlightConfig, k: int)
    requires !NoSelection(config) && 0 <= k < |nodes| && PlainClass(nodes[k].className, NodeMarkers)
    ensures var h := ApplyNodeHighlighting(nodes, edges, config);
      var after := ResetHighlighting(h.nodes, h.edges).nodes[k];
      after.className == Some(ClassOrEmpty(nodes[k].className)) &&
      Get(after.style, "opacity") == Num(1.0) && Get(after.style, "boxShadow") == Undef &&
      SameExcept(after.style, nodes[k].style, {"opacity", "borderColor", "borderWidth", "boxShadow"})
  {
    var selected := config.selectedNodeId.value;
    var h := ApplyNodeHighlighting(nodes, edges, config);
    SelectionNodes(nodes, edges, config, k);
    ResetNodes(h.nodes, h.edges, k);
    NodeMarkingUndone(nodes[k].className, nodes[k].id == selected, InNeighbourhood(selected, edges, nodes[k].id));
  }

  /**
   * Resetting after a single selection gives an edge with a plain class its
   * class back and full opacity; only the stroke keys may still differ from
   * the original style.
   */
  lemma ResetUndoesEdgeHighlighting<D(!new)>(nodes: seq<Node<D>>, edges: seq<Edge<D>>, config: HighlightConfig, k: int)
    requires !NoSelection(config) && 0 <= k < |edges| && PlainClass(edges[k].className, EdgeMarkers)
    ensures var h := ApplyNodeHighlighting(nodes, edges, config);
      var after := ResetHighlighting(h.nodes, h.edges).edges[k];
      after.className == Some(ClassOrEmpty(edges[k].className)) &&
      Get(after.style, "opacity") == Num(1.0) &&
      SameExcept(after.style, edges[k].style, {"opacity", "stroke", "strokeWidth"})
  {
    var selected := config.selectedNodeId.value;
    var h := ApplyNodeHighlighting(nodes, edges, config);
    SelectionEdges(nodes, edges, config, k);
    ResetEdges(h.nodes, h.edges, k);
    EdgeMarkingUndone(edges[k].className, edges[k].source == selected || edges[k].target == selected);
  }

  /** Resetting after a non-empty multi-selection gives a node with a plain class its class back and full opacity. */
  lemma ResetUndoesMultiNode<D(!new)>(nodes: seq<Node<D>>, edges: seq<Edge<D>>, selectedNodeIds: seq<string>, config: HighlightConfig, k: int)
    requires |selectedNodeIds| > 0 && 0 <= k < |nodes| && PlainClass(nodes[k].className, NodeMarkers)
    ensures var h := MultiHighlighting(nodes, edges, selectedNodeIds, config);
      var after := ResetHighlighting(h.nodes, h.edges).nodes[k];
      after.className == Some(ClassOrEmpty(nodes[k].className)) &&
      Get(after.style, "opacity") == Num(1.0) && Get(after.style, "boxShadow") == Undef &&
      SameExcept(after.style, nodes[k].style, {"opacity", "borderColor", "borderWidth", "boxShadow"})
  {
    var h := MultiHighlighting(nodes, edges, selectedNodeIds, config);
    ResetNodes(h.nodes, h.edges, k);
    MultiNodesMarked(nodes, edges, selectedNodeIds, config, k);
    NodeMarkingUndone(nodes[k].className, nodes[k].id in selectedNodeIds, NearSome(selectedNodeIds, edges, nodes[k].id));
  }

  /** Resetting after a non-empty multi-selection gives an edge with a plain class its class back and full opacity. */
  lemma ResetUndoesMultiEdge<D(!new)>(nodes: seq<Node<D>>, edges: seq<Edge<D>>, selectedNodeIds: seq<string>, config: HighlightConfig, k: int)
    requires |selectedNodeIds| > 0 && 0 <= k < |edges| && PlainClass(edges[k].className, EdgeMarkers)
    ensures var h := MultiHighlighting(nodes, edges, selectedNodeIds, config);
      var after := ResetHighlighting(h.nodes, h.edges).edges[k];
      after.className == Some(ClassOrEmpty(edges[k].className)) &&
      Get(after.style, "opacity") == Num(1.0) &&
      SameExcept(after.style, edges[k].style, {"opacity", "stroke"})
  {
    var h := MultiHighlighting(nodes, edges, selectedNodeIds, config);
    ResetEdges(h.nodes, h.edges, k);
    var e := edges[k];
    MultiEdgesMarked(nodes, edges, selectedNodeIds, config, k);
    EdgeMarkingUndone(e.className, e.source in selectedNodeIds || e.target in selectedNodeIds);
  }
}
