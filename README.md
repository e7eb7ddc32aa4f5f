# Flow highlighting, modelled in Dafny

This project models the graph-highlighting utility of a service-monitoring
dashboard: `utils/flow-highlighting.ts`. The utility restyles a reactflow graph,
a list of nodes and a list of directed edges. Each element has an `id`, a
`style` object and an optional `className`. The utility has five operations:

- `getConnectedNodeIds` collects the neighbours of a node, in either edge
  direction. They go into a JavaScript `Set`, so each appears once, in the order
  of its first mention.
- `getPathElements` searches depth-first along edges, from source to target,
  with one visited set shared by the whole search. It reports the first path it
  finds: node ids start to end, edge ids last edge first.
- `applyNodeHighlighting` dims everything except one selected node and its
  neighbourhood. It gives the selected node a border and a ring, brightens the
  edges at the selected node, and appends marker classes.
- `applyMultiNodeHighlighting` does the same for a list of selected nodes. It
  draws no ring and does not touch stroke widths. An empty list means a reset.
- `resetHighlighting` puts opacity back to 1 and clears the ring. It removes
  the marker words from class strings with a `\b`-delimited global regular
  expression, then trims.

Files:

- `wrappers.dfy` holds `Option`, used for the `undefined` fields.
- `flow_graph.dfy` holds the element records.
  - A style is a map from keys to `Undef | Num | Str`.
  - Everything the utility does not read is a payload `D` that is copied
    unchanged.
  - It also holds JavaScript's `x || 1` and `x || ""`.
- `js_text.dfy` holds the two string operations.
  - `trim` removes ECMAScript white space.
  - `s.replace(/\b(w1|w2|...)\b/g, "")` is modelled as the regular-expression
    engine runs it: a left-to-right scan that tries the alternatives in order at
    each position, and resumes after a match.
  - Both the round-trip and the cleanliness lemmas about the replacement are here.
- `js_set.dfy` models a JavaScript `Set` as a sequence without duplicates, in
  insertion order.
- `neighbours.dfy` models `getConnectedNodeIds`.
  - The loop is a method.
  - A function specifies the result.
- `path_search.dfy` models `getPathElements`.
  - `findPath` is a method of a class whose fields are the shared `visited` set
    and the two arrays it pushes to.
  - A recursive function, `Explore`/`ExploreFrom`, gives its outcome.
  - Soundness and completeness are proved against forward reachability.
- `highlighting.dfy` models the three restyling operations.
  - The two element-by-element passes are functions.
  - The nested `forEach` that builds `allConnectedIds` is a method.

Three behaviours of the code are easy to misread; the model follows the code:

- A node that is not selected keeps its `borderWidth` only when that value is
  truthy. Otherwise it becomes 1 (`node.style?.borderWidth || 1`), so the
  width is not simply passed through.
- `\b` holds between a word character and a hyphen (though not between two
  hyphens). So resetting `my-dimmed-node` cuts the tail and leaves `my-`. A
  class token that merely contains a marker word right after a hyphen is
  therefore touched (`ResetCutsHyphenatedClass`).
- The order of the path lists is deterministic.
  - Node ids come start to end.
  - Edge ids come last edge first, because they are pushed as the recursion
    unwinds.
  - `ChainExample` shows the exact arrays for the chain `A -e1-> B -e2-> C`.

## Model

| member | source | states |
|---|---|---|
| FlowGraph.OrOne | utils/flow-highlighting.ts:60 | the fallback to 1 yields 1 for every falsy value (`undefined`, `0`, `""`) and the value itself whenever it is truthy, so it never yields `undefined` or `0` |
| FlowGraph.ClassOrEmpty | utils/flow-highlighting.ts:64 | the fallback of an absent class to `""` is the class when present and the empty string when absent |
| JsSet.Add | utils/flow-highlighting.ts:101 | `Set.add` keeps the set free of duplicates, adds exactly the new value, keeps the earlier values in place and grows by at most one |
| JsSet.Distinct | utils/flow-highlighting.ts:154-155 | `[...new Set(xs)]` has no duplicates, holds exactly the values of `xs` and is no longer than `xs` |
| JsSet.DistinctInFirstOccurrenceOrder | utils/flow-highlighting.ts:154-155 | the `Set` lists its values in the order of their first occurrence in the input |
| JsSet.DistinctOfNoDup | utils/flow-highlighting.ts:154-155 | a list without duplicates passes through a `Set` unchanged |
| JsSet.DistinctIdempotent | utils/flow-highlighting.ts:154-155 | passing a list through a `Set` twice is passing it once |
| JsText.Trim | utils/flow-highlighting.ts:64 | `trim()` returns the slice of the input after its leading white space, everything after that slice is white space, and the result neither starts nor ends with white space |
| JsText.TrimIdempotent | utils/flow-highlighting.ts:173 | trimming twice is trimming once |
| JsText.FirstMatch | utils/flow-highlighting.ts:173 | the alternation between two `\b` matches at a position only with a listed word that matches there, and fails only when none of the words matches there |
| JsText.RemoveFrom | utils/flow-highlighting.ts:173 | the global replacement scanning from position `p`: every `\b` is judged on the whole original string, and after a removed word the scan resumes right behind it; the output is never longer than the rest of the input |
| JsText.RemoveWords | utils/flow-highlighting.ts:182 | `replace(/\b(...)\b/g, "")` on a whole class string: the output is never longer than the input |
| JsText.RemoveFromDeletes | utils/flow-highlighting.ts:173 | the replacement only deletes: each character occurs in the output at most as often as in the rest of the input |
| JsText.StripWords | utils/flow-highlighting.ts:173 | removing the markers and then trimming gives a string no longer than the input that neither starts nor ends with white space |
| JsText.StripWordsDeletes | utils/flow-highlighting.ts:182 | removing the markers and trimming only deletes characters of the class |
| JsText.FirstMatchIsEarliest | utils/flow-highlighting.ts:173 | the alternative taken is the first in the list that matches: every earlier alternative fails at that position |
| JsText.RemoveWordsOfClean | utils/flow-highlighting.ts:173 | the replacement leaves text holding no marker word between boundaries exactly as it was |
| JsText.RemoveWordsIsClean | utils/flow-highlighting.ts:173 | after the global replacement no marker word is left between two word boundaries, for markers that start and end with word characters and have no two non-word characters in a row |
| JsText.TrimKeepsClean | utils/flow-highlighting.ts:173 | trimming text free of marker words cannot create a marker word |
| JsText.StripWordsIdempotent | utils/flow-highlighting.ts:173 | removing the markers and trimming a second time changes nothing |
| JsText.StripWordsOfClean | utils/flow-highlighting.ts:173 | a class holding no marker word is only trimmed |
| JsText.StripWordsIsClean | utils/flow-highlighting.ts:173 | a stripped class holds no marker word and has no white space at either end |
| JsText.PlainThenSpace | utils/flow-highlighting.ts:173 | the replacement copies a marker-free part followed by a space, and treats the rest as if it stood alone |
| JsText.WordThenSpace | utils/flow-highlighting.ts:173 | a marker at the start followed by a space is removed, the space stays, and the rest is treated as if it stood alone |
| JsText.WordAlone | utils/flow-highlighting.ts:173 | a class that is exactly one marker word becomes empty |
| Neighbours.MentionsAreAdjacent | utils/flow-highlighting.ts:99-106 | the ids the edge scan offers to the set are exactly the ids joined to the node by an edge, in either direction |
| Neighbours.ConnectedIds | utils/flow-highlighting.ts:96-109 | the neighbourhood has no duplicates and holds `x` exactly when some edge goes from the node to `x` or from `x` to the node |
| Neighbours.GetConnectedNodeIds | utils/flow-highlighting.ts:96-109 | the `forEach` loop over the edges returns that neighbourhood, without duplicates and with exactly the adjacent ids |
| Neighbours.Mentions | utils/flow-highlighting.ts:99-106 | the scan offers the set at most two ids per edge |
| Neighbours.ScanStep | utils/flow-highlighting.ts:100-105 | one edge of the scan adds its target, then its source, each only when the other end is the node |
| Neighbours.SelfNeighbour | utils/flow-highlighting.ts:96-109 | a node is its own neighbour exactly when it has a self-loop |
| Neighbours.ConnectedIdsInScanOrder | utils/flow-highlighting.ts:96-109 | neighbours are listed in the order of their first mention in the scan, and within one edge the target is looked at before the source |
| PathSearch.Explore | utils/flow-highlighting.ts:127-149 | a call of `findPath` only grows the visited set, and a failed call records no node and no edge |
| PathSearch.ExploreFrom | utils/flow-highlighting.ts:139-148 | the loop over the edges only grows the visited set, and when it fails it records nothing |
| PathSearch.PathFinder.constructor | utils/flow-highlighting.ts:123-125 | the search starts with an empty visited set and two empty arrays |
| PathSearch.PathFinder.FindPath | utils/flow-highlighting.ts:127-149 | the recursive method returns what `Explore` says. The visited set becomes the one `Explore` computes. On success the node array gains `path` then the walk once, and the edge array gains the trail |
| PathSearch.GetPathElements | utils/flow-highlighting.ts:118-157 | the method running the search on a fresh finder returns `PathElements`: the recorded arrays, each passed through a `Set` |
| PathSearch.PathElements | utils/flow-highlighting.ts:151-156 | neither returned list has a duplicate |
| PathSearch.ExploreSound | utils/flow-highlighting.ts:127-149 | on success the call records a path from the current node to the target. The path repeats no node. Its edge ids join consecutive nodes, last edge first. No node before the target had been visited |
| PathSearch.ExploreClosed | utils/flow-highlighting.ts:127-149 | from a visited set without the target, a failed call leaves the target unvisited and the current node visited, and every edge out of a node the call newly visited leads to a visited node |
| PathSearch.ExploreFromClosed | utils/flow-highlighting.ts:139-148 | when the loop fails, every successor of the current node from edge `k` on has been visited, and the visited set is closed over the newly visited nodes |
| PathSearch.WalkStaysInside | utils/flow-highlighting.ts:139-148 | a walk that starts inside a set closed under following edges never leaves it |
| PathSearch.PathFoundIffReachable | utils/flow-highlighting.ts:118-157 | the node list is non-empty exactly when the end can be reached from the start along edges, and an empty node list comes with an empty edge list |
| PathSearch.PathToSelf | utils/flow-highlighting.ts:128-131 | searching from a node to itself returns that node alone and no edge |
| PathSearch.FoundPathShape | utils/flow-highlighting.ts:127-156 | with unique edge ids, a non-empty result runs from start to end with one edge id fewer than node ids, and edge `k` joins node `n-2-k` to node `n-1-k` |
| PathSearch.TrailHasNoDup | utils/flow-highlighting.ts:142 | with unique edge ids, the edges pushed along a path that repeats no node repeat no id |
| PathSearch.ChainExample | utils/flow-highlighting.ts:118-157 | on the chain `A -e1-> B -e2-> C` the result from `A` to `C` is nodes `A, B, C` and edges `e2, e1` |
| Highlighting.ApplyNodeHighlighting | utils/flow-highlighting.ts:22-88 | both lists keep their length and order, every node keeps its id and payload, and every edge keeps every field except style and class |
| Highlighting.NoSelectionNodes | utils/flow-highlighting.ts:25-34 | with `selectedNodeId` absent or empty, every node gets `highlightOpacity` and keeps every other style key and its class |
| Highlighting.NoSelectionEdges | utils/flow-highlighting.ts:35-41 | with no selection, every edge gets `highlightOpacity` and keeps every other style key and its class |
| Highlighting.SelectionNodeAt | utils/flow-highlighting.ts:46-52 | with a selection, node `k` is marked as selected when its id is the selected id, and as highlighted when it is that node or a neighbour |
| Highlighting.MarkNodeStyle | utils/flow-highlighting.ts:54-65 | marking a node writes opacity, border colour, border width (2, or the old value with falsy values falling back to 1) and, in the single-selection pass, the ring. It keeps every other key, the id and the payload, and writes the class template |
| Highlighting.SelectionNodes | utils/flow-highlighting.ts:46-66 | a node is bright exactly when it is the selected node or joined to it by an edge. Only the selected node gets the highlight border, width 2 and the ring. Others keep border colour and ring, and fall back to width 1. The class is the trimmed template |
| Highlighting.MarkEdgeStyle | utils/flow-highlighting.ts:72-81 | marking an edge writes opacity, stroke and, in the single-selection pass, stroke width. It keeps every other key and field, and writes the class template |
| Highlighting.SelectionEdges | utils/flow-highlighting.ts:69-82 | an edge is bright exactly when the selected node is its source or target, so an edge between two neighbours stays dimmed. Only such edges get the highlight stroke and width 2 |
| Highlighting.BrightEdgeEndsAreBright | utils/flow-highlighting.ts:46-82 | both ends of a bright edge are bright nodes |
| Highlighting.ResetHighlighting | utils/flow-highlighting.ts:165-189 | both lists keep their length and order, nodes keep id and payload, and edges keep every field except style and class |
| Highlighting.ResetNodes | utils/flow-highlighting.ts:166-174 | a reset sets opacity to 1 and clears the box shadow, keeping every other key. An absent class stays absent. A present class ends up free of node markers and of surrounding white space, and a marker-free class is only trimmed |
| Highlighting.ResetEdges | utils/flow-highlighting.ts:176-183 | a reset sets edge opacity to 1, keeping every other key. An absent class stays absent, a present one loses the edge markers and is trimmed, and a marker-free class is only trimmed |
| Highlighting.ResetIdempotent | utils/flow-highlighting.ts:165-189 | resetting twice is resetting once |
| Highlighting.ResetKeepsPlainClass | utils/flow-highlighting.ts:173 | the class `node-box` survives a reset unchanged |
| Highlighting.ResetCutsHyphenatedClass | utils/flow-highlighting.ts:173 | the class `my-dimmed-node` becomes `my-`, because `\b` holds between the hyphen and the `d` that follows it |
| Highlighting.NodeClass | utils/flow-highlighting.ts:63-64 | the node class template after `trim()` neither starts nor ends with white space and ends with `highlighted-node` or `dimmed-node`, whichever applies |
| Highlighting.EdgeClass | utils/flow-highlighting.ts:80 | the edge class template after `trim()` neither starts nor ends with white space and ends with `highlighted-edge` or `dimmed-edge`, whichever applies |
| Highlighting.NodeClassRoundTrip | utils/flow-highlighting.ts:63-64 | resetting the class the node pass writes, from a trimmed class free of markers, gives that class back |
| Highlighting.EdgeClassRoundTrip | utils/flow-highlighting.ts:80 | resetting the class the edge pass writes, from a trimmed class free of markers, gives that class back |
| Highlighting.ResetUndoesNodeHighlighting | utils/flow-highlighting.ts:165-174 | resetting after a single selection gives a node opacity 1 and no ring; a trimmed, marker-free class comes back unchanged, and an absent class comes back as `""`. Only the border keys may still differ from the original style |
| Highlighting.ResetUndoesEdgeHighlighting | utils/flow-highlighting.ts:176-183 | resetting after a single selection gives an edge opacity 1; a trimmed, marker-free class comes back unchanged, and an absent class comes back as `""`. Only the stroke keys may still differ |
| Highlighting.MultiHighlighting | utils/flow-highlighting.ts:199-253 | both lists keep their length and order; every node keeps its id and payload, every edge keeps its id, source, target and payload; an empty selection gives exactly `resetHighlighting(nodes, edges)` |
| Highlighting.ApplyMultiNodeHighlighting | utils/flow-highlighting.ts:205-252 | the method whose nested loops fill `allConnectedIds` returns `MultiHighlighting` |
| Highlighting.AllConnected | utils/flow-highlighting.ts:212-216 | the union built by the nested `forEach` holds every selected id |
| Highlighting.AllConnectedStep | utils/flow-highlighting.ts:213-216 | one round of the outer loop adds the selected id and its neighbours to `allConnectedIds` |
| Highlighting.AllConnectedMembers | utils/flow-highlighting.ts:212-216 | `allConnectedIds` holds a node exactly when it is some selected id or a neighbour of one |
| Highlighting.MultiNodes | utils/flow-highlighting.ts:218-233 | the node pass of the multi-selection keeps the length of the list and each node's id and payload |
| Highlighting.MultiEdges | utils/flow-highlighting.ts:235-247 | the edge pass of the multi-selection keeps the length of the list and each edge's id, source, target and payload |
| Highlighting.MultiNodesMarked | utils/flow-highlighting.ts:218-233 | with a selection, a node is bright exactly when it is near some selected id, and selected exactly when its id is in the list. Selected nodes get the highlight border. No box shadow is written, so an existing one is kept |
| Highlighting.MultiEdgesMarked | utils/flow-highlighting.ts:235-247 | with a selection, an edge is bright exactly when some selected id is its source or target. Stroke width and every key but opacity and stroke are kept |
| Highlighting.MultiSingletonAgrees | utils/flow-highlighting.ts:199-253 | selecting the single non-empty id `s` through the multi-selection entry gives the same classes, opacities, borders and strokes as selecting `s` alone |
| Highlighting.ResetUndoesMultiNode | utils/flow-highlighting.ts:218-233 | resetting after a non-empty multi-selection gives a node opacity 1; a trimmed, marker-free class comes back unchanged, and an absent class comes back as `""` |
| Highlighting.ResetUndoesMultiEdge | utils/flow-highlighting.ts:235-247 | resetting after a non-empty multi-selection gives an edge opacity 1; a trimmed, marker-free class comes back unchanged, and an absent class comes back as `""` |

## Left out

- Rendering, reactflow itself and the rest of the repository (data mocks, route handlers, React components) are not part of this model.
- Numbers are opaque. Opacities are `real` values that are only copied, and colours are strings. No floating-point arithmetic is done on them.
- FlowGraph.OrOne: JavaScript's falsy values are modelled as `undefined`, `0` and `""` only. `NaN`, `null`, `false` and `-0` cannot occur as style values in this model.
- A missing `style` object is modelled as an empty map. Writing `undefined` under a key keeps the key with the value `Undef`, as the spread does. The order of object keys is not modelled.
- The reactflow fields the utility does not read (`position`, `data`, `type` and so on) are a payload that is copied unchanged.
- Word characters: `\w` is the ASCII class `[A-Za-z0-9_]`, as in a regular expression without the `u` flag. A Dafny `char` is a Unicode scalar value, so a character outside the Basic Multilingual Plane is one `char` here but two UTF-16 code units in JavaScript, and a lone surrogate cannot be written. Neither difference shows in the result: no such character is a word character or white space, so `trim` and `\b` treat it like any other non-word, non-space character. There is no normalisation.
- The visited set of `findPath` and `allConnectedIds` are Dafny sets. Their iteration order is never observed by the code.
- PathSearch.FoundPathShape: the shape of the edge list is stated only for graphs whose edge ids are unique. With duplicate ids, `new Set` merges the repeated ids and the list no longer lines up with the nodes.
- Highlighting.ResetUndoesNodeHighlighting: the original class comes back unchanged only when it is trimmed and free of marker words. An absent class does not come back absent: the template turns `undefined` into `""`, and the reset keeps that `""`. Border colour and width are not restored, because a reset never touches them.
- Highlighting.ResetUndoesMultiNode: stated for a non-empty selection only. An empty selection is itself a reset, and an absent class stays absent instead of becoming `""`.
- Highlighting.ResetUndoesMultiEdge: stated for a non-empty selection only, for the same reason.
- Highlighting.MultiSingletonAgrees: stated for a non-empty id only. `!selectedNodeId` treats `""` as no selection, while the multi-selection entry highlights around `""`. The ring and the stroke width differ by design.
