/**
 * The graph elements the highlighting utility works on: reactflow nodes and
 * directed edges, reduced to the fields it reads or writes. Everything else in
 * a reactflow record is the payload `D`, which every operation copies unchanged.
 */
module FlowGraph {
  import opened Wrappers

  /** A value stored under a key of a `style` object (`undefined`, a number or a string). */
  datatype StyleVal = Undef | Num(n: real) | Str(s: string)

  /** A `style` object. A key that is absent reads as `undefined`. */
  type Style = map<string, StyleVal>

  datatype Node<D> = Node(id: string, style: Style, className: Option<string>, payload: D)

  datatype Edge<D> = Edge(id: string, source: string, target: string, style: Style, className: Option<string>, payload: D)

  /** The `{ nodes, edges }` record the highlighting operations return. */
  datatype Elements<D> = Elements(nodes: seq<Node<D>>, edges: seq<Edge<D>>)

  /** `style?.key`: the stored value, `undefined` when the key is absent. */
  function Get(style: Style, key: string): (v: StyleVal)
    ensures key !in style ==> v == Undef
    ensures key in style ==> v == style[key]
  {
    if key in style then style[key] else Undef
  }

  /** JavaScript falsiness of a style value: `undefined`, `0` and `""`. */
  predicate Falsy(v: StyleVal) {
    v == Undef || v == Num(0.0) || v == Str("")
  }

  /** `v || 1`. */
  function OrOne(v: StyleVal): (r: StyleVal)
    ensures r != Undef && r != Num(0.0)
    ensures Falsy(v) ==> r == Num(1.0)
    ensures !Falsy(v) ==> r == v
  {
    if Falsy(v) then Num(1.0) else v
  }

  /** `className || ""`. */
  function ClassOrEmpty(c: Option<string>): (r: string)
    ensures c.Some? ==> r == c.value
    ensures c.None? ==> r == ""
  {
    c.GetOr("")
  }

  /** The ids of the edges, in order. */
  function EdgeIds<D>(edges: seq<Edge<D>>): (ids: seq<string>)
    ensures |ids| == |edges| && forall k :: 0 <= k < |edges| ==> ids[k] == edges[k].id
  {
    seq(|edges|, k requires 0 <= k < |edges| => edges[k].id)
  }
}
