/**
  The parsed HTML tree the converter's output turns into, reduced to what the parsers use:
  an element's `tagName`, its attributes, its child nodes, its flattened `textContent`,
  its element `children` and `querySelectorAll("img")`.
 */
module Dom {
  import opened Common

  /**
    An element carries its `tagName` (upper case for HTML elements, so "OL", "LI", "IMG"), its
    attributes keyed by lower-case name, and its child nodes; a text node carries its data.
   */
  datatype Node =
    | Element(tag: string, attrs: map<string, string>, children: seq<Node>)
    | Text(data: string)

  /** The concatenated text of a sequence of nodes and all their descendants, in document order. */
  function TextOf(nodes: seq<Node>): string
    decreases nodes
  {
    if nodes == [] then ""
    else
      var head := match nodes[0]
        case Text(d) => d
        case Element(_, _, cs) => TextOf(cs);
      head + TextOf(nodes[1..])
  }

  /** `node.textContent`. */
  function TextContent(n: Node): string {
    match n
    case Text(d) => d
    case Element(_, _, cs) => TextOf(cs)
  }

  /** `el.children`: the element children, in order (text nodes are not among them). */
  function ElementChildren(nodes: seq<Node>): (r: seq<Node>)
    ensures forall k | 0 <= k < |r| :: r[k].Element? && r[k] in nodes
    ensures forall k | 0 <= k < |nodes| && nodes[k].Element? :: nodes[k] in r
  {
    if nodes == [] then []
    else (if nodes[0].Element? then [nodes[0]] else []) + ElementChildren(nodes[1..])
  }

  function Children(n: Node): seq<Node> {
    if n.Element? then ElementChildren(n.children) else []
  }

  /** The `img` elements among `nodes` and their descendants, in document (pre-)order. */
  function ImgsIn(nodes: seq<Node>): (r: seq<Node>)
    ensures forall k | 0 <= k < |r| :: r[k].Element? && r[k].tag == "IMG"
    ensures forall k | 0 <= k < |nodes| && nodes[k].Element? ::
      (nodes[k].tag == "IMG" ==> nodes[k] in r) && forall x | x in ImgsIn(nodes[k].children) :: x in r
    decreases nodes
  {
    if nodes == [] then []
    else
      var here := match nodes[0]
        case Text(_) => []
        case Element(tag, _, cs) => (if tag == "IMG" then [nodes[0]] else []) + ImgsIn(cs);
      here + ImgsIn(nodes[1..])
  }

  /** `el.querySelectorAll("img")`: the descendant `img` elements, not counting `el` itself. */
  function QueryImgs(n: Node): (r: seq<Node>)
    ensures forall k | 0 <= k < |r| :: r[k].Element? && r[k].tag == "IMG"
    ensures n.Element? ==> forall k | 0 <= k < |n.children| && n.children[k].Element? ::
      (n.children[k].tag == "IMG" ==> n.children[k] in r) && forall x | x in ImgsIn(n.children[k].children) :: x in r
  {
    if n.Element? then ImgsIn(n.children) else []
  }

  /** `el.getAttribute(name)`: `None` stands for `null`. */
  function GetAttribute(n: Node, name: string): Option<string> {
    if n.Element? && name in n.attrs then Some(n.attrs[name]) else None
  }
}
