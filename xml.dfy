/** The parsed XML the search reads: LINQ-to-XML trees reduced to what the
    queries look at. Element names are local names (namespaces are dropped),
    attributes are a map from local name to value. */
module Xml {

  import opened Wrappers
  import opened Seqs

  /** An XML node: an element, or a run of character data (text or CDATA). */
  datatype Node =
    | Element(name: string, attrs: map<string, string>, children: seq<Node>)
    | TextNode(text: string)

  /** An XDocument, given by its top-level nodes; a loaded document holds one root element. */
  datatype Document = Document(nodes: seq<Node>)

  /** The child nodes of n (a text node has none). */
  function Children(n: Node): seq<Node> {
    if n.Element? then n.children else []
  }

  /** Number of nodes in the tree under n, n included. */
  function Size(n: Node): (r: nat)
    ensures r >= 1
  {
    if n.Element? then 1 + ForestSize(n.children) else 1
  }

  function ForestSize(nodes: seq<Node>): nat {
    if nodes == [] then 0 else Size(nodes[0]) + ForestSize(nodes[1..])
  }

  /** XContainer.Descendants() of a container whose child nodes are `nodes`:
      every element below the container, in document (pre-)order. */
  function Descendants(nodes: seq<Node>): (r: seq<Node>)
    ensures forall i :: 0 <= i < |r| ==> r[i].Element?
  {
    if nodes == [] then []
    else
      (if nodes[0].Element? then [nodes[0]] + Descendants(nodes[0].children) else [])
      + Descendants(nodes[1..])
  }

  /** The elements of a sequence whose local name is `name`, in order. */
  function WithName(elements: seq<Node>, name: string): (r: seq<Node>)
    ensures forall i :: 0 <= i < |r| ==> r[i].Element? && r[i].name == name
  {
    Filter(elements, (n: Node) => n.Element? && n.name == name)
  }

  /** GetXElementsByName(container, name) of the search: the descendants of a
      container (not the container itself) whose local name is `name`, in
      document order. */
  function ElementsByName(nodes: seq<Node>, name: string): (r: seq<Node>)
    ensures forall i :: 0 <= i < |r| ==> r[i].Element? && r[i].name == name
  {
    WithName(Descendants(nodes), name)
  }

  /** GetXElementsByName finds exactly the descendants with that local name. */
  lemma ElementsByNameMembership(nodes: seq<Node>, name: string, n: Node)
    ensures n in ElementsByName(nodes, name) <==> n in Descendants(nodes) && n.name == name
  {
    FilterMembership(Descendants(nodes), (n: Node) => n.Element? && n.name == name, n);
  }

  /** XElement.Attribute(name)?.Value: the attribute's value, or null when absent. */
  function Attribute(n: Node, attrName: string): Option<string> {
    if n.Element? && attrName in n.attrs then Some(n.attrs[attrName]) else None
  }

  /** XElement.Value: the concatenation of all text below n, in document order. */
  function Value(n: Node): string {
    match n
    case TextNode(t) => t
    case Element(_, _, cs) => ValueOf(cs)
  }

  function ValueOf(nodes: seq<Node>): string {
    if nodes == [] then [] else Value(nodes[0]) + ValueOf(nodes[1..])
  }

  /** Descendants of consecutive siblings come in sibling order. */
  lemma {:induction false} DescendantsAppend(a: seq<Node>, b: seq<Node>)
    ensures Descendants(a + b) == Descendants(a) + Descendants(b)
  {
    if a != [] {
      assert (a + b)[0] == a[0];
      assert (a + b)[1..] == a[1..] + b;
      DescendantsAppend(a[1..], b);
    } else {
      assert a + b == b;
    }
  }

  /** Searching two sibling runs is searching each, the first run's matches first. */
  lemma ElementsByNameAppend(a: seq<Node>, b: seq<Node>, name: string)
    ensures ElementsByName(a + b, name) == ElementsByName(a, name) + ElementsByName(b, name)
  {
    DescendantsAppend(a, b);
    FilterAppend(Descendants(a), Descendants(b), (n: Node) => n.Element? && n.name == name);
  }

  /** Every descendant is a subtree of the forest, so no larger than it. */
  lemma {:induction false} DescendantSize(nodes: seq<Node>, d: Node)
    requires d in Descendants(nodes)
    ensures Size(d) <= ForestSize(nodes)
  {
    var n := nodes[0];
    if d in Descendants(nodes[1..]) {
      DescendantSize(nodes[1..], d);
    } else if d != n {
      assert n.Element? && d in Descendants(n.children);
      DescendantSize(n.children, d);
    }
  }

  /** GetXElementsByName on an element never yields that element itself. */
  lemma ElementsByNameExcludesSelf(e: Node, name: string)
    requires e.Element?
    ensures e !in ElementsByName(e.children, name)
  {
    ElementsByNameMembership(e.children, name, e);
    if e in Descendants(e.children) {
      DescendantSize(e.children, e);
    }
  }

  /** Searching below a single node: the node itself when it has the name,
      then the matches below it. */
  lemma ElementsByNameOfOne(e: Node, name: string)
    ensures ElementsByName([e], name)
            == (if e.Element? && e.name == name then [e] else []) + ElementsByName(Children(e), name)
  {
    var keep := (n: Node) => n.Element? && n.name == name;
    assert [e][1..] == [];
    if e.Element? {
      assert Descendants([e]) == [e] + Descendants(e.children);
      FilterAppend([e], Descendants(e.children), keep);
      assert [e][1..] == [];
    } else {
      assert Descendants([e]) == [];
    }
  }
}
