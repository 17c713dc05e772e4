/** The parsed document as the detector sees it. The XML parser is not
    modelled: a document is given as its tree of nodes. */
module Document {

  datatype Option<T> = None | Some(value: T)

  datatype Attribute = Attribute(name: string, value: string)

  /** A node of the parsed tree. `name` is the node's qualified name
      (`prefix:local`, a plain name, or a name such as `#text` or `#comment`);
      `attributes` is `None` for node kinds that have no attribute collection
      (text, comments, the XML declaration). */
  datatype Node = Node(name: string, attributes: Option<seq<Attribute>>, children: seq<Node>)

  /** The nodes of a forest in post-order: each node's subtree before the
      node itself, siblings left to right. */
  function PostOrder(nodes: seq<Node>): (r: seq<Node>)
    ensures forall n :: n in nodes ==> n in r
    decreases nodes
  {
    if nodes == [] then []
    else PostOrder(nodes[0].children) + [nodes[0]] + PostOrder(nodes[1..])
  }

  /** The walk reaches every node of the forest: it is closed under taking
      children. */
  lemma {:induction false} PostOrderIsClosed(nodes: seq<Node>)
    ensures forall n, c :: n in PostOrder(nodes) && c in n.children ==> c in PostOrder(nodes)
    decreases nodes
  {
    if nodes != [] {
      PostOrderIsClosed(nodes[0].children);
      PostOrderIsClosed(nodes[1..]);
    }
  }

  /** A node comes right after its own subtree. */
  lemma {:induction false} PostOrderOfNode(n: Node)
    ensures PostOrder([n]) == PostOrder(n.children) + [n]
  {
    assert [n][1..] == [];
  }

  lemma {:induction false} PostOrderAppend(a: seq<Node>, b: seq<Node>)
    ensures PostOrder(a + b) == PostOrder(a) + PostOrder(b)
    decreases a
  {
    if a == [] {
      assert a + b == b;
    } else {
      assert (a + b)[0] == a[0] && (a + b)[1..] == a[1..] + b;
      PostOrderAppend(a[1..], b);
    }
  }

  /** The concatenation of `f(n)` over `ns`, in order. */
  function FlatMap(ns: seq<Node>, f: Node -> seq<string>): (r: seq<string>)
    ensures forall x :: x in r <==> exists n :: n in ns && x in f(n)
    decreases |ns|
  {
    if ns == [] then []
    else
      assert forall n :: n in ns <==> n == ns[0] || n in ns[1..];
      f(ns[0]) + FlatMap(ns[1..], f)
  }

  lemma {:induction false} FlatMapAppend(a: seq<Node>, b: seq<Node>, f: Node -> seq<string>)
    ensures FlatMap(a + b, f) == FlatMap(a, f) + FlatMap(b, f)
    decreases |a|
  {
    if a == [] {
      assert a + b == b;
    } else {
      assert (a + b)[0] == a[0] && (a + b)[1..] == a[1..] + b;
      FlatMapAppend(a[1..], b, f);
    }
  }

  lemma {:induction false} FlatMapSingle(n: Node, f: Node -> seq<string>)
    ensures FlatMap([n], f) == f(n)
  {
    assert [n][1..] == [];
  }

  /** `XmlAttributeCollection[name]`: the value of the first attribute with
      that name, `None` when there is none. */
  function Lookup(attrs: seq<Attribute>, name: string): (r: Option<string>)
    ensures r.None? <==> forall k :: 0 <= k < |attrs| ==> attrs[k].name != name
    ensures r.Some? ==>
              exists k :: 0 <= k < |attrs| && attrs[k] == Attribute(name, r.value) &&
                          (forall j :: 0 <= j < k ==> attrs[j].name != name)
    decreases |attrs|
  {
    if attrs == [] then None
    else if attrs[0].name == name then Some(attrs[0].value)
    else
      var r := Lookup(attrs[1..], name);
      assert forall k :: 1 <= k < |attrs| ==> attrs[k] == attrs[1..][k - 1];
      r
  }
}
