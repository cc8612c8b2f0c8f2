/** The node type of the Huffman code tree: a binary tree whose leaves carry a
    byte and its frequency. A null child pointer is the `Nil` tree. */
module HuffmanHeapNode {
  import opened Bytes

  datatype Node =
    | Nil
    | Node(left: Node, right: Node, c: int, freq: int)
  {
    predicate IsLeaf() {
      Node? && left.Nil? && right.Nil?
    }
  }

  /** The default constructor: no children, `c = 0`, `freq = 0`. */
  function DefaultNode(): (r: Node)
    ensures r.IsLeaf() && r.c == 0 && r.freq == 0
  {
    Node(Nil, Nil, 0, 0)
  }

  /** The `(c, freq)` constructor: a leaf carrying those values. */
  function LeafNode(c: int, freq: int): (r: Node)
    ensures r.IsLeaf() && r.c == c && r.freq == freq
  {
    Node(Nil, Nil, c, freq)
  }

  /** `NodesAmount`: 0 for null, 1 for a leaf, 1 + left + right otherwise. */
  function NodesAmount(t: Node): nat
  {
    match t
    case Nil => 0
    case Node(l, r, _, _) =>
      if l.Nil? && r.Nil? then 1 else 1 + NodesAmount(l) + NodesAmount(r)
  }

  /** `NodeHeight`: 0 for null, 1 for a leaf, 1 + max(left, right) otherwise. */
  function NodeHeight(t: Node): nat
  {
    match t
    case Nil => 0
    case Node(l, r, _, _) =>
      if l.Nil? && r.Nil? then 1
      else
        var hl := NodeHeight(l);
        var hr := NodeHeight(r);
        1 + (if hl > hr then hl else hr)
  }

  /** Reference definition: the nodes of the tree in pre-order, as (c, freq) pairs. */
  function PreOrder(t: Node): seq<(int, int)>
  {
    match t
    case Nil => []
    case Node(l, r, c, f) => [(c, f)] + PreOrder(l) + PreOrder(r)
  }

  /** Reference definition: does the path `path` (false = left, true = right)
      lead from the root to a node? */
  predicate HasPath(t: Node, path: seq<bool>)
  {
    match t
    case Nil => false
    case Node(l, r, _, _) =>
      path == [] || HasPath(if path[0] then r else l, path[1..])
  }

  /** The leaf special case of both recursions agrees with the general one. */
  lemma {:induction false} LeafCaseIsGeneral(t: Node)
    requires t.Node?
    ensures NodesAmount(t) == 1 + NodesAmount(t.left) + NodesAmount(t.right)
    ensures NodeHeight(t) == 1 + Max(NodeHeight(t.left), NodeHeight(t.right))
  {
  }

  function Max(a: int, b: int): int { if a > b then a else b }

  /** `NodesAmount` counts exactly the nodes of the tree. */
  lemma {:induction false} NodesAmountCountsNodes(t: Node)
    ensures NodesAmount(t) == |PreOrder(t)|
  {
    match t
    case Nil =>
    case Node(l, r, _, _) =>
      NodesAmountCountsNodes(l);
      NodesAmountCountsNodes(r);
  }

  /** A non-null tree has a height between 1 and its number of nodes, and at
      most 2^height - 1 nodes. */
  lemma {:induction false} HeightBounds(t: Node)
    ensures t.Node? ==> 1 <= NodeHeight(t) <= NodesAmount(t)
    ensures NodesAmount(t) <= Pow2(NodeHeight(t)) - 1
  {
    match t
    case Nil =>
    case Node(l, r, _, _) =>
      HeightBounds(l);
      HeightBounds(r);
      var hl, hr := NodeHeight(l), NodeHeight(r);
      var m := if hl > hr then hl else hr;
      PowMonotone(hl, m);
      PowMonotone(hr, m);
      assert NodeHeight(t) == m + 1 || (l.Nil? && r.Nil?);
      assert Pow2(m + 1) == 2 * Pow2(m);
      assert NodesAmount(l) + NodesAmount(r) <= 2 * Pow2(m) - 2;
  }

  lemma {:induction false} PowMonotone(a: nat, b: nat)
    requires a <= b
    ensures Pow2(a) <= Pow2(b)
  {
    if a < b { PowMonotone(a, b - 1); }
  }

  /** The height is the length of the longest root path plus one: every path
      to a node is shorter than the height ... */
  lemma {:induction false} PathsShorterThanHeight(t: Node, path: seq<bool>)
    requires HasPath(t, path)
    ensures |path| < NodeHeight(t)
  {
    match t
    case Node(l, r, _, _) =>
      if path != [] {
        PathsShorterThanHeight(if path[0] then r else l, path[1..]);
      }
  }

  /** ... and some path reaches that length. */
  lemma {:induction false} SomePathAttainsHeight(t: Node) returns (path: seq<bool>)
    requires t.Node?
    ensures HasPath(t, path) && |path| == NodeHeight(t) - 1
  {
    var l, r := t.left, t.right;
    if l.Nil? && r.Nil? {
      path := [];
    } else if NodeHeight(l) >= NodeHeight(r) {
      var p := SomePathAttainsHeight(l);
      path := [false] + p;
      assert path[1..] == p;
    } else {
      var p := SomePathAttainsHeight(r);
      path := [true] + p;
      assert path[1..] == p;
    }
  }
}
