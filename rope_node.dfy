/**
 * The rope's node type and the algorithms that are plain recursion over it:
 * weight-routed character lookup, depth, the leaf projection and rendering.
 * Nodes are never changed after construction, so a node is a value.
 */
module RopeNodes {
  import opened Wrappers
  import opened Fibonacci

  /**
   * A rope node. `Empty` is the source's `RopeNode::None`: explicit absence,
   * used for one side of a boundary split and for the empty rope.
   * `weight` is meant to be the length of the text under `left`, but it is
   * whatever the constructor was given (the test fixtures carry wrong ones).
   */
  datatype RopeNode =
    | Node(left: RopeNode, right: RopeNode, weight: nat)
    | Leaf(value: string)
    | Empty

  /** The text a tree stands for: its leaf strings, left to right. */
  function Text(n: RopeNode): string
  {
    match n
    case Node(l, r, _) => Text(l) + Text(r)
    case Leaf(v) => v
    case Empty => ""
  }

  /** The leaf nodes of a tree, left to right. */
  function Leaves(n: RopeNode): seq<RopeNode>
  {
    match n
    case Node(l, r, _) => Leaves(l) + Leaves(r)
    case Leaf(_) => [n]
    case Empty => []
  }

  predicate AllLeaves(ns: seq<RopeNode>)
  {
    forall i :: 0 <= i < |ns| ==> ns[i].Leaf?
  }

  /** The text of a sequence of nodes: the strings of its leaves, in order. */
  function LeafText(ns: seq<RopeNode>): string
  {
    if ns == [] then ""
    else (if ns[0].Leaf? then ns[0].value else "") + LeafText(ns[1..])
  }

  /** The sum of the leaf lengths, as `len` adds them up. */
  function TotalLength(ns: seq<RopeNode>): nat
  {
    if ns == [] then 0
    else (if ns[0].Leaf? then |ns[0].value| else 0) + TotalLength(ns[1..])
  }

  /** Number of nodes, counting `Empty` and leaves as one. */
  function Size(n: RopeNode): nat
  {
    match n
    case Node(l, r, _) => 1 + Size(l) + Size(r)
    case _ => 1
  }

  /** `get_depth`: 0 for a leaf or `None`, one more than the deeper child for a node. */
  function Depth(n: RopeNode): (r: nat)
    ensures r < Size(n)
  {
    match n
    case Node(l, r, _) => (if Depth(l) < Depth(r) then Depth(r) else Depth(l)) + 1
    case _ => 0
  }

  /** Every node's weight is the length of the text under its left child. */
  predicate WellWeighted(n: RopeNode)
  {
    match n
    case Node(l, r, w) => w == |Text(l)| && WellWeighted(l) && WellWeighted(r)
    case _ => true
  }

  /** The tree holds no `Empty` node at all. */
  predicate NoEmpty(n: RopeNode)
  {
    match n
    case Node(l, r, _) => NoEmpty(l) && NoEmpty(r)
    case Leaf(_) => true
    case Empty => false
  }

  /**
   * The shapes the iterator walks completely: no node has an `Empty` left
   * child, and an `Empty` right child appears only where `last` holds, that is
   * on the rightmost path of the tree being iterated.
   */
  predicate Safe(n: RopeNode, last: bool)
  {
    match n
    case Node(l, r, _) => Safe(l, false) && Safe(r, last)
    case Leaf(_) => true
    case Empty => last
  }

  /** `map_leaf`: the leaf's string for a leaf, nothing for a node or `None`. */
  function MapLeaf(n: RopeNode): (r: Option<string>)
    ensures r.Some? <==> n.Leaf?
    ensures r.Some? ==> r.value == n.value
  {
    match n
    case Leaf(v) => Some(v)
    case _ => None
  }

  /**
   * `get_char_rec`: at a node, an index at or past the weight goes right with
   * the weight taken off, any other goes left; a leaf answers its own
   * character; `None` answers nothing. With correct weights this is indexing
   * into the text.
   */
  function GetChar(n: RopeNode, index: nat): (r: Option<char>)
    ensures WellWeighted(n) ==>
      r == if index < |Text(n)| then Some(Text(n)[index]) else None
    ensures n.Empty? ==> r == None
  {
    match n
    case Node(l, rt, w) =>
      if index >= w then GetChar(rt, index - w) else GetChar(l, index)
    case Leaf(v) => if index < |v| then Some(v[index]) else None
    case Empty => None
  }

  /** `Display for RopeNode`: `Node(Left: _, Right: _)`, `Leaf("text")` or `None`. */
  function Render(n: RopeNode): (r: string)
    ensures n.Empty? <==> r == "None"
    ensures n.Leaf? <==> |r| >= 5 && r[..5] == "Leaf("
    ensures n.Node? <==> |r| >= 5 && r[..5] == "Node("
  {
    match n
    case Node(l, rt, _) =>
      var out := "Node(Left: " + Render(l) + ", Right: " + Render(rt) + ")";
      assert out[..5] == "Node(";
      out
    case Leaf(v) =>
      var out := "Leaf(\"" + v + "\")";
      assert out[..5] == "Leaf(";
      out
    case Empty => "None"
  }

  lemma {:induction false} LeafTextAppend(a: seq<RopeNode>, b: seq<RopeNode>)
    ensures LeafText(a + b) == LeafText(a) + LeafText(b)
    ensures TotalLength(a + b) == TotalLength(a) + TotalLength(b)
  {
    if a == [] {
      assert a + b == b;
    } else {
      var ab := a + b;
      assert ab[0] == a[0];
      assert ab[1..] == a[1..] + b;
      LeafTextAppend(a[1..], b);
      assert LeafText(ab) == (if ab[0].Leaf? then ab[0].value else "") + LeafText(a[1..] + b) by {
        assert ab != [];
      }
      assert TotalLength(ab) == (if ab[0].Leaf? then |ab[0].value| else 0) + TotalLength(a[1..] + b) by {
        assert ab != [];
      }
    }
  }

  /** The summed leaf lengths are the length of the leaf text. */
  lemma {:induction false} TotalLengthIsTextLength(ns: seq<RopeNode>)
    ensures TotalLength(ns) == |LeafText(ns)|
  {
    if ns != [] {
      TotalLengthIsTextLength(ns[1..]);
    }
  }

  /** A tree's text is the text of its leaves in order. */
  lemma {:induction false} TextIsLeafText(n: RopeNode)
    ensures Text(n) == LeafText(Leaves(n))
    ensures AllLeaves(Leaves(n))
  {
    match n
    case Node(l, r, _) =>
      TextIsLeafText(l);
      TextIsLeafText(r);
      LeafTextAppend(Leaves(l), Leaves(r));
    case Leaf(v) =>
      assert LeafText([n]) == v + LeafText([]);
    case Empty =>
  }

  /** A tree without `Empty` nodes is walked completely, wherever it sits. */
  lemma {:induction false} NoEmptyIsSafe(n: RopeNode, last: bool)
    requires NoEmpty(n)
    ensures Safe(n, last)
  {
    match n
    case Node(l, r, _) =>
      NoEmptyIsSafe(l, false);
      NoEmptyIsSafe(r, last);
    case Leaf(_) =>
  }

  /** A tree of depth d has at most 2^d leaves. */
  lemma {:induction false} LeavesWithinDepth(n: RopeNode)
    ensures |Leaves(n)| <= Pow2(Depth(n))
  {
    match n
    case Node(l, r, _) =>
      LeavesWithinDepth(l);
      LeavesWithinDepth(r);
      var d := Depth(n) - 1;
      PowMonotone(Depth(l), d);
      PowMonotone(Depth(r), d);
    case Leaf(_) =>
    case Empty =>
  }

  lemma {:induction false} PowMonotone(a: nat, b: nat)
    requires a <= b
    ensures Pow2(a) <= Pow2(b)
  {
    if a < b {
      PowMonotone(a, b - 1);
    }
  }
}
