/**
 * The earlier single-file rope: a root that starts out `None`, the same
 * weight-routed `get_char`, and an iterator over the same stack that hands
 * out the leaves' strings instead of the leaves. The tree, the lookup and the
 * iterator's step are the ones in `RopeNodes` and `RopeIterator`.
 */
module LegacyRopes {
  import opened Wrappers
  import opened RopeNodes
  import opened RopeIterator

  /** The strings of a sequence of leaves, in order. */
  function Values(ys: seq<RopeNode>): (r: seq<string>)
    requires AllLeaves(ys)
    ensures |r| == |ys| && forall i :: 0 <= i < |ys| ==> r[i] == ys[i].value
  {
    if ys == [] then [] else [ys[0].value] + Values(ys[1..])
  }

  /** The strings a consumer receives from a stack: those of `Drain`, up to the first `None`. */
  function DrainValues(s: seq<RopeNode>): seq<string>
  {
    Values(Drain(s))
  }

  /** The leaf-concatenated text is the concatenation of the strings the leaves hand out. */
  lemma {:induction false} ValuesText(ys: seq<RopeNode>)
    requires AllLeaves(ys)
    ensures LeafText(ys) == Concatenated(Values(ys))
  {
    if ys != [] {
      assert Values(ys)[1..] == Values(ys[1..]);
      ValuesText(ys[1..]);
    }
  }

  function Concatenated(vs: seq<string>): string
  {
    if vs == [] then [] else vs[0] + Concatenated(vs[1..])
  }

  /** The strings the iterator hands out, joined, are the text it shows. */
  lemma StringsShowText(n: RopeNode)
    ensures Concatenated(DrainValues(LeftSpine(n))) == YText(n)
    ensures Safe(n, true) ==> Concatenated(DrainValues(LeftSpine(n))) == Text(n)
  {
    ValuesText(Yielded(n));
    if Safe(n, true) {
      YieldedSafe(n);
    }
  }

  /** `RopeIter` over strings: the same stack and the same step, handing out the leaf's value. */
  class StringIter {
    var nodesStack: seq<RopeNode>

    constructor (stack: seq<RopeNode>)
      ensures nodesStack == stack
    {
      nodesStack := stack;
    }

    /** `next`: the top leaf's string after the stack step; `None` on an empty stack or a non-leaf top. */
    method Next() returns (r: Option<string>)
      modifies this
      ensures nodesStack == Step(old(nodesStack)).1
      ensures r == if Step(old(nodesStack)).0.Some? then Some(Step(old(nodesStack)).0.value.value) else None
      ensures DrainValues(old(nodesStack)) == if r.Some? then [r.value] + DrainValues(nodesStack) else []
    {
      var it := new RopeIter(nodesStack);
      var x := it.Next();
      nodesStack := it.nodesStack;
      r := if x.Some? then Some(x.value.value) else None;
      if x.Some? {
        assert Values([x.value] + Drain(nodesStack)) == [r.value] + Values(Drain(nodesStack));
      }
    }
  }

  /** Runs a string iterator until its first `None`, collecting the strings (`for s in rope.iter()`). */
  method CollectStrings(it: StringIter) returns (vs: seq<string>)
    modifies it
    ensures vs == DrainValues(old(it.nodesStack))
  {
    vs := [];
    while true
      invariant vs + DrainValues(it.nodesStack) == DrainValues(old(it.nodesStack))
      decreases StackMeasure(it.nodesStack)
    {
      var x := it.Next();
      if x.None? {
        break;
      }
      vs := vs + [x.value];
    }
  }

  /** `Rope` of the earlier version. */
  class Rope {
    var root: RopeNode

    /** `Rope::new`: a `None` root. */
    constructor ()
      ensures root == Empty
      ensures forall i: nat :: GetChar(root, i) == None
    {
      root := Empty;
    }

    /** `get_char`: the weight-routed lookup; on correct weights, the text's character or nothing past its end. */
    method GetCharAt(index: nat) returns (c: Option<char>)
      ensures c == GetChar(root, index)
      ensures WellWeighted(root) ==> c == if index < |Text(root)| then Some(Text(root)[index]) else None
    {
      c := GetChar(root, index);
    }

    /** `iter`: a fresh string iterator whose stack is the root's left spine. */
    method Iter() returns (it: StringIter)
      ensures fresh(it) && it.nodesStack == LeftSpine(root)
    {
      var nodes := RopeIterator.Iter(root);
      it := new StringIter(nodes.nodesStack);
    }
  }

  /** `Display for RopeNode` of the earlier version: a leaf's text without quotes. */
  function RenderUnquoted(n: RopeNode): (r: string)
    ensures n.Empty? <==> r == "None"
    ensures n.Leaf? <==> |r| >= 5 && r[..5] == "Leaf("
    ensures n.Node? <==> |r| >= 5 && r[..5] == "Node("
  {
    match n
    case Node(l, rt, _) =>
      var out := "Node(Left: " + RenderUnquoted(l) + ", Right: " + RenderUnquoted(rt) + ")";
      assert out[..5] == "Node(";
      out
    case Leaf(v) =>
      var out := "Leaf(" + v + ")";
      assert out[..5] == "Leaf(";
      out
    case Empty => "None"
  }

  /** The same tree with every leaf's text wrapped in double quotes. */
  function QuoteLeaves(n: RopeNode): (r: RopeNode)
    ensures Size(r) == Size(n)
    ensures Leaves(n) == [] ==> r == n
  {
    match n
    case Node(l, rt, w) => Node(QuoteLeaves(l), QuoteLeaves(rt), w)
    case Leaf(v) => Leaf("\"" + v + "\"")
    case Empty => Empty
  }

  /**
   * The two renderings differ exactly in the two quotes around each leaf's
   * text: the current one is the earlier one of the tree with quoted leaves.
   */
  lemma {:induction false} RenderQuotes(n: RopeNode)
    ensures Render(n) == RenderUnquoted(QuoteLeaves(n))
    ensures Leaves(n) == [] ==> Render(n) == RenderUnquoted(n)
  {
    match n
    case Node(l, r, _) =>
      RenderQuotes(l);
      RenderQuotes(r);
    case Leaf(v) =>
      assert "Leaf(\"" + v + "\")" == "Leaf(" + ("\"" + v + "\"") + ")";
    case Empty =>
  }

  /** Traversal: the four strings in order, then nothing; the wrong weights play no part. */
  lemma TraverseStringsFixture()
    ensures var t := Node(Node(Leaf("hello"), Leaf("world"), 5), Node(Leaf("My name"), Leaf("is sugondese"), 5), 5);
      DrainValues(LeftSpine(t)) == ["hello", "world", "My name", "is sugondese"]
  {
    var t := Node(Node(Leaf("hello"), Leaf("world"), 5), Node(Leaf("My name"), Leaf("is sugondese"), 5), 5);
    NoEmptyIsSafe(t, true);
    YieldedSafe(t);
    assert Leaves(t) == [Leaf("hello")] + [Leaf("world")] + ([Leaf("My name")] + [Leaf("is sugondese")]);
  }
}
