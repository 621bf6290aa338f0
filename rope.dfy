/**
 * `Rope`: the owner of one root, which `insert`, `substring` and `rebalance`
 * replace. Its split, substring, builder, length and lookup are the same
 * algorithms as the node wrapper's and are modelled once, in `RopeNodes`,
 * `RopeIterator`, `RopeBuilder` and `RopeOps`; the methods here run them on
 * the root. The `concat`, `get_depth`, `map_leaf` and `is_not_none` that
 * `Rope` calls on its root are taken to be the node wrapper's: the node type
 * itself defines none of them.
 */
module Ropes {
  import opened Wrappers
  import opened Fibonacci
  import opened RopeNodes
  import opened RopeIterator
  import opened RopeBuilder
  import opened RopeOps

  /** `Rope::new`'s root: a bare leaf is hung under a node with an `Empty` right child. */
  function NewRoot(node: RopeNode): (r: RopeNode)
    ensures Text(r) == Text(node) && Leaves(r) == Leaves(node)
    ensures Yielded(r) == Yielded(node)
    ensures WellWeighted(node) ==> WellWeighted(r)
    ensures r.Leaf? == false
  {
    if node.Leaf? then
      WrappedLeafYields(node.value);
      Node(node, Empty, |node.value|)
    else node
  }

  lemma WrappedLeafYields(v: string)
    ensures Yielded(Node(Leaf(v), Empty, |v|)) == Yielded(Leaf(v)) == [Leaf(v)]
  {
    var n := Node(Leaf(v), Empty, |v|);
    assert LeftSpine(n) == [n, Leaf(v)];
    DrainLeafStep(LeftSpine(n));
    assert Drain([n, Leaf(v)]) == [Leaf(v)] + Drain([]);
    LeafYText(v);
  }

  /** `rebalance`: a balanced root is kept, any other is rebuilt from the leaves it yields. */
  function Rebalanced(n: RopeNode): (r: RopeNode)
    ensures YText(r) == YText(n)
    ensures Yielded(n) != [] ==> IsBalanced(r)
    ensures IsBalanced(n) ==> r == n
    ensures !IsBalanced(n) ==> WellWeighted(r) && YText(r) == Text(r)
  {
    if IsBalanced(n) then n
    else
      RebalanceFacts(n);
      BuildSpec(Yielded(n))
  }

  class Rope {
    var root: RopeNode

    /** `Rope::new`. */
    constructor (node: RopeNode)
      ensures root == NewRoot(node)
    {
      root := NewRoot(node);
    }

    /** `get_char`: with correct weights, the character at `index` of the text, or nothing past its end. */
    method GetCharAt(index: nat) returns (c: Option<char>)
      ensures c == GetChar(root, index)
      ensures WellWeighted(root) ==> c == if index < |Text(root)| then Some(Text(root)[index]) else None
    {
      c := GetChar(root, index);
    }

    /** `iter`: the root's left spine on the stack. */
    method Iter() returns (it: RopeIter)
      ensures fresh(it) && it.nodesStack == LeftSpine(root)
    {
      it := RopeIterator.Iter(root);
    }

    /** `split`: the shown text's prefix and suffix at `index`, clamped to the length. */
    method Split(index: nat) returns (left: RopeNode, right: RopeNode)
      ensures (left, right) == SplitSpec(root, index)
      ensures var k := Min(index, Len(root));
        YText(left) == YText(root)[..k] && YText(right) == YText(root)[k..]
    {
      left, right := RopeOps.Split(root, index);
      SplitText(root, index);
    }

    /** `is_balanced`: the yielded leaf count against `get_fibonacci_number(depth + 2)`. */
    method IsBalanced() returns (b: bool)
      ensures b == RopeOps.IsBalanced(root)
      ensures b <==> |Yielded(root)| >= Fib(Depth(root) + 2)
    {
      var depth := Depth(root);
      var minLength := GetFibonacciNumber(depth + 2);
      var it := RopeIterator.Iter(root);
      var ys := Collect(it);
      b := |ys| >= minLength;
    }

    /** `rebalance`: keeps a balanced root, otherwise rebuilds it; the shown text is kept. */
    method Rebalance()
      modifies this
      ensures root == Rebalanced(old(root))
      ensures YText(root) == YText(old(root))
      ensures Yielded(old(root)) != [] ==> RopeOps.IsBalanced(root)
    {
      var balanced := IsBalanced();
      if balanced {
        return;
      }
      root := RopeOps.Rebalance(root);
    }

    /**
     * `substring`: the root becomes the builder over the window's leaves. The
     * scan as written subtracts below zero on some windows (a panic in a debug
     * build); that case is reported as `Some` message and leaves the root as it
     * was. Otherwise the new root shows exactly the clamped slice.
     */
    method Substring(start: nat, len: nat) returns (failure: Option<string>)
      modifies this
      ensures failure.None? <==> SubstringAsWritten(old(root), start, len).Ok?
      ensures failure.Some? ==> root == old(root)
      ensures failure.None? ==> root == SubstringSpec(old(root), start, len)
      ensures failure.None? ==> var k := Len(old(root));
        YText(root) == Text(root) == YText(old(root))[Min(start, k)..Min(start + len, k)]
    {
      var r := RopeOps.Substring(root, start, len);
      if r.Err? {
        return Some(r.error);
      }
      SubstringText(root, start, len);
      root := r.value;
      failure := None;
    }

    /** `insert`: the splice, then `rebalance`. */
    method Insert(index: nat, value: string)
      modifies this
      ensures root == Rebalanced(RopeOps.Insert(old(root), index, value))
      ensures index == 0 || index < Len(old(root)) || Safe(old(root), false) ==>
        var t, k := YText(old(root)), Min(index, Len(old(root)));
        YText(root) == t[..k] + value + t[k..]
      ensures Yielded(RopeOps.Insert(old(root), index, value)) != [] ==> RopeOps.IsBalanced(root)
    {
      ghost var before := root;
      var newLeaf := Leaf(value);
      if index == 0 {
        root := Concat(newLeaf, root);
      } else if index >= Len(root) {
        root := Concat(root, newLeaf);
      } else {
        var left, right := RopeOps.Split(root, index);
        root := Concat(Concat(left, newLeaf), right);
      }
      assert root == RopeOps.Insert(before, index, value);
      if index == 0 || index < Len(before) || Safe(before, false) {
        InsertSplices(before, index, value);
      }
      Rebalance();
    }
  }
}
