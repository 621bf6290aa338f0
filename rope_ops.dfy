/**
 * The rope operations built on the iterator and the builder: length,
 * concatenation, split, substring, insert, the balance test and rebalance.
 * Lengths, weights and positions come from what the iterator yields, so the
 * theorems are stated over `YText` (the text the iterator shows), and over
 * `Text` for the shapes the iterator walks completely.
 */
module RopeOps {
  import opened Wrappers
  import opened Fibonacci
  import opened RopeNodes
  import opened RopeIterator
  import opened RopeBuilder

  function Min(a: nat, b: nat): nat
  {
    if a < b then a else b
  }

  /** `len`: the summed lengths of the yielded leaves. */
  function Len(n: RopeNode): (r: nat)
    ensures r == |YText(n)|
  {
    TotalLengthIsTextLength(Yielded(n));
    TotalLength(Yielded(n))
  }

  lemma LenIsTextLength(n: RopeNode)
    ensures Safe(n, true) ==> Len(n) == |Text(n)|
  {
    if Safe(n, true) {
      YieldedSafe(n);
    }
  }

  lemma {:induction false} SafeWeakens(n: RopeNode)
    requires Safe(n, false)
    ensures Safe(n, true)
  {
    if n.Node? {
      SafeWeakens(n.right);
    }
  }

  /** `is_balanced`: at least `fib(depth + 2)` leaves are yielded. */
  predicate IsBalanced(n: RopeNode)
    ensures IsBalanced(n) ==> Yielded(n) != []
  {
    |Yielded(n)| >= Fib(Depth(n) + 2)
  }

  // ---------------------------------------------------------------------------
  // concat

  /** `concat`: a node over both inputs, weighted by the length `a` yields. */
  function Concat(a: RopeNode, b: RopeNode): (r: RopeNode)
    ensures Leaves(r) == Leaves(a) + Leaves(b)
    ensures Text(r) == Text(a) + Text(b)
    ensures |Text(r)| == |Text(a)| + |Text(b)|
  {
    Node(a, b, Len(a))
  }

  /**
   * The weight is the length of `a`'s text whenever the iterator walks `a`
   * completely, so correct weights stay correct; when `a` has no `Empty` node
   * the iterator shows the two texts one after the other.
   */
  lemma ConcatFacts(a: RopeNode, b: RopeNode)
    ensures Concat(a, b).weight == |YText(a)|
    ensures Safe(a, true) && WellWeighted(a) && WellWeighted(b) ==> WellWeighted(Concat(a, b))
    ensures Safe(a, false) && Safe(b, true) ==> YText(Concat(a, b)) == YText(a) + YText(b) == Text(a) + Text(b)
    ensures Safe(a, false) && Safe(b, true) ==> Len(Concat(a, b)) == Len(a) + Len(b)
  {
    LenIsTextLength(a);
    if Safe(a, false) && Safe(b, true) {
      SafeWeakens(a);
      YieldedSafe(a);
      YieldedSafe(b);
      YieldedSafe(Concat(a, b));
      LenIsTextLength(b);
      LenIsTextLength(Concat(a, b));
    }
  }

  /** A leaf put in front is yielded first, then everything `b` yields, whatever `b`'s shape. */
  lemma ConcatLeafFirst(leaf: RopeNode, b: RopeNode)
    requires leaf.Leaf?
    ensures Yielded(Concat(leaf, b)) == [leaf] + Yielded(b)
    ensures YText(Concat(leaf, b)) == leaf.value + YText(b)
  {
    var c := Concat(leaf, b);
    var s := LeftSpine(c);
    assert s == [c, leaf];
    DrainLeafStep(s);
    assert s[..|s| - 2] + Collected(c) == LeftSpine(b);
    LeafTextAppend([leaf], Yielded(b));
    assert LeafText([leaf]) == leaf.value + LeafText([]);
  }

  /** Behind a node whose right child is `Empty`, the right operand is never reached. */
  lemma ConcatAfterOpenNode(x: string, y: string)
    ensures var a := Node(Leaf(x), Empty, |x|);
      Yielded(Concat(a, Leaf(y))) == [Leaf(x)] && Leaves(Concat(a, Leaf(y))) == [Leaf(x), Leaf(y)]
  {
    var a := Node(Leaf(x), Empty, |x|);
    assert Yielded(a) == [Leaf(x)] by {
      assert LeftSpine(a) == [a, Leaf(x)];
      DrainLeafStep(LeftSpine(a));
    }
    var c := Concat(a, Leaf(y));
    var s := LeftSpine(c);
    assert s == [c, a, Leaf(x)];
    DrainLeafStep(s);
    assert s[..|s| - 2] + Collected(a) == [c];
    assert Drain([c]) == [];
    assert Leaves(a) == [Leaf(x)] + [];
  }

  // ---------------------------------------------------------------------------
  // split

  /**
   * The split loop over the yielded leaves from position `cur`: a leaf that
   * straddles `index` is cut in two, a leaf starting before it goes left, any
   * other goes right.
   */
  function SplitLeaves(ys: seq<RopeNode>, index: nat, cur: nat): (seq<RopeNode>, seq<RopeNode>)
    requires AllLeaves(ys)
  {
    if ys == [] then ([], [])
    else
      var v := ys[0].value;
      var rest := SplitLeaves(ys[1..], index, cur + |v|);
      if cur < index && cur + |v| > index then
        ([Leaf(v[..index - cur])] + rest.0, [Leaf(v[index - cur..])] + rest.1)
      else if cur < index then ([ys[0]] + rest.0, rest.1)
      else (rest.0, [ys[0]] + rest.1)
  }

  /** Where the cut falls inside the text of `ys`, when the loop reaches `ys` at position `cur`. */
  function CutAt(ys: seq<RopeNode>, index: nat, cur: nat): nat
  {
    if index <= cur then 0 else Min(index - cur, |LeafText(ys)|)
  }

  lemma LeafTextCons(x: RopeNode, xs: seq<RopeNode>)
    requires x.Leaf?
    ensures LeafText([x] + xs) == x.value + LeafText(xs)
  {
    assert ([x] + xs)[1..] == xs;
  }

  /** Once the loop is at or past the index, every remaining leaf goes right unchanged. */
  lemma {:induction false} SplitPast(ys: seq<RopeNode>, index: nat, cur: nat)
    requires AllLeaves(ys) && index <= cur
    ensures SplitLeaves(ys, index, cur) == ([], ys)
  {
    if ys != [] {
      SplitPast(ys[1..], index, cur + |ys[0].value|);
      assert [ys[0]] + ys[1..] == ys;
    }
  }

  /** The left part holds the text before the cut and the right part the text after it. */
  lemma {:induction false} SplitLeavesText(ys: seq<RopeNode>, index: nat, cur: nat)
    requires AllLeaves(ys)
    ensures AllLeaves(SplitLeaves(ys, index, cur).0) && AllLeaves(SplitLeaves(ys, index, cur).1)
    ensures var k := CutAt(ys, index, cur);
      LeafText(SplitLeaves(ys, index, cur).0) == LeafText(ys)[..k] &&
      LeafText(SplitLeaves(ys, index, cur).1) == LeafText(ys)[k..]
  {
    if ys == [] {
    } else if index <= cur {
      SplitPast(ys, index, cur);
    } else if cur + |ys[0].value| > index {
      SplitCutText(ys, index, cur);
    } else {
      SplitLeavesText(ys[1..], index, cur + |ys[0].value|);
      SplitKeepText(ys, index, cur);
    }
  }

  /** The leaf that straddles the index: its two pieces carry the text on either side of the cut. */
  lemma SplitCutText(ys: seq<RopeNode>, index: nat, cur: nat)
    requires AllLeaves(ys) && ys != [] && cur < index < cur + |ys[0].value|
    ensures AllLeaves(SplitLeaves(ys, index, cur).0) && AllLeaves(SplitLeaves(ys, index, cur).1)
    ensures var k := CutAt(ys, index, cur);
      LeafText(SplitLeaves(ys, index, cur).0) == LeafText(ys)[..k] &&
      LeafText(SplitLeaves(ys, index, cur).1) == LeafText(ys)[k..]
  {
    var v := ys[0].value;
    var tail := ys[1..];
    var t := LeafText(tail);
    assert LeafText(ys) == v + t;
    SplitPast(tail, index, cur + |v|);
    var k := index - cur;
    assert CutAt(ys, index, cur) == k;
    var (l, r) := SplitLeaves(ys, index, cur);
    assert l == [Leaf(v[..k])] && r == [Leaf(v[k..])] + tail;
    LeafTextCons(Leaf(v[..k]), []);
    LeafTextCons(Leaf(v[k..]), tail);
    assert (v + t)[..k] == v[..k];
    assert (v + t)[k..] == v[k..] + t;
  }

  /** A leaf that ends at or before the index goes left whole, in front of what the rest puts there. */
  lemma SplitKeepText(ys: seq<RopeNode>, index: nat, cur: nat)
    requires AllLeaves(ys) && ys != [] && cur < index && cur + |ys[0].value| <= index
    requires var k' := CutAt(ys[1..], index, cur + |ys[0].value|);
      var rest := SplitLeaves(ys[1..], index, cur + |ys[0].value|);
      AllLeaves(rest.0) && AllLeaves(rest.1) &&
      LeafText(rest.0) == LeafText(ys[1..])[..k'] && LeafText(rest.1) == LeafText(ys[1..])[k'..]
    ensures AllLeaves(SplitLeaves(ys, index, cur).0) && AllLeaves(SplitLeaves(ys, index, cur).1)
    ensures var k := CutAt(ys, index, cur);
      LeafText(SplitLeaves(ys, index, cur).0) == LeafText(ys)[..k] &&
      LeafText(SplitLeaves(ys, index, cur).1) == LeafText(ys)[k..]
  {
    var v := ys[0].value;
    var tail := ys[1..];
    var t := LeafText(tail);
    assert LeafText(ys) == v + t;
    var (l', r') := SplitLeaves(tail, index, cur + |v|);
    var (l, r) := SplitLeaves(ys, index, cur);
    assert l == [ys[0]] + l' && r == r';
    LeafTextCons(ys[0], l');
    var k' := CutAt(tail, index, cur + |v|);
    assert CutAt(ys, index, cur) == |v| + k';
    assert (v + t)[..|v| + k'] == v + t[..k'];
    assert (v + t)[|v| + k'..] == t[k'..];
  }

  /**
   * At most one leaf is cut: either the two parts are the input leaves
   * unchanged and in order, or exactly one leaf is replaced by two non-empty
   * leaves whose texts make it up, the first ending the left part and the
   * second starting the right part.
   */
  predicate CutOnce(ys: seq<RopeNode>, l: seq<RopeNode>, r: seq<RopeNode>)
    requires AllLeaves(ys) && AllLeaves(l) && AllLeaves(r)
  {
    (l + r == ys) ||
    (|l| + |r| == |ys| + 1 && 1 <= |l| <= |ys| && 1 <= |r| &&
     l[..|l| - 1] == ys[..|l| - 1] && r[1..] == ys[|l|..] &&
     l[|l| - 1].value + r[0].value == ys[|l| - 1].value &&
     l[|l| - 1].value != [] && r[0].value != [])
  }

  lemma {:induction false} SplitLeavesShape(ys: seq<RopeNode>, index: nat, cur: nat)
    requires AllLeaves(ys)
    ensures AllLeaves(SplitLeaves(ys, index, cur).0) && AllLeaves(SplitLeaves(ys, index, cur).1)
    ensures CutOnce(ys, SplitLeaves(ys, index, cur).0, SplitLeaves(ys, index, cur).1)
  {
    SplitLeavesText(ys, index, cur);
    if ys == [] {
    } else if index <= cur {
      SplitPast(ys, index, cur);
    } else if cur + |ys[0].value| > index {
      ShapeCut(ys, index, cur);
    } else {
      SplitLeavesShape(ys[1..], index, cur + |ys[0].value|);
      ShapeKeep(ys, index, cur);
    }
  }

  lemma ShapeCut(ys: seq<RopeNode>, index: nat, cur: nat)
    requires AllLeaves(ys) && ys != [] && cur < index < cur + |ys[0].value|
    ensures AllLeaves(SplitLeaves(ys, index, cur).0) && AllLeaves(SplitLeaves(ys, index, cur).1)
    ensures CutOnce(ys, SplitLeaves(ys, index, cur).0, SplitLeaves(ys, index, cur).1)
  {
    var v := ys[0].value;
    var tail := ys[1..];
    SplitPast(tail, index, cur + |v|);
    var k := index - cur;
    var (l, r) := SplitLeaves(ys, index, cur);
    assert l == [Leaf(v[..k])] && r == [Leaf(v[k..])] + tail;
    assert v[..k] + v[k..] == v;
    assert r[1..] == ys[|l|..];
  }

  lemma ShapeKeep(ys: seq<RopeNode>, index: nat, cur: nat)
    requires AllLeaves(ys) && ys != [] && cur < index && cur + |ys[0].value| <= index
    requires var rest := SplitLeaves(ys[1..], index, cur + |ys[0].value|);
      AllLeaves(rest.0) && AllLeaves(rest.1) && CutOnce(ys[1..], rest.0, rest.1)
    ensures AllLeaves(SplitLeaves(ys, index, cur).0) && AllLeaves(SplitLeaves(ys, index, cur).1)
    ensures CutOnce(ys, SplitLeaves(ys, index, cur).0, SplitLeaves(ys, index, cur).1)
  {
    var tail := ys[1..];
    var (l', r') := SplitLeaves(tail, index, cur + |ys[0].value|);
    assert SplitLeaves(ys, index, cur) == ([ys[0]] + l', r');
    assert AllLeaves([ys[0]] + l');
    if l' + r' == tail {
      assert ([ys[0]] + l') + r' == [ys[0]] + (l' + r');
      assert [ys[0]] + tail == ys;
    } else {
      CutOnceCons(ys, l', r');
    }
  }

  lemma CutOnceCons(ys: seq<RopeNode>, l': seq<RopeNode>, r': seq<RopeNode>)
    requires AllLeaves(ys) && ys != [] && AllLeaves(l') && AllLeaves(r')
    requires CutOnce(ys[1..], l', r') && l' + r' != ys[1..]
    ensures AllLeaves([ys[0]] + l')
    ensures CutOnce(ys, [ys[0]] + l', r')
  {
    var tail := ys[1..];
    var l := [ys[0]] + l';
    assert AllLeaves(l);
    assert l[..|l| - 1] == [ys[0]] + l'[..|l'| - 1];
    assert ys[..|l| - 1] == [ys[0]] + tail[..|l'| - 1];
    assert ys[|l|..] == tail[|l'|..];
    assert l[|l| - 1] == l'[|l'| - 1];
    assert ys[|l| - 1] == tail[|l'| - 1];
  }

  lemma AppendAssoc(a: seq<RopeNode>, b: seq<RopeNode>, c: seq<RopeNode>)
    ensures (a + b) + c == a + (b + c)
  {
  }

  /** What the split loop does with one leaf at position `cur`. */
  function SplitPiece(x: RopeNode, index: nat, cur: nat): (seq<RopeNode>, seq<RopeNode>)
    requires x.Leaf?
  {
    var v := x.value;
    if cur < index && cur + |v| > index then ([Leaf(v[..index - cur])], [Leaf(v[index - cur..])])
    else if cur < index then ([x], [])
    else ([], [x])
  }

  lemma SplitStep(ys: seq<RopeNode>, index: nat, cur: nat)
    requires AllLeaves(ys) && ys != []
    ensures var piece := SplitPiece(ys[0], index, cur);
      var rest := SplitLeaves(ys[1..], index, cur + |ys[0].value|);
      SplitLeaves(ys, index, cur) == (piece.0 + rest.0, piece.1 + rest.1)
  {
    var rest := SplitLeaves(ys[1..], index, cur + |ys[0].value|);
    assert [] + rest.0 == rest.0 && [] + rest.1 == rest.1;
  }

  /** The split loop's invariant survives handing one more leaf to the two sides. */
  lemma SplitAdvance(pending: seq<RopeNode>, index: nat, cur: nat, l: seq<RopeNode>, r: seq<RopeNode>,
                     toLeft: seq<RopeNode>, toRight: seq<RopeNode>, parts: (seq<RopeNode>, seq<RopeNode>))
    requires AllLeaves(pending) && pending != []
    requires l + SplitLeaves(pending, index, cur).0 == parts.0
    requires r + SplitLeaves(pending, index, cur).1 == parts.1
    requires (toLeft, toRight) == SplitPiece(pending[0], index, cur)
    ensures var rest := SplitLeaves(pending[1..], index, cur + |pending[0].value|);
      (l + toLeft) + rest.0 == parts.0 && (r + toRight) + rest.1 == parts.1
  {
    SplitStep(pending, index, cur);
    var rest := SplitLeaves(pending[1..], index, cur + |pending[0].value|);
    AppendAssoc(l, toLeft, rest.0);
    AppendAssoc(r, toRight, rest.1);
  }

  /** `split`: the boundary cases hand back the whole tree and `None`; otherwise both sides are rebuilt. */
  function SplitSpec(n: RopeNode, index: nat): (RopeNode, RopeNode)
  {
    if index == 0 then (Empty, n)
    else if index >= Len(n) then (n, Empty)
    else
      var parts := SplitLeaves(Yielded(n), index, 0);
      (BuildSpec(parts.0), BuildSpec(parts.1))
  }

  /** The three arms of the split loop's body for one leaf. */
  method SplitLeaf(x: RopeNode, index: nat, curIdx: nat) returns (toLeft: seq<RopeNode>, toRight: seq<RopeNode>)
    requires x.Leaf?
    ensures (toLeft, toRight) == SplitPiece(x, index, curIdx)
  {
    var strPart := x.value;
    var strPartMaxIdx := curIdx + |strPart|;
    if curIdx < index && strPartMaxIdx > index {
      toLeft, toRight := [Leaf(strPart[..index - curIdx])], [Leaf(strPart[index - curIdx..])];
    } else if curIdx < index {
      toLeft, toRight := [x], [];
    } else {
      toLeft, toRight := [], [x];
    }
  }

  /** `split`, as the loop over the iterator that it is. */
  method Split(n: RopeNode, index: nat) returns (left: RopeNode, right: RopeNode)
    ensures (left, right) == SplitSpec(n, index)
  {
    if index == 0 {
      return Empty, n;
    }
    if index >= Len(n) {
      return n, Empty;
    }
    var curIdx: nat := 0;
    var it := Iter(n);
    var leftSubtree: seq<RopeNode> := [];
    var rightSubtree: seq<RopeNode> := [];
    ghost var parts := SplitLeaves(Yielded(n), index, 0);
    ghost var pending := Yielded(n);
    while true
      invariant pending == Drain(it.nodesStack)
      invariant leftSubtree + SplitLeaves(pending, index, curIdx).0 == parts.0
      invariant rightSubtree + SplitLeaves(pending, index, curIdx).1 == parts.1
      decreases StackMeasure(it.nodesStack)
    {
      var x := it.Next();
      if x.None? {
        assert leftSubtree == parts.0 && rightSubtree == parts.1;
        break;
      }
      ghost var tail := Drain(it.nodesStack);
      assert pending[0] == x.value && pending[1..] == tail;
      var strPart := x.value.value;
      var toLeft, toRight := SplitLeaf(x.value, index, curIdx);
      SplitAdvance(pending, index, curIdx, leftSubtree, rightSubtree, toLeft, toRight, parts);
      leftSubtree := leftSubtree + toLeft;
      rightSubtree := rightSubtree + toRight;
      curIdx := curIdx + |strPart|;
      pending := tail;
    }
    left := Build(leftSubtree);
    right := Build(rightSubtree);
  }

  /**
   * Split gives the prefix and the suffix of the text the iterator shows,
   * clamped to its length; inside the text both sides are complete trees with
   * correct weights and no `Empty` node.
   */
  lemma SplitText(n: RopeNode, index: nat)
    ensures var k := Min(index, Len(n));
      YText(SplitSpec(n, index).0) == YText(n)[..k] &&
      YText(SplitSpec(n, index).1) == YText(n)[k..]
    ensures 0 < index < Len(n) ==>
      var (l, r) := SplitSpec(n, index);
      NoEmpty(l) && NoEmpty(r) && WellWeighted(l) && WellWeighted(r) &&
      Text(l) == YText(n)[..index] && Text(r) == YText(n)[index..]
  {
    LenIsTextLength(n);
    var ys := Yielded(n);
    if index == 0 {
      assert YText(Empty) == "" by {
        assert LeftSpine(Empty) == [];
      }
    } else if index >= Len(n) {
      assert YText(Empty) == "" by {
        assert LeftSpine(Empty) == [];
      }
    } else {
      var parts := SplitLeaves(ys, index, 0);
      SplitLeavesText(ys, index, 0);
      BuildFacts(parts.0);
      BuildFacts(parts.1);
      LeafFilterAllLeaves(parts.0);
      LeafFilterAllLeaves(parts.1);
      assert LeafText(parts.0) != [] && LeafText(parts.1) != [];
    }
  }

  /** Inside the text, concatenating the two halves shows the text again. */
  lemma SplitConcatRoundTrip(n: RopeNode, index: nat)
    requires 0 < index < Len(n)
    ensures YText(Concat(SplitSpec(n, index).0, SplitSpec(n, index).1)) == YText(n)
  {
    SplitText(n, index);
    assert Min(index, Len(n)) == index;
    var (l, r) := SplitSpec(n, index);
    NoEmptyIsSafe(l, false);
    NoEmptyIsSafe(r, true);
    ConcatFacts(l, r);
    assert YText(l) + YText(r) == YText(n)[..index] + YText(n)[index..];
    assert YText(n)[..index] + YText(n)[index..] == YText(n);
  }

  /** At index 0 the left half is `None`, and a node with a `None` left child yields nothing. */
  lemma SplitAtZeroConcatLosesText(n: RopeNode)
    ensures Yielded(Concat(SplitSpec(n, 0).0, SplitSpec(n, 0).1)) == []
  {
    var c := Concat(Empty, n);
    assert LeftSpine(c) == [c];
  }

  /** At or past the length the right half is `None`, and the concatenation shows the text again. */
  lemma SplitPastEndRoundTrip(n: RopeNode, index: nat)
    requires 0 < index && Len(n) <= index
    ensures Yielded(Concat(SplitSpec(n, index).0, SplitSpec(n, index).1)) == Yielded(n)
    ensures YText(Concat(SplitSpec(n, index).0, SplitSpec(n, index).1)) == YText(n)
  {
    var c := Concat(n, Empty);
    assert SplitSpec(n, index) == (n, Empty);
    assert LeftSpine(c) == [c] + LeftSpine(n);
    DrainUnderOpenNode(c, LeftSpine(n));
  }

  /** Below a node whose right child is `None`, a stack yields what it yields on its own. */
  lemma {:induction false} DrainUnderOpenNode(c: RopeNode, s: seq<RopeNode>)
    requires c.Node? && c.right.Empty?
    ensures Drain([c] + s) == Drain(s)
    decreases StackMeasure(s)
  {
    var cs := [c] + s;
    if s == [] {
      assert Step(cs) == (None, []);
    } else {
      var top := s[|s| - 1];
      assert cs[|cs| - 1] == top;
      assert cs[..|cs| - 1] == [c] + s[..|s| - 1];
      if top.Leaf? {
        if |s| == 1 {
          assert Step(cs) == (Some(top), []);
          assert Step(s) == (Some(top), []);
        } else {
          var below := s[..|s| - 2];
          var parent := s[|s| - 2];
          assert ([c] + s[..|s| - 1])[..|s| - 1] == [c] + below;
          assert s[..|s| - 1][..|s| - 2] == below && s[..|s| - 1][|s| - 2] == parent;
          assert Step(s) == (Some(top), below + Collected(parent));
          assert Step(cs) == (Some(top), [c] + below + Collected(parent));
          assert [c] + below + Collected(parent) == [c] + (below + Collected(parent));
          DrainUnderOpenNode(c, below + Collected(parent));
        }
      }
    }
  }

  // ---------------------------------------------------------------------------
  // substring

  const Underflow: string := "attempt to subtract with overflow"

  /** Puts `p` in front of a successful result; an error is passed on. */
  function Prefixed(p: seq<RopeNode>, r: Result<seq<RopeNode>, string>): Result<seq<RopeNode>, string>
  {
    if r.Ok? then Ok(p + r.value) else r
  }

  /**
   * The substring scan as written, over the yielded leaves: `Err` where an
   * unsigned subtraction would go below zero. The whole-leaf guard also
   * accepts `lenLeft == |v| - 1`, and the skip branch is also reached with
   * `start == |v| - 1`.
   */
  function ScanAsWritten(ys: seq<RopeNode>, start: nat, lenLeft: nat): Result<seq<RopeNode>, string>
    requires AllLeaves(ys)
  {
    if lenLeft == 0 || ys == [] then Ok([])
    else
      var v := ys[0].value;
      if |v| == 0 then ScanAsWritten(ys[1..], start, lenLeft)
      else if start == 0 && lenLeft >= |v| - 1 then
        if lenLeft < |v| then Err(Underflow)
        else Prefixed([ys[0]], ScanAsWritten(ys[1..], 0, lenLeft - |v|))
      else if |v| - 1 > start then
        var newValue := v[start..Min(start + lenLeft, |v|)];
        Prefixed(if |newValue| > 0 then [Leaf(newValue)] else [], ScanAsWritten(ys[1..], 0, lenLeft - |newValue|))
      else if start < |v| then Err(Underflow)
      else ScanAsWritten(ys[1..], start - |v|, lenLeft)
  }

  /**
   * The window the scan evidently means: a whole leaf when the window starts
   * at it and covers it, the covered part of a leaf the window starts in or
   * ends in, nothing for a leaf before the window; empty leaves are skipped and
   * the scan stops once the length is used up.
   */
  function Window(ys: seq<RopeNode>, start: nat, lenLeft: nat): seq<RopeNode>
    requires AllLeaves(ys)
  {
    if lenLeft == 0 || ys == [] then []
    else
      var v := ys[0].value;
      if |v| == 0 then Window(ys[1..], start, lenLeft)
      else if start == 0 && lenLeft >= |v| then [ys[0]] + Window(ys[1..], 0, lenLeft - |v|)
      else if start < |v| then
        var newValue := v[start..Min(start + lenLeft, |v|)];
        (if |newValue| > 0 then [Leaf(newValue)] else []) + Window(ys[1..], 0, lenLeft - |newValue|)
      else Window(ys[1..], start - |v|, lenLeft)
  }

  /** The window's leaves show exactly the characters from `start`, `len` of them, clamped to the text. */
  predicate WindowShows(ys: seq<RopeNode>, start: nat, len: nat)
    requires AllLeaves(ys)
  {
    var t := LeafText(ys);
    AllLeaves(Window(ys, start, len)) &&
    LeafText(Window(ys, start, len)) == t[Min(start, |t|)..Min(start + len, |t|)]
  }

  lemma {:induction false} WindowText(ys: seq<RopeNode>, start: nat, len: nat)
    requires AllLeaves(ys)
    ensures WindowShows(ys, start, len)
  {
    if len == 0 || ys == [] {
    } else if |ys[0].value| == 0 {
      WindowText(ys[1..], start, len);
      WindowSkipEmpty(ys, start, len);
    } else if start == 0 && len >= |ys[0].value| {
      WindowText(ys[1..], 0, len - |ys[0].value|);
      WindowWhole(ys, len);
    } else if start < |ys[0].value| {
      var v := ys[0].value;
      var nv := v[start..Min(start + len, |v|)];
      WindowText(ys[1..], 0, len - |nv|);
      WindowPart(ys, start, len);
    } else {
      WindowText(ys[1..], start - |ys[0].value|, len);
      WindowBefore(ys, start, len);
    }
  }

  lemma WindowSkipEmpty(ys: seq<RopeNode>, start: nat, len: nat)
    requires AllLeaves(ys) && ys != [] && 0 < len && |ys[0].value| == 0
    requires WindowShows(ys[1..], start, len)
    ensures WindowShows(ys, start, len)
  {
    assert LeafText(ys) == ys[0].value + LeafText(ys[1..]);
    assert Window(ys, start, len) == Window(ys[1..], start, len);
  }

  lemma WindowWhole(ys: seq<RopeNode>, len: nat)
    requires AllLeaves(ys) && ys != [] && 0 < |ys[0].value| <= len
    requires WindowShows(ys[1..], 0, len - |ys[0].value|)
    ensures WindowShows(ys, 0, len)
  {
    var v := ys[0].value;
    var t := LeafText(ys[1..]);
    assert LeafText(ys) == v + t;
    var w := Window(ys[1..], 0, len - |v|);
    assert Window(ys, 0, len) == [ys[0]] + w;
    LeafTextCons(ys[0], w);
    assert (v + t)[0..Min(len, |v| + |t|)] == v + t[0..Min(len - |v|, |t|)];
  }

  lemma WindowPart(ys: seq<RopeNode>, start: nat, len: nat)
    requires AllLeaves(ys) && ys != [] && 0 < len && start < |ys[0].value|
    requires !(start == 0 && len >= |ys[0].value|)
    requires var v := ys[0].value;
      WindowShows(ys[1..], 0, len - |v[start..Min(start + len, |v|)]|)
    ensures WindowShows(ys, start, len)
  {
    var v := ys[0].value;
    var t := LeafText(ys[1..]);
    assert LeafText(ys) == v + t;
    var nv := v[start..Min(start + len, |v|)];
    var w := Window(ys[1..], 0, len - |nv|);
    assert Window(ys, start, len) == [Leaf(nv)] + w by {
      assert |nv| > 0;
    }
    LeafTextCons(Leaf(nv), w);
    assert LeafText(w) == t[0..Min(len - |nv|, |t|)];
    WindowPartText(v, t, start, len);
  }

  /** The characters a cut leaf contributes, followed by the rest of the window, are the window's text. */
  lemma WindowPartText(v: string, t: string, start: nat, len: nat)
    requires start < |v|
    ensures var nv := v[start..Min(start + len, |v|)];
      (v + t)[start..Min(start + len, |v| + |t|)] == nv + t[0..Min(len - |nv|, |t|)]
  {
    var nv := v[start..Min(start + len, |v|)];
    if start + len <= |v| {
      assert len - |nv| == 0;
    }
  }

  lemma WindowBefore(ys: seq<RopeNode>, start: nat, len: nat)
    requires AllLeaves(ys) && ys != [] && 0 < len && 0 < |ys[0].value| <= start
    requires WindowShows(ys[1..], start - |ys[0].value|, len)
    ensures WindowShows(ys, start, len)
  {
    var v := ys[0].value;
    var t := LeafText(ys[1..]);
    assert LeafText(ys) == v + t;
    assert Window(ys, start, len) == Window(ys[1..], start - |v|, len);
    SliceAfterPrefix(v, t, start, len);
  }

  /** A window that starts past `v` is the same window of `t`, moved by `|v|`. */
  lemma SliceAfterPrefix(v: string, t: string, start: nat, len: nat)
    requires |v| <= start
    ensures (v + t)[Min(start, |v| + |t|)..Min(start + len, |v| + |t|)]
        == t[Min(start - |v|, |t|)..Min(start - |v| + len, |t|)]
  {
    var a, b := Min(start, |v| + |t|), Min(start + len, |v| + |t|);
    assert a - |v| == Min(start - |v|, |t|) && b - |v| == Min(start - |v| + len, |t|);
    assert forall i :: a <= i < b ==> (v + t)[i] == t[i - |v|];
  }

  /** Wherever the scan as written does not underflow, it produces the intended window. */
  lemma {:induction false} ScanAgreesWithWindow(ys: seq<RopeNode>, start: nat, len: nat)
    requires AllLeaves(ys)
    ensures ScanAsWritten(ys, start, len).Ok? ==> ScanAsWritten(ys, start, len).value == Window(ys, start, len)
  {
    if len != 0 && ys != [] {
      var v := ys[0].value;
      if |v| == 0 {
        ScanAgreesWithWindow(ys[1..], start, len);
      } else if start == 0 && len >= |v| {
        ScanAgreesWithWindow(ys[1..], 0, len - |v|);
      } else if start == 0 && len == |v| - 1 {
      } else if |v| - 1 > start {
        var nv := v[start..Min(start + len, |v|)];
        ScanAgreesWithWindow(ys[1..], 0, len - |nv|);
      } else if start >= |v| {
        ScanAgreesWithWindow(ys[1..], start - |v|, len);
      }
    }
  }

  /** Hazard 1: a window starting at a leaf and one character shorter than it. */
  lemma ScanUnderflowsOnShortWindow()
    ensures ScanAsWritten([Leaf("abc")], 0, 2) == Err(Underflow)
    ensures Window([Leaf("abc")], 0, 2) == [Leaf("ab")]
  {
    assert "abc"[0..2] == "ab";
  }

  /** Hazard 2: a window starting at a leaf's last character. */
  lemma ScanUnderflowsOnLastChar()
    ensures ScanAsWritten([Leaf("abc")], 2, 1) == Err(Underflow)
    ensures Window([Leaf("abc")], 2, 1) == [Leaf("c")]
  {
    assert "abc"[2..3] == "c";
  }

  /** The builder over the scan's leaves; an underflow stays an error. */
  function SubstringAsWritten(n: RopeNode, start: nat, len: nat): Result<RopeNode, string>
  {
    var scan := ScanAsWritten(Yielded(n), start, len);
    if scan.Ok? then Ok(BuildSpec(scan.value)) else Err(scan.error)
  }

  /** The intended `substring`: the builder over the window's leaves. */
  function SubstringSpec(n: RopeNode, start: nat, len: nat): RopeNode
  {
    BuildSpec(Window(Yielded(n), start, len))
  }

  /** The intended substring shows the slice of the text, clamped, in a complete tree with correct weights. */
  lemma SubstringText(n: RopeNode, start: nat, len: nat)
    ensures var k := Len(n);
      YText(SubstringSpec(n, start, len)) == Text(SubstringSpec(n, start, len))
        == YText(n)[Min(start, k)..Min(start + len, k)]
    ensures WellWeighted(SubstringSpec(n, start, len))
  {
    LenIsTextLength(n);
    WindowText(Yielded(n), start, len);
    BuildFacts(Window(Yielded(n), start, len));
  }

  /** `substring` in `RopeNodeWrapper`, as the loop it is; an underflow is reported as `Err`. */
  method Substring(n: RopeNode, start: nat, len: nat) returns (r: Result<RopeNode, string>)
    ensures r == SubstringAsWritten(n, start, len)
    ensures r.Ok? ==> r.value == SubstringSpec(n, start, len)
  {
    var leafs: seq<RopeNode> := [];
    var startIdx: nat := start;
    var lenLeft: nat := len;
    var it := Iter(n);
    ghost var scan := ScanAsWritten(Yielded(n), start, len);
    ghost var pending := Yielded(n);
    assert Prefixed(leafs, scan) == scan by {
      if scan.Ok? {
        assert [] + scan.value == scan.value;
      }
    }
    while lenLeft > 0
      invariant pending == Drain(it.nodesStack)
      invariant Prefixed(leafs, ScanAsWritten(pending, startIdx, lenLeft)) == scan
      decreases StackMeasure(it.nodesStack)
    {
      var x := it.Next();
      if x.None? {
        assert pending == [];
        break;
      }
      assert pending[0] == x.value;
      ghost var tail := pending[1..];
      var strPart := x.value.value;
      if |strPart| == 0 {
        assert ScanAsWritten(pending, startIdx, lenLeft) == ScanAsWritten(tail, startIdx, lenLeft);
        pending := tail;
        continue;
      }
      var ok, piece, nextStart, nextLen := ScanLeaf(x.value, startIdx, lenLeft, pending);
      if !ok {
        return Err(Underflow);
      }
      PrefixedAppend(leafs, piece, ScanAsWritten(tail, nextStart, nextLen));
      leafs := leafs + piece;
      startIdx, lenLeft := nextStart, nextLen;
      pending := tail;
    }
    assert leafs + [] == leafs;
    var b := Build(leafs);
    r := Ok(b);
    ScanAgreesWithWindow(Yielded(n), start, len);
  }

  /**
   * The match the substring loop makes on one non-empty leaf: the leaves it
   * pushes and the new start and remaining length, or `ok == false` where an
   * unsigned subtraction goes below zero.
   */
  method ScanLeaf(leaf: RopeNode, startIdx: nat, lenLeft: nat, ghost pending: seq<RopeNode>)
    returns (ok: bool, piece: seq<RopeNode>, nextStart: nat, nextLen: nat)
    requires AllLeaves(pending) && pending != [] && pending[0] == leaf && leaf.value != [] && lenLeft > 0
    ensures ScanAsWritten(pending, startIdx, lenLeft) ==
      if ok then Prefixed(piece, ScanAsWritten(pending[1..], nextStart, nextLen)) else Err(Underflow)
  {
    var strPart := leaf.value;
    piece := [];
    nextStart, nextLen := startIdx, lenLeft;
    ok := true;
    if startIdx == 0 && lenLeft >= |strPart| - 1 {
      if lenLeft < |strPart| {
        ok := false;
        return;
      }
      piece := [leaf];
      nextLen := lenLeft - |strPart|;
    } else if |strPart| - 1 > startIdx {
      var newValue := strPart[startIdx..Min(startIdx + lenLeft, |strPart|)];
      nextStart := 0;
      nextLen := lenLeft - |newValue|;
      if |newValue| > 0 {
        piece := [Leaf(newValue)];
      }
    } else {
      if startIdx < |strPart| {
        ok := false;
        return;
      }
      nextStart := startIdx - |strPart|;
      PrefixedEmpty(ScanAsWritten(pending[1..], nextStart, nextLen));
    }
  }

  lemma PrefixedEmpty(r: Result<seq<RopeNode>, string>)
    ensures Prefixed([], r) == r
  {
    if r.Ok? {
      assert [] + r.value == r.value;
    }
  }

  lemma PrefixedAppend(a: seq<RopeNode>, b: seq<RopeNode>, r: Result<seq<RopeNode>, string>)
    ensures Prefixed(a, Prefixed(b, r)) == Prefixed(a + b, r)
  {
    if r.Ok? {
      assert (a + b) + r.value == a + (b + r.value);
    }
  }

  // ---------------------------------------------------------------------------
  // insert and rebalance

  /** `insert`: prepend at 0, append at or past the end, otherwise split and put the new leaf between. */
  function Insert(n: RopeNode, index: nat, value: string): (r: RopeNode)
    ensures Leaf(value) in Leaves(r)
  {
    var leaf := Leaf(value);
    if index == 0 then Concat(leaf, n)
    else if index >= Len(n) then Concat(n, leaf)
    else
      var parts := SplitSpec(n, index);
      Concat(Concat(parts.0, leaf), parts.1)
  }

  /**
   * Insert is a splice of the shown text. Appending needs `n` to have no
   * `Empty` node on the way, since the iterator stops at one (see
   * `ConcatAfterOpenNode`).
   */
  lemma InsertSplices(n: RopeNode, index: nat, value: string)
    requires index == 0 || index < Len(n) || Safe(n, false)
    ensures var k := Min(index, Len(n));
      YText(Insert(n, index, value)) == YText(n)[..k] + value + YText(n)[k..]
    ensures 0 < index < Len(n) || (WellWeighted(n) && (index == 0 || Safe(n, false))) ==>
      WellWeighted(Insert(n, index, value))
  {
    if index == 0 {
      InsertFront(n, value);
    } else if index >= Len(n) {
      InsertBack(n, index, value);
    } else {
      InsertMiddle(n, index, value);
    }
  }

  lemma LeafYText(v: string)
    ensures Yielded(Leaf(v)) == [Leaf(v)] && YText(Leaf(v)) == v
  {
    assert LeftSpine(Leaf(v)) == [Leaf(v)];
    assert Step([Leaf(v)]) == (Some(Leaf(v)), []);
    assert Drain([Leaf(v)]) == [Leaf(v)] + Drain([]);
    assert LeafText([Leaf(v)]) == v + LeafText([]);
  }

  lemma InsertFront(n: RopeNode, value: string)
    ensures var t := YText(n);
      YText(Insert(n, 0, value)) == t[..Min(0, Len(n))] + value + t[Min(0, Len(n))..]
    ensures WellWeighted(n) ==> WellWeighted(Insert(n, 0, value))
  {
    InsertFrontText(n, value);
    if WellWeighted(n) {
      ConcatFacts(Leaf(value), n);
    }
  }

  lemma InsertFrontText(n: RopeNode, value: string)
    ensures var t := YText(n);
      YText(Concat(Leaf(value), n)) == t[..Min(0, Len(n))] + value + t[Min(0, Len(n))..]
  {
    ConcatLeafFirst(Leaf(value), n);
    var t := YText(n);
    assert t[..0] + value + t[0..] == value + t;
  }

  lemma InsertBack(n: RopeNode, index: nat, value: string)
    requires 0 < index && Len(n) <= index && Safe(n, false)
    ensures var t := YText(n);
      YText(Insert(n, index, value)) == t[..Min(index, Len(n))] + value + t[Min(index, Len(n))..]
    ensures WellWeighted(n) ==> WellWeighted(Insert(n, index, value))
  {
    var leaf := Leaf(value);
    ConcatFacts(n, leaf);
    SafeWeakens(n);
    YieldedSafe(n);
    LeafYText(value);
    var t := YText(n);
    assert Min(index, Len(n)) == |t|;
    assert t[..|t|] == t && t[|t|..] == [];
    assert t + value + [] == t + value;
  }

  lemma InsertMiddle(n: RopeNode, index: nat, value: string)
    requires 0 < index < Len(n)
    ensures var t := YText(n);
      YText(Insert(n, index, value)) == t[..Min(index, Len(n))] + value + t[Min(index, Len(n))..]
    ensures WellWeighted(Insert(n, index, value))
  {
    var leaf := Leaf(value);
    SplitText(n, index);
    var (l, r) := SplitSpec(n, index);
    var lv := Concat(l, leaf);
    assert Insert(n, index, value) == Concat(lv, r);
    NoEmptyIsSafe(l, false);
    NoEmptyIsSafe(l, true);
    NoEmptyIsSafe(lv, false);
    NoEmptyIsSafe(r, true);
    LeafYText(value);
    ConcatFacts(l, leaf);
    ConcatFacts(lv, r);
    YieldedSafe(l);
    YieldedSafe(lv);
  }

  /**
   * Appending to the shape `Rope::new` gives a two-leaf node (a node whose
   * right child is `None`) loses the new leaf: the iterator stops at the
   * `None`, so neither the text nor the length shows it.
   */
  lemma InsertAtEndDropsLeaf(x: string, y: string, v: string, index: nat)
    requires 0 < index && |x| + |y| <= index
    ensures var root := Node(Node(Leaf(x), Leaf(y), |x|), Empty, |x| + |y|);
      Leaves(Insert(root, index, v)) == [Leaf(x), Leaf(y), Leaf(v)] &&
      Yielded(Insert(root, index, v)) == [Leaf(x), Leaf(y)]
  {
    var inner := Node(Leaf(x), Leaf(y), |x|);
    var root := Node(inner, Empty, |x| + |y|);
    OpenPairYields(x, y);
    var c := Concat(root, Leaf(v));
    assert Insert(root, index, v) == c;
    var s := LeftSpine(c);
    assert s == [c, root, inner, Leaf(x)];
    DrainLeafStep(s);
    var s1 := s[..|s| - 2] + Collected(inner);
    assert s1 == [c, root, Leaf(y)];
    DrainLeafStep(s1);
    assert s1[..|s1| - 2] + Collected(root) == [c];
    assert Drain([c]) == [];
    assert Leaves(inner) == [Leaf(x)] + [Leaf(y)];
    assert Leaves(root) == Leaves(inner) + [];
  }

  /** The shape `Rope::new` gives a two-leaf node: both leaves are yielded. */
  lemma OpenPairYields(x: string, y: string)
    ensures var root := Node(Node(Leaf(x), Leaf(y), |x|), Empty, |x| + |y|);
      LeftSpine(root) == [root, Node(Leaf(x), Leaf(y), |x|), Leaf(x)] &&
      Yielded(root) == [Leaf(x), Leaf(y)] && Len(root) == |x| + |y|
  {
    var inner := Node(Leaf(x), Leaf(y), |x|);
    var root := Node(inner, Empty, |x| + |y|);
    var s0 := LeftSpine(root);
    assert s0 == [root, inner, Leaf(x)] by {
      assert LeftSpine(Leaf(x)) == [Leaf(x)];
      assert LeftSpine(inner) == [inner] + [Leaf(x)];
    }
    assert Yielded(root) == [Leaf(x), Leaf(y)] by {
      DrainLeafStep(s0);
      assert s0[..|s0| - 2] + Collected(inner) == [root, Leaf(y)];
      DrainLeafStep([root, Leaf(y)]);
      assert Drain([root, Leaf(y)]) == [Leaf(y)] + Drain([]);
    }
    LeafTextCons(Leaf(x), [Leaf(y)]);
    LeafTextCons(Leaf(y), []);
  }

  /** `rebalance` in `RopeNodeWrapper`: the builder over the yielded leaves, unconditionally. */
  method Rebalance(n: RopeNode) returns (r: RopeNode)
    ensures r == BuildSpec(Yielded(n))
    ensures YText(r) == Text(r) == YText(n)
    ensures Yielded(n) != [] ==> IsBalanced(r)
  {
    var it := Iter(n);
    var ys := Collect(it);
    r := Build(ys);
    RebalanceFacts(n);
  }

  /** Rebuilding keeps the shown text and, with at least one leaf, gives a balanced tree with correct weights. */
  lemma RebalanceFacts(n: RopeNode)
    ensures var b := BuildSpec(Yielded(n));
      YText(b) == Text(b) == YText(n) && WellWeighted(b) && (Yielded(n) != [] ==> IsBalanced(b))
  {
    var ys := Yielded(n);
    BuildFacts(ys);
    LeafFilterAllLeaves(ys);
    if ys != [] {
      BuildBalanced(ys);
    }
  }
}
