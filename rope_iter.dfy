/**
 * The explicit-stack in-order leaf iterator (`RopeIter`). The stack's top is
 * its last element. `Step` is one call of `next`; `Drain` is everything a
 * consumer (`for`, `sum`, `count`, `collect`) sees, which stops at the first
 * `None`.
 */
module RopeIterator {
  import opened Wrappers
  import opened RopeNodes

  /**
   * The node itself and then its successive left children, down to and
   * including the first leaf, stopping before an `Empty`: what `iter()` puts
   * on a fresh stack and what `collect_parent_right_nodes` pushes.
   */
  function LeftSpine(n: RopeNode): seq<RopeNode>
  {
    match n
    case Node(l, _, _) => [n] + LeftSpine(l)
    case Leaf(_) => [n]
    case Empty => []
  }

  /** `collect_parent_right_nodes`: the left spine of a node parent's right child; nothing otherwise. */
  function Collected(parent: RopeNode): seq<RopeNode>
  {
    if parent.Node? then LeftSpine(parent.right) else []
  }

  /** The work an entry still stands for: a node's right subtree is still to come. */
  function Pending(e: RopeNode): nat
  {
    if e.Node? then Size(e.right) + 1 else 1
  }

  function StackMeasure(s: seq<RopeNode>): nat
  {
    if s == [] then 0 else StackMeasure(s[..|s| - 1]) + Pending(s[|s| - 1])
  }

  lemma {:induction false} MeasureAppend(a: seq<RopeNode>, b: seq<RopeNode>)
    ensures StackMeasure(a + b) == StackMeasure(a) + StackMeasure(b)
  {
    if b == [] {
      assert a + b == a;
    } else {
      assert (a + b)[..|a + b| - 1] == a + b[..|b| - 1];
      MeasureAppend(a, b[..|b| - 1]);
    }
  }

  lemma {:induction false} SpineMeasure(n: RopeNode)
    ensures StackMeasure(LeftSpine(n)) <= Size(n)
  {
    match n
    case Node(l, r, _) =>
      SpineMeasure(l);
      MeasureAppend([n], LeftSpine(l));
      assert StackMeasure([n]) == Pending(n) by {
        assert [n][..0] == [];
      }
    case Leaf(_) =>
      assert StackMeasure([n]) == 1 by {
        assert [n][..0] == [];
      }
    case Empty =>
  }

  lemma CollectedMeasure(parent: RopeNode)
    ensures StackMeasure(Collected(parent)) < Pending(parent)
  {
    if parent.Node? {
      SpineMeasure(parent.right);
    }
  }

  /**
   * One call of `next`: pop the top; a leaf is returned after popping one more
   * entry (the parent) and pushing what `collect_parent_right_nodes` collects
   * from it; a node or `Empty` on top ends with `None`, as does an empty stack.
   */
  function Step(s: seq<RopeNode>): (r: (Option<RopeNode>, seq<RopeNode>))
    ensures r.0.Some? ==> r.0.value.Leaf?
    ensures s == [] ==> r == (None, [])
    ensures s != [] ==> StackMeasure(r.1) < StackMeasure(s)
  {
    if s == [] then (None, [])
    else
      var top := s[|s| - 1];
      var rest := s[..|s| - 1];
      if !top.Leaf? then (None, rest)
      else if rest == [] then (Some(top), [])
      else
        var parent := rest[|rest| - 1];
        MeasureAppend(rest[..|rest| - 1], Collected(parent));
        CollectedMeasure(parent);
        (Some(top), rest[..|rest| - 1] + Collected(parent))
  }

  /** What a consumer receives from a stack: the results of `next` up to the first `None`. */
  function Drain(s: seq<RopeNode>): (r: seq<RopeNode>)
    ensures AllLeaves(r)
    decreases StackMeasure(s)
  {
    if s == [] then []
    else
      var (x, s') := Step(s);
      if x.None? then [] else [x.value] + Drain(s')
  }

  /** Popping a leaf that has an entry below it: the leaf, then whatever the collected stack yields. */
  lemma DrainLeafStep(s: seq<RopeNode>)
    requires |s| >= 2 && s[|s| - 1].Leaf?
    ensures var below := s[..|s| - 2];
      Drain(s) == [s[|s| - 1]] + Drain(below + Collected(s[|s| - 2]))
  {
    var rest := s[..|s| - 1];
    assert rest[..|rest| - 1] == s[..|s| - 2];
    assert rest[|rest| - 1] == s[|s| - 2];
  }

  /** The leaves the rope's iterator yields. */
  function Yielded(n: RopeNode): seq<RopeNode>
  {
    Drain(LeftSpine(n))
  }

  /** The text the rope's iterator shows: the strings of the yielded leaves. */
  function YText(n: RopeNode): string
  {
    LeafText(Yielded(n))
  }

  /** The iterator state of `RopeIter`. */
  class RopeIter {
    var nodesStack: seq<RopeNode>

    constructor (stack: seq<RopeNode>)
      ensures nodesStack == stack
    {
      nodesStack := stack;
    }

    /** Pushes the parent's right child and, for a node, its left spine down to the first leaf. */
    method CollectParentRightNodes(parent: RopeNode)
      modifies this
      ensures nodesStack == old(nodesStack) + Collected(parent)
    {
      match parent {
        case Node(_, right, _) =>
          match right {
            case Node(rightLeft, _, _) =>
              nodesStack := nodesStack + [right];
              var cur := rightLeft;
              while true
                invariant nodesStack + LeftSpine(cur) == old(nodesStack) + LeftSpine(right)
                decreases cur
              {
                match cur
                case Node(l, _, _) =>
                  nodesStack := nodesStack + [cur];
                  cur := l;
                case Leaf(_) =>
                  nodesStack := nodesStack + [cur];
                  break;
                case Empty =>
                  break;
              }
            case Leaf(_) =>
              nodesStack := nodesStack + [right];
            case Empty =>
          }
        case _ =>
      }
    }

    /** `Iterator::next`. */
    method Next() returns (r: Option<RopeNode>)
      modifies this
      ensures (r, nodesStack) == Step(old(nodesStack))
      ensures Drain(old(nodesStack)) == if r.Some? then [r.value] + Drain(nodesStack) else []
    {
      if nodesStack == [] {
        return None;
      }
      var top := nodesStack[|nodesStack| - 1];
      nodesStack := nodesStack[..|nodesStack| - 1];
      if !top.Leaf? {
        return None;
      }
      if nodesStack != [] {
        var parent := nodesStack[|nodesStack| - 1];
        nodesStack := nodesStack[..|nodesStack| - 1];
        CollectParentRightNodes(parent);
      }
      r := Some(top);
    }
  }

  /** `iter()`: a fresh iterator whose stack is the root's left spine. */
  method Iter(root: RopeNode) returns (it: RopeIter)
    ensures fresh(it)
    ensures it.nodesStack == LeftSpine(root)
  {
    var stack: seq<RopeNode> := [];
    var cur := root;
    while true
      invariant stack + LeftSpine(cur) == LeftSpine(root)
      decreases |LeftSpine(cur)|
    {
      if cur.Empty? {
        break;
      }
      stack := stack + [cur];
      cur := if cur.Node? then cur.left else Empty;
    }
    it := new RopeIter(stack);
  }

  /** Runs an iterator until its first `None`, collecting what it yields (`for node in iter`, `count`, `sum`). */
  method Collect(it: RopeIter) returns (ys: seq<RopeNode>)
    modifies it
    ensures ys == Drain(old(it.nodesStack))
  {
    ys := [];
    while true
      invariant ys + Drain(it.nodesStack) == Drain(old(it.nodesStack))
      decreases StackMeasure(it.nodesStack)
    {
      var x := it.Next();
      if x.None? {
        break;
      }
      ys := ys + [x.value];
    }
  }

  // ---------------------------------------------------------------------------
  // What a stack still stands for

  /** The leaves an entry stands for: a leaf itself, a node only its right subtree (its left part is above it). */
  function Rest(e: RopeNode): seq<RopeNode>
  {
    match e
    case Node(_, r, _) => Leaves(r)
    case Leaf(_) => [e]
    case Empty => []
  }

  /** The leaves a stack stands for, top first. */
  function PendingLeaves(s: seq<RopeNode>): seq<RopeNode>
  {
    if s == [] then [] else Rest(s[|s| - 1]) + PendingLeaves(s[..|s| - 1])
  }

  /** Every entry below the top is a node: true of every stack `iter()` and `next` build. */
  predicate NonTopNodes(s: seq<RopeNode>)
  {
    forall i :: 0 <= i < |s| - 1 ==> s[i].Node?
  }

  lemma {:induction false} PendingAppend(a: seq<RopeNode>, b: seq<RopeNode>)
    ensures PendingLeaves(a + b) == PendingLeaves(b) + PendingLeaves(a)
  {
    if b == [] {
      assert a + b == a;
    } else {
      assert (a + b)[..|a + b| - 1] == a + b[..|b| - 1];
      assert (a + b)[|a + b| - 1] == b[|b| - 1];
      PendingAppend(a, b[..|b| - 1]);
    }
  }

  /** A fresh stack stands for exactly the tree's leaves, and all its entries but the last are nodes. */
  lemma {:induction false} SpinePending(n: RopeNode)
    ensures PendingLeaves(LeftSpine(n)) == Leaves(n)
    ensures NonTopNodes(LeftSpine(n))
    ensures forall e :: e in LeftSpine(n) ==> !e.Empty?
  {
    match n
    case Node(l, r, _) =>
      SpinePending(l);
      PendingAppend([n], LeftSpine(l));
      assert PendingLeaves([n]) == Leaves(r) by {
        assert [n][..0] == [];
      }
    case Leaf(_) =>
      assert PendingLeaves([n]) == [n] by {
        assert [n][..0] == [];
      }
    case Empty =>
  }

  lemma NonTopNodesAppend(a: seq<RopeNode>, b: seq<RopeNode>)
    requires forall i :: 0 <= i < |a| ==> a[i].Node?
    requires NonTopNodes(b)
    ensures NonTopNodes(a + b)
  {
  }

  /**
   * Whatever the tree's shape, the iterator yields the leaves it stands for in
   * order, though possibly only a prefix of them.
   */
  lemma {:induction false} DrainIsPrefix(s: seq<RopeNode>)
    requires NonTopNodes(s)
    ensures Drain(s) <= PendingLeaves(s)
    decreases StackMeasure(s)
  {
    if s != [] {
      var top := s[|s| - 1];
      if top.Leaf? && |s| >= 2 {
        var parent := s[|s| - 2];
        var below := s[..|s| - 2];
        var s' := below + Collected(parent);
        DrainLeafStep(s);
        CollectedStep(s);
        DrainIsPrefix(s');
      } else if top.Leaf? {
        assert PendingLeaves(s) == [top] + PendingLeaves([]);
      }
    }
  }

  /**
   * Popping a leaf and its parent node and pushing the parent's right spine
   * keeps every entry below the top a node and takes exactly the leaf off
   * what the stack stands for.
   */
  lemma CollectedStep(s: seq<RopeNode>)
    requires |s| >= 2 && s[|s| - 1].Leaf? && NonTopNodes(s)
    ensures var s' := s[..|s| - 2] + Collected(s[|s| - 2]);
      NonTopNodes(s') && StackMeasure(s') < StackMeasure(s) &&
      PendingLeaves(s) == [s[|s| - 1]] + PendingLeaves(s')
  {
    var parent := s[|s| - 2];
    var below := s[..|s| - 2];
    var rest := s[..|s| - 1];
    assert rest == below + [parent];
    assert s[..|s| - 1] == rest;
    assert PendingLeaves(s) == [s[|s| - 1]] + PendingLeaves(rest);
    assert PendingLeaves(rest) == Rest(parent) + PendingLeaves(below) by {
      assert rest[..|rest| - 1] == below;
    }
    SpinePending(parent.right);
    NonTopNodesAppend(below, LeftSpine(parent.right));
    PendingAppend(below, LeftSpine(parent.right));
    var x := Step(s);
    assert x.1 == below + Collected(parent) by {
      assert rest[..|rest| - 1] == below;
    }
  }

  /** The iterator never yields more than the tree's leaves, and only the tree's leaves, in order. */
  lemma YieldedIsPrefix(n: RopeNode)
    ensures Yielded(n) <= Leaves(n)
    ensures |Yielded(n)| <= |Leaves(n)|
  {
    SpinePending(n);
    DrainIsPrefix(LeftSpine(n));
  }

  // ---------------------------------------------------------------------------
  // Shapes that are walked completely

  /** The top is a leaf, every other entry a node whose right subtree is walked completely where it sits. */
  predicate GoodStack(s: seq<RopeNode>)
  {
    s == [] ||
    (s[|s| - 1].Leaf? &&
     forall i :: 0 <= i < |s| - 1 ==> s[i].Node? && Safe(s[i].right, i == 0))
  }

  lemma {:induction false} SpineShape(n: RopeNode, b: bool)
    requires Safe(n, b) && !n.Empty?
    ensures var sp := LeftSpine(n);
      |sp| >= 1 && sp[|sp| - 1].Leaf? && sp[0] == n &&
      forall i :: 0 <= i < |sp| - 1 ==> sp[i].Node? && Safe(sp[i].right, if i == 0 then b else false)
  {
    match n
    case Node(l, r, _) =>
      SpineShape(l, false);
      var sp := LeftSpine(n);
      assert sp == [n] + LeftSpine(l);
      forall i | 0 <= i < |sp| - 1
        ensures sp[i].Node? && Safe(sp[i].right, if i == 0 then b else false)
      {
        if i > 0 {
          assert sp[i] == LeftSpine(l)[i - 1];
        }
      }
    case Leaf(_) =>
  }

  lemma GoodAfterCollect(below: seq<RopeNode>, parent: RopeNode)
    requires parent.Node? && !parent.right.Empty?
    requires forall i :: 0 <= i < |below| ==> below[i].Node? && Safe(below[i].right, i == 0)
    requires Safe(parent.right, |below| == 0)
    ensures GoodStack(below + Collected(parent))
  {
    var sp := LeftSpine(parent.right);
    SpineShape(parent.right, |below| == 0);
    var s' := below + sp;
    forall i | 0 <= i < |s'| - 1
      ensures s'[i].Node? && Safe(s'[i].right, i == 0)
    {
      if i >= |below| {
        assert s'[i] == sp[i - |below|];
      }
    }
  }

  /** On a good stack the iterator yields everything the stack stands for. */
  lemma {:induction false} DrainComplete(s: seq<RopeNode>)
    requires GoodStack(s)
    ensures Drain(s) == PendingLeaves(s)
    decreases StackMeasure(s)
  {
    if s != [] {
      var top := s[|s| - 1];
      if |s| == 1 {
        assert PendingLeaves(s) == [top] + PendingLeaves([]);
      } else {
        var parent := s[|s| - 2];
        var below := s[..|s| - 2];
        var s' := below + Collected(parent);
        DrainLeafStep(s);
        CollectedStep(s);
        if parent.right.Empty? {
          assert below == [];
        } else {
          GoodAfterCollect(below, parent);
          DrainComplete(s');
        }
      }
    }
  }

  /**
   * A tree with no `Empty` left child and `Empty` right children only on its
   * rightmost path is iterated completely: the iterator yields all its leaves
   * and shows all its text.
   */
  lemma YieldedSafe(n: RopeNode)
    requires Safe(n, true)
    ensures Yielded(n) == Leaves(n)
    ensures YText(n) == Text(n)
  {
    SpinePending(n);
    if !n.Empty? {
      SpineShape(n, true);
      DrainComplete(LeftSpine(n));
    }
    TextIsLeafText(n);
  }

  /** A node whose left child is `Empty` leaves a node on top of the first stack: nothing is yielded. */
  lemma EmptyLeftChildEndsIteration()
    ensures Yielded(Node(Empty, Leaf("a"), 0)) == []
    ensures Leaves(Node(Empty, Leaf("a"), 0)) == [Leaf("a")]
  {
    var t := Node(Empty, Leaf("a"), 0);
    assert LeftSpine(t) == [t];
    assert Step([t]) == (None, []);
  }

  /** An `Empty` right child below another node stops the walk: the leaf after it is never yielded. */
  lemma EmptyRightChildEndsIteration()
    ensures Yielded(Node(Node(Leaf("a"), Empty, 1), Leaf("b"), 1)) == [Leaf("a")]
    ensures Leaves(Node(Node(Leaf("a"), Empty, 1), Leaf("b"), 1)) == [Leaf("a"), Leaf("b")]
  {
    var inner := Node(Leaf("a"), Empty, 1);
    var t := Node(inner, Leaf("b"), 1);
    var s := [t, inner, Leaf("a")];
    assert LeftSpine(t) == s;
    assert s[..|s| - 2] == [t];
    DrainLeafStep(s);
    assert Collected(inner) == [];
    assert [t] + [] == [t];
    assert Step([t]) == (None, []);
  }

  // ---------------------------------------------------------------------------
  // Stack size

  /** Entries get strictly shallower towards the top, and the bottom is no deeper than `d`. */
  predicate DepthChain(s: seq<RopeNode>, d: nat)
  {
    (s != [] ==> Depth(s[0]) <= d) &&
    forall i :: 0 < i < |s| ==> Depth(s[i]) < Depth(s[i - 1])
  }

  lemma {:induction false} ChainBound(s: seq<RopeNode>, d: nat)
    requires DepthChain(s, d)
    ensures |s| <= d + 1
    decreases |s|
  {
    if |s| > 1 {
      var t := s[..|s| - 1];
      assert DepthChain(t, d);
      ChainBound(t, d);
      // the last entry is shallower than the one before it
      assert Depth(s[|s| - 1]) < Depth(s[|s| - 2]);
      DepthDrop(s, d, |s| - 1);
    }
  }

  lemma {:induction false} DepthDrop(s: seq<RopeNode>, d: nat, k: nat)
    requires DepthChain(s, d) && 0 < k < |s|
    ensures Depth(s[k]) + k <= d
    decreases k
  {
    if k > 1 {
      DepthDrop(s, d, k - 1);
    }
  }

  lemma {:induction false} SpineChain(n: RopeNode)
    ensures DepthChain(LeftSpine(n), Depth(n))
  {
    match n
    case Node(l, _, _) =>
      SpineChain(l);
      var sp := LeftSpine(n);
      assert sp == [n] + LeftSpine(l);
      forall i | 0 < i < |sp|
        ensures Depth(sp[i]) < Depth(sp[i - 1])
      {
        if i == 1 {
          assert sp[1] == l;
        } else {
          assert sp[i] == LeftSpine(l)[i - 1] && sp[i - 1] == LeftSpine(l)[i - 2];
        }
      }
    case Leaf(_) =>
    case Empty =>
  }

  /** Every stack `next` produces keeps the chain, so the stack never holds more than depth + 1 entries. */
  lemma StepKeepsChain(s: seq<RopeNode>, d: nat)
    requires DepthChain(s, d)
    ensures DepthChain(Step(s).1, d)
    ensures |s| <= d + 1
  {
    ChainBound(s, d);
    if s != [] && s[|s| - 1].Leaf? && |s| > 1 {
      var rest := s[..|s| - 1];
      var parent := rest[|rest| - 1];
      var below := rest[..|rest| - 1];
      assert DepthChain(below, d);
      if parent.Node? {
        SpineChain(parent.right);
        assert Step(s).1 == below + LeftSpine(parent.right);
        if below != [] {
          assert Depth(parent) < Depth(below[|below| - 1]);
        }
        ChainJoin(below, LeftSpine(parent.right), d, Depth(parent.right));
      }
    }
  }

  /** A chain followed by a chain that starts shallower than where the first one ends. */
  lemma ChainJoin(below: seq<RopeNode>, sp: seq<RopeNode>, d: nat, e: nat)
    requires DepthChain(below, d) && DepthChain(sp, e)
    requires below == [] ==> e <= d
    requires below != [] ==> e < Depth(below[|below| - 1])
    ensures DepthChain(below + sp, d)
  {
    var s' := below + sp;
    forall i | 0 < i < |s'|
      ensures Depth(s'[i]) < Depth(s'[i - 1])
    {
      if i > |below| {
        assert s'[i] == sp[i - |below|] && s'[i - 1] == sp[i - |below| - 1];
      } else if i == |below| {
        assert s'[i] == sp[0];
      }
    }
  }

  // ---------------------------------------------------------------------------
  // The iterator as evidently intended

  /**
   * The corrected walk: a leaf is yielded as before; a node that surfaces is a
   * parent whose right subtree is still to come, so its right spine is pushed
   * and the walk goes on; an `Empty` is skipped.
   */
  function DrainFixed(s: seq<RopeNode>): (r: seq<RopeNode>)
    ensures AllLeaves(r)
    decreases StackMeasure(s)
  {
    if s == [] then []
    else
      var top := s[|s| - 1];
      var rest := s[..|s| - 1];
      MeasureAppend(rest, []);
      match top
      case Leaf(_) =>
        var (x, s') := Step(s);
        [top] + DrainFixed(s')
      case Node(_, r, _) =>
        MeasureAppend(rest, LeftSpine(r));
        SpineMeasure(r);
        DrainFixed(rest + LeftSpine(r))
      case Empty =>
        DrainFixed(rest)
  }

  lemma {:induction false} DrainFixedComplete(s: seq<RopeNode>)
    requires NonTopNodes(s)
    ensures DrainFixed(s) == PendingLeaves(s)
    decreases StackMeasure(s), 1
  {
    if s != [] {
      var top := s[|s| - 1];
      var rest := s[..|s| - 1];
      match top
      case Leaf(_) =>
        DrainFixedLeafTop(s);
      case Node(_, r, _) =>
        DrainFixedNodeTop(s);
      case Empty =>
        assert forall i :: 0 <= i < |rest| ==> rest[i].Node?;
        DrainFixedComplete(rest);
    }
  }

  /** `DrainFixedComplete` for a leaf on top: it is handed out, and the parent below it is resolved. */
  lemma {:induction false} DrainFixedLeafTop(s: seq<RopeNode>)
    requires NonTopNodes(s) && s != [] && s[|s| - 1].Leaf?
    ensures DrainFixed(s) == PendingLeaves(s)
    decreases StackMeasure(s), 0
  {
    var top := s[|s| - 1];
    if |s| == 1 {
      assert s[..0] == [];
      assert Step(s) == (Some(top), []);
      assert DrainFixed(s) == [top];
      assert PendingLeaves(s) == [top] + PendingLeaves([]);
    } else {
      var below := s[..|s| - 2];
      var parent := s[|s| - 2];
      assert parent.Node?;
      var spine := LeftSpine(parent.right);
      LeafTopStep(s);
      LeafTopPending(s);
      SpinePending(parent.right);
      assert forall i :: 0 <= i < |below| ==> below[i].Node?;
      NonTopNodesAppend(below, spine);
      DrainFixedComplete(below + spine);
      PendingAppend(below, spine);
      assert Rest(parent) == PendingLeaves(spine);
      assert DrainFixed(s) == [top] + (PendingLeaves(spine) + PendingLeaves(below));
    }
  }

  /** With a leaf on top of an entry, the corrected walk hands out the leaf and goes on from the parent's collected stack. */
  lemma LeafTopStep(s: seq<RopeNode>)
    requires |s| >= 2 && s[|s| - 1].Leaf?
    ensures var below, parent := s[..|s| - 2], s[|s| - 2];
      StackMeasure(below + Collected(parent)) < StackMeasure(s) &&
      DrainFixed(s) == [s[|s| - 1]] + DrainFixed(below + Collected(parent))
  {
    var rest := s[..|s| - 1];
    assert rest[..|rest| - 1] == s[..|s| - 2];
    assert rest[|rest| - 1] == s[|s| - 2];
    assert Step(s).1 == s[..|s| - 2] + Collected(s[|s| - 2]);
  }

  /** ... and that leaf comes first among the leaves the stack stands for. */
  lemma LeafTopPending(s: seq<RopeNode>)
    requires |s| >= 2 && s[|s| - 1].Leaf?
    ensures PendingLeaves(s) == [s[|s| - 1]] + (Rest(s[|s| - 2]) + PendingLeaves(s[..|s| - 2]))
  {
    var rest := s[..|s| - 1];
    assert rest[..|rest| - 1] == s[..|s| - 2];
    assert PendingLeaves(s) == Rest(s[|s| - 1]) + PendingLeaves(rest);
    assert PendingLeaves(rest) == Rest(s[|s| - 2]) + PendingLeaves(s[..|s| - 2]);
  }

  /** `DrainFixedComplete` for a node on top: its right child's left spine goes on the stack. */
  lemma {:induction false} DrainFixedNodeTop(s: seq<RopeNode>)
    requires NonTopNodes(s) && s != [] && s[|s| - 1].Node?
    ensures DrainFixed(s) == PendingLeaves(s)
    decreases StackMeasure(s), 0
  {
    var top := s[|s| - 1];
    var rest := s[..|s| - 1];
    var r := top.right;
    assert forall i :: 0 <= i < |rest| ==> rest[i].Node?;
    SpinePending(r);
    MeasureAppend(rest, LeftSpine(r));
    MeasureAppend(rest, [top]);
    assert s == rest + [top];
    assert StackMeasure([top]) == Pending(top) by {
      assert [top][..0] == [];
    }
    SpineMeasure(r);
    NonTopNodesAppend(rest, LeftSpine(r));
    DrainFixedComplete(rest + LeftSpine(r));
    PendingAppend(rest, LeftSpine(r));
  }

  /** The corrected iterator yields every leaf of every tree, in order. */
  lemma DrainFixedYieldsAllLeaves(n: RopeNode)
    ensures DrainFixed(LeftSpine(n)) == Leaves(n)
  {
    SpinePending(n);
    DrainFixedComplete(LeftSpine(n));
  }
}
