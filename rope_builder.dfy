/**
 * The bulk builder (`FromIterator`): keep the leaves of the input, then pair
 * neighbours round by round until one entry is left.
 */
module RopeBuilder {
  import opened RopeNodes
  import opened RopeIterator
  import opened Fibonacci

  /** An entry of `nodes_with_weights`: a subtree and the text lengths of its two halves. */
  datatype Weighted = Weighted(node: RopeNode, leftLen: nat, rightLen: nat)

  /** The leaves of a sequence of nodes, in order; other nodes are dropped. */
  function LeafFilter(items: seq<RopeNode>): seq<RopeNode>
  {
    if items == [] then []
    else LeafFilter(items[..|items| - 1]) + (if items[|items| - 1].Leaf? then [items[|items| - 1]] else [])
  }

  /** The initial entries: one `(leaf, its length, 0)` per leaf of the input. */
  function LeafEntries(items: seq<RopeNode>): seq<Weighted>
  {
    if items == [] then []
    else
      var last := items[|items| - 1];
      LeafEntries(items[..|items| - 1]) + (if last.Leaf? then [Weighted(last, |last.value|, 0)] else [])
  }

  /** Two neighbours become a node whose weight is the whole length of the left one. */
  function Pair(a: Weighted, b: Weighted): Weighted
  {
    Weighted(Node(a.node, b.node, a.leftLen + a.rightLen), a.leftLen + a.rightLen, b.leftLen + b.rightLen)
  }

  /** One round: neighbours 2i and 2i+1 are paired; an odd last entry is promoted unchanged. */
  function PairRound(es: seq<Weighted>): (r: seq<Weighted>)
    ensures |r| == (|es| + 1) / 2
  {
    if |es| < 2 then es else [Pair(es[0], es[1])] + PairRound(es[2..])
  }

  /** Rounds until at most one entry is left: none gives `Empty`, one gives its node unwrapped. */
  function Rounds(es: seq<Weighted>): RopeNode
    decreases |es|
  {
    if |es| == 0 then Empty
    else if |es| == 1 then es[0].node
    else Rounds(PairRound(es))
  }

  function BuildSpec(items: seq<RopeNode>): RopeNode
  {
    Rounds(LeafEntries(items))
  }

  /** The leaves under a sequence of entries, in order. */
  function EntriesLeaves(es: seq<Weighted>): seq<RopeNode>
  {
    if es == [] then [] else Leaves(es[0].node) + EntriesLeaves(es[1..])
  }

  /** The tuple invariant: the two lengths add up to the subtree's text, and a node's weight is the first. */
  predicate EntryOk(e: Weighted)
  {
    e.leftLen + e.rightLen == |Text(e.node)| &&
    WellWeighted(e.node) && NoEmpty(e.node) &&
    (e.node.Node? ==> e.node.weight == e.leftLen)
  }

  predicate AllOk(es: seq<Weighted>)
  {
    forall i :: 0 <= i < |es| ==> EntryOk(es[i])
  }

  /** `from_iter`. */
  method Build(items: seq<RopeNode>) returns (r: RopeNode)
    ensures r == BuildSpec(items)
    ensures Yielded(r) == Leaves(r) == LeafFilter(items)
    ensures YText(r) == Text(r) == LeafText(items)
    ensures WellWeighted(r)
  {
    var entries := CollectEntries(items);
    while |entries| > 1
      invariant Rounds(entries) == BuildSpec(items)
      decreases |entries|
    {
      entries := PairUp(entries);
    }
    r := if |entries| == 0 then Empty else entries[0].node;
    BuildFacts(items);
  }

  /** The first loop of `from_iter`: one entry per leaf, anything else dropped. */
  method CollectEntries(items: seq<RopeNode>) returns (entries: seq<Weighted>)
    ensures entries == LeafEntries(items)
  {
    entries := [];
    for k := 0 to |items|
      invariant entries == LeafEntries(items[..k])
    {
      assert items[..k + 1][..k] == items[..k];
      if items[k].Leaf? {
        entries := entries + [Weighted(items[k], |items[k].value|, 0)];
      }
    }
    assert items[..|items|] == items;
  }

  /** One round of `from_iter`'s second loop: neighbours paired up, an odd last entry carried over. */
  method PairUp(entries: seq<Weighted>) returns (next: seq<Weighted>)
    ensures next == PairRound(entries)
  {
    var nodesNum := (|entries| + 1) / 2;
    next := [];
    for i := 0 to nodesNum
      invariant next == PairRound(entries)[..i]
    {
      var e: Weighted;
      if 2 * i + 1 < |entries| {
        e := Pair(entries[2 * i], entries[2 * i + 1]);
      } else {
        e := entries[2 * i];
      }
      PairRoundAt(entries, i);
      assert PairRound(entries)[..i + 1] == PairRound(entries)[..i] + [e];
      next := next + [e];
    }
  }

  lemma {:induction false} PairRoundAt(es: seq<Weighted>, i: nat)
    requires i < (|es| + 1) / 2
    ensures PairRound(es)[i] == if 2 * i + 1 < |es| then Pair(es[2 * i], es[2 * i + 1]) else es[2 * i]
  {
    if |es| >= 2 && i > 0 {
      PairRoundAt(es[2..], i - 1);
    }
  }

  lemma {:induction false} EntriesLeavesAppend(a: seq<Weighted>, b: seq<Weighted>)
    ensures EntriesLeaves(a + b) == EntriesLeaves(a) + EntriesLeaves(b)
  {
    if a == [] {
      assert a + b == b;
    } else {
      assert (a + b)[0] == a[0];
      assert (a + b)[1..] == a[1..] + b;
      EntriesLeavesAppend(a[1..], b);
    }
  }

  lemma {:induction false} LeafEntriesFacts(items: seq<RopeNode>)
    ensures EntriesLeaves(LeafEntries(items)) == LeafFilter(items)
    ensures AllOk(LeafEntries(items))
    ensures |LeafEntries(items)| == |LeafFilter(items)|
  {
    if items != [] {
      var init := items[..|items| - 1];
      var last := items[|items| - 1];
      LeafEntriesFacts(init);
      var tail := if last.Leaf? then [Weighted(last, |last.value|, 0)] else [];
      EntriesLeavesAppend(LeafEntries(init), tail);
      if last.Leaf? {
        assert EntriesLeaves(tail) == [last] + EntriesLeaves([]);
      }
    }
  }

  /** A round keeps the leaves in order and keeps every tuple's invariant. */
  lemma {:induction false} PairRoundKeeps(es: seq<Weighted>)
    requires AllOk(es)
    ensures AllOk(PairRound(es))
    ensures EntriesLeaves(PairRound(es)) == EntriesLeaves(es)
  {
    if |es| >= 2 {
      PairRoundKeeps(es[2..]);
      var p := Pair(es[0], es[1]);
      assert EntryOk(es[0]) && EntryOk(es[1]);
      assert EntryOk(p);
      assert PairRound(es) == [p] + PairRound(es[2..]);
      assert es == [es[0]] + ([es[1]] + es[2..]);
      calc {
        EntriesLeaves(PairRound(es));
        Leaves(p.node) + EntriesLeaves(PairRound(es[2..]));
        Leaves(es[0].node) + Leaves(es[1].node) + EntriesLeaves(es[2..]);
        { assert es[1..][1..] == es[2..]; }
        EntriesLeaves(es);
      }
    }
  }

  /** What the rounds build holds the entries' leaves in order, with correct weights and no `Empty` node. */
  lemma {:induction false} RoundsKeep(es: seq<Weighted>)
    requires AllOk(es)
    ensures Leaves(Rounds(es)) == EntriesLeaves(es)
    ensures WellWeighted(Rounds(es))
    ensures es != [] ==> NoEmpty(Rounds(es))
    decreases |es|
  {
    if |es| == 1 {
      assert EntriesLeaves(es) == Leaves(es[0].node) + EntriesLeaves([]);
    } else if |es| > 1 {
      PairRoundKeeps(es);
      RoundsKeep(PairRound(es));
    }
  }

  lemma LeafFilterAllLeaves(items: seq<RopeNode>)
    requires AllLeaves(items)
    ensures LeafFilter(items) == items
  {
    if items != [] {
      LeafFilterAllLeaves(items[..|items| - 1]);
      assert items[..|items| - 1] + [items[|items| - 1]] == items;
    }
  }

  lemma {:induction false} LeafFilterText(items: seq<RopeNode>)
    ensures LeafText(LeafFilter(items)) == LeafText(items)
    ensures AllLeaves(LeafFilter(items))
  {
    if items != [] {
      var init := items[..|items| - 1];
      var last := items[|items| - 1];
      LeafFilterText(init);
      assert items == init + [last];
      LeafTextAppend(init, [last]);
      LeafTextAppend(LeafFilter(init), if last.Leaf? then [last] else []);
      assert LeafText([last]) == (if last.Leaf? then last.value else "") + LeafText([]);
      if !last.Leaf? {
        assert LeafFilter(init) + [] == LeafFilter(init);
      }
    }
  }

  /**
   * The built tree holds exactly the input's leaves, in order, with correct
   * weights and no `Empty` node, so the iterator walks all of it.
   */
  lemma BuildFacts(items: seq<RopeNode>)
    ensures Leaves(BuildSpec(items)) == LeafFilter(items)
    ensures Yielded(BuildSpec(items)) == LeafFilter(items)
    ensures YText(BuildSpec(items)) == Text(BuildSpec(items)) == LeafText(items)
    ensures WellWeighted(BuildSpec(items))
    ensures LeafFilter(items) != [] ==> NoEmpty(BuildSpec(items))
    ensures LeafFilter(items) == [] ==> BuildSpec(items) == Empty
  {
    LeafEntriesFacts(items);
    RoundsKeep(LeafEntries(items));
    var b := BuildSpec(items);
    if LeafEntries(items) != [] {
      NoEmptyIsSafe(b, true);
    }
    YieldedSafe(b);
    TextIsLeafText(b);
    LeafFilterText(items);
  }

  // ---------------------------------------------------------------------------
  // Balance of the built tree

  /**
   * After `r` rounds: every entry has depth at most `r`, every entry but the
   * last holds exactly 2^r leaves, and the last holds between 1 and 2^r.
   */
  predicate Shaped(es: seq<Weighted>, r: nat)
  {
    (forall i :: 0 <= i < |es| ==> Depth(es[i].node) <= r) &&
    (forall i :: 0 <= i < |es| - 1 ==> |Leaves(es[i].node)| == Pow2(r)) &&
    (es != [] ==> 1 <= |Leaves(es[|es| - 1].node)| <= Pow2(r))
  }

  lemma {:induction false} PairRoundShaped(es: seq<Weighted>, r: nat)
    requires Shaped(es, r)
    ensures Shaped(PairRound(es), r + 1)
  {
    if |es| < 2 {
      PowMonotone(r, r + 1);
    } else {
      var p := Pair(es[0], es[1]);
      var tail := PairRound(es[2..]);
      ShapedDropTwo(es, r);
      PairRoundShaped(es[2..], r);
      assert |Leaves(p.node)| == |Leaves(es[0].node)| + |Leaves(es[1].node)|;
      assert Depth(p.node) <= r + 1;
      assert PairRound(es) == [p] + tail;
      ShapedCons(p, tail, r + 1);
    }
  }

  lemma ShapedDropTwo(es: seq<Weighted>, r: nat)
    requires Shaped(es, r) && |es| >= 2
    ensures Shaped(es[2..], r)
  {
    forall i | 0 <= i < |es[2..]| - 1
      ensures |Leaves(es[2..][i].node)| == Pow2(r)
    {
      assert es[2..][i] == es[i + 2];
    }
  }

  /** An entry of the right shape put in front of a shaped sequence keeps it shaped. */
  lemma ShapedCons(p: Weighted, tail: seq<Weighted>, r: nat)
    requires Shaped(tail, r) && Depth(p.node) <= r
    requires tail != [] ==> |Leaves(p.node)| == Pow2(r)
    requires tail == [] ==> 1 <= |Leaves(p.node)| <= Pow2(r)
    ensures Shaped([p] + tail, r)
  {
    var pr := [p] + tail;
    forall i | 0 <= i < |pr|
      ensures Depth(pr[i].node) <= r
    {
      if i > 0 {
        assert pr[i] == tail[i - 1];
      }
    }
    forall i | 0 <= i < |pr| - 1
      ensures |Leaves(pr[i].node)| == Pow2(r)
    {
      if i > 0 {
        assert pr[i] == tail[i - 1];
      }
    }
    if tail != [] {
      assert pr[|pr| - 1] == tail[|tail| - 1];
    }
  }

  lemma {:induction false} ShapedCount(es: seq<Weighted>, r: nat)
    requires Shaped(es, r) && |es| >= 2
    ensures |EntriesLeaves(es)| > Pow2(r)
  {
    assert |Leaves(es[0].node)| == Pow2(r);
    var tail := es[1..];
    if |tail| == 1 {
      assert EntriesLeaves(tail) == Leaves(tail[0].node) + EntriesLeaves([]);
    } else {
      assert Shaped(tail, r) by {
        forall i | 0 <= i < |tail| - 1
          ensures |Leaves(tail[i].node)| == Pow2(r)
        {
          assert tail[i] == es[i + 1];
        }
      }
      ShapedCount(tail, r);
    }
  }

  lemma {:induction false} RoundsBalanced(es: seq<Weighted>, r: nat)
    requires AllOk(es) && Shaped(es, r) && |es| >= 1
    requires r >= 1 ==> |EntriesLeaves(es)| > Pow2(r - 1)
    ensures |Leaves(Rounds(es))| >= Fib(Depth(Rounds(es)) + 2)
    decreases |es|
  {
    if |es| == 1 {
      var n := es[0].node;
      assert EntriesLeaves(es) == Leaves(n) + EntriesLeaves([]);
      FibMonotone(Depth(n) + 2, r + 2);
      if r >= 1 {
        FibBelowPow2(r);
      }
    } else {
      ShapedCount(es, r);
      PairRoundKeeps(es);
      PairRoundShaped(es, r);
      RoundsBalanced(PairRound(es), r + 1);
    }
  }

  /** A tree built from at least one leaf satisfies the Fibonacci balance criterion. */
  lemma BuildBalanced(items: seq<RopeNode>)
    requires LeafFilter(items) != []
    ensures |Leaves(BuildSpec(items))| >= Fib(Depth(BuildSpec(items)) + 2)
  {
    var es := LeafEntries(items);
    LeafEntriesFacts(items);
    assert Shaped(es, 0) by {
      forall i | 0 <= i < |es|
        ensures Depth(es[i].node) == 0 && |Leaves(es[i].node)| == 1
      {
        assert EntryOk(es[i]);
        LeafEntriesAreLeaves(items, i);
      }
    }
    RoundsBalanced(es, 0);
  }

  lemma {:induction false} LeafEntriesAreLeaves(items: seq<RopeNode>, i: nat)
    requires i < |LeafEntries(items)|
    ensures LeafEntries(items)[i].node.Leaf?
  {
    var init := items[..|items| - 1];
    if i < |LeafEntries(init)| {
      LeafEntriesAreLeaves(init, i);
    }
  }
}
