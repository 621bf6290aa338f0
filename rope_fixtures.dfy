/**
 * The rope's test scenarios, stated over the model: each lemma builds the
 * scenario's tree and proves what the model yields, renders or returns.
 */
module RopeFixtures {
  import opened Wrappers
  import opened Fibonacci
  import opened RopeNodes
  import opened RopeIterator
  import opened RopeBuilder
  import opened RopeOps
  import opened Ropes

  const Hello := Leaf("hello ")
  const World := Leaf("world! ")
  const MyName := Leaf("My name")
  const Sugondese := Leaf("is sugondese")

  /** `hello ` and `world! ` under one node, with the right weight. */
  const HelloWorld := Node(Hello, World, 6)
  /** `My name` and `is sugondese` under one node, with the right weight. */
  const MyNameSugondese := Node(MyName, Sugondese, 7)
  /** The 32-character rope of the lookup and concat scenarios. */
  const Rope32 := Node(HelloWorld, MyNameSugondese, 13)
  /** The depth-3 tree: `Rope32` under a node whose right child is `None`. */
  const Deep := Node(Rope32, Empty, 0)
  /** The two-leaf tree the split and insert scenarios start from. */
  const Open := Node(HelloWorld, Empty, 13)

  /** A tree with no `Empty` node is iterated completely. */
  lemma FullyYielded(n: RopeNode)
    requires NoEmpty(n)
    ensures Yielded(n) == Leaves(n) && YText(n) == Text(n)
  {
    NoEmptyIsSafe(n, true);
    YieldedSafe(n);
  }

  /** Traversal: the four leaves come out in order and then nothing; the wrong weights play no part. */
  lemma TraverseFixture()
    ensures var t := Node(Node(Leaf("hello"), Leaf("world"), 5), Node(Leaf("My name"), Leaf("is sugondese"), 5), 5);
      Yielded(t) == [Leaf("hello"), Leaf("world"), Leaf("My name"), Leaf("is sugondese")]
  {
    var t := Node(Node(Leaf("hello"), Leaf("world"), 5), Node(Leaf("My name"), Leaf("is sugondese"), 5), 5);
    FullyYielded(t);
  }

  /** Lookup on the 32-character rope. */
  lemma GetCharFixture()
    ensures GetChar(Rope32, 4) == Some('o') && GetChar(Rope32, 6) == Some('w')
    ensures GetChar(Rope32, 13) == Some('M') && GetChar(Rope32, 16) == Some('n')
    ensures GetChar(Rope32, 23) == Some('s') && GetChar(Rope32, 31) == Some('e')
    ensures GetChar(Rope32, 32) == None
  {
    assert WellWeighted(Rope32);
    assert Text(Rope32) == "hello world! My nameis sugondese";
  }

  /** Concatenating the two halves and wrapping the result as a rope yields the four leaves in order. */
  lemma ConcatFixture()
    ensures Yielded(NewRoot(Concat(HelloWorld, MyNameSugondese))) == [Hello, World, MyName, Sugondese]
  {
    var c := Concat(HelloWorld, MyNameSugondese);
    FullyYielded(c);
  }

  /** The depth of the tree with a `None` right child at the top. */
  lemma DepthFixture()
    ensures Depth(Deep) == 3
  {
  }

  /** Rebalancing the depth-3, four-leaf tree gives the two-level tree over the same leaves. */
  lemma RebalanceFixture()
    ensures !IsBalanced(NewRoot(Deep))
    ensures Rebalanced(NewRoot(Deep)) == Node(Node(Hello, World, 6), Node(MyName, Sugondese, 7), 13)
  {
    DeepYields();
    assert Fib(5) == 5;
    assert Depth(Deep) == 3;
    BuildFour("hello ", "world! ", "My name", "is sugondese");
  }

  lemma DeepYields()
    ensures Yielded(Deep) == [Hello, World, MyName, Sugondese]
  {
    OpenTopYields(Hello.value, World.value, MyName.value, Sugondese.value, 6, 7, 13, 0);
  }

  /** Four leaves in a balanced pair of pairs, under a node whose right child is `None`, are all yielded. */
  lemma OpenTopYields(a: string, b: string, c: string, d: string, w1: nat, w2: nat, w3: nat, w4: nat)
    ensures var t := Node(Node(Node(Leaf(a), Leaf(b), w1), Node(Leaf(c), Leaf(d), w2), w3), Empty, w4);
      Yielded(t) == [Leaf(a), Leaf(b), Leaf(c), Leaf(d)]
  {
    var p, q := Node(Leaf(a), Leaf(b), w1), Node(Leaf(c), Leaf(d), w2);
    var t := Node(Node(p, q, w3), Empty, w4);
    NoEmptyIsSafe(Node(p, q, w3), false);
    assert Safe(t, true);
    YieldedSafe(t);
    assert Leaves(p) == [Leaf(a)] + [Leaf(b)];
    assert Leaves(q) == [Leaf(c)] + [Leaf(d)];
    assert Leaves(t) == Leaves(p) + Leaves(q) + [];
  }

  /** Split of the two-leaf tree at the ends, past the end, at the leaf boundary and inside the second leaf. */
  lemma SplitFixture()
    ensures SplitSpec(Open, 0) == (Empty, Open)
    ensures SplitSpec(Open, 13) == (Open, Empty) && SplitSpec(Open, 20) == (Open, Empty)
    ensures SplitSpec(Open, 6) == (Hello, World)
    ensures SplitSpec(Open, 9) == (Node(Hello, Leaf("wor"), 6), Leaf("ld! "))
  {
    OpenPairYields("hello ", "world! ");
    SplitOpenAtBoundary();
    SplitOpenInside();
    BuildOne("hello ");
    BuildOne("world! ");
    BuildOne("ld! ");
    BuildTwo("hello ", "wor");
  }

  lemma SplitOpenAtBoundary()
    ensures SplitLeaves([Hello, World], 6, 0) == ([Hello], [World])
  {
    var ys := [Hello, World];
    SplitPast([World], 6, 6);
    assert ys[1..] == [World];
    assert |ys[0].value| == 6;
    assert [Hello] + [] == [Hello];
  }

  lemma SplitOpenInside()
    ensures SplitLeaves([Hello, World], 9, 0) == ([Hello, Leaf("wor")], [Leaf("ld! ")])
  {
    var ys := [Hello, World];
    assert ys[1..] == [World];
    assert |ys[0].value| == 6;
    assert SplitLeaves([World], 9, 6) == ([Leaf("wor")], [Leaf("ld! ")]) by {
      assert [World][1..] == [];
      assert |World.value| == 7;
      assert "world! "[..3] == "wor" && "world! "[3..] == "ld! ";
      assert [Leaf("wor")] + [] == [Leaf("wor")];
      assert [Leaf("ld! ")] + [] == [Leaf("ld! ")];
    }
    assert [Hello] + [Leaf("wor")] == [Hello, Leaf("wor")];
  }

  const NewLeaf := Leaf("new_leaf")

  /** Insert at 0: the new leaf goes in front and the three-leaf, depth-3 result is rebuilt. */
  lemma InsertFrontFixture()
    ensures Rebalanced(Insert(Open, 0, "new_leaf")) == Node(Node(NewLeaf, Hello, 8), World, 14)
  {
    PrependToOpen();
    var c := Node(NewLeaf, Open, 8);
    assert !IsBalanced(c) by {
      assert Depth(c) == 3;
      assert Fib(5) == 5;
    }
    BuildThree("new_leaf", "hello ", "world! ");
  }

  lemma PrependToOpen()
    ensures Insert(Open, 0, "new_leaf") == Node(NewLeaf, Open, 8)
    ensures Yielded(Node(NewLeaf, Open, 8)) == [NewLeaf, Hello, World]
  {
    OpenPairYields("hello ", "world! ");
    LeafYText("new_leaf");
    ConcatLeafFirst(NewLeaf, Open);
  }

  /** Insert at the leaf boundary: the result is already balanced and is kept. */
  lemma InsertBoundaryFixture()
    ensures Rebalanced(Insert(Open, 6, "new_leaf")) == Node(Node(Hello, NewLeaf, 6), World, 14)
  {
    InsertAtLeafBoundary("hello ", "world! ", "new_leaf");
    var c := Node(Node(Hello, NewLeaf, 6), World, 14);
    assert IsBalanced(c) by {
      assert Depth(c) == 2;
      assert Fib(4) == 3;
    }
  }

  /** On a two-leaf tree, inserting at the boundary puts the new leaf between the two. */
  lemma InsertAtLeafBoundary(x: string, y: string, v: string)
    requires x != [] && y != []
    ensures var root := Node(Node(Leaf(x), Leaf(y), |x|), Empty, |x| + |y|);
      var r := Node(Node(Leaf(x), Leaf(v), |x|), Leaf(y), |x| + |v|);
      Insert(root, |x|, v) == r && Yielded(r) == [Leaf(x), Leaf(v), Leaf(y)]
  {
    var root := Node(Node(Leaf(x), Leaf(y), |x|), Empty, |x| + |y|);
    OpenPairYields(x, y);
    SplitPairAtBoundary(x, y);
    BuildOne(x);
    BuildOne(y);
    LeafYText(x);
    ThreeLeaves(x, v, y);
  }

  /** A node over two leaves, itself the left child beside a third leaf, yields all three. */
  lemma ThreeLeaves(x: string, v: string, y: string)
    ensures Len(Node(Leaf(x), Leaf(v), |x|)) == |x| + |v|
    ensures Yielded(Node(Node(Leaf(x), Leaf(v), |x|), Leaf(y), |x| + |v|)) == [Leaf(x), Leaf(v), Leaf(y)]
  {
    var l := Node(Leaf(x), Leaf(v), |x|);
    FullyYielded(l);
    assert Leaves(l) == [Leaf(x)] + [Leaf(v)];
    LeafTextCons(Leaf(x), [Leaf(v)]);
    LeafTextCons(Leaf(v), []);
    var c := Node(l, Leaf(y), |x| + |v|);
    FullyYielded(c);
    assert Leaves(c) == Leaves(l) + [Leaf(y)];
  }

  /** Insert inside the second leaf: four leaves at depth 3 are rebuilt into two pairs. */
  lemma InsertInsideFixture()
    ensures Rebalanced(Insert(Open, 9, "new_leaf")) ==
      Node(Node(Hello, Leaf("wor"), 6), Node(NewLeaf, Leaf("ld! "), 8), 9)
  {
    InsertInsideOpen();
    FourLeavesRebuilt("hello ", "wor", "new_leaf", "ld! ");
  }

  lemma InsertInsideOpen()
    ensures Insert(Open, 9, "new_leaf") == Node(Node(Node(Hello, Leaf("wor"), 6), NewLeaf, 9), Leaf("ld! "), 17)
  {
    assert "world! "[..3] == "wor" && "world! "[3..] == "ld! ";
    InsertInsideAt(Open, 9, "hello ", "world! ", "new_leaf", 3, "wor", "ld! ");
  }

  /** Four non-empty leaves hung at depth 3 are too few for that depth and are rebuilt into two pairs. */
  lemma FourLeavesRebuilt(x: string, a: string, v: string, b: string)
    ensures var c := Node(Node(Node(Leaf(x), Leaf(a), |x|), Leaf(v), |x| + |a|), Leaf(b), |x| + |a| + |v|);
      Rebalanced(c) == Node(Node(Leaf(x), Leaf(a), |x|), Node(Leaf(v), Leaf(b), |v|), |x| + |a|)
  {
    var l := Node(Leaf(x), Leaf(a), |x|);
    var lv := Node(l, Leaf(v), |x| + |a|);
    var c := Node(lv, Leaf(b), |x| + |a| + |v|);
    assert Yielded(c) == [Leaf(x), Leaf(a), Leaf(v), Leaf(b)] by {
      FourLeaves(x, a, v, b);
    }
    assert !IsBalanced(c) by {
      assert Depth(l) == 1;
      assert Depth(lv) == 2;
      assert Depth(c) == 3;
      assert Fib(5) == 5;
    }
    BuildFour(x, a, v, b);
  }

  /** On a two-leaf tree, inserting `k` characters into the second leaf cuts it and puts the new leaf in the cut. */
  lemma InsertInsideAt(root: RopeNode, index: nat, x: string, y: string, v: string, k: nat, a: string, b: string)
    requires x != [] && 0 < k < |y| && index == |x| + k && a == y[..k] && b == y[k..]
    requires root == Node(Node(Leaf(x), Leaf(y), |x|), Empty, |x| + |y|)
    ensures Insert(root, index, v) == Node(Node(Node(Leaf(x), Leaf(a), |x|), Leaf(v), index), Leaf(b), index + |v|)
  {
    InsertInsideIsConcat(x, y, v, k);
    assert |a| == k;
    InsideConcats(x, a, v, b);
  }

  lemma InsertInsideIsConcat(x: string, y: string, v: string, k: nat)
    requires x != [] && 0 < k < |y|
    ensures var root := Node(Node(Leaf(x), Leaf(y), |x|), Empty, |x| + |y|);
      Insert(root, |x| + k, v) == Concat(Concat(Node(Leaf(x), Leaf(y[..k]), |x|), Leaf(v)), Leaf(y[k..]))
  {
    var root := Node(Node(Leaf(x), Leaf(y), |x|), Empty, |x| + |y|);
    InsideSplit(x, y, k);
    InsertMiddleIs(root, |x| + k, v, Node(Leaf(x), Leaf(y[..k]), |x|), Leaf(y[k..]));
  }

  lemma InsideSplit(x: string, y: string, k: nat)
    requires x != [] && 0 < k < |y|
    ensures var root := Node(Node(Leaf(x), Leaf(y), |x|), Empty, |x| + |y|);
      SplitSpec(root, |x| + k) == (Node(Leaf(x), Leaf(y[..k]), |x|), Leaf(y[k..])) && 0 < |x| + k < Len(root)
  {
    OpenPairYields(x, y);
    SplitPairInside(x, y, k);
    BuildTwo(x, y[..k]);
    BuildOne(y[k..]);
  }

  lemma InsideConcats(x: string, a: string, v: string, b: string)
    ensures var lv := Node(Node(Leaf(x), Leaf(a), |x|), Leaf(v), |x| + |a|);
      Concat(Node(Leaf(x), Leaf(a), |x|), Leaf(v)) == lv && Concat(lv, Leaf(b)) == Node(lv, Leaf(b), |x| + |a| + |v|)
  {
    FourLeaves(x, a, v, b);
  }

  lemma InsertMiddleIs(n: RopeNode, index: nat, v: string, l: RopeNode, r: RopeNode)
    requires 0 < index < Len(n) && SplitSpec(n, index) == (l, r)
    ensures Insert(n, index, v) == Concat(Concat(l, Leaf(v)), r)
  {
  }

  lemma FourLeaves(x: string, a: string, v: string, b: string)
    ensures Len(Node(Leaf(x), Leaf(a), |x|)) == |x| + |a|
    ensures Len(Node(Node(Leaf(x), Leaf(a), |x|), Leaf(v), |x| + |a|)) == |x| + |a| + |v|
    ensures var lv := Node(Node(Leaf(x), Leaf(a), |x|), Leaf(v), |x| + |a|);
      Yielded(Node(lv, Leaf(b), |x| + |a| + |v|)) == [Leaf(x), Leaf(a), Leaf(v), Leaf(b)]
  {
    ThreeLeaves(x, a, v);
    var lv := Node(Node(Leaf(x), Leaf(a), |x|), Leaf(v), |x| + |a|);
    assert Len(lv) == |x| + |a| + |v| by {
      FullyYielded(lv);
      TextIsLeafText(lv);
      assert Text(Node(Leaf(x), Leaf(a), |x|)) == x + a;
      assert Text(lv) == (x + a) + v;
    }
    var c := Node(lv, Leaf(b), |x| + |a| + |v|);
    assert Yielded(c) == [Leaf(x), Leaf(a), Leaf(v), Leaf(b)] by {
      FullyYielded(lv);
      FullyYielded(c);
      assert Leaves(c) == Leaves(lv) + [Leaf(b)];
    }
  }

  /** Splitting two leaves where they meet. */
  lemma SplitPairAtBoundary(x: string, y: string)
    requires x != []
    ensures SplitLeaves([Leaf(x), Leaf(y)], |x|, 0) == ([Leaf(x)], [Leaf(y)])
  {
    var ys := [Leaf(x), Leaf(y)];
    assert ys[1..] == [Leaf(y)];
    SplitPast([Leaf(y)], |x|, |x|);
    assert [Leaf(x)] + [] == [Leaf(x)];
  }

  /** Splitting two leaves `k` characters into the second. */
  lemma SplitPairInside(x: string, y: string, k: nat)
    requires 0 < k < |y|
    ensures SplitLeaves([Leaf(x), Leaf(y)], |x| + k, 0) == ([Leaf(x), Leaf(y[..k])], [Leaf(y[k..])])
  {
    var ys := [Leaf(x), Leaf(y)];
    assert ys[1..] == [Leaf(y)];
    assert SplitLeaves([Leaf(y)], |x| + k, |x|) == ([Leaf(y[..k])], [Leaf(y[k..])]) by {
      assert [Leaf(y)][1..] == [];
      assert [Leaf(y[..k])] + [] == [Leaf(y[..k])];
      assert [Leaf(y[k..])] + [] == [Leaf(y[k..])];
    }
    assert [Leaf(x)] + [Leaf(y[..k])] == [Leaf(x), Leaf(y[..k])];
  }

  /** Appending to the two-leaf tree puts the new leaf right of its root. */
  lemma AppendToOpen(index: nat)
    requires index >= 13
    ensures Insert(Open, index, "new_leaf") == Node(Open, NewLeaf, 13)
    ensures Yielded(Node(Open, NewLeaf, 13)) == [Hello, World]
    ensures Leaves(Node(Open, NewLeaf, 13)) == [Hello, World, NewLeaf]
  {
    OpenPairYields("hello ", "world! ");
    InsertAtEndDropsLeaf("hello ", "world! ", "new_leaf", index);
  }

  /**
   * Insert at or past the end, as written: the new leaf hangs right of a node
   * whose right child is `None`, the iterator never reaches it, and the rebuild
   * keeps only the two old leaves.
   */
  lemma InsertAtEndFixture(index: nat)
    requires index >= 13
    ensures Rebalanced(Insert(Open, index, "new_leaf")) == Node(Hello, World, 6)
  {
    AppendToOpen(index);
    var c := Node(Open, NewLeaf, 13);
    assert !IsBalanced(c) by {
      assert Depth(c) == 3;
      assert Fib(5) == 5;
    }
    BuildTwo("hello ", "world! ");
  }

  /**
   * Insert at or past the end with the corrected iterator: all three leaves are
   * yielded, three leaves are too few for depth 3, and the rebuild is the tree
   * the scenario expects.
   */
  lemma InsertAtEndFixedFixture(index: nat)
    requires index >= 13
    ensures var c := Insert(Open, index, "new_leaf");
      DrainFixed(LeftSpine(c)) == [Hello, World, NewLeaf] &&
      |DrainFixed(LeftSpine(c))| < Fib(Depth(c) + 2) &&
      BuildSpec(DrainFixed(LeftSpine(c))) == Node(Node(Hello, World, 6), NewLeaf, 13)
  {
    AppendToOpen(index);
    var c := Node(Open, NewLeaf, 13);
    DrainFixedYieldsAllLeaves(c);
    assert Depth(c) == 3;
    assert Fib(5) == 5;
    BuildThree("hello ", "world! ", "new_leaf");
  }

  // ---------------------------------------------------------------------------
  // The builder on a few leaves

  lemma LeafEntriesSnoc(items: seq<RopeNode>, x: string)
    ensures LeafEntries(items + [Leaf(x)]) == LeafEntries(items) + [Weighted(Leaf(x), |x|, 0)]
  {
    assert (items + [Leaf(x)])[..|items|] == items;
  }

  lemma BuildOne(a: string)
    ensures BuildSpec([Leaf(a)]) == Leaf(a)
  {
    LeafEntriesSnoc([], a);
    assert [] + [Leaf(a)] == [Leaf(a)];
  }

  lemma BuildTwo(a: string, b: string)
    ensures BuildSpec([Leaf(a), Leaf(b)]) == Node(Leaf(a), Leaf(b), |a|)
  {
    var es := [Weighted(Leaf(a), |a|, 0), Weighted(Leaf(b), |b|, 0)];
    assert LeafEntries([Leaf(a), Leaf(b)]) == es by {
      LeafEntriesSnoc([], a);
      assert [] + [Leaf(a)] == [Leaf(a)];
      LeafEntriesSnoc([Leaf(a)], b);
      assert [Leaf(a)] + [Leaf(b)] == [Leaf(a), Leaf(b)];
    }
    var r1 := [Pair(es[0], es[1])];
    assert PairRound(es) == r1 by {
      assert PairRound(es[2..]) == [];
    }
    assert Rounds(es) == Rounds(r1) == r1[0].node;
  }

  lemma BuildThree(a: string, b: string, c: string)
    ensures BuildSpec([Leaf(a), Leaf(b), Leaf(c)]) == Node(Node(Leaf(a), Leaf(b), |a|), Leaf(c), |a| + |b|)
  {
    var es := [Weighted(Leaf(a), |a|, 0), Weighted(Leaf(b), |b|, 0), Weighted(Leaf(c), |c|, 0)];
    assert LeafEntries([Leaf(a), Leaf(b), Leaf(c)]) == es by {
      LeafEntriesSnoc([], a);
      assert [] + [Leaf(a)] == [Leaf(a)];
      LeafEntriesSnoc([Leaf(a)], b);
      assert [Leaf(a)] + [Leaf(b)] == [Leaf(a), Leaf(b)];
      LeafEntriesSnoc([Leaf(a), Leaf(b)], c);
      assert [Leaf(a), Leaf(b)] + [Leaf(c)] == [Leaf(a), Leaf(b), Leaf(c)];
    }
    var r1 := [Pair(es[0], es[1]), es[2]];
    assert PairRound(es) == r1 by {
      assert PairRound(es[2..]) == [es[2]];
    }
    var r2 := [Pair(r1[0], r1[1])];
    assert PairRound(r1) == r2 by {
      assert PairRound(r1[2..]) == [];
    }
    assert Rounds(es) == Rounds(r1) == Rounds(r2) == r2[0].node;
  }

  lemma BuildFour(a: string, b: string, c: string, d: string)
    ensures BuildSpec([Leaf(a), Leaf(b), Leaf(c), Leaf(d)]) ==
      Node(Node(Leaf(a), Leaf(b), |a|), Node(Leaf(c), Leaf(d), |c|), |a| + |b|)
  {
    var es := [Weighted(Leaf(a), |a|, 0), Weighted(Leaf(b), |b|, 0), Weighted(Leaf(c), |c|, 0), Weighted(Leaf(d), |d|, 0)];
    assert LeafEntries([Leaf(a), Leaf(b), Leaf(c), Leaf(d)]) == es by {
      LeafEntriesSnoc([], a);
      assert [] + [Leaf(a)] == [Leaf(a)];
      LeafEntriesSnoc([Leaf(a)], b);
      assert [Leaf(a)] + [Leaf(b)] == [Leaf(a), Leaf(b)];
      LeafEntriesSnoc([Leaf(a), Leaf(b)], c);
      assert [Leaf(a), Leaf(b)] + [Leaf(c)] == [Leaf(a), Leaf(b), Leaf(c)];
      LeafEntriesSnoc([Leaf(a), Leaf(b), Leaf(c)], d);
      assert [Leaf(a), Leaf(b), Leaf(c)] + [Leaf(d)] == [Leaf(a), Leaf(b), Leaf(c), Leaf(d)];
    }
    var r1 := [Pair(es[0], es[1]), Pair(es[2], es[3])];
    assert PairRound(es) == r1 by {
      assert PairRound(es[2..][2..]) == [];
      assert PairRound(es[2..]) == [Pair(es[2], es[3])];
    }
    var r2 := [Pair(r1[0], r1[1])];
    assert PairRound(r1) == r2 by {
      assert PairRound(r1[2..]) == [];
    }
    assert Rounds(es) == Rounds(r1) == Rounds(r2) == r2[0].node;
  }

  lemma BuildSix(a: string, b: string, c: string, d: string, e: string, f: string)
    ensures BuildSpec([Leaf(a), Leaf(b), Leaf(c), Leaf(d), Leaf(e), Leaf(f)]) ==
      Node(Node(Node(Leaf(a), Leaf(b), |a|), Node(Leaf(c), Leaf(d), |c|), |a| + |b|),
           Node(Leaf(e), Leaf(f), |e|), |a| + |b| + |c| + |d|)
  {
    var es := [Weighted(Leaf(a), |a|, 0), Weighted(Leaf(b), |b|, 0), Weighted(Leaf(c), |c|, 0),
               Weighted(Leaf(d), |d|, 0), Weighted(Leaf(e), |e|, 0), Weighted(Leaf(f), |f|, 0)];
    assert LeafEntries([Leaf(a), Leaf(b), Leaf(c), Leaf(d), Leaf(e), Leaf(f)]) == es by {
      LeafEntriesSnoc([], a);
      assert [] + [Leaf(a)] == [Leaf(a)];
      LeafEntriesSnoc([Leaf(a)], b);
      assert [Leaf(a)] + [Leaf(b)] == [Leaf(a), Leaf(b)];
      LeafEntriesSnoc([Leaf(a), Leaf(b)], c);
      assert [Leaf(a), Leaf(b)] + [Leaf(c)] == [Leaf(a), Leaf(b), Leaf(c)];
      LeafEntriesSnoc([Leaf(a), Leaf(b), Leaf(c)], d);
      assert [Leaf(a), Leaf(b), Leaf(c)] + [Leaf(d)] == [Leaf(a), Leaf(b), Leaf(c), Leaf(d)];
      LeafEntriesSnoc([Leaf(a), Leaf(b), Leaf(c), Leaf(d)], e);
      assert [Leaf(a), Leaf(b), Leaf(c), Leaf(d)] + [Leaf(e)] == [Leaf(a), Leaf(b), Leaf(c), Leaf(d), Leaf(e)];
      LeafEntriesSnoc([Leaf(a), Leaf(b), Leaf(c), Leaf(d), Leaf(e)], f);
      assert [Leaf(a), Leaf(b), Leaf(c), Leaf(d), Leaf(e)] + [Leaf(f)] ==
        [Leaf(a), Leaf(b), Leaf(c), Leaf(d), Leaf(e), Leaf(f)];
    }
    var r1 := [Pair(es[0], es[1]), Pair(es[2], es[3]), Pair(es[4], es[5])];
    assert PairRound(es) == r1 by {
      assert PairRound(es[4..][2..]) == [];
      assert PairRound(es[4..]) == [Pair(es[4], es[5])];
      assert es[2..][2..] == es[4..];
      assert PairRound(es[2..]) == [Pair(es[2], es[3]), Pair(es[4], es[5])];
    }
    var r2 := [Pair(r1[0], r1[1]), r1[2]];
    assert PairRound(r1) == r2 by {
      assert PairRound(r1[2..]) == [r1[2]];
    }
    var r3 := [Pair(r2[0], r2[1])];
    assert PairRound(r2) == r3 by {
      assert PairRound(r2[2..]) == [];
    }
    assert Rounds(es) == Rounds(r1) == Rounds(r2) == Rounds(r3) == r3[0].node;
  }

  /** The substring scenario's tree: `Rope32` twice under a node (its weight of 1 plays no part). */
  const Twice := Node(Rope32, Rope32, 1)
  /** What `substring(3, 40)` leaves: six leaves built into a balanced tree. */
  const Cut := Node(Node(Node(Leaf("lo "), World, 3), MyNameSugondese, 10), Node(Hello, Leaf("world"), 6), 29)

  /** Substring from 3 of 40 characters cuts into the first and the sixth leaf; the scan as written gets it right here. */
  lemma SubstringFixture()
    ensures SubstringAsWritten(Twice, 3, 40) == Ok(Cut)
    ensures SubstringSpec(Twice, 3, 40) == Cut
  {
    var ys := [Hello, World, MyName, Sugondese, Hello, World, MyName, Sugondese];
    var out := [Leaf("lo "), World, MyName, Sugondese, Hello, Leaf("world")];
    TwiceYields();
    ScanTwice();
    ScanAgreesWithWindow(ys, 3, 40);
    BuildSix("lo ", "world! ", "My name", "is sugondese", "hello ", "world");
  }

  lemma TwiceYields()
    ensures Yielded(Twice) == [Hello, World, MyName, Sugondese, Hello, World, MyName, Sugondese]
  {
    FullyYielded(Twice);
    Rope32Leaves();
    assert Leaves(Twice) == Leaves(Rope32) + Leaves(Rope32);
  }

  lemma Rope32Leaves()
    ensures Leaves(Rope32) == [Hello, World, MyName, Sugondese]
  {
    assert Leaves(HelloWorld) == [Hello] + [World];
    assert Leaves(MyNameSugondese) == [MyName] + [Sugondese];
    assert Leaves(Rope32) == Leaves(HelloWorld) + Leaves(MyNameSugondese);
  }

  lemma ScanTwice()
    ensures ScanAsWritten([Hello, World, MyName, Sugondese, Hello, World, MyName, Sugondese], 3, 40) ==
      Ok([Leaf("lo "), World, MyName, Sugondese, Hello, Leaf("world")])
  {
    var ys := [Hello, World, MyName, Sugondese, Hello, World, MyName, Sugondese];
    var w := Leaf("world");
    assert ScanAsWritten(ys[6..], 0, 0) == Ok([]);
    assert ys[5..][1..] == ys[6..];
    assert "world! "[0..5] == "world";
    assert [w] + [] == [w];
    assert ScanAsWritten(ys[5..], 0, 5) == Ok([w]);
    assert ys[4..][1..] == ys[5..];
    assert [Hello] + [w] == [Hello, w];
    assert ScanAsWritten(ys[4..], 0, 11) == Ok([Hello, w]);
    assert ys[3..][1..] == ys[4..];
    assert [Sugondese] + [Hello, w] == [Sugondese, Hello, w];
    assert ScanAsWritten(ys[3..], 0, 23) == Ok([Sugondese, Hello, w]);
    assert ys[2..][1..] == ys[3..];
    assert [MyName] + [Sugondese, Hello, w] == [MyName, Sugondese, Hello, w];
    assert ScanAsWritten(ys[2..], 0, 30) == Ok([MyName, Sugondese, Hello, w]);
    assert ys[1..][1..] == ys[2..];
    assert [World] + [MyName, Sugondese, Hello, w] == [World, MyName, Sugondese, Hello, w];
    assert ScanAsWritten(ys[1..], 0, 37) == Ok([World, MyName, Sugondese, Hello, w]);
    assert "hello "[3..6] == "lo ";
    assert [Leaf("lo ")] + [World, MyName, Sugondese, Hello, w] == [Leaf("lo "), World, MyName, Sugondese, Hello, w];
    assert ScanAsWritten(ys, 3, 40) == Ok([Leaf("lo "), World, MyName, Sugondese, Hello, Leaf("world")]);
  }
}
