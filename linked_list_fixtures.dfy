/**
 * The doubly linked list's test scenarios, run on the model: each method builds
 * a list with the model's operations and its postcondition states what the
 * scenario observes.
 */
module LinkedListFixtures {
  import opened Wrappers
  import opened LinkedLists

  /** Two `push_head`s, then `pop_head` until empty: last pushed comes out first. */
  method PushPopHeadFixture() returns (a: Option<int>, b: Option<int>, c: Option<int>, d: Option<int>)
    ensures a == Some(25) && b == Some(5) && c == None && d == None
  {
    var list := new DoublyLinkedList<int>();
    list.PushHead(5);
    list.PushHead(25);
    a := list.PopHead();
    b := list.PopHead();
    c := list.PopHead();
    d := list.Pop();
  }

  /** Two `push`es, then `pop` until empty: last pushed comes out first. */
  method PushPopFixture() returns (a: Option<int>, b: Option<int>, c: Option<int>, d: Option<int>)
    ensures a == Some(25) && b == Some(5) && c == None && d == None
  {
    var list := new DoublyLinkedList<int>();
    list.Push(5);
    list.Push(25);
    a := list.Pop();
    b := list.Pop();
    c := list.Pop();
    d := list.PopHead();
  }

  /** A list of `push`ed values, in the order it was built. */
  method Pushed(vs: seq<int>) returns (list: DoublyLinkedList<int>)
    ensures fresh(list) && fresh(list.items) && list.Valid() && list.Values() == vs
  {
    list := new DoublyLinkedList<int>();
    var k := 0;
    while k < |vs|
      invariant 0 <= k <= |vs|
      invariant fresh(list) && fresh(list.items) && list.Valid()
      invariant |list.items| == k && forall i :: 0 <= i < k ==> list.items[i].value == vs[i]
    {
      list.Push(vs[k]);
      k := k + 1;
    }
    assert list.Values() == vs;
  }

  /** `iter` over six pushed values hands them out in push order. */
  method IterFixture() returns (vs: seq<int>)
    ensures vs == [5, 25, 50, -50, -25, -5]
  {
    var list := Pushed([5, 25, 50, -50, -25, -5]);
    vs := list.IterValues();
  }

  /** `foreach` multiplying by five, then `pop_head` until empty. */
  method ForeachFixture() returns (a: Option<int>, b: Option<int>, c: Option<int>, d: Option<int>)
    ensures a == Some(25) && b == Some(125) && c == Some(250) && d == None
  {
    var list := Pushed([5, 25, 50]);
    list.Foreach(x => x * 5);
    a := list.PopHead();
    b := list.PopHead();
    c := list.PopHead();
    d := list.Pop();
  }

  /** `insert_after` the second item reached by the iterator. */
  method InsertAfterFixture() returns (vs: seq<int>)
    ensures vs == [5, 25, 40, 50]
  {
    var list := Pushed([5, 25, 50]);
    ghost var s := list.items;
    list.Neighbours(0);
    var it := list.Iter();
    var first := it.Next();
    var second := it.Next();
    list.InsertAfter(second.value, 40, 1);
    assert list.items[0] == s[0] && list.items[1] == s[1] && list.items[3] == s[2];
    vs := list.IterValues();
  }

  /** `insert_after` the only item: the new item is the tail. */
  method InsertAfterOneItemFixture() returns (vs: seq<int>, tailValue: int)
    ensures vs == [5, 40] && tailValue == 40
  {
    var list := Pushed([5]);
    list.InsertAfter(list.head, 40, 0);
    vs := list.IterValues();
    tailValue := list.tail.value;
  }

  /** `insert_before` the second item reached by the iterator. */
  method InsertBeforeFixture() returns (vs: seq<int>)
    ensures vs == [5, 40, 25, 50]
  {
    var list := Pushed([5, 25, 50]);
    ghost var s := list.items;
    list.Neighbours(0);
    var it := list.Iter();
    var first := it.Next();
    var second := it.Next();
    list.InsertBefore(second.value, 40, 1);
    assert list.items[0] == s[0] && list.items[2] == s[1] && list.items[3] == s[2];
    vs := list.IterValues();
  }

  /** `insert_before` the only item: the new item is the head. */
  method InsertBeforeOneItemFixture() returns (vs: seq<int>, headValue: int)
    ensures vs == [40, 5] && headValue == 40
  {
    var list := Pushed([5]);
    list.InsertBefore(list.head, 40, 0);
    vs := list.IterValues();
    headValue := list.head.value;
  }

  /** `remove` of the only item: nothing to iterate, no head, no tail. */
  method RemoveOneItemFixture() returns (vs: seq<int>, noHead: bool, noTail: bool)
    ensures vs == [] && noHead && noTail
  {
    var list := Pushed([5]);
    list.Remove(list.head, 0);
    vs := list.IterValues();
    noHead := list.head == null;
    noTail := list.tail == null;
  }

  /**
   * `remove` of the first of two items: head and tail are the second item, as
   * the scenario checks, but the new head still points back at the removed item.
   */
  method RemoveTwoItemsFirstFixture() returns (headValue: int, tailValue: int, headPrevCleared: bool)
    ensures headValue == 25 && tailValue == 25
    ensures !headPrevCleared
  {
    var list := Pushed([5, 25]);
    list.Remove(list.head, 0);
    headValue := list.head.value;
    tailValue := list.tail.value;
    headPrevCleared := list.head.prev == null;
  }

  /** The same removal, repaired: the new head's `prev` is cleared. */
  method RemoveRepairedTwoItemsFirstFixture() returns (headValue: int, tailValue: int, headPrevCleared: bool)
    ensures headValue == 25 && tailValue == 25
    ensures headPrevCleared
  {
    var list := Pushed([5, 25]);
    list.RemoveRepaired(list.head, 0);
    headValue := list.head.value;
    tailValue := list.tail.value;
    headPrevCleared := list.head.prev == null;
  }

  /** `remove` of the second of two items: head and tail are the first item. */
  method RemoveTwoItemsSecondFixture() returns (headValue: int, tailValue: int)
    ensures headValue == 5 && tailValue == 5
  {
    var list := Pushed([5, 25]);
    list.Neighbours(0);
    list.Remove(list.head.next, 1);
    headValue := list.head.value;
    tailValue := list.tail.value;
  }

  /** `remove` of the middle of three items: head and tail are kept. */
  method RemoveThreeItemsSecondFixture() returns (headValue: int, tailValue: int)
    ensures headValue == 5 && tailValue == 50
  {
    var list := Pushed([5, 25, 50]);
    list.Neighbours(0);
    list.Remove(list.head.next, 1);
    headValue := list.head.value;
    tailValue := list.tail.value;
  }

  /** `remove` of the last of three items: `tail` is left on the removed item. */
  method RemoveThreeItemsLastFixture() returns (tailValue: int)
    ensures tailValue == 50
  {
    var list := Pushed([5, 25, 50]);
    list.Remove(list.tail, 2);
    tailValue := list.tail.value;
  }

  /** The same removal, repaired: `tail` moves to the new last item. */
  method RemoveRepairedThreeItemsLastFixture() returns (tailValue: int, vs: seq<int>)
    ensures tailValue == 25 && vs == [5, 25]
  {
    var list := Pushed([5, 25, 50]);
    list.RemoveRepaired(list.tail, 2);
    tailValue := list.tail.value;
    vs := list.IterValues();
  }
}
