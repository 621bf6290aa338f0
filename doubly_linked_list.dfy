/**
 * The doubly linked list: items that point at their neighbours through `next`
 * and `prev`, and a list that holds its first and last item in `head` and
 * `tail`. The ghost sequence `items` is the list in order; `ForwardLinked`
 * says that `head` and the `next` pointers walk it, `BackwardLinked` that
 * `tail` and the `prev` pointers walk it backwards.
 */
module LinkedLists {
  import opened Wrappers

  /** `ListItem`: one value and its two neighbours. */
  class ListItem<T> {
    var next: ListItem?<T>
    var prev: ListItem?<T>
    var value: T

    constructor (value: T, next: ListItem?<T>, prev: ListItem?<T>)
      ensures this.value == value && this.next == next && this.prev == prev
    {
      this.value := value;
      this.next := next;
      this.prev := prev;
    }
  }

  /** The values held by a sequence of items, in order. */
  ghost function ValuesOf<T>(s: seq<ListItem<T>>): (r: seq<T>)
    reads s`value
    ensures |r| == |s| && forall i :: 0 <= i < |s| ==> r[i] == s[i].value
  {
    if s == [] then [] else [s[0].value] + ValuesOf(s[1..])
  }

  /** Where each element of `s` sits once `x` is put in at position `k`. */
  lemma InsertedAt<X>(s: seq<X>, k: nat, x: X)
    requires k <= |s|
    ensures var t := s[..k] + [x] + s[k..];
      |t| == |s| + 1 && t[k] == x &&
      (forall i :: 0 <= i < k ==> t[i] == s[i]) &&
      (forall i :: k < i < |t| ==> t[i] == s[i - 1])
  {
  }

  /** Where each element of `s` sits once position `k` is taken out. */
  lemma RemovedAt<X>(s: seq<X>, k: nat)
    requires k < |s|
    ensures var t := s[..k] + s[k + 1..];
      |t| == |s| - 1 &&
      (forall i :: 0 <= i < k ==> t[i] == s[i]) &&
      (forall i :: k <= i < |t| ==> t[i] == s[i + 1])
  {
  }

  /** `DoublyLinkedListIter`: the item it hands out next, or nothing. */
  class ListIter<T> {
    var current: ListItem?<T>

    constructor (start: ListItem?<T>)
      ensures current == start
    {
      current := start;
    }

    /** `next`: hands out the current item and moves to its `next`. */
    method Next() returns (r: Option<ListItem<T>>)
      modifies this
      ensures old(current) == null ==> r == None && current == null
      ensures old(current) != null ==> r == Some(old(current)) && current == old(current).next
    {
      if current == null {
        return None;
      }
      var item := current;
      current := item.next;
      r := Some(item);
    }
  }

  class DoublyLinkedList<T> {
    var head: ListItem?<T>
    var tail: ListItem?<T>
    ghost var items: seq<ListItem<T>>

    ghost predicate Distinct()
      reads this`items
    {
      forall i, j :: 0 <= i < j < |items| ==> items[i] != items[j]
    }

    /** `head` is the first item, each item's `next` the one after it, and the last item's `next` is nothing. */
    ghost predicate ForwardLinked()
      reads this`head, this`items, items`next
    {
      (items == [] ==> head == null) &&
      (items != [] ==> head == items[0] && items[|items| - 1].next == null) &&
      forall i :: 0 < i < |items| ==> items[i - 1].next == items[i]
    }

    /** `tail` is the last item, each item's `prev` the one before it, and the first item's `prev` is nothing. */
    ghost predicate BackwardLinked()
      reads this`tail, this`items, items`prev
    {
      (items == [] ==> tail == null) &&
      (items != [] ==> tail == items[|items| - 1] && items[0].prev == null) &&
      forall i :: 0 < i < |items| ==> items[i].prev == items[i - 1]
    }

    /** The parts of `BackwardLinked` that `remove` can break separately: `tail` on the last item, ... */
    ghost predicate TailLinked()
      reads this`tail, this`items
    {
      (items == [] ==> tail == null) && (items != [] ==> tail == items[|items| - 1])
    }

    /** ... and each item's `prev` on the one before it. */
    ghost predicate PrevLinked()
      reads this`items, items`prev
    {
      forall i :: 0 < i < |items| ==> items[i].prev == items[i - 1]
    }

    ghost predicate Valid()
      reads this`head, this`tail, this`items, items`next, items`prev
    {
      Distinct() && ForwardLinked() && BackwardLinked()
    }

    ghost function Values(): seq<T>
      reads this`items, items`value
    {
      ValuesOf(items)
    }

    /** `new`: no head and no tail. */
    constructor ()
      ensures Valid() && items == []
    {
      head := null;
      tail := null;
      items := [];
    }

    /** `sync_tail`: a one-item list gets its head as tail, an empty one no tail; otherwise `tail` is kept. */
    method SyncTail()
      modifies this
      ensures head == old(head) && items == old(items)
      ensures tail == if head != null && head.next == null then head else if head == null then null else old(tail)
    {
      if head != null && head.next == null {
        tail := head;
        return;
      }
      if head == null {
        tail := null;
      }
    }

    /** `sync_head`: a one-item list gets its tail as head, an empty one no head; otherwise `head` is kept. */
    method SyncHead()
      modifies this
      ensures tail == old(tail) && items == old(items)
      ensures head == if tail != null && tail.prev == null then tail else if tail == null then null else old(head)
    {
      if tail != null && tail.prev == null {
        head := tail;
        return;
      }
      if tail == null {
        head := null;
      }
    }

    /** `push_head`: a new first item. */
    method PushHead(value: T)
      requires Valid()
      modifies this, items`prev
      ensures Valid()
      ensures |items| == |old(items)| + 1 && fresh(items[0]) && items[1..] == old(items)
      ensures items[0].value == value
    {
      if head != null {
        ghost var s := items;
        var h := head;
        var newHead := new ListItem(value, h, null);
        h.prev := newHead;
        head := newHead;
        items := [newHead] + items;
        assert items[1..] == s;
      } else {
        head := new ListItem(value, null, null);
        items := [head];
        SyncTail();
      }
    }

    /** `push`: a new last item. */
    method Push(value: T)
      requires Valid()
      modifies this, items`next
      ensures Valid()
      ensures |items| == |old(items)| + 1 && fresh(items[|items| - 1]) && items[..|items| - 1] == old(items)
      ensures items[|items| - 1].value == value
    {
      if tail != null {
        var t := tail;
        var newTail := new ListItem(value, null, t);
        t.next := newTail;
        tail := newTail;
        items := items + [newTail];
      } else {
        tail := new ListItem(value, null, null);
        items := [tail];
        SyncHead();
      }
    }

    /** `pop_head`: the first value, whose item leaves the list; nothing on an empty list. */
    method PopHead() returns (r: Option<T>)
      requires Valid()
      modifies this, items`prev
      ensures Valid()
      ensures old(items) == [] ==> r == None && items == []
      ensures old(items) != [] ==> r == Some(old(items)[0].value) && items == old(items)[1..]
    {
      if head == null {
        return None;
      }
      Neighbours(0);
      if |items| > 2 {
        Neighbours(1);
      }
      ghost var s := items;
      var h := head;
      var newHead := h.next;
      if newHead != null {
        newHead.prev := null;
      }
      head := newHead;
      items := items[1..];
      SyncTail();
      forall i | 0 < i < |items|
        ensures items[i].prev == items[i - 1]
      {
        assert items[i] == s[i + 1] != s[1];
      }
      r := Some(h.value);
    }

    /** `pop`: the last value, whose item leaves the list; nothing on an empty list. */
    method Pop() returns (r: Option<T>)
      requires Valid()
      modifies this, items`next
      ensures Valid()
      ensures old(items) == [] ==> r == None && items == []
      ensures old(items) != [] ==> r == Some(old(items)[|old(items)| - 1].value) && items == old(items)[..|old(items)| - 1]
    {
      if tail == null {
        return None;
      }
      Neighbours(|items| - 1);
      if |items| > 2 {
        Neighbours(|items| - 2);
      }
      ghost var s := items;
      var t := tail;
      var newTail := t.prev;
      if newTail != null {
        newTail.next := null;
      }
      tail := newTail;
      items := items[..|items| - 1];
      SyncHead();
      forall i | 0 < i < |items|
        ensures items[i - 1].next == items[i]
      {
        assert items[i - 1] == s[i - 1] != s[|s| - 2];
      }
      r := Some(t.value);
    }

    /** `iter`: an iterator that starts at `head`. */
    method Iter() returns (it: ListIter<T>)
      ensures fresh(it) && it.current == head
    {
      it := new ListIter(head);
    }

    /** Runs `iter` to the end: it hands out the items in list order, so their values are the list's values. */
    method IterValues() returns (vs: seq<T>)
      requires Valid()
      ensures vs == Values()
    {
      ghost var all := Values();
      var it := Iter();
      vs := [];
      var k := 0;
      while true
        invariant fresh(it)
        invariant 0 <= k <= |items|
        invariant it.current == if k < |items| then items[k] else null
        invariant vs == all[..k]
        decreases |items| - k
      {
        var x := it.Next();
        if x.None? {
          break;
        }
        assert all[..k + 1] == all[..k] + [items[k].value];
        vs := vs + [x.value.value];
        k := k + 1;
      }
      assert all[..k] == all;
    }

    /** `foreach`: `f` applied in place to every value, in list order; the links stay as they were. */
    method Foreach(f: T -> T)
      requires Valid()
      modifies items`value
      ensures forall i :: 0 <= i < |items| ==> items[i].value == f(old(items[i].value))
    {
      var it := Iter();
      var k := 0;
      while true
        invariant fresh(it)
        invariant 0 <= k <= |items|
        invariant it.current == if k < |items| then items[k] else null
        invariant forall i :: 0 <= i < k ==> items[i].value == f(old(items[i].value))
        invariant forall i :: k <= i < |items| ==> items[i].value == old(items[i].value)
        decreases |items| - k
      {
        var x := it.Next();
        if x.None? {
          break;
        }
        var item := x.value;
        item.value := f(item.value);
        k := k + 1;
      }
    }

    /** `insert_after`: a new item right after the `k`-th, which becomes the tail if that item was. */
    method InsertAfter(node: ListItem<T>, value: T, ghost k: nat)
      requires Valid() && k < |items| && items[k] == node
      modifies this, items`next, items`prev
      ensures Valid()
      ensures |items| == |old(items)| + 1 && fresh(items[k + 1]) && items[k + 1].value == value
      ensures items[..k + 1] == old(items)[..k + 1] && items[k + 2..] == old(items)[k + 1..]
    {
      Neighbours(k);
      var nextNode := node.next;
      var newNode := new ListItem(value, nextNode, node);
      if nextNode != null {
        LinkBetween(node, newNode, nextNode, k);
      } else {
        LinkLast(node, newNode);
      }
    }

    /** `insert_after` at the tail: the new item `x`, already pointing back at `node`, becomes the tail. */
    method LinkLast(node: ListItem<T>, x: ListItem<T>)
      requires Valid() && items != [] && items[|items| - 1] == node
      requires x !in items && x.prev == node && x.next == null
      modifies this, node`next
      ensures Valid()
      ensures items == old(items) + [x]
    {
      ghost var s := items;
      tail := x;
      node.next := x;
      items := items + [x];
      forall i | 0 < i < |s|
        ensures items[i - 1].next == items[i]
      {
        assert s[i - 1] != node;
      }
    }

    /** `insert_before`: a new item right before the `k`-th, which becomes the head if that item was. */
    method InsertBefore(node: ListItem<T>, value: T, ghost k: nat)
      requires Valid() && k < |items| && items[k] == node
      modifies this, items`next, items`prev
      ensures Valid()
      ensures |items| == |old(items)| + 1 && fresh(items[k]) && items[k].value == value
      ensures items[..k] == old(items)[..k] && items[k + 1..] == old(items)[k..]
    {
      Neighbours(k);
      var prevNode := node.prev;
      var newNode := new ListItem(value, node, prevNode);
      if prevNode != null {
        LinkBetween(prevNode, newNode, node, k - 1);
      } else {
        LinkFirst(newNode, node);
      }
    }

    /** `insert_before` at the head: the new item `x`, already pointing at `node`, becomes the head. */
    method LinkFirst(x: ListItem<T>, node: ListItem<T>)
      requires Valid() && items != [] && items[0] == node
      requires x !in items && x.prev == null && x.next == node
      modifies this, node`prev
      ensures Valid()
      ensures items == [x] + old(items)
    {
      ghost var s := items;
      head := x;
      node.prev := x;
      items := [x] + items;
      forall i | 1 < i < |items|
        ensures items[i].prev == items[i - 1]
      {
        assert s[i - 1] != node;
      }
    }

    /** Both insertions between two neighbours `a` and `b`: the new item `x`, already pointing at them, is linked in. */
    method LinkBetween(a: ListItem<T>, x: ListItem<T>, b: ListItem<T>, ghost k: nat)
      requires Valid() && k + 1 < |items| && items[k] == a && items[k + 1] == b
      requires x !in items && x.prev == a && x.next == b
      modifies this`items, a`next, b`prev
      ensures Valid()
      ensures items == old(items)[..k + 1] + [x] + old(items)[k + 1..]
    {
      ghost var s := items;
      b.prev := x;
      a.next := x;
      items := items[..k + 1] + [x] + items[k + 1..];
      InsertedAt(s, k + 1, x);
      assert ForwardLinked() by {
        forall i | 0 < i < |items|
          ensures items[i - 1].next == items[i]
        {
          if i <= k {
            assert s[i - 1] != a;
          } else if i > k + 2 {
            assert s[i - 2] != a;
          }
        }
      }
      assert BackwardLinked() by {
        forall i | 0 < i < |items|
          ensures items[i].prev == items[i - 1]
        {
          if i <= k {
            assert s[i] != b;
          } else if i > k + 2 {
            assert s[i - 1] != b;
          }
        }
      }
    }

    /**
     * `remove` as written: the walk from `head` no longer meets the `k`-th
     * item, but the backward links are left broken when the head of a list
     * of two or more is removed (the new head keeps its `prev`) and when the
     * tail of a list of three or more is removed (`tail` stays on it).
     */
    method Remove(node: ListItem<T>, ghost k: nat)
      requires Valid() && k < |items| && items[k] == node
      modifies this, items`next, items`prev
      ensures items == old(items)[..k] + old(items)[k + 1..]
      ensures Distinct() && ForwardLinked() && PrevLinked()
      ensures TailLinked() <==> !(k == |old(items)| - 1 && |old(items)| >= 3)
      ensures items != [] ==> (items[0].prev == null <==> !(k == 0 && |old(items)| >= 2))
      ensures BackwardLinked() <==> !((k == 0 && |old(items)| >= 2) || (k == |old(items)| - 1 && |old(items)| >= 3))
      ensures k == 0 && |old(items)| >= 2 ==> head == old(items)[1] && head.prev == node
      ensures k == |old(items)| - 1 && |old(items)| >= 3 ==> tail == node
    {
      ghost var s := items;
      Neighbours(k);
      var p := node.prev;
      var n := node.next;
      if p != null {
        if n != null {
          UnlinkBetween(p, n, k);
        } else {
          UnlinkLast(p, k);
        }
      } else {
        UnlinkFirst(node);
      }
    }

    /** The arm of `remove` for the last item: its `prev` loses its `next`, and `sync_tail` repairs only a one-item list. */
    method UnlinkLast(p: ListItem<T>, ghost k: nat)
      requires Valid() && 0 < k == |items| - 1 && items[k - 1] == p
      modifies this, p`next
      ensures items == old(items)[..k]
      ensures Distinct() && ForwardLinked() && PrevLinked() && items[0].prev == null
      ensures TailLinked() <==> k < 2
      ensures BackwardLinked() <==> k < 2
      ensures k >= 2 ==> tail == old(tail)
    {
      ghost var s := items;
      p.next := null;
      items := items[..k];
      if k >= 2 {
        assert s[0] != p;
        assert s[0].next == s[1];
      }
      SyncTail();
      if k >= 2 {
        assert tail == s[k] && items[|items| - 1] == s[k - 1] != s[k];
      }
    }

    /** The arm of `remove` for the first item: `head` moves on, and `sync_tail` repairs only a list left with one item or none. */
    method UnlinkFirst(node: ListItem<T>)
      requires Valid() && items != [] && items[0] == node
      modifies this
      ensures items == old(items)[1..]
      ensures Distinct() && ForwardLinked() && PrevLinked() && TailLinked()
      ensures items != [] ==> (items[0].prev == null <==> |old(items)| < 2)
      ensures BackwardLinked() <==> |old(items)| < 2
      ensures |old(items)| >= 2 ==> head == old(items)[1] && head.prev == node
    {
      Neighbours(0);
      if |items| > 2 {
        Neighbours(1);
      }
      head := node.next;
      items := items[1..];
      SyncTail();
    }

    /** The `k`-th item's neighbours are the items before and after it. */
    lemma Neighbours(k: nat)
      requires Valid() && k < |items|
      ensures items[k].prev == if k == 0 then null else items[k - 1]
      ensures items[k].next == if k == |items| - 1 then null else items[k + 1]
    {
      if k > 0 {
        assert items[k].prev == items[k - 1];
      }
      if k < |items| - 1 {
        assert items[k + 1 - 1].next == items[k + 1];
      }
    }

    /** Both arms of `remove` for an item with two neighbours: they are joined to each other. */
    method UnlinkBetween(p: ListItem<T>, n: ListItem<T>, ghost k: nat)
      requires Valid() && 0 < k < |items| - 1 && items[k - 1] == p && items[k + 1] == n
      modifies this`items, p`next, n`prev
      ensures Valid()
      ensures items == old(items)[..k] + old(items)[k + 1..]
    {
      ghost var s := items;
      p.next := n;
      n.prev := p;
      items := items[..k] + items[k + 1..];
      RemovedAt(s, k);
      assert ForwardLinked() by {
        forall i | 0 < i < |items|
          ensures items[i - 1].next == items[i]
        {
          if i < k {
            assert s[i - 1] != p;
          } else if i > k {
            assert s[i] != p;
          }
        }
      }
      assert BackwardLinked() by {
        forall i | 0 < i < |items|
          ensures items[i].prev == items[i - 1]
        {
          if i < k {
            assert s[i] != n;
          } else if i > k {
            assert s[i + 1] != n;
          }
        }
      }
    }

    /** `remove` with the backward links repaired: the new head loses its `prev`, and a removed tail hands `tail` to its `prev`. */
    method RemoveRepaired(node: ListItem<T>, ghost k: nat)
      requires Valid() && k < |items| && items[k] == node
      modifies this, items`next, items`prev
      ensures Valid()
      ensures items == old(items)[..k] + old(items)[k + 1..]
    {
      ghost var s := items;
      Neighbours(k);
      var p := node.prev;
      var n := node.next;
      if p != null {
        if n != null {
          UnlinkBetween(p, n, k);
        } else {
          DropLast(p, k);
          assert s[..k] + s[k + 1..] == items;
        }
      } else if n != null {
        DropFirst(node, n);
        assert s[..k] + s[k + 1..] == items;
      } else {
        head := null;
        tail := null;
        items := [];
      }
    }

    /** The repaired arm for the last of two or more items: its `prev` loses its `next` and becomes the tail. */
    method DropLast(p: ListItem<T>, ghost k: nat)
      requires Valid() && 0 < k == |items| - 1 && items[k - 1] == p
      modifies this, p`next
      ensures Valid()
      ensures items == old(items)[..k]
    {
      ghost var s := items;
      p.next := null;
      tail := p;
      items := items[..k];
      forall i | 0 < i < |items|
        ensures items[i - 1].next == items[i]
      {
        assert s[i - 1] != p;
      }
    }

    /** The repaired arm for the first of two or more items: `head` moves on to `n`, which loses its `prev`. */
    method DropFirst(node: ListItem<T>, n: ListItem<T>)
      requires Valid() && 1 < |items| && items[0] == node && items[1] == n
      modifies this, n`prev
      ensures Valid()
      ensures items == old(items)[1..]
    {
      ghost var s := items;
      head := n;
      n.prev := null;
      items := items[1..];
      forall i | 0 < i < |items|
        ensures items[i].prev == items[i - 1]
      {
        assert s[i + 1] != n;
      }
    }
  }
}
