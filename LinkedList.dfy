/** The doubly linked list of LinkedList.ts. The nodes from head to tail are
    the ghost sequence `Nodes`, and `Contents()` their values; `Valid` is the
    link invariant, which also makes the source's "Missing head" and
    "Missing tail" errors unreachable. */
module LinkedLists {
  import opened Ordering

  /** The values held by `nodes`, in order. */
  function Values<T>(nodes: seq<ListNode<T>>): (values: seq<T>)
    ensures |values| == |nodes|
    ensures forall i :: 0 <= i < |nodes| ==> values[i] == nodes[i].value
  {
    seq(|nodes|, i requires 0 <= i < |nodes| => nodes[i].value)
  }

  lemma ValuesPrepend<T>(node: ListNode<T>, nodes: seq<ListNode<T>>)
    ensures Values([node] + nodes) == [node.value] + Values(nodes)
  {
  }

  lemma ValuesAppend<T>(nodes: seq<ListNode<T>>, node: ListNode<T>)
    ensures Values(nodes + [node]) == Values(nodes) + [node.value]
  {
  }

  class ListNode<T> {
    const value: T
    var previous: ListNode?<T>
    var next: ListNode?<T>

    constructor (value: T, previous: ListNode?<T>, next: ListNode?<T>)
      ensures this.value == value && this.previous == previous && this.next == next
    {
      this.value := value;
      this.next := next;
      this.previous := previous;
    }
  }

  class LinkedList<T> {
    var size: nat
    var head: ListNode?<T>
    var tail: ListNode?<T>
    /** The nodes from head to tail. */
    ghost var Nodes: seq<ListNode<T>>

    /** The values from head to tail. */
    ghost function Contents(): (values: seq<T>)
      reads this
      ensures |values| == |Nodes|
    {
      Values(Nodes)
    }

    /** `next` and `previous` are mutual inverses along `Nodes`, the ends
        hold null, `head`/`tail` are the first and last node (both null
        exactly when the list is empty) and `size` counts the nodes. */
    ghost predicate Valid()
      reads this, Nodes
    {
      && size == |Nodes|
      && (Nodes == [] ==> head == null && tail == null)
      && (Nodes != [] ==>
            && head == Nodes[0] && head.previous == null
            && tail == Nodes[|Nodes| - 1] && tail.next == null)
      && (forall i, j :: 0 <= i < j < |Nodes| ==> Nodes[i] != Nodes[j])
      && (forall i, j :: 0 <= i && j == i + 1 && j < |Nodes| ==>
            Nodes[i].next == Nodes[j] && Nodes[j].previous == Nodes[i])
    }

    /** `new LinkedList(...items)` pushes the items in order. */
    constructor (items: seq<T>)
      ensures Valid() && (forall i :: 0 <= i < |Nodes| ==> fresh(Nodes[i]))
      ensures Contents() == items
    {
      size := 0;
      head := null;
      tail := null;
      Nodes := [];
      new;
      for i := 0 to |items|
        invariant Valid() && (forall i :: 0 <= i < |Nodes| ==> fresh(Nodes[i]))
        invariant Contents() == items[..i]
      {
        var _ := Push(items[i]);
        assert items[..i + 1] == items[..i] + [items[i]];
      }
      assert items[..|items|] == items;
    }

    /** Appends `item` at the tail and returns the new size. */
    method Push(item: T) returns (length: nat)
      requires Valid()
      modifies this, Nodes
      ensures Valid() && |Nodes| == |old(Nodes)| + 1
      ensures Nodes[..|Nodes| - 1] == old(Nodes) && fresh(Nodes[|Nodes| - 1])
      ensures Contents() == old(Contents()) + [item]
      ensures length == size == |Contents()|
    {
      size := size + 1;
      var node := new ListNode(item, null, null);
      assert forall i :: 0 <= i < |Nodes| ==> Nodes[i] != node;
      if head == null && tail == null {
        head := node;
        tail := node;
      } else {
        if head == null {
          assert false;
        }
        if head == tail {
          head.next := node;
          tail := node;
          tail.previous := head;
        } else {
          if tail == null {
            assert false;
          }
          assert forall i :: 0 <= i < |Nodes| - 1 ==> Nodes[i] != tail;
          tail.next := node;
          node.previous := tail;
          tail := node;
        }
      }
      ValuesAppend(Nodes, node);
      Nodes := Nodes + [node];
      return size;
    }

    /** Prepends `item` at the head. The new size is returned only when the
        list held at most one element; otherwise the result is undefined. */
    method Unshift(item: T) returns (length: Option<nat>)
      requires Valid()
      modifies this, Nodes
      ensures Valid() && |Nodes| == |old(Nodes)| + 1
      ensures Nodes[1..] == old(Nodes) && fresh(Nodes[0])
      ensures Contents() == [item] + old(Contents()) && size == |Contents()|
      ensures |old(Contents())| <= 1 ==> length == Some(size)
      ensures |old(Contents())| > 1 ==> length == None
    {
      size := size + 1;
      var node := new ListNode(item, null, null);
      assert forall i :: 0 <= i < |Nodes| ==> Nodes[i] != node;
      if head == null {
        head := node;
        tail := node;
        length := Some(size);
      } else if head == tail {
        tail.previous := node;
        node.next := tail;
        head := node;
        length := Some(size);
      } else {
        assert forall i :: 0 < i < |Nodes| ==> Nodes[i] != Nodes[0];
        head.previous := node;
        node.next := head;
        head := node;
        length := None;
      }
      ValuesPrepend(node, Nodes);
      Nodes := [node] + Nodes;
    }

    /** `unshift` as `push` behaves and as its callers would expect: it
        prepends `item` and always returns the new size. */
    method UnshiftCounted(item: T) returns (length: nat)
      requires Valid()
      modifies this, Nodes
      ensures Valid() && |Nodes| == |old(Nodes)| + 1
      ensures Nodes[1..] == old(Nodes) && fresh(Nodes[0])
      ensures Contents() == [item] + old(Contents())
      ensures length == size == |Contents()| == |old(Contents())| + 1
    {
      var _ := Unshift(item);
      length := size;
    }

    /** Removes and returns the head value; an empty list is left as is. */
    method Shift() returns (result: Option<T>)
      requires Valid()
      modifies this, Nodes
      ensures Valid() && (old(Nodes) == [] ==> Nodes == []) && (old(Nodes) != [] ==> Nodes == old(Nodes)[1..])
      ensures old(Contents()) == [] ==> result == None && Contents() == [] && size == old(size)
      ensures old(Contents()) != [] ==>
        result == Some(old(Contents())[0]) && Contents() == old(Contents())[1..] && size == old(size) - 1
    {
      if head == null {
        return None;
      }
      size := size - 1;
      var node := head;
      if head == tail {
        head := null;
        tail := null;
        Nodes := [];
        return Some(node.value);
      }
      assert |Nodes| > 1 && node.next == Nodes[1];
      head := node.next;
      head.previous := null;
      Nodes := Nodes[1..];
      return Some(node.value);
    }

    /** Removes and returns the tail value; an empty list is left as is. */
    method Pop() returns (result: Option<T>)
      requires Valid()
      modifies this, Nodes
      ensures Valid() && (old(Nodes) == [] ==> Nodes == []) && (old(Nodes) != [] ==> Nodes == old(Nodes)[..|old(Nodes)| - 1])
      ensures old(Contents()) == [] ==> result == None && Contents() == [] && size == old(size)
      ensures old(Contents()) != [] ==>
        && result == Some(old(Contents())[|old(Contents())| - 1])
        && Contents() == old(Contents())[..|old(Contents())| - 1]
        && size == old(size) - 1
    {
      if tail == null {
        return None;
      }
      size := size - 1;
      var node := tail;
      if head == tail {
        head := null;
        tail := null;
        Nodes := [];
        return Some(node.value);
      }
      assert |Nodes| > 1 && node.previous == Nodes[|Nodes| - 2];
      tail := node.previous;
      tail.next := null;
      Nodes := Nodes[..|Nodes| - 1];
      return Some(node.value);
    }

    /** The head value, or None on an empty list. */
    function PeekLeft(): (v: Option<T>)
      requires Valid()
      reads this, Nodes
      ensures v.None? <==> Contents() == []
      ensures v.Some? ==> v.value == Contents()[0]
    {
      if head == null then None else Some(head.value)
    }

    /** The tail value, or None on an empty list. */
    function PeekRight(): (v: Option<T>)
      requires Valid()
      reads this, Nodes
      ensures v.None? <==> Contents() == []
      ensures v.Some? ==> v.value == Contents()[|Contents()| - 1]
    {
      if tail == null then None else Some(tail.value)
    }

    /** The iterator: follows `next` links from the head, yielding values. */
    method Items() returns (items: seq<T>)
      requires Valid()
      ensures items == Contents()
    {
      items := [];
      var current := head;
      ghost var i := 0;
      while current != null
        invariant 0 <= i <= |Nodes|
        invariant current == (if i < |Nodes| then Nodes[i] else null)
        invariant items == Contents()[..i]
        decreases |Nodes| - i
      {
        items := items + [current.value];
        current := current.next;
        i := i + 1;
      }
      assert Contents()[..|Nodes|] == Contents();
    }
  }

  /** The documented session: items 1, 2, 3 iterate in order; `pop` gives 3,
      `shift` gives 1; pushing 3 and unshifting 1 restores 1, 2, 3, and that
      `unshift` (onto two elements) returns undefined. */
  method DocumentedSession() returns (items: seq<int>, popped: Option<int>, shifted: Option<int>,
                                      unshifted: Option<nat>, after: seq<int>)
    ensures items == [1, 2, 3] && popped == Some(3) && shifted == Some(1)
    ensures unshifted == None && after == [1, 2, 3]
  {
    var list := new LinkedList<int>([1, 2, 3]);
    items := list.Items();
    popped := list.Pop();
    shifted := list.Shift();
    assert list.Contents() == [2];
    var _ := list.Push(3);
    unshifted := list.Unshift(1);
    after := list.Items();
  }
}
