/** The array-backed binary heap (Heap.ts) with its two variants MinHeap.ts
    and MaxHeap.ts. The variant is a `Direction` constant of the heap; the
    comparison hooks `Comparer` and `NextChild` follow the variant's code. */
module Heaps {
  import opened Ordering

  /** Index of the parent of node `i` in the complete binary tree. */
  function Parent(i: nat): (p: nat)
    requires i > 0
    ensures p < i
    ensures i == 2 * p + 1 || i == 2 * p + 2
  {
    (i - 1) / 2
  }

  /** JavaScript's `x >>> 1`: ToUint32, then a logical shift by one bit. */
  function ShiftRight1(x: int): nat
  {
    (x % 0x1_0000_0000) / 2
  }

  /** For every index a JavaScript array can have, the source's `(curr - 1) >>> 1` is the parent. */
  lemma ParentIndexIsShift(curr: nat)
    requires 0 < curr < 0x1_0000_0000
    ensures ShiftRight1(curr - 1) == Parent(curr)
    ensures ShiftRight1(curr - 1) < curr
  {
  }

  /** The heap order: every node may stand before each of its children. */
  ghost predicate IsHeap<T>(d: Direction, key: T -> int, s: seq<T>)
  {
    forall i :: 0 < i < |s| ==> AtLeastAsExtreme(d, key(s[Parent(i)]), key(s[i]))
  }

  /** Sift-up state: the order holds except between `c` and its parent, and
      `c`'s parent may stand before `c`'s children. */
  ghost predicate HeapExceptUp<T>(d: Direction, key: T -> int, s: seq<T>, c: nat)
  {
    && (forall i :: 0 < i < |s| && i != c ==> AtLeastAsExtreme(d, key(s[Parent(i)]), key(s[i])))
    && (forall i :: 0 < i < |s| && c > 0 && Parent(i) == c ==>
          AtLeastAsExtreme(d, key(s[Parent(c)]), key(s[i])))
  }

  /** Sift-down state: the order holds except between `c` and its children, and
      `c`'s parent may stand before `c`'s children. */
  ghost predicate HeapExceptDown<T>(d: Direction, key: T -> int, s: seq<T>, c: nat)
  {
    && (forall i :: 0 < i < |s| && Parent(i) != c ==> AtLeastAsExtreme(d, key(s[Parent(i)]), key(s[i])))
    && (forall i :: 0 < i < |s| && c > 0 && Parent(i) == c ==>
          AtLeastAsExtreme(d, key(s[Parent(c)]), key(s[i])))
  }

  /** `s` with the elements at `i` and `j` exchanged. */
  function Swapped<T>(s: seq<T>, i: nat, j: nat): (t: seq<T>)
    requires i < |s| && j < |s|
    ensures |t| == |s| && t[i] == s[j] && t[j] == s[i]
    ensures forall k :: 0 <= k < |s| && k != i && k != j ==> t[k] == s[k]
    ensures multiset(t) == multiset(s)
  {
    s[i := s[j]][j := s[i]]
  }

  /** In a heap the root may stand before every element. */
  lemma {:induction false} RootIsExtreme<T>(d: Direction, key: T -> int, s: seq<T>, i: nat)
    requires IsHeap(d, key, s) && i < |s|
    ensures AtLeastAsExtreme(d, key(s[0]), key(s[i]))
    decreases i
  {
    if i > 0 {
      RootIsExtreme(d, key, s, Parent(i));
    }
  }

  lemma RootPrecedesAll<T>(d: Direction, key: T -> int, s: seq<T>)
    requires IsHeap(d, key, s) && s != []
    ensures forall x | x in s :: AtLeastAsExtreme(d, key(s[0]), key(x))
  {
    forall x | x in s
      ensures AtLeastAsExtreme(d, key(s[0]), key(x))
    {
      var i :| 0 <= i < |s| && s[i] == x;
      RootIsExtreme(d, key, s, i);
    }
  }

  /** One swap of the sift-up loop moves the single violation one level up. */
  lemma SiftUpStep<T>(d: Direction, key: T -> int, s: seq<T>, c: nat)
    requires 0 < c < |s|
    requires HeapExceptUp(d, key, s, c)
    requires MoreExtreme(d, key(s[c]), key(s[Parent(c)]))
    ensures HeapExceptUp(d, key, Swapped(s, c, Parent(c)), Parent(c))
  {
    var p := Parent(c);
    var t := Swapped(s, c, p);
    forall i | 0 < i < |t| && i != p
      ensures AtLeastAsExtreme(d, key(t[Parent(i)]), key(t[i]))
    {
      if i == c {
      } else if Parent(i) == c {
        assert t[i] == s[i];
      } else if Parent(i) == p {
        assert t[i] == s[i];
        assert AtLeastAsExtreme(d, key(s[p]), key(s[i]));
      } else {
        assert t[i] == s[i] && t[Parent(i)] == s[Parent(i)];
      }
    }
    forall i | 0 < i < |t| && p > 0 && Parent(i) == p
      ensures AtLeastAsExtreme(d, key(t[Parent(p)]), key(t[i]))
    {
      assert t[Parent(p)] == s[Parent(p)];
      assert AtLeastAsExtreme(d, key(s[Parent(p)]), key(s[p]));
      if i != c {
        assert t[i] == s[i];
        assert AtLeastAsExtreme(d, key(s[p]), key(s[i]));
      }
    }
  }

  /** Every child of `c` may stand after the element at `m`. */
  ghost predicate ChildrenFollow<T>(d: Direction, key: T -> int, s: seq<T>, c: nat, m: nat)
    requires m < |s|
  {
    forall i :: 0 < i < |s| && Parent(i) == c ==> AtLeastAsExtreme(d, key(s[m]), key(s[i]))
  }

  /** A child that may stand before both children of `c` leads all of them. */
  lemma ChosenChildLeads<T>(d: Direction, key: T -> int, s: seq<T>, c: nat, m: nat)
    requires 2 * c + 1 < |s| && m < |s|
    requires AtLeastAsExtreme(d, key(s[m]), key(s[2 * c + 1]))
    requires 2 * c + 2 < |s| ==> AtLeastAsExtreme(d, key(s[m]), key(s[2 * c + 2]))
    ensures ChildrenFollow(d, key, s, c, m)
  {
  }

  /** If `c` may stand before the leading child, it leads all of its children. */
  lemma ParentLeadsChildren<T>(d: Direction, key: T -> int, s: seq<T>, c: nat, m: nat)
    requires c < |s| && m < |s|
    requires ChildrenFollow(d, key, s, c, m)
    requires AtLeastAsExtreme(d, key(s[c]), key(s[m]))
    ensures ChildrenFollow(d, key, s, c, c)
  {
  }

  /** Sift-down stops with a heap once `c` may stand before its children. */
  lemma SiftDownDone<T>(d: Direction, key: T -> int, s: seq<T>, c: nat)
    requires HeapExceptDown(d, key, s, c)
    requires c < |s| ==> ChildrenFollow(d, key, s, c, c)
    requires c >= |s| ==> c == 0
    ensures IsHeap(d, key, s)
  {
  }

  /** One swap of the sift-down loop moves the single violation one level down. */
  lemma SiftDownStep<T>(d: Direction, key: T -> int, s: seq<T>, c: nat, m: nat)
    requires c < m < |s| && Parent(m) == c
    requires HeapExceptDown(d, key, s, c)
    requires MoreExtreme(d, key(s[m]), key(s[c]))
    requires ChildrenFollow(d, key, s, c, m)
    ensures HeapExceptDown(d, key, Swapped(s, m, c), m)
  {
    var t := Swapped(s, m, c);
    forall i | 0 < i < |t| && Parent(i) != m
      ensures AtLeastAsExtreme(d, key(t[Parent(i)]), key(t[i]))
    {
      if i == m {
      } else if Parent(i) == c {
        assert t[i] == s[i];
      } else if i == c {
        assert t[Parent(c)] == s[Parent(c)];
      } else {
        assert t[i] == s[i] && t[Parent(i)] == s[Parent(i)];
      }
    }
    forall i | 0 < i < |t| && m > 0 && Parent(i) == m
      ensures AtLeastAsExtreme(d, key(t[Parent(m)]), key(t[i]))
    {
      assert t[i] == s[i];
    }
  }

  /** A binary heap over `storage`, ordered by the keys `extractor` gives. */
  class Heap<T> {
    const direction: Direction
    const extractor: T -> int
    var storage: seq<T>

    constructor (direction: Direction, extractor: T -> int)
      ensures this.direction == direction && this.extractor == extractor
      ensures storage == [] && Valid()
    {
      this.direction := direction;
      this.extractor := extractor;
      storage := [];
    }

    ghost predicate Valid()
      reads this
    {
      IsHeap(direction, extractor, storage)
    }

    function Length(): (n: nat)
      reads this
      ensures n == |storage|
    {
      |storage|
    }

    /** `extract`: the key of a value, as the extractor gives it. */
    function Extract(value: T): (key: int)
      ensures key == extractor(value)
    {
      extractor(value)
    }

    /** The variant's "no swap needed" test: the element at `index2` may stand
        before the element at `index1` (MinHeap.ts `>=`, MaxHeap.ts `<=`). */
    function Comparer(index1: nat, index2: nat): (holds: bool)
      reads this
      requires index1 < |storage| && index2 < |storage|
      ensures holds <==> AtLeastAsExtreme(direction, Extract(storage[index2]), Extract(storage[index1]))
    {
      match direction
      case Min => Extract(storage[index1]) >= Extract(storage[index2])
      case Max => Extract(storage[index1]) <= Extract(storage[index2])
    }

    /** The variant's child choice: the right child only when it exists and is
        strictly more extreme than the left one, otherwise the left child. */
    function NextChild(left: nat, right: nat): (child: nat)
      reads this
      requires left < |storage|
      ensures child == left || child == right
      ensures child < |storage|
      ensures child == right && right != left ==> MoreExtreme(direction, Extract(storage[right]), Extract(storage[left]))
      ensures AtLeastAsExtreme(direction, Extract(storage[child]), Extract(storage[left]))
      ensures right < |storage| ==> AtLeastAsExtreme(direction, Extract(storage[child]), Extract(storage[right]))
    {
      match direction
      case Min =>
        if right < |storage| && Extract(storage[right]) < Extract(storage[left]) then right else left
      case Max =>
        if right < |storage| && Extract(storage[right]) > Extract(storage[left]) then right else left
    }

    method Swap(index1: nat, index2: nat)
      requires index1 < |storage| && index2 < |storage|
      modifies this
      ensures storage == Swapped(old(storage), index1, index2)
    {
      storage := storage[index1 := storage[index2]][index2 := storage[index1]];
    }

    /** Appends `value` and sifts it up. */
    method Push(value: T)
      requires Valid()
      modifies this
      ensures Valid()
      ensures |storage| == |old(storage)| + 1
      ensures multiset(storage) == multiset(old(storage)) + multiset{value}
    {
      storage := storage + [value];
      var curr: nat := Length() - 1;
      while curr > 0
        invariant curr < |storage| == |old(storage)| + 1
        invariant multiset(storage) == multiset(old(storage)) + multiset{value}
        invariant HeapExceptUp(direction, extractor, storage, curr)
        decreases curr
      {
        var parent := Parent(curr);
        if Comparer(curr, parent) {
          break;
        }
        SiftUpStep(direction, extractor, storage, curr);
        Swap(curr, parent);
        curr := parent;
      }
    }

    /** Removes and returns the root, or None on an empty heap. */
    method Pop() returns (result: Option<T>)
      requires Valid()
      modifies this
      ensures Valid()
      ensures old(storage) == [] ==> result == None && storage == []
      ensures old(storage) != [] ==>
        && result == Some(old(storage)[0])
        && |storage| == |old(storage)| - 1
        && multiset(storage) == multiset(old(storage)) - multiset{old(storage)[0]}
      ensures result.Some? ==> forall x | x in old(storage) :: AtLeastAsExtreme(direction, Extract(result.value), Extract(x))
      ensures result.Some? ==> forall x | x in storage :: AtLeastAsExtreme(direction, Extract(result.value), Extract(x))
    {
      if |storage| == 0 {
        return None;
      }
      ghost var before := storage;
      RootPrecedesAll(direction, extractor, before);
      var n := Length() - 1;
      Swap(0, n);
      var value := storage[n];
      assert storage == storage[..n] + [value];
      storage := storage[..n];
      SiftDown();
      result := Some(value);
      forall x | x in storage
        ensures x in before
      {
        assert x in multiset(storage);
      }
    }

    /** The sift-down loop of `pop`, started at the root. */
    method SiftDown()
      requires HeapExceptDown(direction, extractor, storage, 0)
      modifies this
      ensures Valid()
      ensures |storage| == |old(storage)|
      ensures multiset(storage) == multiset(old(storage))
    {
      var curr: nat := 0;
      var left := 2 * curr + 1;
      while left < Length()
        invariant curr < |storage| || curr == 0
        invariant left == 2 * curr + 1
        invariant |storage| == |old(storage)|
        invariant multiset(storage) == multiset(old(storage))
        invariant HeapExceptDown(direction, extractor, storage, curr)
        decreases |storage| - curr
      {
        var child := NextChild(left, left + 1);
        ChosenChildLeads(direction, extractor, storage, curr, child);
        if Comparer(child, curr) {
          ParentLeadsChildren(direction, extractor, storage, curr, child);
          break;
        }
        SiftDownStep(direction, extractor, storage, curr, child);
        Swap(child, curr);
        curr := child;
        left := 2 * curr + 1;
      }
      SiftDownDone(direction, extractor, storage, curr);
    }
  }

  /** Keys along `s` never become more extreme: non-decreasing for Min,
      non-increasing for Max. */
  ghost predicate InOrder<T>(d: Direction, key: T -> int, s: seq<T>)
  {
    forall i, j :: 0 <= i < j < |s| ==> AtLeastAsExtreme(d, key(s[i]), key(s[j]))
  }

  /** A caller that pops until the heap is empty receives every element
      once, in heap order. */
  method PopAll<T>(heap: Heap<T>) returns (popped: seq<T>)
    requires heap.Valid()
    modifies heap
    ensures heap.Valid() && heap.storage == []
    ensures multiset(popped) == multiset(old(heap.storage))
    ensures InOrder(heap.direction, heap.extractor, popped)
  {
    popped := [];
    while heap.Length() > 0
      invariant heap.Valid()
      invariant multiset(popped) + multiset(heap.storage) == multiset(old(heap.storage))
      invariant InOrder(heap.direction, heap.extractor, popped)
      invariant forall i, x | 0 <= i < |popped| && x in heap.storage ::
        AtLeastAsExtreme(heap.direction, heap.extractor(popped[i]), heap.extractor(x))
      decreases |heap.storage|
    {
      ghost var before := heap.storage;
      var v := heap.Pop();
      forall x | x in heap.storage
        ensures x in before
      {
        assert x in multiset(heap.storage);
      }
      popped := popped + [v.value];
    }
    assert heap.storage == [];
  }

  /** Two orderings of the same numbers that are both in `d`'s order are equal. */
  lemma {:induction false} InOrderIsUnique(d: Direction, a: seq<int>, b: seq<int>)
    requires InOrder(d, Identity, a) && InOrder(d, Identity, b)
    requires multiset(a) == multiset(b)
    ensures a == b
  {
    if a != [] {
      HeadsAgree(d, a, b);
      SplitHead(a);
      SplitHead(b);
      InOrderTail(d, Identity, a);
      InOrderTail(d, Identity, b);
      InOrderIsUnique(d, a[1..], b[1..]);
      assert a == [a[0]] + a[1..] && b == [b[0]] + b[1..];
    }
  }

  lemma HeadsAgree(d: Direction, a: seq<int>, b: seq<int>)
    requires InOrder(d, Identity, a) && InOrder(d, Identity, b)
    requires multiset(a) == multiset(b) && a != []
    ensures b != [] && a[0] == b[0]
  {
    assert |b| == |multiset(b)| == |a| > 0;
    assert a[0] in multiset(b) && b[0] in multiset(a);
    var j :| 0 <= j < |b| && b[j] == a[0];
    var i :| 0 <= i < |a| && a[i] == b[0];
    assert AtLeastAsExtreme(d, b[0], a[0]) by {
      if j > 0 { assert AtLeastAsExtreme(d, Identity(b[0]), Identity(b[j])); }
    }
    assert AtLeastAsExtreme(d, a[0], b[0]) by {
      if i > 0 { assert AtLeastAsExtreme(d, Identity(a[0]), Identity(a[i])); }
    }
  }

  lemma SplitHead(s: seq<int>)
    requires s != []
    ensures multiset(s[1..]) == multiset(s) - multiset{s[0]}
  {
    assert s == [s[0]] + s[1..];
  }

  lemma InOrderTail<T>(d: Direction, key: T -> int, s: seq<T>)
    requires InOrder(d, key, s) && s != []
    ensures InOrder(d, key, s[1..])
  {
    forall i, j | 0 <= i < j < |s| - 1
      ensures AtLeastAsExtreme(d, key(s[1..][i]), key(s[1..][j]))
    {
      assert s[1..][i] == s[i + 1] && s[1..][j] == s[j + 1];
    }
  }

  lemma FourInOrder(d: Direction, w: int, x: int, y: int, z: int)
    requires AtLeastAsExtreme(d, w, x) && AtLeastAsExtreme(d, x, y) && AtLeastAsExtreme(d, y, z)
    ensures InOrder(d, Identity, [w, x, y, z])
  {
  }

  /** Pushing 5, 3, 8, 1 into a MinHeap pops them as 1, 3, 5, 8. */
  method MinHeapPopsAscending() returns (popped: seq<int>)
    ensures popped == [1, 3, 5, 8]
  {
    var heap := PushFiveThreeEightOne(Min);
    popped := PopAll(heap);
    assert multiset([1, 3, 5, 8]) == multiset{1, 3, 5, 8};
    FourInOrder(Min, 1, 3, 5, 8);
    InOrderIsUnique(Min, popped, [1, 3, 5, 8]);
  }

  /** Pushing 5, 3, 8, 1 into a MaxHeap pops them as 8, 5, 3, 1. */
  method MaxHeapPopsDescending() returns (popped: seq<int>)
    ensures popped == [8, 5, 3, 1]
  {
    var heap := PushFiveThreeEightOne(Max);
    popped := PopAll(heap);
    assert multiset([8, 5, 3, 1]) == multiset{1, 3, 5, 8};
    FourInOrder(Max, 8, 5, 3, 1);
    InOrderIsUnique(Max, popped, [8, 5, 3, 1]);
  }

  /** Popping an empty heap gives None and leaves it empty. */
  method PopEmptyHeap() returns (r: Option<int>, length: nat)
    ensures r == None && length == 0
  {
    var heap := new Heap<int>(Min, Identity);
    r := heap.Pop();
    length := heap.Length();
  }

  /** A fresh heap of numbers after pushing 5, 3, 8 and 1. */
  method PushFiveThreeEightOne(d: Direction) returns (heap: Heap<int>)
    ensures fresh(heap) && heap.Valid()
    ensures heap.direction == d && heap.extractor == Identity
    ensures multiset(heap.storage) == multiset{1, 3, 5, 8}
  {
    heap := new Heap<int>(d, Identity);
    heap.Push(5);
    heap.Push(3);
    heap.Push(8);
    heap.Push(1);
  }

  /** A MinHeap of records pops the one with the least `id` first. */
  method MinHeapOrdersRecordsById() returns (first: Option<Person>)
    ensures first == Some(Person(1, "Jeff"))
  {
    var jeff, steve, dave := Person(1, "Jeff"), Person(2, "Steve"), Person(3, "Dave");
    var heap := new Heap<Person>(Min, (p: Person) => p.id);
    heap.Push(jeff);
    heap.Push(steve);
    heap.Push(dave);
    ghost var before := heap.storage;
    assert multiset(before) == multiset{steve, jeff, dave};
    assert jeff in before && before[0] in multiset(before);
    first := heap.Pop();
  }

  /** A MaxHeap of records pops the one with the greatest `id` first. */
  method MaxHeapOrdersRecordsById() returns (first: Option<Person>)
    ensures first == Some(Person(3, "Jeff"))
  {
    var jeff, steve, dave := Person(3, "Jeff"), Person(2, "Steve"), Person(1, "Dave");
    var heap := new Heap<Person>(Max, (p: Person) => p.id);
    heap.Push(jeff);
    heap.Push(steve);
    heap.Push(dave);
    ghost var before := heap.storage;
    assert multiset(before) == multiset{steve, jeff, dave};
    assert jeff in before && before[0] in multiset(before);
    first := heap.Pop();
  }
}
