/** The ID-keyed containers QuickList.ts, QuickQueue.ts and QuickStack.ts.
    Their `storage` is a JavaScript Map, whose entries keep insertion order:
    here a sequence of (ID, item) pairs with distinct IDs. The IDs come from
    a counter written in decimal, standing for the `AutoIncrementingID`
    generator; all that the containers rely on is that every ID it hands out
    is new and non-empty. */
module QuickLists {
  import opened Ordering

  /** The character of the decimal digit `d`. */
  function Digit(d: nat): (c: char)
    requires d < 10
    ensures '0' <= c <= '9'
  {
    (('0' as int) + d) as char
  }

  /** The number a decimal digit stands for (0 for any other character). */
  function DigitValue(c: char): nat
  {
    if '0' <= c <= '9' then (c as int) - ('0' as int) else 0
  }

  /** `n` written in decimal, the form of the IDs handed out. */
  function Decimal(n: nat): (s: string)
    ensures s != []
    decreases n
  {
    if n < 10 then [Digit(n)] else Decimal(n / 10) + [Digit(n % 10)]
  }

  /** The number a string of decimal digits stands for. */
  function Parse(s: string): nat
  {
    if s == [] then 0 else Parse(s[..|s| - 1]) * 10 + DigitValue(s[|s| - 1])
  }

  /** Reading back an ID gives the counter value it was made from, so no
      two counter values give the same ID. */
  lemma {:induction false} ParseDecimal(n: nat)
    ensures Parse(Decimal(n)) == n
    decreases n
  {
    if n >= 10 {
      var s := Decimal(n);
      ParseDecimal(n / 10);
      assert s[..|s| - 1] == Decimal(n / 10);
      assert DigitValue(s[|s| - 1]) == n % 10;
    }
  }

  type Entry<T> = (string, T)

  /** The IDs of `entries`, in insertion order (`storage.keys()`). */
  function Ids<T>(entries: seq<Entry<T>>): (ids: seq<string>)
    ensures |ids| == |entries|
    ensures forall i :: 0 <= i < |entries| ==> ids[i] == entries[i].0
  {
    seq(|entries|, i requires 0 <= i < |entries| => entries[i].0)
  }

  /** The items of `entries`, in insertion order. */
  function Items<T>(entries: seq<Entry<T>>): (items: seq<T>)
    ensures |items| == |entries|
    ensures forall i :: 0 <= i < |entries| ==> items[i] == entries[i].1
  {
    seq(|entries|, i requires 0 <= i < |entries| => entries[i].1)
  }

  /** No ID occurs twice: the entries form a Map. */
  ghost predicate DistinctIds<T>(entries: seq<Entry<T>>)
  {
    forall i, j :: 0 <= i < j < |entries| ==> entries[i].0 != entries[j].0
  }

  /** `storage.get(id)`: the item stored under `id`, or None. */
  function Lookup<T>(entries: seq<Entry<T>>, id: string): (item: Option<T>)
    ensures item.None? <==> id !in Ids(entries)
    ensures item.Some? ==> (id, item.value) in entries
  {
    if entries == [] then None
    else if entries[0].0 == id then Some(entries[0].1)
    else
      assert Ids(entries) == [entries[0].0] + Ids(entries[1..]);
      assert forall e :: e in entries[1..] ==> e in entries;
      Lookup(entries[1..], id)
  }

  /** The entries after `storage.delete(id)`: the one entry under `id` is
      gone, the others keep their order. */
  function Without<T>(entries: seq<Entry<T>>, id: string): (rest: seq<Entry<T>>)
    ensures id !in Ids(rest)
    ensures forall i :: 0 <= i < |rest| ==> rest[i] in entries && rest[i].0 != id
    ensures forall i :: 0 <= i < |entries| && entries[i].0 != id ==> entries[i] in rest
  {
    if entries == [] then []
    else
      assert forall i :: 0 < i < |entries| ==> entries[i] == entries[1..][i - 1];
      if entries[0].0 == id then Without(entries[1..], id)
      else [entries[0]] + Without(entries[1..], id)
  }

  /** Deleting `id` keeps the IDs distinct. */
  lemma {:induction false} WithoutDistinct<T>(entries: seq<Entry<T>>, id: string)
    requires DistinctIds(entries)
    ensures DistinctIds(Without(entries, id))
  {
    if entries != [] {
      WithoutDistinct(entries[1..], id);
      var rest := Without(entries[1..], id);
      forall j | 0 <= j < |rest|
        ensures rest[j].0 != entries[0].0
      {
        assert rest[j] in entries[1..];
        var k :| 0 <= k < |entries[1..]| && entries[1..][k] == rest[j];
        assert entries[k + 1] == rest[j];
      }
    }
  }

  /** After deleting `id`, nothing is found under it and every other ID
      finds what it found before. */
  lemma {:induction false} LookupWithout<T>(entries: seq<Entry<T>>, id: string, other: string)
    ensures Lookup(Without(entries, id), other) == if other == id then None else Lookup(entries, other)
  {
    if entries != [] {
      LookupWithout(entries[1..], id, other);
    }
  }

  /** Appending an entry under a new ID finds it there and leaves every
      other ID as it was. */
  lemma {:induction false} LookupAppend<T>(entries: seq<Entry<T>>, id: string, item: T, other: string)
    requires id !in Ids(entries)
    ensures Lookup(entries + [(id, item)], other) == if other == id then Some(item) else Lookup(entries, other)
  {
    if entries != [] {
      assert (entries + [(id, item)])[1..] == entries[1..] + [(id, item)];
      assert Ids(entries) == [entries[0].0] + Ids(entries[1..]);
      LookupAppend(entries[1..], id, item, other);
    }
  }

  /** With distinct IDs, deleting the first ID drops the first entry. */
  lemma {:induction false} WithoutFirst<T>(entries: seq<Entry<T>>)
    requires DistinctIds(entries) && entries != []
    ensures Without(entries, entries[0].0) == entries[1..]
  {
    WithoutAbsent(entries[1..], entries[0].0);
  }

  /** Deleting an ID that is not there changes nothing. */
  lemma {:induction false} WithoutAbsent<T>(entries: seq<Entry<T>>, id: string)
    requires id !in Ids(entries)
    ensures Without(entries, id) == entries
  {
    if entries != [] {
      assert Ids(entries) == [entries[0].0] + Ids(entries[1..]);
      WithoutAbsent(entries[1..], id);
    }
  }

  /** With distinct IDs, deleting the last ID drops the last entry. */
  lemma {:induction false} WithoutLast<T>(entries: seq<Entry<T>>)
    requires DistinctIds(entries) && entries != []
    ensures Without(entries, entries[|entries| - 1].0) == entries[..|entries| - 1]
  {
    var id := entries[|entries| - 1].0;
    if |entries| == 1 {
      assert Without(entries[1..], id) == [];
    } else {
      WithoutLast(entries[1..]);
      assert entries[1..][|entries| - 2] == entries[|entries| - 1];
      assert entries[1..][..|entries| - 2] == entries[1..|entries| - 1];
      assert entries[..|entries| - 1] == [entries[0]] + entries[1..|entries| - 1];
    }
  }

  /** The invariant of the ID-keyed storage: IDs are distinct, non-empty and
      each was made from a counter value already used. */
  ghost predicate Keyed<T>(entries: seq<Entry<T>>, issued: nat)
  {
    && DistinctIds(entries)
    && forall i :: 0 <= i < |entries| ==> entries[i].0 != [] && Parse(entries[i].0) < issued
  }

  /** The next ID is new to every storage kept by the invariant. */
  lemma NextIdIsNew<T>(entries: seq<Entry<T>>, issued: nat)
    requires Keyed(entries, issued)
    ensures Decimal(issued) !in Ids(entries)
  {
    ParseDecimal(issued);
  }

  /** Appending under the next ID keeps the invariant. */
  lemma AppendKeyed<T>(entries: seq<Entry<T>>, issued: nat, item: T)
    requires Keyed(entries, issued)
    ensures Keyed(entries + [(Decimal(issued), item)], issued + 1)
  {
    ParseDecimal(issued);
  }

  /** Deleting keeps the invariant. */
  lemma WithoutKeyed<T>(entries: seq<Entry<T>>, issued: nat, id: string)
    requires Keyed(entries, issued)
    ensures Keyed(Without(entries, id), issued)
  {
    WithoutDistinct(entries, id);
    var rest := Without(entries, id);
    forall i | 0 <= i < |rest|
      ensures rest[i].0 != [] && Parse(rest[i].0) < issued
    {
      assert rest[i] in entries;
    }
  }

  /** QuickList.ts with its subclass QuickQueue.ts: a Map from fresh IDs to
      items whose insertion order makes a queue. */
  class QuickQueue<T> {
    var storage: seq<Entry<T>>
    /** The state of the ID generator: the number of IDs handed out. */
    var issued: nat

    ghost predicate Valid()
      reads this
    {
      Keyed(storage, issued)
    }

    constructor ()
      ensures Valid() && storage == [] && issued == 0
    {
      storage := [];
      issued := 0;
    }

    /** `IDs.get()`: a new ID, never handed out before. */
    method NextId() returns (id: string)
      modifies this`issued
      ensures id == Decimal(old(issued)) && id != [] && Parse(id) == old(issued)
      ensures issued == old(issued) + 1
    {
      id := Decimal(issued);
      ParseDecimal(issued);
      issued := issued + 1;
    }

    /** Stores `item` under a new ID, last in insertion order, and returns
        the ID. */
    method Push(item: T) returns (id: string)
      requires Valid()
      modifies this
      ensures Valid()
      ensures id != [] && id !in Ids(old(storage))
      ensures storage == old(storage) + [(id, item)]
      ensures Get(id) == Some(item)
      ensures forall other :: other != id ==> Get(other) == old(Get(other))
    {
      AppendKeyed(storage, issued, item);
      NextIdIsNew(storage, issued);
      id := NextId();
      forall other
        ensures Lookup(storage + [(id, item)], other) == if other == id then Some(item) else Lookup(storage, other)
      {
        LookupAppend(storage, id, item, other);
      }
      storage := storage + [(id, item)];
    }

    /** `enqueue`: the same as `push`. */
    method Enqueue(item: T) returns (id: string)
      requires Valid()
      modifies this
      ensures Valid()
      ensures id != [] && id !in Ids(old(storage))
      ensures storage == old(storage) + [(id, item)]
      ensures Get(id) == Some(item)
    {
      id := Push(item);
    }

    /** The number of entries. */
    function Length(): (n: nat)
      reads this
      ensures n == |Ids(storage)|
    {
      |storage|
    }

    function IsEmpty(): (empty: bool)
      reads this
      ensures empty <==> Ids(storage) == []
    {
      |storage| == 0
    }

    /** The item stored under `id`, or None. */
    function Get(id: string): (item: Option<T>)
      reads this
      ensures item.None? <==> id !in Ids(storage)
      ensures item.Some? ==> (id, item.value) in storage
    {
      Lookup(storage, id)
    }

    /** Removes the entry under `id`, answering whether there was one;
        every other entry stays, in order. */
    method Delete(id: string) returns (existed: bool)
      requires Valid()
      modifies this`storage
      ensures Valid()
      ensures existed <==> id in Ids(old(storage))
      ensures storage == Without(old(storage), id)
      ensures Get(id) == None
      ensures forall other :: other != id ==> Get(other) == old(Get(other))
    {
      existed := id in Ids(storage);
      WithoutKeyed(storage, issued, id);
      forall other
        ensures Lookup(Without(storage, id), other) == if other == id then None else Lookup(storage, other)
      {
        LookupWithout(storage, id, other);
      }
      storage := Without(storage, id);
    }

    /** Removes every entry; IDs already handed out stay used. */
    method Clear()
      requires Valid()
      modifies this`storage
      ensures Valid() && storage == []
      ensures forall id :: Get(id) == None
    {
      storage := [];
    }

    /** Removes and returns the oldest item, or None on an empty queue. */
    method Dequeue() returns (item: Option<T>)
      requires Valid()
      modifies this`storage
      ensures Valid()
      ensures old(storage) == [] ==> item == None && storage == []
      ensures old(storage) != [] ==> item == Some(old(storage)[0].1) && storage == old(storage)[1..]
    {
      if storage == [] {
        return None;
      }
      var (id, first) := storage[0];
      WithoutFirst(storage);
      var _ := Delete(id);
      return Some(first);
    }

    /** The oldest entry, or None on an empty queue; nothing changes. */
    function Peek(): (entry: Option<Entry<T>>)
      reads this
      ensures entry.None? <==> storage == []
      ensures entry.Some? ==> entry.value == storage[0] && Get(entry.value.0) == Some(entry.value.1)
    {
      if storage == [] then None else Some(storage[0])
    }
  }

  /** QuickStack.ts: the same Map of fresh IDs, read as a stack. */
  class QuickStack<T> {
    var storage: seq<Entry<T>>
    /** The state of the ID generator: the number of IDs handed out. */
    var issued: nat

    ghost predicate Valid()
      reads this
    {
      Keyed(storage, issued)
    }

    constructor ()
      ensures Valid() && storage == [] && issued == 0
    {
      storage := [];
      issued := 0;
    }

    /** `IDs.get()`: a new ID, never handed out before. */
    method NextId() returns (id: string)
      modifies this`issued
      ensures id == Decimal(old(issued)) && id != [] && Parse(id) == old(issued)
      ensures issued == old(issued) + 1
    {
      id := Decimal(issued);
      ParseDecimal(issued);
      issued := issued + 1;
    }

    /** Stores `item` under a new ID, on top of the stack, and returns the ID. */
    method Push(item: T) returns (id: string)
      requires Valid()
      modifies this
      ensures Valid()
      ensures id != [] && id !in Ids(old(storage))
      ensures storage == old(storage) + [(id, item)]
      ensures Get(id) == Some(item)
      ensures forall other :: other != id ==> Get(other) == old(Get(other))
    {
      AppendKeyed(storage, issued, item);
      NextIdIsNew(storage, issued);
      id := NextId();
      forall other
        ensures Lookup(storage + [(id, item)], other) == if other == id then Some(item) else Lookup(storage, other)
      {
        LookupAppend(storage, id, item, other);
      }
      storage := storage + [(id, item)];
    }

    /** The number of entries. */
    function Length(): (n: nat)
      reads this
      ensures n == |Ids(storage)|
    {
      |storage|
    }

    /** The item stored under `id`, or None. */
    function Get(id: string): (item: Option<T>)
      reads this
      ensures item.None? <==> id !in Ids(storage)
      ensures item.Some? ==> (id, item.value) in storage
    {
      Lookup(storage, id)
    }

    /** Takes the last ID of the key list, and when there is one (a truthy
        string), removes and returns its item. */
    method Pop() returns (item: Option<T>)
      requires Valid()
      modifies this`storage
      ensures Valid()
      ensures old(storage) == [] ==> item == None && storage == []
      ensures old(storage) != [] ==>
        && item == Some(old(storage)[|old(storage)| - 1].1)
        && storage == old(storage)[..|old(storage)| - 1]
    {
      var keys := Ids(storage);
      if |keys| == 0 || keys[|keys| - 1] == [] {
        return None;
      }
      var last := keys[|keys| - 1];
      var found := Get(last);
      assert storage[|storage| - 1] == (last, found.value) by {
        var i :| 0 <= i < |storage| && storage[i] == (last, found.value);
        assert storage[i].0 == storage[|storage| - 1].0;
      }
      WithoutLast(storage);
      var _ := Delete(last);
      return found;
    }

    /** Removes the entry under `id`, answering whether there was one;
        every other entry stays, in order. */
    method Delete(id: string) returns (existed: bool)
      requires Valid()
      modifies this`storage
      ensures Valid()
      ensures existed <==> id in Ids(old(storage))
      ensures storage == Without(old(storage), id)
      ensures Get(id) == None
      ensures forall other :: other != id ==> Get(other) == old(Get(other))
    {
      existed := id in Ids(storage);
      WithoutKeyed(storage, issued, id);
      forall other
        ensures Lookup(Without(storage, id), other) == if other == id then None else Lookup(storage, other)
      {
        LookupWithout(storage, id, other);
      }
      storage := Without(storage, id);
    }
  }

  /** Dequeues until the queue is empty: the remaining items come out
      oldest first. */
  method DequeueAll<T>(queue: QuickQueue<T>) returns (items: seq<T>)
    requires queue.Valid()
    modifies queue
    ensures queue.Valid() && queue.storage == []
    ensures items == Items(old(queue.storage))
  {
    items := [];
    ghost var all := queue.storage;
    while queue.storage != []
      invariant queue.Valid()
      invariant |items| <= |all| && queue.storage == all[|items|..]
      invariant items == Items(all[..|items|])
      decreases |queue.storage|
    {
      var item := queue.Dequeue();
      assert all[..|items| + 1] == all[..|items|] + [all[|items|]];
      items := items + [item.value];
    }
    assert all[..|items|] == all;
  }

  /** Pops until the stack is empty: the remaining items come out newest
      first. */
  method PopAll<T>(stack: QuickStack<T>) returns (items: seq<T>)
    requires stack.Valid()
    modifies stack
    ensures stack.Valid() && stack.storage == []
    ensures |items| == |old(stack.storage)|
    ensures forall i :: 0 <= i < |items| ==> items[i] == old(stack.storage)[|items| - 1 - i].1
  {
    items := [];
    ghost var all := stack.storage;
    while stack.storage != []
      invariant stack.Valid()
      invariant |items| <= |all| && stack.storage == all[..|all| - |items|]
      invariant forall i :: 0 <= i < |items| ==> items[i] == all[|all| - 1 - i].1
      decreases |stack.storage|
    {
      var item := stack.Pop();
      items := items + [item.value];
    }
  }

  /** A queue holding "a", "b" and "c", enqueued in that order. */
  method QueueOfThree() returns (queue: QuickQueue<string>, idA: string, idB: string, idC: string)
    ensures fresh(queue) && queue.Valid()
    ensures queue.storage == [(idA, "a"), (idB, "b"), (idC, "c")]
  {
    queue := new QuickQueue<string>();
    idA := queue.Enqueue("a");
    idB := queue.Enqueue("b");
    idC := queue.Enqueue("c");
  }

  /** Enqueue "a", "b", "c", delete "b" by its ID: "b" is no longer found,
      and dequeuing everything gives "a" and then "c". */
  method QueueSession() returns (items: seq<string>, b: Option<string>)
    ensures items == ["a", "c"] && b == None
  {
    var queue, idA, idB, idC := QueueOfThree();
    ghost var s := queue.storage;
    assert idA != idB && idC != idB by {
      assert DistinctIds(s);
      assert s[0].0 == idA && s[1].0 == idB && s[2].0 == idC;
    }
    assert Without(s, idB) == [(idA, "a"), (idC, "c")] by {
      assert Without(s[2..], idB) == [(idC, "c")] + Without([], idB);
      assert Without(s, idB) == [(idA, "a")] + Without(s[2..], idB);
    }
    var _ := queue.Delete(idB);
    b := queue.Get(idB);
    items := DequeueAll(queue);
  }

  /** A stack holding "a", "b" and "c", pushed in that order. */
  method StackOfThree() returns (stack: QuickStack<string>, idA: string, idB: string, idC: string)
    ensures fresh(stack) && stack.Valid()
    ensures stack.storage == [(idA, "a"), (idB, "b"), (idC, "c")]
  {
    stack := new QuickStack<string>();
    idA := stack.Push("a");
    idB := stack.Push("b");
    idC := stack.Push("c");
  }

  /** Push "a", "b", "c", delete "c" by its ID: popping everything gives
      "b" and then "a". */
  method StackSession() returns (items: seq<string>)
    ensures items == ["b", "a"]
  {
    var stack, idA, idB, idC := StackOfThree();
    WithoutLast(stack.storage);
    var _ := stack.Delete(idC);
    assert stack.storage == [(idA, "a"), (idB, "b")];
    items := PopAll(stack);
  }
}
