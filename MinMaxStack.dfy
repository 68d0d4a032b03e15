/** The extremum-tracking stack (MinMaxStack.ts) with its variants MinStack.ts
    and MaxStack.ts. The variant is a `Direction` constant; `extremum` is the
    `min` field of MinStack and the `max` field of MaxStack. */
module MinMaxStacks {
  import opened Ordering

  /** Number of elements of `s` whose key is `k`. */
  function Count<T>(key: T -> int, s: seq<T>, k: int): (n: nat)
    ensures n <= |s|
  {
    if s == [] then 0
    else Count(key, s[..|s| - 1], k) + (if key(s[|s| - 1]) == k then 1 else 0)
  }

  /** The keys of `s`, in order. */
  function Keys<T>(key: T -> int, s: seq<T>): (ks: seq<int>)
    ensures |ks| == |s|
    ensures forall i :: 0 <= i < |s| ==> ks[i] == key(s[i])
  {
    if s == [] then [] else Keys(key, s[..|s| - 1]) + [key(s[|s| - 1])]
  }

  /** `Count` is the multiplicity of `k` among the keys of `s`. */
  lemma {:induction false} CountIsMultiplicity<T>(key: T -> int, s: seq<T>, k: int)
    ensures Count(key, s, k) == multiset(Keys(key, s))[k]
  {
    if s != [] {
      CountIsMultiplicity(key, s[..|s| - 1], k);
    }
  }

  /** No element of `s` has key `k` exactly when `Count` is zero. */
  lemma {:induction false} CountZero<T>(key: T -> int, s: seq<T>, k: int)
    ensures Count(key, s, k) == 0 <==> forall j :: 0 <= j < |s| ==> key(s[j]) != k
  {
    if s != [] {
      var init := s[..|s| - 1];
      CountZero(key, init, k);
      assert forall j :: 0 <= j < |init| ==> init[j] == s[j];
    }
  }

  /** `i` is the lowest index of an element of extremal key in `s`. */
  ghost predicate IsFirstExtreme<T>(d: Direction, key: T -> int, s: seq<T>, i: nat)
  {
    && i < |s|
    && (forall j :: 0 <= j < |s| ==> AtLeastAsExtreme(d, key(s[i]), key(s[j])))
    && (forall j :: 0 <= j < i ==> key(s[j]) != key(s[i]))
  }

  /** The tracked element is determined by the stored elements alone. */
  lemma FirstExtremeIsUnique<T>(d: Direction, key: T -> int, s: seq<T>, i: nat, j: nat)
    requires IsFirstExtreme(d, key, s, i) && IsFirstExtreme(d, key, s, j)
    ensures i == j
  {
    assert key(s[i]) == key(s[j]) by {
      assert AtLeastAsExtreme(d, key(s[i]), key(s[j])) && AtLeastAsExtreme(d, key(s[j]), key(s[i]));
    }
  }

  /** A last-in-first-out stack that tracks its first element of extremal key
      and the number of stored elements tying that key. */
  class MinMaxStack<T> {
    const direction: Direction
    const extractor: T -> int
    var storage: seq<T>
    /** The `occurances` field of MinMaxStack.ts (spelled as there). */
    var occurances: nat
    /** `min` (MinStack) or `max` (MaxStack); None stands for `null`. */
    var extremum: Option<T>
    /** Index into `storage` of the element `extremum` refers to. */
    ghost var at: nat

    /** The tracking state is right for the elements `s`. */
    ghost predicate Tracks(s: seq<T>)
      reads this
    {
      if s == [] then extremum == None && occurances == 0
      else
        && IsFirstExtreme(direction, extractor, s, at)
        && extremum == Some(s[at])
        && occurances == Count(extractor, s, extractor(s[at]))
    }

    ghost predicate Valid()
      reads this
    {
      Tracks(storage)
    }

    constructor (direction: Direction, extractor: T -> int)
      ensures this.direction == direction && this.extractor == extractor
      ensures storage == [] && occurances == 0 && extremum == None
      ensures Valid()
    {
      this.direction := direction;
      this.extractor := extractor;
      storage := [];
      occurances := 0;
      extremum := None;
      at := 0;
    }

    /** `extract`: the key of a value, as the extractor gives it. */
    function Extract(value: T): (key: int)
      ensures key == extractor(value)
    {
      extractor(value)
    }

    /** `minimum` of MinStack.ts, `maximium` of MaxStack.ts: the key of the
        tracked element, which on a valid stack is the extremal key. */
    function ExtremeKey(): (k: Option<int>)
      reads this
      ensures k.None? <==> extremum.None?
      ensures k.Some? ==> k.value == Extract(extremum.value)
      ensures Valid() ==> (k.None? <==> storage == [])
      ensures Valid() && k.Some? ==>
        && extremum.value in storage
        && (forall x | x in storage :: AtLeastAsExtreme(direction, k.value, Extract(x)))
        && occurances == Count(extractor, storage, k.value) >= 1
    {
      if extremum.None? then None
      else
        CountZero(extractor, storage, Extract(extremum.value));
        Some(Extract(extremum.value))
    }

    function Length(): (n: nat)
      reads this
      ensures n == |storage|
    {
      |storage|
    }

    /** The top element, or None when the stack is empty. */
    function Peek(): (top: Option<T>)
      reads this
      ensures top.None? <==> storage == []
      ensures top.Some? ==> top.value == storage[|storage| - 1]
    {
      if storage == [] then None else Some(storage[|storage| - 1])
    }

    /** The elements bottom to top, as the iterator yields them. */
    method Items() returns (items: seq<T>)
      ensures items == storage
    {
      items := [];
      for i := 0 to |storage|
        invariant items == storage[..i]
      {
        items := items + [storage[i]];
      }
    }

    method Push(val: T)
      requires Valid()
      modifies this
      ensures Valid()
      ensures storage == old(storage) + [val]
      ensures old(extremum).Some? && Extract(val) == Extract(old(extremum).value) ==>
        extremum == old(extremum) && occurances == old(occurances) + 1
      ensures old(extremum).None? || MoreExtreme(direction, Extract(val), Extract(old(extremum).value)) ==>
        extremum == Some(val) && occurances == 1
      ensures old(extremum).Some? && MoreExtreme(direction, Extract(old(extremum).value), Extract(val)) ==>
        extremum == old(extremum) && occurances == old(occurances)
    {
      storage := storage + [val];
      assert storage[..|storage| - 1] == old(storage);
      SetMinMax(val);
    }

    /** The variant's update on push: a tie counts, a more extreme key (or an
        empty stack) takes over, anything else changes nothing. */
    method SetMinMax(val: T)
      requires storage != [] && storage[|storage| - 1] == val
      requires Tracks(storage[..|storage| - 1])
      modifies this
      ensures Valid() && storage == old(storage)
      ensures old(extremum).Some? && Extract(val) == Extract(old(extremum).value) ==>
        extremum == old(extremum) && occurances == old(occurances) + 1
      ensures old(extremum).None? || MoreExtreme(direction, Extract(val), Extract(old(extremum).value)) ==>
        extremum == Some(val) && occurances == 1
      ensures old(extremum).Some? && MoreExtreme(direction, Extract(old(extremum).value), Extract(val)) ==>
        extremum == old(extremum) && occurances == old(occurances)
    {
      ghost var prev := storage[..|storage| - 1];
      assert storage == prev + [val];
      var value := Extract(val);
      var current := ExtremeKey();
      if current == Some(value) {
        occurances := occurances + 1;
        assert storage[..|storage| - 1] == prev;
        return;
      }
      if current.None? || (match direction case Min => value < current.value case Max => value > current.value) {
        if current.Some? {
          CountZero(extractor, prev, value);
        }
        assert storage[..|storage| - 1] == prev;
        extremum := Some(val);
        occurances := 1;
        at := |storage| - 1;
      } else {
        assert storage[..|storage| - 1] == prev;
      }
    }

    /** Removes and returns the top element, or None on an empty stack. */
    method Pop() returns (result: Option<T>)
      requires Valid()
      modifies this
      ensures Valid()
      ensures old(storage) == [] ==>
        result == None && storage == [] && extremum == old(extremum) && occurances == old(occurances)
      ensures old(storage) != [] ==>
        result == Some(old(storage)[|old(storage)| - 1]) && storage == old(storage)[..|old(storage)| - 1]
      ensures result.Some? && old(extremum).Some? && Extract(result.value) != Extract(old(extremum).value) ==>
        extremum == old(extremum) && occurances == old(occurances)
      ensures result.Some? && old(extremum).Some? && Extract(result.value) == Extract(old(extremum).value) && old(occurances) > 1 ==>
        extremum == old(extremum) && occurances == old(occurances) - 1
    {
      if storage == [] {
        return None;
      }
      var val := storage[|storage| - 1];
      assert storage == storage[..|storage| - 1] + [val];
      storage := storage[..|storage| - 1];
      FindMinMax(val);
      result := Some(val);
    }

    /** The variant's update on pop: a popped tie is uncounted, and when the
        last tie goes the whole stack is rescanned. */
    method FindMinMax(val: T)
      requires Tracks(storage + [val])
      modifies this
      ensures Valid() && storage == old(storage)
      ensures old(extremum).Some? && Extract(val) != Extract(old(extremum).value) ==>
        extremum == old(extremum) && occurances == old(occurances)
      ensures old(extremum).Some? && Extract(val) == Extract(old(extremum).value) && old(occurances) > 1 ==>
        extremum == old(extremum) && occurances == old(occurances) - 1
    {
      ghost var whole := storage + [val];
      assert whole[..|storage|] == storage;
      var value := Extract(val);
      if Some(value) == ExtremeKey() {
        CountZero(extractor, storage, value);
        occurances := occurances - 1;
        if occurances == 0 {
          FindExtremum();
        }
      } else {
        assert at != |storage|;
      }
    }

    /** `findMin` / `findMax`: a full rescan that tracks the first element of
        extremal key and counts its ties; an empty stack tracks None and 0. */
    method FindExtremum()
      modifies this
      ensures Valid() && storage == old(storage)
    {
      var occ: nat := 0;
      var extValue: Option<int> := None;
      var ext: Option<T> := None;
      ghost var idx: nat := 0;
      for i := 0 to |storage|
        invariant storage == old(storage)
        invariant i > 0 ==> idx < i
        invariant i == 0 ==> ext == None && extValue == None && occ == 0
        invariant i > 0 ==>
          && IsFirstExtreme(direction, extractor, storage[..i], idx)
          && ext == Some(storage[idx])
          && extValue == Some(Extract(storage[idx]))
          && occ == Count(extractor, storage[..i], Extract(storage[idx]))
      {
        var currentValue := Extract(storage[i]);
        assert storage[..i + 1][..i] == storage[..i];
        if extValue.None? || (match direction case Min => currentValue < extValue.value case Max => currentValue > extValue.value) {
          if extValue.Some? {
            CountZero(extractor, storage[..i], currentValue);
          }
          ext := Some(storage[i]);
          occ := 1;
          extValue := Some(currentValue);
          idx := i;
        } else if extValue.value == currentValue {
          occ := occ + 1;
        }
      }
      assert storage[..|storage|] == storage;
      extremum := ext;
      occurances := occ;
      at := idx;
    }
  }

  /** What a caller reads off a valid stack of numbers whose first extremal
      element is at index `i`: that element's key and its number of ties. */
  method Observe(stack: MinMaxStack<int>, ghost i: nat) returns (tracked: Option<int>, count: nat)
    requires stack.Valid() && stack.extractor == Identity
    requires IsFirstExtreme(stack.direction, Identity, stack.storage, i)
    ensures tracked == Some(stack.storage[i])
    ensures count == multiset(stack.storage)[stack.storage[i]]
  {
    FirstExtremeIsUnique(stack.direction, Identity, stack.storage, stack.at, i);
    CountIsMultiplicity(Identity, stack.storage, stack.storage[i]);
    assert Keys(Identity, stack.storage) == stack.storage;
    tracked := stack.ExtremeKey();
    count := stack.occurances;
  }

  /** A fresh stack of numbers holding `s`, pushed first to last. */
  method PushAll(d: Direction, s: seq<int>) returns (stack: MinMaxStack<int>)
    ensures fresh(stack) && stack.Valid()
    ensures stack.direction == d && stack.extractor == Identity && stack.storage == s
  {
    stack := new MinMaxStack<int>(d, Identity);
    for i := 0 to |s|
      invariant stack.Valid() && stack.storage == s[..i]
      invariant stack.direction == d && stack.extractor == Identity
    {
      stack.Push(s[i]);
      assert s[..i + 1] == s[..i] + [s[i]];
    }
    assert s[..|s|] == s;
  }

  /** Pops the top `n` elements of `stack`. */
  method PopTimes(stack: MinMaxStack<int>, n: nat)
    requires stack.Valid() && n <= |stack.storage|
    modifies stack
    ensures stack.Valid() && stack.storage == old(stack.storage)[..|old(stack.storage)| - n]
  {
    for k := 0 to n
      invariant stack.Valid() && stack.storage == old(stack.storage)[..|old(stack.storage)| - k]
    {
      var _ := stack.Pop();
    }
  }

  /** Pushes `s` onto a fresh stack, pops `pops` elements and reads off what
      the stack then tracks; `i` is the index of the expected element. */
  method ObserveAfterPops(d: Direction, s: seq<int>, pops: nat, ghost i: nat) returns (tracked: Option<int>, count: nat)
    requires pops <= |s|
    requires pops < |s| ==> IsFirstExtreme(d, Identity, s[..|s| - pops], i)
    ensures pops < |s| ==> tracked == Some(s[i]) && count == multiset(s[..|s| - pops])[s[i]]
    ensures pops == |s| ==> tracked == None && count == 0
  {
    var stack := PushAll(d, s);
    PopTimes(stack, pops);
    if pops < |s| {
      tracked, count := Observe(stack, i);
    } else {
      tracked, count := stack.ExtremeKey(), stack.occurances;
    }
  }

  /** MinStack: push 3, 2, 2, 1 tracks 1; popping 1 tracks 2 twice; popping
      both 2s rescans and tracks 3; popping 3 leaves nothing tracked. */
  method MinStackTracksMinimum() returns (tracked: seq<Option<int>>, counts: seq<nat>)
    ensures tracked == [Some(1), Some(2), Some(3), None]
    ensures counts == [1, 2, 1, 0]
  {
    var s := [3, 2, 2, 1];
    assert s[..4] == s && s[..3] == [3, 2, 2] && s[..1] == [3];
    var k0, n0 := ObserveAfterPops(Min, s, 0, 3);
    var k1, n1 := ObserveAfterPops(Min, s, 1, 1);
    var k2, n2 := ObserveAfterPops(Min, s, 3, 0);
    var k3, n3 := ObserveAfterPops(Min, s, 4, 0);
    assert multiset(s)[1] == 1 && multiset(s[..3])[2] == 2 && multiset(s[..1])[3] == 1;
    tracked, counts := [k0, k1, k2, k3], [n0, n1, n2, n3];
  }

  /** MaxStack mirrors it: push 1, 2, 2, 3 tracks 3; popping 3 tracks 2 twice;
      popping both 2s rescans and tracks 1. */
  method MaxStackTracksMaximum() returns (tracked: seq<Option<int>>, counts: seq<nat>)
    ensures tracked == [Some(3), Some(2), Some(1)]
    ensures counts == [1, 2, 1]
  {
    var s := [1, 2, 2, 3];
    assert s[..4] == s && s[..3] == [1, 2, 2] && s[..1] == [1];
    var k0, n0 := ObserveAfterPops(Max, s, 0, 3);
    var k1, n1 := ObserveAfterPops(Max, s, 1, 1);
    var k2, n2 := ObserveAfterPops(Max, s, 3, 0);
    assert multiset(s)[3] == 1 && multiset(s[..3])[2] == 2 && multiset(s[..1])[1] == 1;
    tracked, counts := [k0, k1, k2], [n0, n1, n2];
  }
}
