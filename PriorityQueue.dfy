/** The bucket queue of PriorityQueue.ts. `buckets` maps each priority to the
    values pushed at it, in push order; `priorities` holds the marked
    priorities in the order an object's integer keys are listed (ascending);
    `maxPriority` is the optional bound (None for the default Infinity). */
module PriorityQueues {
  import opened Ordering

  /** The outcome of `push`: done, or the thrown RangeError. */
  datatype Outcome = Pushed | RangeError(message: string)

  /** Object keys below 2^32 - 1 are array indices, which an object lists in
      ascending numeric order; larger keys are listed in insertion order (and
      from 1e21 up their key string no longer reads back through `parseInt`),
      so the queue holds priorities below this bound. */
  const IndexLimit: nat := 0xFFFF_FFFF

  /** Strictly ascending: the order of an object's integer property keys. */
  predicate Increasing(keys: seq<nat>)
  {
    forall i, j :: 0 <= i < j < |keys| ==> keys[i] < keys[j]
  }

  /** The bucket at `p`; a missing bucket reads as empty. */
  function Bucket<T>(buckets: map<nat, seq<T>>, p: nat): seq<T>
  {
    if p in buckets then buckets[p] else []
  }

  /** The key list after `priorities[p] = true`. */
  function Mark(keys: seq<nat>, p: nat): (r: seq<nat>)
    requires Increasing(keys)
    ensures Increasing(r)
    ensures forall x :: x in r <==> x in keys || x == p
    ensures p in keys ==> r == keys
  {
    if keys == [] then [p]
    else if p < keys[0] then [p] + keys
    else if p == keys[0] then keys
    else [keys[0]] + Mark(keys[1..], p)
  }

  /** The key list after `delete priorities[p]`. */
  function Unmark(keys: seq<nat>, p: nat): (r: seq<nat>)
    requires Increasing(keys)
    ensures Increasing(r)
    ensures forall x :: x in r <==> x in keys && x != p
    ensures |r| <= |keys| && (p in keys ==> |r| < |keys|)
  {
    if keys == [] then []
    else if keys[0] == p then Unmark(keys[1..], p)
    else
      var rest := Unmark(keys[1..], p);
      assert forall j :: 0 <= j < |rest| ==> rest[j] in keys[1..];
      [keys[0]] + rest
  }

  /** The number of values in the buckets of `keys`. */
  function Sum<T>(keys: seq<nat>, buckets: map<nat, seq<T>>): nat
  {
    if keys == [] then 0 else |Bucket(buckets, keys[0])| + Sum(keys[1..], buckets)
  }

  /** Replacing one bucket changes the count by the change in its size, when
      that bucket is listed. */
  lemma {:induction false} SumUpdate<T>(keys: seq<nat>, buckets: map<nat, seq<T>>, p: nat, s: seq<T>)
    requires Increasing(keys)
    ensures Sum(keys, buckets[p := s]) + |Bucket(buckets, p)| == Sum(keys, buckets) + |s| || p !in keys
    ensures p !in keys ==> Sum(keys, buckets[p := s]) == Sum(keys, buckets)
  {
    if keys != [] {
      SumUpdate(keys[1..], buckets, p, s);
      assert p in keys[1..] ==> keys[0] != p;
    }
  }

  /** Marking a new priority adds the size of its bucket to the count. */
  lemma {:induction false} SumMark<T>(keys: seq<nat>, buckets: map<nat, seq<T>>, p: nat)
    requires Increasing(keys) && p !in keys
    ensures Sum(Mark(keys, p), buckets) == Sum(keys, buckets) + |Bucket(buckets, p)|
  {
    if keys != [] && p > keys[0] {
      SumMark(keys[1..], buckets, p);
      assert Mark(keys, p)[1..] == Mark(keys[1..], p);
    }
  }

  /** Where `pop` stops, scanning the buckets of `keys[..j]` from the top
      down: the index of the first bucket holding exactly one value. */
  function StopAt<T>(buckets: map<nat, seq<T>>, keys: seq<nat>, j: nat): (r: Option<nat>)
    requires j <= |keys|
    ensures r.Some? ==> r.value < j && |Bucket(buckets, keys[r.value])| == 1
    ensures r.Some? ==> forall i :: r.value < i < j ==> |Bucket(buckets, keys[i])| != 1
    ensures r.None? ==> forall i :: 0 <= i < j ==> |Bucket(buckets, keys[i])| != 1
    decreases j
  {
    if j == 0 then None
    else if |Bucket(buckets, keys[j - 1])| == 1 then Some(j - 1)
    else StopAt(buckets, keys, j - 1)
  }

  /** `bucket.pop()` on a bucket, as a value. */
  function DropLast<T>(s: seq<T>): seq<T>
  {
    if s == [] then [] else s[..|s| - 1]
  }

  /** The buckets after `pop`'s loop has taken the last value from the
      buckets of `keys[j..]`, highest first. */
  function DropTop<T>(orig: map<nat, seq<T>>, keys: seq<nat>, j: nat): map<nat, seq<T>>
    decreases |keys| - j
  {
    if j >= |keys| then orig
    else DropTop(orig, keys, j + 1)[keys[j] := DropLast(Bucket(orig, keys[j]))]
  }

  /** The buckets, the marked priorities and the result after `pop`: the
      loop stops at the first bucket holding one value, which it empties,
      unmarks and returns; without such a bucket it takes a value from every
      bucket and returns nothing. */
  function PopEffect<T>(orig: map<nat, seq<T>>, keys: seq<nat>): (r: (map<nat, seq<T>>, seq<nat>, Option<T>))
    requires Increasing(keys)
    ensures Increasing(r.1) && forall p :: p in r.1 ==> p in keys
    ensures r.2.None? ==> r.1 == keys
    ensures r.2.Some? ==> |r.1| < |keys|
  {
    match StopAt(orig, keys, |keys|)
    case Some(i) => (DropTop(orig, keys, i), Unmark(keys, keys[i]), Some(Bucket(orig, keys[i])[0]))
    case None => (DropTop(orig, keys, 0), keys, None)
  }

  /** Unfolds `PopEffect` when the loop stops at index `i`. */
  lemma PopEffectStops<T>(orig: map<nat, seq<T>>, keys: seq<nat>, i: nat)
    requires Increasing(keys) && StopAt(orig, keys, |keys|) == Some(i)
    ensures PopEffect(orig, keys) == (DropTop(orig, keys, i), Unmark(keys, keys[i]), Some(Bucket(orig, keys[i])[0]))
  {
  }

  /** Unfolds `PopEffect` when the loop runs out of buckets. */
  lemma PopEffectRunsOut<T>(orig: map<nat, seq<T>>, keys: seq<nat>)
    requires Increasing(keys) && StopAt(orig, keys, |keys|) == None
    ensures PopEffect(orig, keys) == (DropTop(orig, keys, 0), keys, None)
  {
  }

  /** Whether `pop` takes a value from the bucket of `p`: every listed
      priority from the top down to the one at index `stop`, all of them
      when it does not stop. */
  predicate Reached(stop: Option<nat>, keys: seq<nat>, p: nat)
  {
    p in keys && (stop.None? || (stop.value < |keys| && p >= keys[stop.value]))
  }

  /** Every listed priority is marked, and a priority is listed exactly when
      its bucket holds a value. */
  ghost predicate Marked<T>(keys: seq<nat>, buckets: map<nat, seq<T>>)
  {
    forall p :: p in keys <==> p in buckets && buckets[p] != []
  }

  /** `cur` is `orig` with the last value dropped from the buckets of the
      listed priorities from `keys[j]` up. */
  ghost predicate DroppedFrom<T>(orig: map<nat, seq<T>>, cur: map<nat, seq<T>>, keys: seq<nat>, j: nat)
  {
    && cur.Keys == orig.Keys
    && forall p :: p in cur ==>
         cur[p] == if p in keys && j < |keys| && p >= keys[j] then DropLast(orig[p]) else orig[p]
  }

  /** Between the listed keys `keys[i]` and `keys[i + 1]` no key lies. */
  lemma NoKeyBetween(keys: seq<nat>, i: nat)
    requires Increasing(keys) && i < |keys|
    ensures forall q :: q in keys && q >= keys[i] && (i + 1 < |keys| ==> q < keys[i + 1]) ==> q == keys[i]
  {
  }

  /** The loop has not yet touched the buckets below `keys[j]`. */
  lemma {:induction false} DropTopBelow<T>(orig: map<nat, seq<T>>, keys: seq<nat>, j: nat, i: nat)
    requires Increasing(keys) && i < j <= |keys|
    ensures keys[i] in DropTop(orig, keys, j) <==> keys[i] in orig
    ensures keys[i] in orig ==> DropTop(orig, keys, j)[keys[i]] == orig[keys[i]]
    decreases |keys| - j
  {
    if j < |keys| {
      DropTopBelow(orig, keys, j + 1, i);
    }
  }

  /** What the loop's buckets are: the last value is gone from exactly the
      buckets of the listed priorities from `keys[j]` up. */
  lemma {:induction false} DropTopMeaning<T>(orig: map<nat, seq<T>>, keys: seq<nat>, j: nat)
    requires Increasing(keys) && Marked(keys, orig) && j <= |keys|
    ensures DroppedFrom(orig, DropTop(orig, keys, j), keys, j)
    decreases |keys| - j
  {
    if j < |keys| {
      DropTopMeaning(orig, keys, j + 1);
      NoKeyBetween(keys, j);
      assert keys[j] in keys;
    }
  }

  /** `pop` takes the last value from the buckets of the priorities it
      reaches, and leaves every other bucket as it was. */
  lemma PopTakesFromReached<T>(orig: map<nat, seq<T>>, keys: seq<nat>)
    requires Increasing(keys) && Marked(keys, orig)
    ensures var (cur, _, _) := PopEffect(orig, keys);
      && cur.Keys == orig.Keys
      && forall p :: p in cur ==>
           cur[p] == if Reached(StopAt(orig, keys, |keys|), keys, p) then DropLast(orig[p]) else orig[p]
  {
    var stop := StopAt(orig, keys, |keys|);
    if stop.Some? {
      DropTopMeaning(orig, keys, stop.value);
    } else {
      DropTopMeaning(orig, keys, 0);
      forall p | p in keys
        ensures p >= keys[0]
      {
        var i :| 0 <= i < |keys| && keys[i] == p;
      }
    }
  }

  /** The queue invariant on values: the priorities are listed in ascending
      order, a priority is marked exactly when its bucket holds a value, every
      priority is an array index, and no bucket lies above the bound. */
  ghost predicate Consistent<T>(keys: seq<nat>, buckets: map<nat, seq<T>>, max: Option<int>)
  {
    && Increasing(keys)
    && Marked(keys, buckets)
    && (forall p :: p in buckets ==> p < IndexLimit)
    && (max.Some? ==> forall p :: p in buckets ==> p <= max.value)
  }

  /** `pop` keeps the queue invariant: every marked priority still has a
      value and every value sits at a marked priority. */
  lemma PopKeepsConsistent<T>(orig: map<nat, seq<T>>, keys: seq<nat>, max: Option<int>)
    requires Consistent(keys, orig, max)
    ensures Consistent(PopEffect(orig, keys).1, PopEffect(orig, keys).0, max)
  {
    var stop := StopAt(orig, keys, |keys|);
    PopTakesFromReached(orig, keys);
    forall p | p in keys && (stop.None? || p > keys[stop.value])
      ensures |orig[p]| != 1
    {
      var i :| 0 <= i < |keys| && keys[i] == p;
      if stop.Some? {
        assert i > stop.value;
      }
    }
  }

  /** The result of `pop`: the value of the highest bucket holding exactly
      one value when every bucket above it holds more, unmarking its
      priority; nothing, with the marks unchanged, when no bucket holds
      exactly one value. */
  lemma PopResult<T>(orig: map<nat, seq<T>>, keys: seq<nat>, i: nat)
    requires Increasing(keys)
    ensures var (_, marked, result) := PopEffect(orig, keys);
      && (i < |keys| && |Bucket(orig, keys[i])| == 1 &&
          (forall h :: i < h < |keys| ==> |Bucket(orig, keys[h])| > 1) ==>
            result == Some(Bucket(orig, keys[i])[0]) && marked == Unmark(keys, keys[i]))
      && ((forall h :: 0 <= h < |keys| ==> |Bucket(orig, keys[h])| > 1) ==>
            result == None && marked == keys)
  {
  }

  /** `pop` on an empty queue returns nothing and changes nothing. */
  lemma PopEmpty<T>(orig: map<nat, seq<T>>)
    ensures PopEffect(orig, []) == (orig, [], None)
  {
  }

  /** Unmarking the highest listed priority drops it from the end. */
  lemma {:induction false} UnmarkLast(keys: seq<nat>)
    requires Increasing(keys) && keys != []
    ensures Unmark(keys, keys[|keys| - 1]) == keys[..|keys| - 1]
  {
    if |keys| > 1 {
      UnmarkLast(keys[1..]);
      assert keys[1..][..|keys| - 2] == keys[1..|keys| - 1];
      assert keys[..|keys| - 1] == [keys[0]] + keys[1..|keys| - 1];
    }
  }

  /** When the highest bucket holds exactly one value, `pop` returns that
      value, empties that bucket only and unmarks its priority. */
  lemma PopSingleTop<T>(orig: map<nat, seq<T>>, keys: seq<nat>)
    requires Increasing(keys) && keys != [] && |Bucket(orig, keys[|keys| - 1])| == 1
    ensures PopEffect(orig, keys) ==
      (orig[keys[|keys| - 1] := []], keys[..|keys| - 1], Some(Bucket(orig, keys[|keys| - 1])[0]))
  {
    var n := |keys|;
    UnmarkLast(keys);
    assert StopAt(orig, keys, n) == Some(n - 1);
    assert DropLast(Bucket(orig, keys[n - 1])) == [];
    assert DropTop(orig, keys, n - 1) == orig[keys[n - 1] := []];
    PopEffectStops(orig, keys, n - 1);
  }

  /** One round of `pop`'s loop, at the bucket of `keys[j - 1]`: it holds a
      value and is still untouched; taking its last value gives the buckets
      of the next round; and the loop stops here exactly when it held one. */
  lemma PopStep<T>(orig: map<nat, seq<T>>, keys: seq<nat>, j: nat)
    requires Increasing(keys) && Marked(keys, orig) && 0 < j <= |keys|
    ensures keys[j - 1] in orig && orig[keys[j - 1]] != []
    ensures keys[j - 1] in DropTop(orig, keys, j) && DropTop(orig, keys, j)[keys[j - 1]] == orig[keys[j - 1]]
    ensures DropTop(orig, keys, j)[keys[j - 1] := orig[keys[j - 1]][..|orig[keys[j - 1]]| - 1]] ==
      DropTop(orig, keys, j - 1)
    ensures |orig[keys[j - 1]]| == 1 ==>
      StopAt(orig, keys, j) == Some(j - 1) && orig[keys[j - 1]][|orig[keys[j - 1]]| - 1] == Bucket(orig, keys[j - 1])[0]
    ensures |orig[keys[j - 1]]| != 1 ==> StopAt(orig, keys, j) == StopAt(orig, keys, j - 1)
  {
    assert keys[j - 1] in keys;
    DropTopBelow(orig, keys, j, j - 1);
  }

  /** Unmarking a priority whose bucket is empty leaves the count as it was. */
  lemma {:induction false} SumUnmarkEmpty<T>(keys: seq<nat>, buckets: map<nat, seq<T>>, p: nat)
    requires Increasing(keys) && Bucket(buckets, p) == []
    ensures Sum(Unmark(keys, p), buckets) == Sum(keys, buckets)
  {
    if keys != [] {
      SumUnmarkEmpty(keys[1..], buckets, p);
    }
  }

  /** What the documentation of `pop` promises: the last value of the
      highest marked bucket is removed and returned, and that priority is
      unmarked once its bucket is empty; every other bucket stays. */
  function TopPop<T>(orig: map<nat, seq<T>>, keys: seq<nat>): (r: (map<nat, seq<T>>, seq<nat>, Option<T>))
    requires Increasing(keys) && Marked(keys, orig)
    ensures keys == [] ==> r == (orig, keys, None)
    ensures keys != [] ==>
      var top := keys[|keys| - 1];
      && r.2.Some? && r.0.Keys == orig.Keys && r.0[top] + [r.2.value] == orig[top]
      && (forall p :: p in orig && p != top ==> r.0[p] == orig[p])
    ensures Increasing(r.1) && Marked(r.1, r.0)
  {
    if keys == [] then (orig, keys, None)
    else
      var top := keys[|keys| - 1];
      assert top in keys;
      var bucket := orig[top];
      var rest := bucket[..|bucket| - 1];
      assert rest + [bucket[|bucket| - 1]] == bucket;
      (orig[top := rest], if rest == [] then Unmark(keys, top) else keys, Some(bucket[|bucket| - 1]))
  }

  /** The corrected `pop` takes exactly one value from a non-empty queue. */
  lemma TopPopSize<T>(orig: map<nat, seq<T>>, keys: seq<nat>)
    requires Increasing(keys) && Marked(keys, orig) && keys != []
    ensures Sum(TopPop(orig, keys).1, TopPop(orig, keys).0) + 1 == Sum(keys, orig)
  {
    var top := keys[|keys| - 1];
    assert top in keys;
    var rest := orig[top][..|orig[top]| - 1];
    SumUpdate(keys, orig, top, rest);
    if rest == [] {
      SumUnmarkEmpty(keys, orig[top := rest], top);
    }
  }

  /** When the highest bucket holds exactly one value, `pop` as written does
      what its documentation promises. */
  lemma PopAgreesWhenTopSingle<T>(orig: map<nat, seq<T>>, keys: seq<nat>)
    requires Increasing(keys) && Marked(keys, orig) && keys != []
    requires |Bucket(orig, keys[|keys| - 1])| == 1
    ensures PopEffect(orig, keys) == TopPop(orig, keys)
  {
    PopSingleTop(orig, keys);
    UnmarkLast(keys);
    assert keys[|keys| - 1] in keys;
  }

  /** `pop` as written, on a queue holding `a` at priority 1 and `b`, `c`
      at priority 2: it drops `c`, then returns `a`, so the three values
      become one; the documented `pop` returns `c` and keeps two. */
  lemma PopDiscardsValues<T>(a: T, b: T, c: T)
    ensures var orig := map[1 := [a], 2 := [b, c]];
      var (cur, marked, result) := PopEffect(orig, [1, 2]);
      && Sum([1, 2], orig) == 3
      && result == Some(a) && marked == [2] && cur[1] == [] && cur[2] == [b]
      && Sum(marked, cur) == 1
      && TopPop(orig, [1, 2]).2 == Some(c) && Sum(TopPop(orig, [1, 2]).1, TopPop(orig, [1, 2]).0) == 2
  {
    var orig := map[1 := [a], 2 := [b, c]];
    var keys: seq<nat> := [1, 2];
    assert keys[1..] == [2] && [2][1..] == [];
    assert Marked(keys, orig);
    assert StopAt(orig, keys, 2) == StopAt(orig, keys, 1) == Some(0);
    assert DropLast([b, c]) == [b];
    var cur := DropTop(orig, keys, 0);
    assert DropTop(orig, keys, 1)[2] == [b];
    assert cur[1] == [] && cur[2] == [b];
    assert Unmark(keys, 1) == [2];
    assert Sum([2], orig) == 2;
    assert Sum([2], cur) == 1;
    TopPopSize(orig, keys);
  }

  /** The queue's iterator: the marked priorities from the highest down,
      each with its bucket; every bucket yielded holds a value. */
  method Entries<T>(keys: seq<nat>, buckets: map<nat, seq<T>>) returns (entries: seq<(nat, seq<T>)>)
    requires Increasing(keys) && Marked(keys, buckets)
    ensures |entries| == |keys|
    ensures forall k :: 0 <= k < |entries| ==>
      entries[k] == (keys[|keys| - 1 - k], buckets[keys[|keys| - 1 - k]])
    ensures forall k :: 0 <= k < |entries| ==> entries[k].1 != []
    ensures forall k, l :: 0 <= k < l < |entries| ==> entries[k].0 > entries[l].0
  {
    var length := |keys|;
    entries := [];
    var i := length - 1;
    while i > -1
      invariant -1 <= i < length
      invariant |entries| == length - 1 - i
      invariant forall k :: 0 <= k < |entries| ==> entries[k] == (keys[length - 1 - k], buckets[keys[length - 1 - k]])
    {
      var key := keys[i];
      assert key in keys;
      if key in buckets && buckets[key] != [] {
        entries := entries + [(key, buckets[key])];
      }
      i := i - 1;
    }
  }

  /** `pop`'s loop over the iterator, on the buckets and marked priorities
      it starts from: the new buckets, the new marks and the result. */
  method PopBuckets<T>(orig: map<nat, seq<T>>, keys: seq<nat>)
    returns (cur: map<nat, seq<T>>, marked: seq<nat>, result: Option<T>)
    requires Increasing(keys) && Marked(keys, orig)
    ensures (cur, marked, result) == PopEffect(orig, keys)
  {
    var entries := Entries(keys, orig);
    ghost var n := |keys|;
    cur := orig;
    for k := 0 to |entries|
      invariant cur == DropTop(orig, keys, n - k)
      invariant StopAt(orig, keys, n) == StopAt(orig, keys, n - k)
    {
      assert entries[k] == (keys[n - k - 1], orig[keys[n - k - 1]]);
      var p: nat := entries[k].0;
      var bucket: seq<T> := entries[k].1;
      PopStep(orig, keys, n - k);
      var item := bucket[|bucket| - 1];
      bucket := bucket[..|bucket| - 1];
      cur := cur[p := bucket];
      if |bucket| == 0 {
        assert StopAt(orig, keys, n) == Some(n - k - 1);
        assert item == Bucket(orig, keys[n - k - 1])[0];
        PopEffectStops(orig, keys, n - k - 1);
        return cur, Unmark(keys, p), Some(item);
      }
    }
    assert StopAt(orig, keys, n) == None;
    PopEffectRunsOut(orig, keys);
    return cur, keys, None;
  }

  class PriorityQueue<T> {
    var buckets: map<nat, seq<T>>
    const maxPriority: Option<int>
    var priorities: seq<nat>

    /** The priorities are listed in ascending order, a priority is marked
        exactly when its bucket holds a value, and no bucket lies above the
        bound. */
    ghost predicate Valid()
      reads this
    {
      Consistent(priorities, buckets, maxPriority)
    }

    /** The number of values held. */
    ghost function Size(): nat
      reads this
    {
      Sum(priorities, buckets)
    }

    /** `new PriorityQueue(max)`: no buckets, nothing marked. */
    constructor (max: Option<int>)
      ensures Valid() && maxPriority == max
      ensures buckets == map[] && priorities == [] && Size() == 0
    {
      buckets := map[];
      priorities := [];
      maxPriority := max;
    }

    /** A priority above the bound is refused with a RangeError and nothing
        changes; otherwise the value is appended to its bucket, the priority
        is marked and one more value is held. */
    method Push(priority: nat, value: T) returns (outcome: Outcome)
      requires Valid() && priority < IndexLimit
      modifies this
      ensures Valid()
      ensures maxPriority.Some? && priority > maxPriority.value ==>
        && outcome == RangeError("Max Priority exceeded")
        && buckets == old(buckets) && priorities == old(priorities)
      ensures !(maxPriority.Some? && priority > maxPriority.value) ==>
        && outcome == Pushed
        && buckets == old(buckets)[priority := Bucket(old(buckets), priority) + [value]]
        && priorities == Mark(old(priorities), priority)
        && Size() == old(Size()) + 1
    {
      if maxPriority.Some? && priority > maxPriority.value {
        return RangeError("Max Priority exceeded");
      }
      var bucket := Bucket(buckets, priority);
      bucket := bucket + [value];
      SumUpdate(priorities, buckets, priority, bucket);
      if priority !in priorities {
        SumMark(priorities, buckets[priority := bucket], priority);
      }
      buckets := buckets[priority := bucket];
      priorities := Mark(priorities, priority);
      return Pushed;
    }

    /** Pops the last value of each bucket from the highest priority down,
        until a bucket becomes empty: that priority is unmarked and its value
        returned. When no bucket becomes empty every bucket loses its last
        value and the result is None; an empty queue is left unchanged. */
    method Pop() returns (result: Option<T>)
      requires Valid()
      modifies this
      ensures Valid()
      ensures (buckets, priorities, result) == PopEffect(old(buckets), old(priorities))
    {
      PopKeepsConsistent(buckets, priorities, maxPriority);
      buckets, priorities, result := PopBuckets(buckets, priorities);
    }

    /** `pop` as its documentation describes it: the last value of the
        highest marked bucket is removed and returned, its priority unmarked
        once the bucket is empty; exactly one value goes. */
    method PopTop() returns (result: Option<T>)
      requires Valid()
      modifies this
      ensures Valid()
      ensures (buckets, priorities, result) == TopPop(old(buckets), old(priorities))
      ensures old(priorities) != [] ==> Size() + 1 == old(Size())
    {
      if priorities == [] {
        return None;
      }
      TopPopSize(buckets, priorities);
      ghost var popped := TopPop(buckets, priorities);
      var top := priorities[|priorities| - 1];
      assert top in priorities;
      var bucket := buckets[top];
      result := Some(bucket[|bucket| - 1]);
      bucket := bucket[..|bucket| - 1];
      buckets := buckets[top := bucket];
      if bucket == [] {
        priorities := Unmark(priorities, top);
      }
      assert (buckets, priorities, result) == popped;
    }

    /** The last value of the highest marked priority's bucket, or None on
        an empty queue; nothing changes. */
    method Poll() returns (result: Option<T>)
      requires Valid()
      ensures priorities == [] ==> result == None
      ensures priorities != [] ==>
        var top := buckets[priorities[|priorities| - 1]];
        result == Some(top[|top| - 1])
    {
      var entries := Entries(priorities, buckets);
      if |entries| > 0 {
        var bucket := entries[0].1;
        return Some(bucket[|bucket| - 1]);
      }
      return None;
    }

    /** The sum of the bucket sizes over the iterator. */
    method Length() returns (length: nat)
      requires Valid()
      ensures length == Size()
    {
      var entries := Entries(priorities, buckets);
      ghost var n := |priorities|;
      length := 0;
      for k := 0 to |entries|
        invariant length == Sum(priorities[n - k..], buckets)
      {
        assert priorities[n - k - 1..][1..] == priorities[n - k..];
        length := length + |entries[k].1|;
      }
    }

    /** True exactly when the iterator yields nothing: no priority is marked,
        and no value is held. */
    method IsEmpty() returns (empty: bool)
      requires Valid()
      ensures empty <==> priorities == []
      ensures empty <==> Size() == 0
    {
      var entries := Entries(priorities, buckets);
      if |entries| > 0 {
        assert |buckets[priorities[0]]| > 0;
        return false;
      }
      return true;
    }
  }

  /** A `pop` from a queue whose highest bucket holds one value: that value
      is returned and its priority is the only one unmarked. */
  method PopSingle<T>(queue: PriorityQueue<T>) returns (result: Option<T>)
    requires queue.Valid() && queue.priorities != []
    requires |queue.buckets[queue.priorities[|queue.priorities| - 1]]| == 1
    modifies queue
    ensures queue.Valid()
    ensures var top := old(queue.priorities)[|old(queue.priorities)| - 1];
      && result == Some(old(queue.buckets)[top][0])
      && queue.buckets == old(queue.buckets)[top := []]
      && queue.priorities == old(queue.priorities)[..|old(queue.priorities)| - 1]
  {
    PopSingleTop(queue.buckets, queue.priorities);
    result := queue.Pop();
  }

  /** Marking a priority above every listed one appends it. */
  lemma {:induction false} MarkAbove(keys: seq<nat>, p: nat)
    requires Increasing(keys) && forall q :: q in keys ==> q < p
    ensures Mark(keys, p) == keys + [p]
  {
    if keys != [] {
      var rest := keys[1..];
      assert keys[0] < p by { assert keys[0] in keys; }
      assert Increasing(rest);
      forall q | q in rest
        ensures q < p
      {
        assert q in keys;
      }
      MarkAbove(rest, p);
      assert Mark(keys, p) == [keys[0]] + (rest + [p]);
      assert keys == [keys[0]] + rest;
    }
  }

  /** A `push` at a priority above every marked one, into an unbounded
      queue: a one-value bucket is added and the priority listed last. */
  method PushAbove<T>(queue: PriorityQueue<T>, priority: nat, value: T)
    requires queue.Valid() && queue.maxPriority.None?
    requires forall q :: q in queue.buckets ==> q < priority
    requires priority < IndexLimit
    modifies queue
    ensures queue.Valid() && queue.maxPriority.None?
    ensures queue.buckets == old(queue.buckets)[priority := [value]]
    ensures queue.priorities == old(queue.priorities) + [priority]
  {
    assert Bucket(queue.buckets, priority) + [value] == [value];
    MarkAbove(queue.priorities, priority);
    var _ := queue.Push(priority, value);
  }

  /** The queue of the documented session: values 3, 2, 1 pushed at
      priorities 1, 2, 3. */
  method PushDocumented() returns (queue: PriorityQueue<int>)
    ensures fresh(queue) && queue.Valid()
    ensures queue.priorities == [1, 2, 3]
    ensures queue.buckets == map[1 := [3], 2 := [2], 3 := [1]]
  {
    queue := new PriorityQueue<int>(None);
    PushAbove(queue, 1, 3);
    PushAbove(queue, 2, 2);
    PushAbove(queue, 3, 1);
  }

  /** The documented session: values 3, 2, 1 pushed at priorities 1, 2, 3
      give length 3 and pop as 1, 2, 3, leaving the queue empty. */
  method DocumentedSession() returns (length: nat, first: Option<int>, second: Option<int>, third: Option<int>, empty: bool)
    ensures length == 3 && first == Some(1) && second == Some(2) && third == Some(3) && empty
  {
    var queue := PushDocumented();
    assert queue.priorities[1..] == [2, 3] && queue.priorities[1..][1..] == [3] && [3][1..] == [];
    assert Sum([3], queue.buckets) == 1;
    assert Sum([2, 3], queue.buckets) == 2;
    length := queue.Length();
    first := PopSingle(queue);
    assert queue.priorities == [1, 2];
    second := PopSingle(queue);
    assert queue.priorities == [1];
    third := PopSingle(queue);
    assert queue.priorities == [];
    empty := queue.IsEmpty();
  }
}
