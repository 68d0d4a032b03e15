/** `binarySearch` (binary-search.ts): a logarithmic membership test on a list
    sorted ascending by key. Elements are compared by key, never by identity. */
module BinarySearching {
  import opened Ordering

  /** Some element of `list` has the key `k`. */
  ghost predicate HasKey<T>(key: T -> int, list: seq<T>, k: int)
  {
    exists i :: 0 <= i < |list| && key(list[i]) == k
  }

  /** `list` is sorted ascending by key. */
  ghost predicate SortedByKey<T>(key: T -> int, list: seq<T>)
  {
    forall i, j :: 0 <= i < j < |list| ==> key(list[i]) <= key(list[j])
  }

  /** Narrows `[l, r]` around the probe `(l + r) / 2` until the probe's key
      equals the target's key (true) or the window is empty (false). A true
      answer is always witnessed, sorted or not; on a sorted list the answer
      is exact. */
  method BinarySearch<T>(list: seq<T>, target: T, extractor: T -> int) returns (found: bool)
    ensures found ==> HasKey(extractor, list, extractor(target))
    ensures SortedByKey(extractor, list) ==> (found <==> HasKey(extractor, list, extractor(target)))
    ensures list == [] ==> !found
  {
    var l: int := 0;
    var r: int := |list| - 1;
    var targetValue := extractor(target);
    while l <= r
      invariant 0 <= l <= r + 1 <= |list|
      invariant SortedByKey(extractor, list) ==>
        forall i :: 0 <= i < |list| && extractor(list[i]) == targetValue ==> l <= i <= r
      decreases r - l
    {
      var p := (l + r) / 2;
      var mid := list[p];
      var comparer := extractor(mid);
      var diff := targetValue - comparer;
      if diff == 0 {
        return true;
      }
      if diff < 0 {
        r := p - 1;
      } else {
        l := p + 1;
      }
    }
    return false;
  }

  /** The halving probe `(l + r) >>> 1` is `(l + r) / 2` for the indices of
      any list of at most 2^31 elements. */
  lemma ProbeIsHalf(l: nat, r: nat)
    requires l + r < 0x1_0000_0000
    ensures (l + r) % 0x1_0000_0000 / 2 == (l + r) / 2
  {
  }

  /** `binarySearch([1, 2, 3, 4], 3)` is true and `binarySearch([1, 2, 3, 4], 5)`
      is false. */
  method SearchNumbers() returns (three: bool, five: bool)
    ensures three && !five
  {
    var list := [1, 2, 3, 4];
    assert SortedByKey(Identity, list);
    assert Identity(list[2]) == 3;
    three := BinarySearch(list, 3, Identity);
    five := BinarySearch(list, 5, Identity);
  }

  /** Records match by key: a different record with Dave's id is found too. */
  method SearchRecordsById() returns (dave: bool, sameId: bool)
    ensures dave && sameId
  {
    var list := [Person(1, "Jeff"), Person(2, "Steve"), Person(3, "Dave"), Person(4, "Alex")];
    var id := (p: Person) => p.id;
    assert SortedByKey(id, list);
    assert id(list[2]) == 3;
    dave := BinarySearch(list, Person(3, "Dave"), id);
    sameId := BinarySearch(list, Person(3, "Someone else"), id);
  }
}
