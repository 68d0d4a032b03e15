/** Keys and the two ordering directions shared by the Min/Max variants of the
    heap and of the extremum-tracking stack, and an Option type for
    "undefined" results. */
module Ordering {

  datatype Option<T> = None | Some(value: T)

  /** The extractor used for plain numbers: a number is its own key. */
  function Identity(x: int): int { x }

  /** A record keyed by its `id` field, as in the documentation examples. */
  datatype Person = Person(id: int, name: string)

  /** Min: smaller keys come first (MinHeap, MinStack); Max: larger keys come first. */
  datatype Direction = Min | Max

  /** `a` may stand before `b` in `d`'s order: `a <= b` for Min, `a >= b` for Max. */
  predicate AtLeastAsExtreme(d: Direction, a: int, b: int)
  {
    match d
    case Min => a <= b
    case Max => a >= b
  }

  /** `a` is strictly more extreme than `b`: `a < b` for Min, `a > b` for Max. */
  predicate MoreExtreme(d: Direction, a: int, b: int)
  {
    match d
    case Min => a < b
    case Max => a > b
  }

  lemma MoreExtremeIsNotAtLeast(d: Direction, a: int, b: int)
    ensures MoreExtreme(d, a, b) <==> !AtLeastAsExtreme(d, b, a)
    ensures MoreExtreme(d, a, b) ==> a != b
    ensures AtLeastAsExtreme(d, a, b) && AtLeastAsExtreme(d, b, a) ==> a == b
  {
  }

  lemma AtLeastTransitive(d: Direction, a: int, b: int, c: int)
    requires AtLeastAsExtreme(d, a, b) && AtLeastAsExtreme(d, b, c)
    ensures AtLeastAsExtreme(d, a, c)
  {
  }
}
