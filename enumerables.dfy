/** The `IEnumerable<T>` extension used by the Forest library. */
module Enumerables {

  /**
   * `Concat(self, item)`: the elements of `self` in order, then `item`.
   * Sequences are values, so `self` is left as it was.
   */
  function Concat<T>(self: seq<T>, item: T): (r: seq<T>)
    ensures |r| == |self| + 1
    ensures r[..|self|] == self
    ensures r[|self|] == item
    ensures forall i :: 0 <= i < |self| ==> r[i] == self[i]
  {
    self + [item]
  }
}
