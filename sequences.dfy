/** Facts about sequence concatenation that the proofs of the other modules cite by name. */
module Sequences {
  lemma Associative<T>(x: seq<T>, y: seq<T>, z: seq<T>)
    ensures x + y + z == x + (y + z)
  {
  }
}
