/** Small shared vocabulary: an optional value and the integer minimum. */
module Basics {

  /** Python's `None` versus a present value. */
  datatype Option<+T> = None | Some(value: T)

  /** Some element of a non-empty set. */
  lemma Pick<T>(s: set<T>) returns (x: T)
    requires s != {}
    ensures x in s
  {
    // Never taken: this only tells the verifier the set is non-empty before `:|`.
    if forall z :: z !in s {
      assert false;
    }
    x :| x in s;
  }

  function Min(a: int, b: int): int
  {
    if a <= b then a else b
  }
}
