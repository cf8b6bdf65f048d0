/** What is asked of a square root on the reals. */
module SquareRoot {

  ghost predicate IsRoot(root: real -> real) {
    forall x :: x >= 0.0 ==> root(x) >= 0.0 && root(x) * root(x) == x
  }
}
