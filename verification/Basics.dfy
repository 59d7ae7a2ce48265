/** What several parts of the model share. */
module Basics {
  function Abs(x: int): nat { if x < 0 then -x else x }

  ghost predicate Distinct(xs: seq<nat>) {
    forall i, j :: 0 <= i < j < |xs| ==> xs[i] != xs[j]
  }
}
