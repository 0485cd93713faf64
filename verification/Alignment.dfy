/** Whole words of four bytes, and the ALIGN4 macro of rpc_serializer.h, without wrap-around. */
module Alignment {

  predicate Whole(n: int) {
    n % 4 == 0
  }

  lemma WholeSum(a: int, b: int)
    ensures Whole(a) && Whole(b) ==> Whole(a + b) && Whole(a - b)
  {}

  lemma WholeTimes(n: int)
    ensures Whole(4 * n)
  {}

  function Align4(n: nat): (r: nat)
    ensures n <= r < n + 4 && Whole(r)
  {
    (n + 3) / 4 * 4
  }
}
