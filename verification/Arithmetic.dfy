/** The few facts about products and remainders by a variable that the ring's proofs need. */
module Arithmetic {
  lemma {:induction false} MultipleIsAtLeastOne(x: nat, d: nat)
    requires x > 0
    ensures x * d >= d
  {
    if x > 1 {
      MultipleIsAtLeastOne(x - 1, d);
      assert x * d == (x - 1) * d + d;
    }
  }

  lemma SmallMultipleIsZero(x: int, d: int)
    requires d > 0 && -d < x * d < d
    ensures x == 0
  {
    if x > 0 {
      MultipleIsAtLeastOne(x, d);
    } else if x < 0 {
      assert (-x) * d == -(x * d);
      MultipleIsAtLeastOne(-x, d);
    }
  }

  lemma QuotientAndRemainder(total: nat, q: nat, d: nat, r: nat)
    requires d > 0 && r < d && total == q * d + r
    ensures total / d == q && total % d == r
  {
    assert total == (total / d) * d + total % d;
    assert (q - total / d) * d == total % d - r;
    SmallMultipleIsZero(q - total / d, d);
  }

  lemma OneMoreMultiple(x: nat, d: nat)
    ensures (x + 1) * d == x * d + d
  {
  }

  /** A cursor that wraps at most once. */
  lemma WrapOnce(x: nat, k: nat)
    requires 0 < k && x < 2 * k
    ensures x % k == if x < k then x else x - k
  {
    if x >= k {
      QuotientAndRemainder(x, 1, k, x - k);
    } else {
      QuotientAndRemainder(x, 0, k, x);
    }
  }
}
