/** Multiples of a stride, by repeated addition. */
module Strides {
  function Multiple(k: nat, stride: nat): nat {
    if k == 0 then 0 else Multiple(k - 1, stride) + stride
  }

  lemma {:induction false} MultipleIsProduct(k: nat, stride: nat)
    ensures Multiple(k, stride) == k * stride
  {
    if k == 0 {
    } else {
      MultipleIsProduct(k - 1, stride);
    }
  }

  lemma {:induction false} MultipleIncreases(j: nat, k: nat, stride: nat)
    requires j < k
    ensures Multiple(j, stride) + stride <= Multiple(k, stride)
    decreases k
  {
    if j < k - 1 {
      MultipleIncreases(j, k - 1, stride);
    }
  }

  lemma MultipleAtLeast(k: nat, stride: nat)
    ensures k > 0 ==> stride <= Multiple(k, stride)
  {
    if k > 0 {
      MultipleIncreases(0, k, stride);
    }
  }
}
