// What several components share.
module Common {

  const PAGE_SIZE: nat := 4096

  datatype Option<T> = None | Some(value: T)

  lemma MulMonotone(a: nat, b: nat, c: nat)
    requires a <= b
    ensures a * c <= b * c
  {
    assert (b - a) * c >= 0;
  }

  lemma QuotientAtLeast(n: nat, d: nat, k: nat)
    requires d > 0
    ensures k * d <= n ==> n / d >= k
  {
    if n / d < k {
      MulMonotone(n / d + 1, k, d);
    }
  }
}
