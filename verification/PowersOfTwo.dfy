/** Powers of two, which the sources test and mask with bit operations. */
module PowersOfTwo {
  predicate PowerOfTwo(n: nat) {
    n == 1 || (n > 1 && n % 2 == 0 && PowerOfTwo(n / 2))
  }

  lemma Twice(n: nat)
    requires PowerOfTwo(n)
    ensures PowerOfTwo(2 * n)
  {
  }

  /** Four doublings. */
  lemma TimesSixteen(n: nat)
    requires PowerOfTwo(n)
    ensures PowerOfTwo(16 * n)
  {
    assert PowerOfTwo(2 * n);
    assert PowerOfTwo(4 * n);
    assert PowerOfTwo(8 * n);
  }

  /** There is no power of two between one and its double. */
  lemma {:induction false} NextPower(m: nat, n: nat)
    requires PowerOfTwo(m) && PowerOfTwo(n) && m < n
    ensures 2 * m <= n
  {
    if m > 1 {
      NextPower(m / 2, n / 2);
    }
  }
}
