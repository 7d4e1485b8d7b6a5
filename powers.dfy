/** Powers of two, shared by the tournament draws and the square quadtree. */
module PowersOfTwo {
  /** n is a power of two. */
  predicate PowerOfTwo(n: int)
    decreases n
  {
    n == 1 || (n >= 2 && n % 2 == 0 && PowerOfTwo(n / 2))
  }

  /** A power of two above one is twice a power of two. */
  lemma HalfPowerOfTwo(size: int)
    requires PowerOfTwo(size) && size >= 2
    ensures size == 2 * (size / 2) && PowerOfTwo(size / 2)
  {
  }

  /** Twice a power of two is a power of two. */
  lemma DoublePowerOfTwo(p: int)
    requires PowerOfTwo(p)
    ensures PowerOfTwo(2 * p)
  {
  }

  /** Of two distinct powers of two the larger is at least twice the smaller. */
  lemma {:induction false} PowerOfTwoGap(a: int, b: int)
    requires PowerOfTwo(a) && PowerOfTwo(b) && a < b
    ensures 2 * a <= b
    decreases a
  {
    if a != 1 {
      PowerOfTwoGap(a / 2, b / 2);
    }
  }
}
