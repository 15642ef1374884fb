/** Octets, and the division that takes them apart. */
module Octets {
  /** unsigned char */
  type byte = x: int | 0 <= x < 256

  lemma DivMod(n: nat, d: nat, q: nat, r: nat)
    requires r < d && n == d * q + r
    ensures n / d == q && n % d == r
  {
    Unique(d, q, n / d, r, n % d);
  }

  lemma Unique(d: int, q: int, p: int, r: int, s: int)
    requires 0 <= r < d && 0 <= s < d && d * q + r == d * p + s
    ensures q == p && r == s
  {
    assert d * (q - p) == s - r;
    Multiple(d, q - p);
  }

  lemma Multiple(d: int, k: int)
    requires d > 0
    ensures (k >= 1 ==> d * k >= d) && (k <= -1 ==> d * k <= -d)
  {
  }
}
