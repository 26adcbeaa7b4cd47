/** Facts about Euclidean remainder that the carousel and the lightbox use. */
module Modular {
  /** `((x mod n) + 1) mod n == (x + 1) mod n`. */
  lemma ModSucc(x: int, n: nat)
    requires n > 0
    ensures ((x % n) + 1) % n == (x + 1) % n
  {
    var q := x / n;
    assert x == q * n + x % n;
    assert x + 1 == q * n + (x % n + 1);
    ModShift(x % n + 1, q, n);
  }

  lemma ModShift(y: int, q: int, n: nat)
    requires n > 0
    ensures (q * n + y) % n == y % n
  {
    var d := y / n;
    assert y == d * n + y % n;
    assert q * n + y == (q + d) * n + y % n;
    ModUnique(q * n + y, q + d, y % n, n);
  }

  /** The remainder is the one `r` in `[0, n)` with `x == k·n + r`. */
  lemma ModUnique(x: int, k: int, r: int, n: nat)
    requires n > 0 && 0 <= r < n && x == k * n + r
    ensures x % n == r
  {
    var k', r' := x / n, x % n;
    assert x == k' * n + r';
    assert (k - k') * n == r' - r;
    if k > k' {
      MulAtLeast(k - k', n);
    } else if k < k' {
      MulAtLeast(k' - k, n);
    }
  }

  lemma MulAtLeast(a: int, n: nat)
    requires a >= 1
    ensures a * n >= n
  {
    assert a * n == (a - 1) * n + n;
    assert (a - 1) * n >= 0;
  }
}
