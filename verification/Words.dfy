/** The widths of the source's machine words, and the arithmetic of a counter that wraps around. */
module Words {
  const TWO_31: nat := 0x8000_0000
  const TWO_32: nat := 0x1_0000_0000
  const TWO_64: nat := 0x1_0000_0000_0000_0000

  lemma SmallMultiple(k: int, m: int)
    requires m > 0 && -m < k * m < m
    ensures k == 0
  {
    assert k >= 1 ==> k * m >= m;
    assert k <= -1 ==> k * m <= -1 * m;
  }

  lemma ModOfSum(q: nat, m: nat, s: nat)
    requires s < m
    ensures (q * m + s) % m == s
  {
    var t := q * m + s;
    assert t == t / m * m + t % m;
    assert (t / m - q) * m == t / m * m - q * m;
    SmallMultiple(t / m - q, m);
  }

  /** Two counts less than `n` apart fall on different places of a circle of `n`. */
  lemma ModDiffers(n: nat, a: nat, b: nat)
    requires a < b < a + n
    ensures a % n != b % n
  {
    var x, y := a / n, b / n;
    assert a == x * n + a % n && b == y * n + b % n;
    assert (y - x) * n == y * n - x * n;
    if a % n == b % n {
      SmallMultiple(y - x, n);
    }
  }
}
