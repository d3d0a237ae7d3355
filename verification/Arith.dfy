/** Division and remainder by a divisor that is not a constant. */
module Arith {

  function Pow2(k: nat): (p: nat)
    ensures p > 0
  {
    if k == 0 then 1 else 2 * Pow2(k - 1)
  }

  lemma Distribute(a: int, b: int, d: int)
    ensures (a - b) * d == a * d - b * d && (a + b) * d == a * d + b * d
  {
  }

  lemma AtLeastOne(a: int, d: nat)
    requires a >= 1
    ensures a * d >= d
  {
    if a > 1 {
      AtLeastOne(a - 1, d);
      Distribute(a - 1, 1, d);
    }
  }

  /** Quotient and remainder are the only ones there are. */
  lemma ModUnique(x: int, d: nat, q: int, r: int)
    requires d > 0 && x == q * d + r && 0 <= r < d
    ensures x % d == r && x / d == q
  {
    var q', r' := x / d, x % d;
    assert x == q' * d + r';
    Distribute(q, q', d);
    Distribute(q', q, d);
    if q > q' { AtLeastOne(q - q', d); }
    if q < q' { AtLeastOne(q' - q, d); }
  }

  /** Indices less than `d` apart have different remainders. */
  lemma ModDistinct(a: nat, b: nat, d: nat)
    requires d > 0 && a < b < a + d
    ensures a % d != b % d
  {
    var q, r := a / d, a % d;
    assert a == q * d + r;
    if r + (b - a) < d {
      ModUnique(b, d, q, r + (b - a));
    } else {
      Distribute(q, 1, d);
      ModUnique(b, d, q + 1, r + (b - a) - d);
    }
  }

  lemma {:induction false} Pow2Sum(a: nat, b: nat)
    ensures Pow2(a + b) == Pow2(a) * Pow2(b)
  {
    if a > 0 {
      Pow2Sum(a - 1, b);
      assert Pow2(a + b) == 2 * Pow2(a - 1 + b) && Pow2(a) == 2 * Pow2(a - 1);
      hide Pow2;
      Associate(2, Pow2(a - 1), Pow2(b));
    }
  }

  /** A remainder survives first taking the remainder by a multiple of the divisor. */
  lemma ModOfMod(x: nat, c: nat, d: nat)
    requires c > 0 && d > 0
    ensures c * d > 0 && (x % (c * d)) % d == x % d
  {
    AtLeastOne(c, d);
    var m := c * d;
    var q, r := x / m, x % m;
    var q', r' := r / d, r % d;
    assert x == q * m + r && r == q' * d + r';
    Associate(q, c, d);
    Distribute(q * c, q', d);
    assert x == (q * c + q') * d + r';
    ModUnique(x, d, q * c + q', r');
  }

  lemma Associate(a: int, b: int, c: int)
    ensures a * (b * c) == (a * b) * c
  {
  }

  // ---------------------------------------------------------------- counters

  const TWO_TO_THE_64 := 0x1_0000_0000_0000_0000

  /** A uint64_t counter. */
  function Wrap(n: int): nat { n % TWO_TO_THE_64 }

  lemma CountUp(n: nat)
    ensures Wrap(Wrap(n) + 1) == Wrap(n + 1)
  {
  }

  lemma CountDown(n: nat)
    ensures Wrap(Wrap(n) - 1) == Wrap(n - 1)
  {
  }
}
