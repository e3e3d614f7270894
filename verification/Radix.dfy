/** Mixed-radix arithmetic: the facts that turn shifts and masks into division and remainder. */
module Radix {

  function Pow2(n: nat): (r: nat)
    ensures r >= 1
  {
    if n == 0 then 1 else 2 * Pow2(n - 1)
  }

  /** Integer division, `x >> n` for `d == 1 << n`. */
  function Div(x: nat, d: nat): (q: nat)
    requires d >= 1
    ensures q * d <= x < q * d + d
  {
    if x < d then 0 else
      var q := Div(x - d, d);
      assert (q + 1) * d == q * d + d;
      q + 1
  }

  /** The remainder, `x & (d - 1)` for `d` a power of two. */
  function Mod(x: nat, d: nat): (r: nat)
    requires d >= 1
    ensures r < d && x == Div(x, d) * d + r
  {
    x - Div(x, d) * d
  }

  lemma {:induction false} Pow2Add(a: nat, b: nat)
    ensures Pow2(a + b) == Pow2(a) * Pow2(b)
  {
    if a > 0 {
      Pow2Add(a - 1, b);
      assert Pow2(a + b) == 2 * (Pow2(a - 1) * Pow2(b));
    }
  }

  lemma {:induction false} Pow2Monotone(a: nat, b: nat)
    requires a <= b
    ensures Pow2(a) <= Pow2(b)
  {
    if a < b {
      Pow2Monotone(a, b - 1);
    }
  }

  lemma Pow2At16()
    ensures Pow2(16) == 0x1_0000
    ensures Pow2(15) == 0x8000
  {
    assert Pow2(8) == 0x100;
    assert Pow2(7) == 0x80;
    Pow2Add(8, 8);
    Pow2Add(8, 7);
  }

  lemma Pow2At64()
    ensures Pow2(64) == 0x1_0000_0000_0000_0000
    ensures Pow2(63) == 0x8000_0000_0000_0000
  {
    hide *;
    Pow2At16();
    Pow2Add(16, 16);
    Pow2Add(16, 15);
    Pow2Add(32, 32);
    Pow2Add(32, 31);
  }

  lemma MulMonotone(a: int, b: int, d: int)
    requires a <= b && 0 <= d
    ensures a * d <= b * d
  {}

  /** Digit-wise comparison decides the comparison of two-digit numbers. */
  lemma DigitOrder(q: int, r: int, q': int, r': int, d: int)
    requires 0 <= r < d && 0 <= r' < d
    ensures q * d + r < q' * d + r' <==> q < q' || (q == q' && r < r')
  {
    if q < q' {
      MulMonotone(q + 1, q', d);
      assert (q + 1) * d == q * d + d;
    } else if q > q' {
      MulMonotone(q' + 1, q, d);
      assert (q' + 1) * d == q' * d + d;
    }
  }

  /** A two-digit number has only one pair of digits. */
  lemma DivModOf(q: nat, r: nat, d: nat)
    requires r < d
    ensures Div(q * d + r, d) == q && Mod(q * d + r, d) == r
  {
    hide *;
    var x := q * d + r;
    DigitOrder(q, r, Div(x, d), Mod(x, d), d);
    DigitOrder(Div(x, d), Mod(x, d), q, r, d);
  }

  /** `Div` and `Mod` are the language's own quotient and remainder. */
  lemma DivIsQuotient(x: nat, d: nat)
    requires 1 <= d
    ensures Div(x, d) == x / d && Mod(x, d) == x % d
  {
    hide *;
    var q, r := x / d, x % d;
    assert x == q * d + r && 0 <= r < d;
    DigitOrder(Div(x, d), Mod(x, d), q, r, d);
    DigitOrder(q, r, Div(x, d), Mod(x, d), d);
  }

  lemma DivMonotone(x: nat, y: nat, d: nat)
    requires x <= y && 1 <= d
    ensures Div(x, d) <= Div(y, d)
  {
    hide *;
    DigitOrder(Div(y, d), Mod(y, d), Div(x, d), Mod(x, d), d);
  }

  /** The Galois connection of `/ d` and `* d`. */
  lemma DivBound(x: nat, q: nat, d: nat)
    requires 1 <= d
    ensures q <= Div(x, d) <==> q * d <= x
  {
    hide *;
    DigitOrder(Div(x, d), Mod(x, d), q, 0, d);
  }
}
