/** Small facts about products and quotients of variables. */
module Arith {

  function Max(a: int, b: int): int {
    if a >= b then a else b
  }

  lemma MulMono(n: int, a: int, b: int)
    requires n >= 0 && a <= b
    ensures n * a <= n * b
  {
  }

  /** A block of size n with a smaller number lies before the block with a larger one. */
  lemma BlockBefore(n: int, a: int, b: int, x: int)
    requires 0 <= x < n && a < b
    ensures a * n + x < b * n
  {
    MulMono(n, a + 1, b);
    assert (a + 1) * n == a * n + n;
  }

  lemma ModBounds(x: int, n: int)
    requires n >= 1
    ensures 0 <= x % n < n
  {
  }

  lemma DivMod(x: int, n: int)
    requires n >= 1
    ensures x == n * (x / n) + x % n && 0 <= x % n < n
  {
  }

  /** The quotient is the number of the block that x is in. */
  lemma DivIs(x: int, n: int, q: int)
    requires n >= 1 && q * n <= x < q * n + n
    ensures x / n == q
  {
    DivMod(x, n);
    var d := x / n;
    assert n * (d + 1) == n * d + n && n * (q + 1) == n * q + n;
    if d < q {
      MulMono(n, d + 1, q);
    } else if d > q {
      MulMono(n, q + 1, d);
    }
  }

  lemma DivMono(x: int, y: int, n: int)
    requires n >= 1 && x <= y
    ensures x / n <= y / n
  {
    DivMod(x, n);
    DivMod(y, n);
    var a, b := x / n, y / n;
    assert n * (b + 1) == n * b + n;
    if a > b {
      MulMono(n, b + 1, a);
    }
  }

  lemma DivShift(x: int, n: int)
    requires n >= 1
    ensures (x - n) / n == x / n - 1
  {
    DivMod(x, n);
    var d := x / n;
    assert n * (d - 1) == n * d - n;
    DivIs(x - n, n, d - 1);
  }

  /** Adding whole blocks does not change the place within a block. */
  lemma ModShift(x: int, n: int)
    requires n >= 1
    ensures (x + n) % n == x % n
  {
    DivMod(x, n);
    DivMod(x + n, n);
    DivShift(x + n, n);
    var d := x / n;
    assert n * (d + 1) == n * d + n;
  }

  /** Numbers less than n apart have different remainders. */
  lemma ModDiffers(a: int, b: int, n: int)
    requires n >= 1 && a < b < a + n
    ensures a % n != b % n
  {
    DivMod(a, n);
    DivMod(b, n);
    DivMono(a, b, n);
    DivShift(a + n, n);
    DivMono(b, a + n, n);
    var d, e := a / n, b / n;
    assert n * (d + 1) == n * d + n;
    assert e == d || e == d + 1;
  }
}
