/**
  Integer helpers shared by the host and kernel models: rounded-up
  division, monotonicity of multiplication, and unsigned 32-bit wrap-around.
*/
module Arith {

  /** `(n + d - 1) / d`: the least multiple count of `d` that reaches `n`. */
  function CeilDiv(n: nat, d: nat): (q: nat)
    requires d > 0
    ensures n <= q * d < n + d
  {
    var q := (n + d - 1) / d;
    assert (n + d - 1) == q * d + (n + d - 1) % d;
    q
  }

  /** Any `q` with `q * d >= n > (q - 1) * d` is the rounded-up quotient. */
  lemma CeilDivUnique(n: nat, d: nat, q: nat)
    requires d > 0 && n <= q * d && (q - 1) * d < n
    ensures q == CeilDiv(n, d)
  {
    var c := CeilDiv(n, d);
    if q < c {
      MulMonotone(q, c - 1, d);
    } else if c < q {
      MulMonotone(c, q - 1, d);
    }
  }

  /** Multiplying by the same factor keeps the order. */
  lemma MulMonotone(a: nat, b: nat, m: nat)
    requires a <= b
    ensures a * m <= b * m
  {
  }

  /** A product of three factors does not depend on their grouping or order. */
  lemma MulRotate(a: int, b: int, c: int)
    ensures a * (b * c) == a * c * b
  {
  }

  /** Multiplication distributes over a sum. */
  lemma MulDistrib(a: int, b: int, m: int)
    ensures (a + b) * m == a * m + b * m
  {
  }

  /** A whole number of `d`-sized pages is a multiple of `d`. */
  lemma MulMod(q: nat, d: nat)
    requires d > 0
    ensures (q * d) % d == 0
  {
    var x := q * d;
    var k, m := x / d, x % d;
    assert (q - k) * d == m;
    MulSign(q - k, d);
  }

  /** `a = q * d + r` with `0 <= r < d` determines the quotient and the remainder. */
  lemma DivModUnique(a: nat, d: nat, q: nat, r: nat)
    requires d > 0 && r < d && a == q * d + r
    ensures a / d == q && a % d == r
  {
    var q', r' := a / d, a % d;
    assert (q - q') * d == r' - r;
    MulSign(q - q', d);
  }

  /** Dividing by `a` and then by `b` splits `r` into a multiple of `a * b`, a multiple of `a` below it, and a remainder. */
  lemma DivDivMod(r: nat, a: nat, b: nat)
    requires a > 0 && b > 0
    ensures r == r / a / b * (a * b) + (r / a % b * a + r % a)
  {
    var q := r / a;
    assert r == q * a + r % a;
    assert q == q / b * b + q % b;
    MulDistrib(q / b * b, q % b, a);
    MulRotate(q / b, a, b);
  }

  /**
    `a * b` as `b` repeated additions of `a`. Grid sizes and row-major
    addresses use it so that unfolding them stays linear; `TimesIsProduct` turns it back into `*`.
  */
  function Times(a: int, b: nat): (p: int)
    ensures a >= 0 ==> p >= 0
  {
    if b == 0 then 0 else Times(a, b - 1) + a
  }

  lemma {:induction false} TimesIsProduct(a: int, b: nat)
    ensures Times(a, b) == a * b
  {
    if b > 0 {
      TimesIsProduct(a, b - 1);
      MulDistrib(b - 1, 1, a);
    }
  }

  /** A non-zero multiple of `d` is at least `d` away from zero. */
  lemma MulSign(a: int, d: nat)
    ensures a >= 1 ==> a * d >= d
    ensures a <= -1 ==> a * d + d <= 0
  {
  }

  /** The value of an unsigned 32-bit result: `x` taken modulo `2^32`. */
  function Wrap32(x: int): (w: nat)
    ensures w < 0x1_0000_0000
    ensures 0 <= x < 0x1_0000_0000 ==> w == x
    ensures x < 0 && -0x1_0000_0000 <= x ==> w == x + 0x1_0000_0000
  {
    x % 0x1_0000_0000
  }

  /** The smaller of two counts, `std::min`. */
  function Min(a: int, b: int): int
  {
    if a <= b then a else b
  }
}
