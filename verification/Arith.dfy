/** Integer facts the solver does not find by itself, and Rust's truncating division. */
module Arith {

  lemma MulMono(d: nat, a: int, b: int)
    requires a <= b
    ensures d * a <= d * b
  {
    assert d * (b - a) >= 0;
  }

  /** Quotient and remainder are determined by the division equation. */
  lemma UniqueRemainder(n: int, d: nat, q: int, r: nat)
    requires d > 0 && n == d * q + r && r < d
    ensures n / d == q && n % d == r
  {
    var q', r' := n / d, n % d;
    assert n == d * q' + r' && 0 <= r' < d;
    assert d * (q + 1) == d * q + d && d * (q' + 1) == d * q' + d;
    if q' > q {
      MulMono(d, q + 1, q');
    } else if q' < q {
      MulMono(d, q' + 1, q);
    }
  }

  lemma MultipleHasNoRemainder(d: nat, q: int)
    requires d > 0
    ensures (d * q) % d == 0 && (d * q) / d == q
  {
    UniqueRemainder(d * q, d, q, 0);
  }

  /** Of two multiples of d the smaller one is not after the predecessor of the greater. */
  lemma StepDown(a: int, b: int, d: nat)
    requires d > 0 && a % d == 0 && b % d == 0 && a < b
    ensures a <= b - d && (b - d) % d == 0
  {
    assert a == d * (a / d) && b == d * (b / d);
    assert d * (a / d + 1) == d * (a / d) + d && d * (b / d - 1) == d * (b / d) - d;
    if b / d <= a / d {
      MulMono(d, b / d, a / d);
    }
    MulMono(d, a / d + 1, b / d);
    MultipleHasNoRemainder(d, b / d - 1);
  }

  lemma SumIsMultiple(a: int, b: int, d: nat)
    requires d > 0 && a % d == 0 && b % d == 0
    ensures (a + b) % d == 0
  {
    assert a == d * (a / d) && b == d * (b / d) && a + b == d * (a / d + b / d);
    MultipleHasNoRemainder(d, a / d + b / d);
  }

  lemma DifferenceIsMultiple(a: int, b: int, d: nat)
    requires d > 0 && a % d == 0 && b % d == 0
    ensures (a - b) % d == 0
  {
    assert a == d * (a / d) && b == d * (b / d) && a - b == d * (a / d - b / d);
    MultipleHasNoRemainder(d, a / d - b / d);
  }

  /** Rust's `/` on signed integers: toward zero. */
  function TruncDiv(n: int, d: int): (q: int)
    requires d != 0
  {
    if (n >= 0) == (d > 0) then Abs(n) / Abs(d) else -(Abs(n) / Abs(d))
  }

  /** Rust's `%` on signed integers: the sign of the dividend. */
  function TruncMod(n: int, d: int): (r: int)
    requires d != 0
  {
    if n >= 0 then n % Abs(d) else -(-n % Abs(d))
  }

  function Abs(n: int): (a: nat)
    ensures a == n || a == -n
  {
    if n < 0 then -n else n
  }
}
