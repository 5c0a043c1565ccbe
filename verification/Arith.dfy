/** Division with remainder, for divisors that are variables. */
module Arith {

  lemma MulApart(d: nat, a: int, b: int)
    requires a > b
    ensures d * a >= d * b + d
  {
    assert d * (a - b - 1) >= 0;
    assert d * (a - b - 1) == d * a - d * b - d;
  }

  lemma MulCancel(d: nat, a: nat, b: nat)
    requires d * a < d * b
    ensures a < b
  {
    if a > b { MulApart(d, a, b); }
  }

  lemma ModUnique(x: int, d: nat, q: int, r: int)
    requires 0 <= r < d && x == d * q + r
    ensures x / d == q && x % d == r
  {
    var q' := x / d;
    if q > q' {
      MulApart(d, q, q');
    } else if q < q' {
      MulApart(d, q', q);
    }
  }

  lemma DivMod(x: nat, d: nat)
    requires d > 0
    ensures x == d * (x / d) + x % d
  {
  }

  lemma ModSmall(x: nat, d: nat)
    requires x < d
    ensures x % d == x && x / d == 0
  {
  }

  lemma ModShift(x: int, k: int, d: nat)
    requires d > 0
    ensures (x + d * k) % d == x % d && (x + d * k) / d == x / d + k
  {
    assert d * (x / d + k) == d * (x / d) + d * k;
    ModUnique(x + d * k, d, x / d + k, x % d);
  }

  lemma ModAdd(x: int, d: nat)
    requires d > 0
    ensures (x + d) % d == x % d && (x + d) / d == x / d + 1
  {
    ModShift(x, 1, d);
  }

  lemma ModOfMod(x: int, y: int, d: nat)
    requires d > 0
    ensures (x % d + y) % d == (x + y) % d
  {
    ModShift(x % d + y, x / d, d);
  }

  /** Two numbers less than d apart with the same remainder are equal. */
  lemma SameCell(a: int, b: int, d: nat)
    requires d > 0 && a % d == b % d && a <= b < a + d
    ensures a == b
  {
    if b / d > a / d {
      MulApart(d, b / d, a / d);
    } else if b / d < a / d {
      MulApart(d, a / d, b / d);
    }
  }

  lemma NextInCell(a: int, b: int, d: nat)
    requires d > 0 && a % d == b % d && a < b
    ensures a + d <= b
  {
    if b < a + d { SameCell(a, b, d); }
  }
}
