/** Small facts about Euclidean division used by several days. */
module Arithmetic {
  /** Rust's `%` on signed integers: the remainder takes the sign of the dividend. */
  function Rem(a: int, b: int): (r: int)
    requires b > 0
    ensures -b < r < b
    ensures a >= 0 ==> r == a % b
  {
    if a >= 0 then a % b else -((-a) % b)
  }

  /** Rust's `/` on signed integers: the quotient truncates toward zero. */
  function Quot(a: int, b: int): int
    requires b > 0
  {
    if a >= 0 then a / b else -((-a) / b)
  }

  /** Quotient and remainder are unique: any split `x == d * q + r` with `r < d` gives `x % d == r`. */
  lemma DivModUnique(x: nat, d: nat, q: nat, r: nat)
    requires d >= 1 && x == d * q + r && r < d
    ensures x % d == r && x / d == q
  {
    var q', r' := x / d, x % d;
    assert x == d * q' + r';
    if q > q' {
      MulAtLeast(d, q - q');
    } else if q < q' {
      MulAtLeast(d, q' - q);
    }
  }

  lemma MulAtLeast(d: nat, k: nat)
    requires k >= 1
    ensures d * k >= d
  {
  }

  /** Counting modulo `n`: the successor of a residue wraps to 0 at `n`. */
  lemma ModNext(s: nat, n: nat)
    requires n > 0
    ensures (s + 1) % n == if s % n + 1 == n then 0 else s % n + 1
  {
    var q, r := s / n, s % n;
    assert s == n * q + r;
    if r + 1 == n {
      assert s + 1 == n * (q + 1) + 0;
      DivModUnique(s + 1, n, q + 1, 0);
    } else {
      DivModUnique(s + 1, n, q, r + 1);
    }
  }

  /** Taking one divisor away leaves the remainder as it was. */
  lemma ModSub(n: nat, p: nat)
    requires 0 < p <= n
    ensures n % p == (n - p) % p
  {
    var q, r := (n - p) / p, (n - p) % p;
    assert n == p * (q + 1) + r;
    DivModUnique(n, p, q + 1, r);
  }
}
