/** Facts about quotients and remainders that address arithmetic rests on. */
module Arithmetic {
  lemma NonZeroMultiple(n: int, d: int)
    requires d > 0
    ensures n >= 1 ==> n * d >= d
    ensures n <= -1 ==> n * d <= -d
  {
  }

  lemma UniqueQuotient(d: int, q: int, r: int, q': int, r': int)
    requires d > 0 && 0 <= r < d && 0 <= r' < d && q * d + r == q' * d + r'
    ensures q == q' && r == r'
  {
    assert (q - q') * d == r' - r;
    NonZeroMultiple(q - q', d);
  }

  /** Quotient and remainder are unique. */
  lemma DivModUnique(x: int, d: int, q: int, r: int)
    requires d > 0 && x == q * d + r && 0 <= r < d
    ensures x / d == q && x % d == r
  {
    UniqueQuotient(d, q, r, x / d, x % d);
  }

  lemma Distribute(a: int, b: int, c: int)
    ensures (a + b) * c == a * c + b * c
  {
  }

  lemma Associate(a: int, b: int, c: int)
    ensures (a * b) * c == a * (b * c)
  {
  }

  lemma Remainder(x: int, d: int)
    requires d > 0
    ensures x == x / d * d + x % d && 0 <= x % d < d
  {
  }

  /** Dividing by `m * p` is dividing by `p` and then by `m`. */
  lemma DivDiv(x: nat, p: nat, m: nat)
    requires p > 0 && m > 0
    ensures m * p > 0 && x / (m * p) == x / p / m
    ensures x % (m * p) == x / p % m * p + x % p
  {
    var q, r := x / p, x % p;
    var b, c := q / m, q % m;
    Remainder(x, p);
    Remainder(q, m);
    Distribute(b * m, c, p);
    Associate(b, m, p);
    Distribute(c, 1, p);
    MultipleOrder(c + 1, m, p);
    MultipleOrder(0, c, p);
    DivModUnique(x, m * p, b, c * p + r);
  }

  lemma MultipleOrder(a: int, b: int, p: int)
    requires p > 0
    ensures a <= b ==> a * p <= b * p
    ensures a < b ==> a * p + p <= b * p
  {
    Distribute(b - a, a, p);
    NonZeroMultiple(b - a, p);
  }

  /** Moving within one block of size `p` changes only the remainder. */
  lemma SameBlock(a: nat, b: nat, p: nat)
    requires p > 0
    ensures a / p == b / p <==> a - a % p <= b < a - a % p + p
    ensures a / p == b / p ==> b - b % p == a - a % p
  {
    var qa, qb := a / p, b / p;
    assert a == qa * p + a % p && b == qb * p + b % p;
    MultipleOrder(qa, qb, p);
    MultipleOrder(qb, qa, p);
  }

  /** A multiple of a multiple. */
  lemma MultipleOfMultiple(x: nat, m: nat, p: nat)
    requires p > 0
    ensures (x * (m * p)) % p == 0
  {
    assert x * (m * p) == (x * m) * p;
    DivModUnique((x * m) * p, p, x * m, 0);
  }
}
