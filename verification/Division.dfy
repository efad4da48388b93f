/** Quotients and remainders with divisors that are not literals. */
module Division {
  lemma NonZeroMultiple(e: int, q: nat)
    requires q > 0
    ensures e == 0 || e * q >= q || e * q + q <= 0
  {
  }

  lemma ModUnique(a: int, q: nat, d: int, r: int)
    requires q > 0 && a == d * q + r && 0 <= r < q
    ensures a % q == r && a / q == d
  {
    var e := a / q - d;
    assert e * q == r - a % q;
    NonZeroMultiple(e, q);
  }

  lemma HalfThenQuotient(a: nat, q: nat)
    requires q > 0
    ensures a / (2 * q) == a / 2 / q
  {
    var x := a / 2;
    var y, r := x / q, x % q;
    assert x == y * q + r;
    ModUnique(a, 2 * q, y, 2 * r + a % 2);
  }

  lemma ByteThenQuotient(a: nat, q: nat)
    requires q > 0
    ensures a / (256 * q) == a / 256 / q
  {
    var x := a / 256;
    var y, r := x / q, x % q;
    assert x == y * q + r;
    ModUnique(a, 256 * q, y, 256 * r + a % 256);
  }
}
