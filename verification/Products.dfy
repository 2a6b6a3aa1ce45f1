/** Products under a name, so that a proof can treat them as opaque terms and use only the
    laws it needs. */
module Products {
  function Abs(x: real): real {
    if x < 0.0 then -x else x
  }

  function Mul(x: real, y: real): real {
    x * y
  }

  function MulInt(x: int, y: int): int {
    x * y
  }

  lemma Halves(d: real, x: real)
    requires d > 0.0 && -0.5 <= x <= 0.5
    ensures -0.5 * d <= Mul(d, x) <= 0.5 * d
  {
    assert Mul(d, 0.5) == 0.5 * d && Mul(d, -0.5) == -0.5 * d;
    hide Mul;
    Positive(d, 0.5 - x);
    Positive(d, x + 0.5);
    Diff(d, 0.5, x);
    Diff(d, x, -0.5);
  }

  lemma Diff(d: real, x: real, y: real)
    ensures Mul(d, x - y) == Mul(d, x) - Mul(d, y)
  {}

  lemma Exchange(a: real, b: real, t: real)
    ensures Mul(b, Mul(a, t)) == Mul(a, Mul(b, t))
  {}

  lemma DiffInt(d: int, x: int, y: int)
    ensures MulInt(d, x - y) == MulInt(d, x) - MulInt(d, y)
    ensures MulInt(x - y, d) == MulInt(x, d) - MulInt(y, d)
  {}

  lemma AsReal(x: int, y: int)
    ensures MulInt(x, y) as real == Mul(x as real, y as real)
  {}

  lemma Multiples(n: int, d: int)
    requires n >= 1
    ensures d >= 1 ==> MulInt(n, d) >= n
    ensures d <= -1 ==> MulInt(n, d) <= -n
  {}

  lemma DivMod(x: int, n: int)
    requires n >= 1
    ensures x == MulInt(n, x / n) + x % n && 0 <= x % n < n
  {}

  lemma Positive(d: real, x: real)
    requires d > 0.0
    ensures (Mul(d, x) > 0.0 <==> x > 0.0) && (Mul(d, x) == 0.0 <==> x == 0.0)
  {}

  lemma Quotient(x: real, d: real)
    requires d != 0.0
    ensures Mul(d, x / d) == x
  {}

  /** Division with remainder is unique. */
  lemma UniqueRemainder(x: int, n: int, q: int, r: int)
    requires n >= 1 && x == MulInt(n, q) + r && 0 <= r < n
    ensures x % n == r && x / n == q
  {
    hide MulInt;
    DivMod(x, n);
    DiffInt(n, x / n, q);
    Multiples(n, x / n - q);
  }

  lemma RemainderOf(k: int, m: int, n: int)
    requires n >= 1
    ensures (MulInt(n, m) + k) % n == k % n
  {
    hide MulInt;
    DivMod(k, n);
    DiffInt(n, m, -(k / n));
    DiffInt(n, 0, k / n);
    DiffInt(n, 0, 0);
    UniqueRemainder(MulInt(n, m) + k, n, m + k / n, k % n);
  }
}
