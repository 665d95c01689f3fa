/** Facts of integer arithmetic that the solver needs to be shown. */
module Arith {

  lemma MulOrder(a: int, b: int, n: int)
    requires a <= b && n >= 0
    ensures a * n <= b * n
  {
  }

  lemma MulLess(a: int, b: int, n: int)
    requires a * n < b * n && n >= 0
    ensures a < b
  {
  }

  lemma MulDist(a: int, b: int, n: int)
    ensures (a + b) * n == a * n + b * n
    ensures (a - b) * n == a * n - b * n
  {
  }

  lemma MulAssoc(a: int, b: int, c: int)
    ensures (a * b) * c == a * (b * c)
  {
  }

  lemma DivModUnique(a: int, q: int, r: int, n: int)
    requires n > 0 && a == q * n + r && 0 <= r < n
    ensures a / n == q && a % n == r
  {
    var d, m := a / n, a % n;
    MulDist(d, q, n);
    if d >= q + 1 {
      MulOrder(1, d - q, n);
    } else if d <= q - 1 {
      MulOrder(d - q, -1, n);
    }
  }

  lemma ModAdd(a: int, q: int, n: int)
    requires n > 0
    ensures (a + q * n) % n == a % n
  {
    MulDist(a / n, q, n);
    DivModUnique(a + q * n, a / n + q, a % n, n);
  }

  /** Equal remainders differ by a multiple. */
  lemma ModEqual(a: int, b: int, n: int) returns (q: int)
    requires n > 0 && a % n == b % n
    ensures a - b == q * n
  {
    q := a / n - b / n;
    MulDist(a / n, b / n, n);
  }

  lemma ModSum(x: int, y: int, n: int)
    requires n > 0
    ensures (x % n + y % n) % n == (x + y) % n
  {
    var q := x / n + y / n;
    MulDist(x / n, y / n, n);
    assert x + y == (x % n + y % n) + q * n;
    ModAdd(x % n + y % n, q, n);
  }

  lemma MulCommutes(x: int, y: int)
    ensures x * y == y * x
  {
  }

  lemma ProductBound(x: int, y: int, a: int, b: int)
    requires 0 <= x <= a && 0 <= y <= b
    ensures 0 <= x * y <= a * b
  {
    MulOrder(0, x, y);
    MulOrder(x, a, y);
    MulCommutes(a, y);
    MulOrder(y, b, a);
    MulCommutes(a, b);
  }

  lemma ModMul(x: int, y: int, n: int)
    requires n > 0
    ensures Mod(Mod(x, n) * y, n) == Mod(x * y, n)
  {
    ScaledMod(x, x / n, Mod(x, n), y, n);
  }

  lemma ScaledMod(x: int, q: int, r: int, y: int, n: int)
    requires n > 0 && x == q * n + r
    ensures Mod(r * y, n) == Mod(x * y, n)
  {
    MulDist(q * n, r, y);
    MulAssoc(q, n, y);
    MulCommutes(n, y);
    MulAssoc(q, y, n);
    ModAdd(r * y, q * y, n);
  }

  lemma QuotLess(x: nat, n: nat)
    requires n > 0
    ensures 0 <= x / n <= x
  {
    MulOrder(1, n, x / n);
    MulCommutes(n, x / n);
  }

  /** Shifting a digit of base b by multiplying with p, where p q = b: its high bits leave. */
  lemma ShiftDigit(temp: nat, p: nat, q: nat, b: nat)
    requires p > 0 && q > 0 && p * q == b && temp < b
    ensures temp * p % b + temp / q * b == temp * p && temp / q < p
    ensures temp * p % b == temp % q * p && temp * p % b + p <= b
  {
    var next, r := temp / q, temp % q;
    MulDist(next * q, r, p);
    MulAssoc(next, q, p);
    MulCommutes(q, p);
    MulOrder(r + 1, q, p);
    MulDist(r, 1, p);
    MulOrder(0, r, p);
    DivModUnique(temp * p, next, r * p, b);
    MulLess(next, p, q);
  }

  lemma ShiftPlace(low: int, x: int, p: int, place: int)
    ensures (low + x * place) * p == low * p + (x * p) * place
  {
    MulDist(low, x * place, p);
    MulAssoc(x, place, p);
    MulCommutes(place, p);
    MulAssoc(x, p, place);
  }

  /** The remainder, as a function whose definition can be left folded. */
  function Mod(x: int, n: int): (r: int)
    requires n > 0
    ensures 0 <= r < n && (x >= 0 ==> r <= x)
  {
    x % n
  }

  /** The quotient, likewise. */
  function Quot(x: nat, n: nat): (r: nat)
    requires n > 0
  {
    x / n
  }

  lemma QuotMod(x: nat, n: nat)
    requires n > 0
    ensures Quot(x, n) * n + Mod(x, n) == x
  {
  }
}
