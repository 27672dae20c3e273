/** Multiplication and division by names, so that proofs can use their laws one at a time. */
module Arith {

  function Mul(x: int, y: int): int {
    x * y
  }

  function Div(x: nat, y: nat): nat
    requires y > 0
  {
    x / y
  }

  function Mod(x: nat, y: nat): (m: nat)
    requires y > 0
    ensures m < y
  {
    x % y
  }

  lemma DivMod(x: nat, y: nat)
    requires y > 0
    ensures x == Mul(Div(x, y), y) + Mod(x, y)
  {
  }

  lemma Distributes(x: int, x': int, y: int)
    ensures Mul(x + x', y) == Mul(x, y) + Mul(x', y)
  {
  }

  lemma Units(y: int)
    ensures Mul(0, y) == 0 && Mul(1, y) == y && Mul(-1, y) == -y
  {
  }

  lemma Monotone(x: int, x': int, y: int)
    requires x <= x' && 0 <= y
    ensures Mul(x, y) <= Mul(x', y)
  {
    assert (x' - x) * y >= 0;
    assert x' * y == x * y + (x' - x) * y;
  }

  lemma Commutes(x: int, y: int)
    ensures Mul(x, y) == Mul(y, x)
  {
  }

  lemma Associates(x: int, y: int, z: int)
    ensures Mul(Mul(x, y), z) == Mul(x, Mul(y, z))
  {
  }

  /** Adding multiples of the modulus does not change a remainder. */
  lemma {:induction false} ModPeriodic(x: int, k: int, n: int)
    requires 0 < n
    ensures (x + Mul(k, n)) % n == x % n
  {
    var q := x / n;
    assert x == q * n + x % n;
    assert x + k * n == (q + k) * n + x % n by {
      assert (q + k) * n == q * n + k * n;
    }
    RemainderUnique(x + k * n, q + k, x % n, n);
  }

  lemma RemainderUnique(x: int, q: int, r: int, n: int)
    requires 0 <= r < n && x == q * n + r
    ensures x % n == r
  {
    var q' := x / n;
    assert x == q' * n + x % n;
    MultipleIsLarge(n, q' - q);
    MultipleIsLarge(n, q - q');
    assert n * (q' - q) == r - x % n == -(n * (q - q'));
  }

  /** A multiple of n is either not positive or at least n. */
  lemma MultipleIsLarge(n: nat, k: int)
    ensures n * k <= 0 || n * k >= n
  {
  }
}
