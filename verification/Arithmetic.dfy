/** Minimum and maximum, and division with remainder by a divisor that is not a constant. */
module Arithmetic {
  function Min(a: nat, b: nat): nat { if a < b then a else b }

  function Max(a: nat, b: nat): nat { if a < b then b else a }

  function Mod(x: nat, n: nat): (r: nat)
    requires n > 0
    ensures r < n
  {
    x % n
  }

  lemma ModWrap(a: nat, k: nat, n: nat)
    requires 0 < n
    ensures (a + k) % n == if a % n + k % n < n then a % n + k % n else a % n + k % n - n
  {
    var q := a / n + k / n;
    assert a + k == q * n + (a % n + k % n) by {
      assert a == a / n * n + a % n && k == k / n * n + k % n;
      assert q * n == a / n * n + k / n * n;
    }
    ModUnique(a + k, q, a % n + k % n, n);
  }

  lemma ModUnique(x: nat, q: nat, r: nat, n: nat)
    requires 0 < n && x == q * n + r && r < 2 * n
    ensures x % n == if r < n then r else r - n
  {
    if r < n {
      assert x / n == q by { DivIs(x, q, r, n); }
    } else {
      assert (q + 1) * n == q * n + n;
      DivIs(x, q + 1, r - n, n);
    }
  }

  lemma Successor(x: nat, n: nat)
    requires 0 < n
    ensures (x + 1) % n == if x % n + 1 < n then x % n + 1 else 0
  {
    assert x + 1 == x / n * n + (x % n + 1);
    ModUnique(x + 1, x / n, x % n + 1, n);
  }

  lemma DivIs(x: nat, q: nat, r: nat, n: nat)
    requires 0 < n && x == q * n + r && r < n
    ensures x / n == q && x % n == r
  {
    var e := x / n - q;
    assert x == x / n * n + x % n;
    assert e * n == r - x % n;
    assert (e >= 1 ==> e * n >= n) && (e <= -1 ==> e * n <= -(n as int));
  }

  /** A remainder that takes at most one subtraction. */
  lemma Reduced(x: nat, n: nat)
    requires 0 < n && x < 2 * n
    ensures Mod(x, n) == if x < n then x else x - n
  {
    if x < n { DivIs(x, 0, x, n); } else { DivIs(x, 1, x - n, n); }
  }
}
