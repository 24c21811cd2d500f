/** Residues with a variable modulus, as used by the ring buffers. */
module Modular {

  lemma ProductBounds(d: int, n: nat)
    ensures d > 0 ==> d * n >= n
    ensures d < 0 ==> d * n <= 0 - n
    ensures d <= 0 ==> d * n <= 0
  {
    if d > 0 {
      assert d * n == (d - 1) * n + n;
      ProductSign(d - 1, n);
    } else if d < 0 {
      assert d * n == 0 - (0 - d - 1) * n - n;
      ProductSign(0 - d - 1, n);
    }
  }

  lemma ProductSign(a: nat, n: nat)
    ensures a * n >= 0
  {
  }

  lemma Unique(x: int, n: nat, q: int, r: int)
    requires n > 0 && 0 <= r < n && x == q * n + r
    ensures x % n == r && x / n == q
  {
    var d := x / n - q;
    assert x == (x / n) * n + x % n;
    assert d * n == r - x % n;
    ProductBounds(d, n);
  }

  /** Residues can be taken before or after an addition. */
  lemma AddResidue(a: int, b: int, n: nat)
    requires n > 0
    ensures (a % n + b) % n == (a + b) % n
  {
    var q := a / n;
    var c := a % n + b;
    assert a + b == q * n + c;
    assert c == (c / n) * n + c % n;
    assert q * n + (c / n) * n == (q + c / n) * n;
    Unique(a + b, n, q + c / n, c % n);
  }

  /** Residues can be taken before or after a subtraction. */
  lemma SubResidue(a: int, b: int, n: nat)
    requires n > 0
    ensures (a % n - b % n) % n == (a - b) % n
  {
    var q := b / n;
    AddResidue(a, -(b % n), n);
    assert a - b % n == q * n + (a - b);
    var c := a - b;
    assert c == (c / n) * n + c % n;
    assert q * n + (c / n) * n == (q + c / n) * n;
    Unique(a - b % n, n, q + c / n, c % n);
  }

  /** A residue modulo a multiple of n determines the residue modulo n. */
  lemma CoarseResidue(a: int, n: nat, k: nat)
    requires n > 0 && k > 0 && n * k > 0
    ensures a % (n * k) % n == a % n
  {
    var m := n * k;
    var r := a % m;
    assert a == (a / m) * m + r;
    assert (a / m) * (n * k) == ((a / m) * k) * n;
    assert r == (r / n) * n + r % n;
    assert ((a / m) * k) * n + (r / n) * n == ((a / m) * k + r / n) * n;
    Unique(a, n, (a / m) * k + r / n, r % n);
  }

  /** Within a window of n consecutive numbers residues are distinct. */
  lemma Distinct(a: int, b: int, n: nat)
    requires n > 0 && a < b < a + n
    ensures a % n != b % n
  {
    if a % n == b % n {
      assert b - a == (b / n - a / n) * n;
      ProductBounds(b / n - a / n, n);
    }
  }

  lemma Small(a: int, n: nat)
    requires 0 <= a < n
    ensures a % n == a
  {
    Unique(a, n, 0, a);
  }
}
