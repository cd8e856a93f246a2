/** Facts about Dafny's Euclidean division and remainder (`/` and `%` on
    `int`, with a positive divisor) that the JavaScript remainder and the
    rotation are proved from. */
module Arithmetic {

  function Abs(x: int): nat
  {
    if x < 0 then -x else x
  }

  /** Taking away what division by `n` leaves behind gives a multiple of `n`. */
  lemma DropRemainder(x: int, n: nat)
    requires n > 0
    ensures (x - x % n) % n == 0
  {
    assert x - x % n == n * (x / n);
    MultipleMod(x / n, n);
  }

  /** Dividing `a` into `n`-sized steps: what `-a` leaves behind, negated, is
      what `a` leaves behind. */
  lemma NegRemainder(a: int, n: nat)
    requires n > 0 && a < 0
    ensures (a + (-a) % n) % n == 0
  {
    var q := (-a) / n;
    assert -a == n * q + (-a) % n;
    assert a + (-a) % n == n * (-q);
    MultipleMod(-q, n);
  }

  lemma MultipleMod(q: int, n: nat)
    requires n > 0
    ensures (n * q) % n == 0
  {
    ModUnique(n * q, n, q, 0);
  }

  /** Euclidean division has one quotient and one remainder. */
  lemma ModUnique(x: int, n: nat, q: int, r: int)
    requires n > 0 && 0 <= r < n && x == n * q + r
    ensures x % n == r && x / n == q
  {
    var q', r' := x / n, x % n;
    assert x == n * q' + r';
    QuotientsAgree(n, q, r, q', r');
  }

  /** Two ways of writing one number as `n * q + r` with `0 <= r < n`
      have the same quotient. */
  lemma QuotientsAgree(n: int, q: int, r: int, q': int, r': int)
    requires n > 0 && 0 <= r < n && 0 <= r' < n
    requires n * q + r == n * q' + r'
    ensures q == q'
  {
    if q > q' {
      MulAtLeast(n, q - q');
    } else if q < q' {
      MulAtLeast(n, q' - q);
    }
  }

  lemma {:induction false} MulAtLeast(n: int, d: int)
    requires n > 0 && d >= 1
    ensures n * d >= n
    decreases d
  {
    if d > 1 {
      MulAtLeast(n, d - 1);
      assert n * d == n * (d - 1) + n;
    }
  }

  /** Two multiples of `n` that are less than `n` apart are equal. */
  lemma SameResidue(n: nat, x: int, y: int)
    requires n > 0 && x % n == 0 && y % n == 0 && x - y < n && y - x < n
    ensures x == y
  {
    var q, p := x / n, y / n;
    assert x == n * q;
    assert y == n * p;
    if x < y {
      QuotientsAgree(n, q, y - x, p, 0);
    } else if y < x {
      QuotientsAgree(n, p, x - y, q, 0);
    }
  }

  /** Reducing either summand first does not change the sum's modulus. */
  lemma ModAddLeft(x: int, y: int, n: nat)
    requires n > 0
    ensures (x % n + y) % n == (x + y) % n
  {
    var q, p := x / n, (x % n + y) / n;
    assert x == n * q + x % n;
    assert x % n + y == n * p + (x % n + y) % n;
    assert x + y == n * (q + p) + (x % n + y) % n;
    ModUnique(x + y, n, q + p, (x % n + y) % n);
  }
}
