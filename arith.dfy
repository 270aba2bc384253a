/**
 * Small facts about integer multiplication, division and remainder, each
 * proved on its own so that the proofs using them stay linear.
 */
module Arith {

  lemma MulNonneg(x: int, y: int)
    requires x >= 0 && y >= 0
    ensures x * y >= 0
  {
  }

  /** Euclidean division is unique: quotient and remainder are determined. */
  lemma DivModUnique(x: int, a: int, q: int, r: int)
    requires a > 0 && 0 <= r < a && x == a * q + r
    ensures x / a == q && x % a == r
  {
    var q0, r0 := x / a, x % a;
    assert x == a * q0 + r0;
    var t := q - q0;
    assert a * t == r0 - r by {
      assert a * q - a * q0 == a * (q - q0);
    }
    if t >= 1 {
      MulNonneg(a, t - 1);
    } else if t <= -1 {
      MulNonneg(a, -t - 1);
    }
  }

  lemma MulMonotone(a: int, b: int, c: int)
    requires a <= b && c >= 0
    ensures a * c <= b * c
  {
    MulNonneg(b - a, c);
    assert b * c - a * c == (b - a) * c;
  }

  lemma MulModZero(a: int, b: int)
    requires a > 0
    ensures (a * b) % a == 0 && (a * b) / a == b
  {
    DivModUnique(a * b, a, b, 0);
  }

  lemma MulOne(h: int, r: int)
    requires r == 1
    ensures h * r == h && r * h == h
  {
  }

  lemma Regroup(x: int, a: int, b: int, p: int, y: int)
    requires x == a * y && y == b * p
    ensures x == (a * b) * p
  {
  }

  lemma Distribute(a: int, b: int, c: int)
    ensures a * (b + c) == a * b + a * c
  {
  }

  /** If n c = (n + 1) d then (n + 1)(c - d) = c. */
  lemma CancelStep(n: int, c: int, d: int)
    requires n * c == (n + 1) * d
    ensures (n + 1) * (c - d) == c
  {
    Distribute(n + 1, c, -d);
    assert (n + 1) * c == n * c + c;
    assert (n + 1) * (-d) == -((n + 1) * d);
  }

  /** Adding a multiple of n does not change the remainder. */
  lemma ModMultiple(y: int, q: int, n: int)
    requires n > 0
    ensures (y + n * q) % n == y % n
  {
    var q0, r0 := y / n, y % n;
    assert y + n * q == n * (q0 + q) + r0 by {
      Distribute(n, q0, q);
    }
    DivModUnique(y + n * q, n, q0 + q, r0);
  }

  /** x % n differs from x by a multiple of n. */
  lemma ModOffset(x: int, n: int)
    requires n > 0
    ensures x % n == x + n * (-(x / n))
  {
    assert n * (-(x / n)) == -(n * (x / n));
  }

  /** Shifting back by s and then forward by s, modulo n, returns a residue. */
  lemma ModShiftBack(x: int, s: int, n: int)
    requires n > 0 && 0 <= x < n
    ensures ((x - s) % n + s) % n == x
  {
    var q := -((x - s) / n);
    ModOffset(x - s, n);
    assert (x - s) % n + s == x + n * q;
    ModMultiple(x, q, n);
    DivModUnique(x, n, 0, x);
  }

  /** Shifting forward by s and then back by s, modulo n, returns a residue. */
  lemma ModShiftForth(x: int, s: int, n: int)
    requires n > 0 && 0 <= x < n
    ensures ((x + s) % n - s) % n == x
  {
    var q := -((x + s) / n);
    ModOffset(x + s, n);
    assert (x + s) % n - s == x + n * q;
    ModMultiple(x, q, n);
    DivModUnique(x, n, 0, x);
  }

  /** Two shifts modulo n add up. */
  lemma ModShiftTwice(x: int, a: int, b: int, n: int)
    requires n > 0
    ensures ((x - b) % n - a) % n == (x - (a + b)) % n
  {
    ModOffset(x - b, n);
    assert (x - b) % n - a == (x - (a + b)) + n * (-((x - b) / n));
    ModMultiple(x - (a + b), -((x - b) / n), n);
  }
}
