/**
 * Binomial coefficients and the rows of Pascal's triangle.
 *
 * `Binom` is the combinatorial definition by Pascal's rule (zero outside
 * 0 <= k <= n); `MathComb` is Python's math.comb on top of it, which rejects
 * negative arguments. `PascalRow` follows pascal_row: each row is 1, the
 * sums of adjacent entries of the previous row, and 1.
 */
module Binomial {
  import opened Arith

  /** 2^n, at least 1. */
  function Pow2(n: nat): (p: nat)
    ensures p >= 1
  {
    if n == 0 then 1 else 2 * Pow2(n - 1)
  }

  /** C(n, k): the number of k-element subsets of an n-element set. */
  function Binom(n: int, k: int): nat
    decreases n
  {
    if n < 0 || k < 0 || k > n then 0
    else if k == 0 || k == n then 1
    else Binom(n - 1, k - 1) + Binom(n - 1, k)
  }

  /** math.comb: a ValueError for a negative argument, else C(n, k) (0 when k > n). */
  datatype Comb = CombValue(value: nat) | CombError

  function MathComb(n: int, k: int): (r: Comb)
    ensures r.CombError? <==> n < 0 || k < 0
    ensures r.CombValue? ==> r.value == Binom(n, k)
  {
    if n < 0 || k < 0 then CombError else CombValue(Binom(n, k))
  }

  function Sum(s: seq<nat>): nat
  {
    if s == [] then 0 else s[0] + Sum(s[1..])
  }

  // ---------------------------------------------------------------------------
  // Binomial identities
  // ---------------------------------------------------------------------------

  /** Pascal's rule holds for every n >= 1 and every k, including the edges. */
  lemma PascalRule(n: int, k: int)
    requires n >= 1
    ensures Binom(n, k) == Binom(n - 1, k - 1) + Binom(n - 1, k)
  {
  }

  lemma {:induction false} BinomSymmetric(n: int, k: int)
    requires 0 <= k <= n
    ensures Binom(n, k) == Binom(n, n - k)
    decreases n
  {
    if 0 < k < n {
      BinomSymmetric(n - 1, k - 1);
      BinomSymmetric(n - 1, k);
    }
  }

  /** Absorption: k C(n, k) = n C(n - 1, k - 1). */
  lemma {:induction false} Absorption(n: int, k: int)
    requires n >= 1
    ensures k * Binom(n, k) == n * Binom(n - 1, k - 1)
    decreases n
  {
    if k < 0 || k > n {
    } else if k == 0 {
    } else if k == n {
    } else {
      var x, y := Binom(n - 1, k - 1), Binom(n - 1, k);
      Absorption(n - 1, k - 1);
      Absorption(n - 1, k);
      PascalRule(n - 1, k - 1);
      AbsorptionStep(n, k, x, y, Binom(n - 2, k - 2), Binom(n - 2, k - 1));
    }
  }

  /**
   * The arithmetic of one absorption step: with x = u + v, (k - 1) x = (n - 1) u
   * and k y = (n - 1) v, k (x + y) = n x.
   */
  lemma AbsorptionStep(n: int, k: int, x: int, y: int, u: int, v: int)
    requires x == u + v && (k - 1) * x == (n - 1) * u && k * y == (n - 1) * v
    ensures k * (x + y) == n * x
  {
    Distribute(k, x, y);
    assert k * x == (k - 1) * x + x;
    Distribute(n - 1, u, v);
    assert (n - 1) * x + x == n * x;
  }

  /** The companion absorption: (n - j) C(n, j) = n C(n - 1, j). */
  lemma AbsorptionLow(n: int, j: int)
    requires n >= 1 && 0 <= j <= n
    ensures (n - j) * Binom(n, j) == n * Binom(n - 1, j)
  {
    if j < n {
      BinomSymmetric(n, j);
      Absorption(n, n - j);
      BinomSymmetric(n - 1, j);
    }
  }

  // ---------------------------------------------------------------------------
  // Pascal rows
  // ---------------------------------------------------------------------------

  /** The sums of adjacent entries. */
  function Adjacent(p: seq<nat>): (r: seq<nat>)
    ensures |p| >= 1 ==> |r| == |p| - 1
  {
    if |p| < 1 then [] else seq(|p| - 1, i requires 0 <= i < |p| - 1 => p[i] + p[i + 1])
  }

  /** pascal_row(n): (1,) for n = 0, else 1, the adjacent sums of row n - 1, and 1. */
  function PascalRow(n: nat): (row: seq<nat>)
    ensures |row| == n + 1
  {
    if n == 0 then [1] else [1] + Adjacent(PascalRow(n - 1)) + [1]
  }

  /** Row n lists C(n, 0), ..., C(n, n). */
  lemma {:induction false} PascalRowBinom(n: nat)
    ensures forall k :: 0 <= k <= n ==> PascalRow(n)[k] == Binom(n, k)
  {
    if n > 0 {
      PascalRowBinom(n - 1);
      var prev := PascalRow(n - 1);
      var row := PascalRow(n);
      forall k | 0 <= k <= n
        ensures row[k] == Binom(n, k)
      {
        if 0 < k < n {
          assert row[k] == Adjacent(prev)[k - 1] == prev[k - 1] + prev[k];
        }
      }
    }
  }

  /** Each row starts and ends with 1, reads the same backwards, and its interior obeys Pascal's rule. */
  lemma PascalRowShape(n: nat)
    ensures PascalRow(n)[0] == 1 && PascalRow(n)[n] == 1
    ensures forall k :: 0 <= k <= n ==> PascalRow(n)[k] == PascalRow(n)[n - k]
    ensures n >= 1 ==> forall k :: 0 < k < n ==>
      PascalRow(n)[k] == PascalRow(n - 1)[k - 1] + PascalRow(n - 1)[k]
  {
    PascalRowBinom(n);
    forall k | 0 <= k <= n
      ensures PascalRow(n)[k] == PascalRow(n)[n - k]
    {
      BinomSymmetric(n, k);
    }
    if n >= 1 {
      PascalRowBinom(n - 1);
    }
  }

  lemma SumAppend(a: seq<nat>, b: seq<nat>)
    ensures Sum(a + b) == Sum(a) + Sum(b)
  {
    if a == [] {
      assert a + b == b;
    } else {
      assert (a + b)[1..] == a[1..] + b;
      SumAppend(a[1..], b);
    }
  }

  lemma AdjacentCons(p: seq<nat>)
    requires |p| >= 2
    ensures Adjacent(p) == [p[0] + p[1]] + Adjacent(p[1..])
  {
    var q := p[1..];
    var r := [p[0] + p[1]] + Adjacent(q);
    assert |r| == |Adjacent(p)|;
    forall i | 0 <= i < |r|
      ensures r[i] == Adjacent(p)[i]
    {
      if i > 0 {
        assert r[i] == Adjacent(q)[i - 1] == q[i - 1] + q[i];
      }
    }
  }

  /** Each entry but the two ends is counted twice in the adjacent sums. */
  lemma {:induction false} AdjacentSum(p: seq<nat>)
    requires |p| >= 1
    ensures Sum(Adjacent(p)) + p[0] + p[|p| - 1] == 2 * Sum(p)
  {
    if |p| == 1 {
      assert p[1..] == [];
    } else {
      var q := p[1..];
      AdjacentSum(q);
      AdjacentCons(p);
      var a := Adjacent(p);
      assert a[1..] == Adjacent(q);
      assert Sum(a) == p[0] + p[1] + Sum(Adjacent(q));
    }
  }

  /** Row n sums to 2^n. */
  lemma {:induction false} PascalRowSum(n: nat)
    ensures Sum(PascalRow(n)) == Pow2(n)
  {
    if n > 0 {
      var prev := PascalRow(n - 1);
      PascalRowSum(n - 1);
      PascalRowShape(n - 1);
      AdjacentSum(prev);
      SumAppend([1] + Adjacent(prev), [1]);
      SumAppend([1], Adjacent(prev));
    }
  }

  /** The sum of C(n, k) over k = 0..n is 2^n. */
  lemma BinomRowSum(n: nat)
    ensures Sum(seq(n + 1, k => Binom(n, k))) == Pow2(n)
  {
    PascalRowBinom(n);
    assert PascalRow(n) == seq(n + 1, k => Binom(n, k));
    PascalRowSum(n);
  }

  /** A row that starts and ends with 1 and adds adjacent entries of row n - 1 in between is row n. */
  lemma PascalRowFrom(n: nat, row: seq<nat>)
    requires n >= 1 && |row| == n + 1 && row[0] == 1 && row[n] == 1
    requires forall k :: 0 < k < n ==> row[k] == PascalRow(n - 1)[k - 1] + PascalRow(n - 1)[k]
    ensures PascalRow(n) == row
  {
    var r := PascalRow(n);
    forall k | 0 <= k <= n
      ensures r[k] == row[k]
    {
      if 0 < k < n {
        assert r[k] == Adjacent(PascalRow(n - 1))[k - 1];
      }
    }
    assert |r| == |row|;
  }

  /** Rows 0 to 5, as drawn in the geometric progression figure. */
  lemma FirstRows()
    ensures PascalRow(0) == [1] && PascalRow(1) == [1, 1] && PascalRow(2) == [1, 2, 1]
    ensures PascalRow(3) == [1, 3, 3, 1] && PascalRow(4) == [1, 4, 6, 4, 1]
    ensures PascalRow(5) == [1, 5, 10, 10, 5, 1]
  {
    PascalRowFrom(1, [1, 1]);
    PascalRowFrom(2, [1, 2, 1]);
    PascalRowFrom(3, [1, 3, 3, 1]);
    PascalRowFrom(4, [1, 4, 6, 4, 1]);
    PascalRowFrom(5, [1, 5, 10, 10, 5, 1]);
  }

  /** The central coefficients C(2n, n) for n <= 5, each from the previous column by absorption. */
  lemma CentralValues()
    ensures Binom(2, 1) == 2 && Binom(4, 2) == 6 && Binom(6, 3) == 20
    ensures Binom(8, 4) == 70 && Binom(10, 5) == 252
  {
    Absorption(6, 1);
    Absorption(7, 2);
    Absorption(8, 3);
    Absorption(9, 4);
    Absorption(10, 5);
    Absorption(4, 1);
    Absorption(5, 2);
    Absorption(6, 3);
    Absorption(7, 3);
    Absorption(8, 4);
    Absorption(2, 1);
    Absorption(3, 1);
    Absorption(4, 2);
  }
}
