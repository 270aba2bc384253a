/**
 * The two lookup tables of the systems model: rooted_trees, the first
 * values of OEIS A000081 (rooted trees with n nodes), and
 * nesting_to_terms, which maps a nesting level to a number of terms.
 */
module Tables {

  /** A000081 for n = 0..9; position 0 is a placeholder. */
  const A000081: seq<int> := [0, 1, 1, 2, 4, 9, 20, 48, 115, 286]

  /** rooted_trees(n): 0 for n <= 0, 1 for n = 1, the tabulated value below 10, and -1 beyond. */
  function RootedTrees(n: int): int
  {
    if n <= 0 then 0
    else if n == 1 then 1
    else if n < |A000081| then A000081[n]
    else -1
  }

  /** nesting_to_terms: a dict lookup with -1 as the default. */
  function NestingToTerms(level: int): int
  {
    var mapping := map[1 := 1, 2 := 2, 3 := 4, 4 := 9, 5 := 18];
    if level in mapping then mapping[level] else -1
  }

  /** The sum of d a(d) over the divisors d of k up to the bound d. */
  function WeightedDivisorSum(a: seq<int>, k: nat, d: nat): int
    requires d <= k < |a|
    decreases d
  {
    if d == 0 then 0
    else WeightedDivisorSum(a, k, d - 1) + (if k % d == 0 then d * a[d] else 0)
  }

  /**
   * The standard recurrence for A000081: a(1) = 1 and
   * n a(n + 1) = sum over k = 1..n of (sum over d | k of d a(d)) a(n - k + 1).
   * Given a(0..n), this is the right-hand side for a(n + 1).
   */
  function RecurrenceSum(a: seq<int>, n: nat, k: nat): int
    requires n < |a| && k <= n
    decreases k
  {
    if k == 0 then 0
    else RecurrenceSum(a, n, k - 1) + WeightedDivisorSum(a, k, k) * a[n - k + 1]
  }

  // ---------------------------------------------------------------------------
  // Properties
  // ---------------------------------------------------------------------------

  /** rooted_trees is 0 for n <= 0, the A000081 entry (at least 1) for 1 <= n <= 9, and -1 from 10 on. */
  lemma RootedTreesRange(n: int)
    ensures n <= 0 ==> RootedTrees(n) == 0
    ensures 1 <= n <= 9 ==> RootedTrees(n) == A000081[n] >= 1
    ensures n >= 10 ==> RootedTrees(n) == -1
  {
  }

  /** The divisor sums of A000081 for k = 1..8. */
  lemma DivisorSums()
    ensures WeightedDivisorSum(A000081, 1, 1) == 1 && WeightedDivisorSum(A000081, 2, 2) == 3
    ensures WeightedDivisorSum(A000081, 3, 3) == 7 && WeightedDivisorSum(A000081, 4, 4) == 19
    ensures WeightedDivisorSum(A000081, 5, 5) == 46 && WeightedDivisorSum(A000081, 6, 6) == 129
    ensures WeightedDivisorSum(A000081, 7, 7) == 337 && WeightedDivisorSum(A000081, 8, 8) == 939
  {
    var a := A000081;
    assert WeightedDivisorSum(a, 6, 3) == 9;
    assert WeightedDivisorSum(a, 7, 3) == 1;
    assert WeightedDivisorSum(a, 8, 4) == 19;
  }

  /**
   * The tabulated values satisfy the rooted-tree recurrence
   * n a(n + 1) = RecurrenceSum(a, n, n), here for n = 1..4, so they are
   * A000081 and not merely a list.
   */
  lemma RecurrenceSmall()
    ensures 1 * RootedTrees(2) == RecurrenceSum(A000081, 1, 1) && 2 * RootedTrees(3) == RecurrenceSum(A000081, 2, 2)
    ensures 3 * RootedTrees(4) == RecurrenceSum(A000081, 3, 3) && 4 * RootedTrees(5) == RecurrenceSum(A000081, 4, 4)
  {
    DivisorSums();
  }

  /** The same recurrence for n = 5 and 6. */
  lemma RecurrenceMiddle()
    ensures 5 * RootedTrees(6) == RecurrenceSum(A000081, 5, 5) && 6 * RootedTrees(7) == RecurrenceSum(A000081, 6, 6)
  {
    DivisorSums();
    assert RecurrenceSum(A000081, 5, 4) == 54;
    assert RecurrenceSum(A000081, 6, 4) == 113;
  }

  /** The same recurrence for n = 7 and 8. */
  lemma RecurrenceLarge()
    ensures 7 * RootedTrees(8) == RecurrenceSum(A000081, 7, 7) && 8 * RootedTrees(9) == RecurrenceSum(A000081, 8, 8)
  {
    DivisorSums();
    assert RecurrenceSum(A000081, 7, 4) == 247;
    assert RecurrenceSum(A000081, 8, 4) == 570;
  }

  /** nesting_to_terms is defined on 1..5 only, where every value is positive. */
  lemma NestingToTermsDomain(level: int)
    ensures NestingToTerms(level) == -1 <==> !(1 <= level <= 5)
    ensures 1 <= level <= 5 ==> NestingToTerms(level) >= 1
  {
  }

  /**
   * Nesting levels 1 to 4 give the rooted-tree counts one node up, as the
   * table's comments say; level 5 gives 18 where A000081 has 20.
   */
  lemma NestingAgainstRootedTrees()
    ensures forall k :: 1 <= k <= 4 ==> NestingToTerms(k) == RootedTrees(k + 1)
    ensures NestingToTerms(5) == 18 && RootedTrees(6) == 20
  {
  }
}
